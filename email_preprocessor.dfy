/** The list and string steps of `PhishingEmailPreprocessor` (run.py):
    whitespace normalisation of one cell, the longest-row loop and padding
    of `encode_and_pad` over already tokenised rows, and the three-way
    slicing of `random_split` over an already shuffled frame. */
module EmailPreprocessor {
  import opened Wrappers

  /** `self.pad_token_id`, GPT-2's end-of-text token. */
  const PAD_TOKEN_ID: int := 50256

  /** A cell of the "Email Text" column: a `str` or anything else (a float
      `NaN`, a number). */
  datatype Cell = Str(s: string) | NotStr

  /** The characters Python treats as whitespace, both for `\s` in a `str`
      pattern and for `str.strip()` / `str.split()` without arguments. */
  predicate IsSpace(c: char) {
    c == ' ' || ('\t' <= c <= '\r') || ('\U{1C}' <= c <= '\U{1F}')
    || c == '\U{85}' || c == '\U{A0}' || c == '\U{1680}'
    || ('\U{2000}' <= c <= '\U{200A}') || c == '\U{2028}' || c == '\U{2029}'
    || c == '\U{202F}' || c == '\U{205F}' || c == '\U{3000}'
  }

  // ---------------------------------------------------------------------
  // str.lstrip / str.rstrip / str.strip

  /** `s.lstrip()`: the longest suffix of `s` that does not start with
      whitespace; everything removed is whitespace. */
  function LStrip(s: string): (r: string)
    ensures |r| <= |s| && r == s[|s| - |r|..]
    ensures |r| == 0 || !IsSpace(r[0])
    ensures forall i :: 0 <= i < |s| - |r| ==> IsSpace(s[i])
  {
    if |s| == 0 || !IsSpace(s[0]) then s else LStrip(s[1..])
  }

  /** `s.rstrip()`: the longest prefix of `s` that does not end with
      whitespace; everything removed is whitespace. */
  function RStrip(s: string): (r: string)
    ensures |r| <= |s| && r == s[..|r|]
    ensures |r| == 0 || !IsSpace(r[|r| - 1])
    ensures forall i :: |r| <= i < |s| ==> IsSpace(s[i])
  {
    if |s| == 0 || !IsSpace(s[|s| - 1]) then s else RStrip(s[..|s| - 1])
  }

  /** `s.strip()`. */
  function Strip(s: string): string {
    RStrip(LStrip(s))
  }

  // ---------------------------------------------------------------------
  // re.sub(r"\s+", " ", s)

  /** `re.sub(r"\s+", " ", s)`: scanning left to right, each maximal run of
      whitespace (the greedy match of `\s+`) is replaced by one space. */
  function SubWhitespace(s: string): (r: string)
    ensures |r| <= |s|
    ensures |r| == 0 <==> |s| == 0
    ensures |s| > 0 && !IsSpace(s[0]) ==> r[0] == s[0]
    decreases |s|
  {
    if |s| == 0 then ""
    else if IsSpace(s[0]) then " " + SubWhitespace(LStrip(s))
    else [s[0]] + SubWhitespace(s[1..])
  }

  /** `normalize_whitespace`: `""` for a value that is not a `str`,
      otherwise the whitespace runs collapsed and the ends stripped. */
  function NormalizeWhitespace(text: Cell): (r: string)
    ensures text.NotStr? ==> r == ""
    ensures text.Str? ==> r == JoinWords(Words(text.s))
    ensures text.Str? ==> Words(r) == Words(text.s)
    ensures Clean(r)
  {
    match text
    case NotStr => ""
    case Str(s) =>
      StripSubIsJoinSplit(s);
      JoinClean(Words(s));
      WordsJoin(Words(s));
      Strip(SubWhitespace(s))
  }

  // ---------------------------------------------------------------------
  // The reference definition: " ".join(s.split())

  /** A piece `str.split()` can return: non-empty, without whitespace. */
  predicate IsWord(w: string) {
    |w| > 0 && forall i :: 0 <= i < |w| ==> !IsSpace(w[i])
  }

  /** The longest prefix of `s` without whitespace. */
  function WordPrefix(s: string): (w: string)
    ensures |w| <= |s| && w == s[..|w|]
    ensures forall i :: 0 <= i < |w| ==> !IsSpace(w[i])
    ensures |w| == |s| || IsSpace(s[|w|])
  {
    if |s| == 0 || IsSpace(s[0]) then "" else [s[0]] + WordPrefix(s[1..])
  }

  /** `s.split()`: the maximal runs of non-whitespace, in order. */
  function Words(s: string): (ws: seq<string>)
    ensures forall i :: 0 <= i < |ws| ==> IsWord(ws[i])
    decreases |s|
  {
    if |s| == 0 then []
    else if IsSpace(s[0]) then Words(s[1..])
    else
      var w := WordPrefix(s);
      [w] + Words(s[|w|..])
  }

  /** `" ".join(ws)`. */
  function JoinWords(ws: seq<string>): string {
    if |ws| == 0 then ""
    else if |ws| == 1 then ws[0]
    else ws[0] + " " + JoinWords(ws[1..])
  }

  /** No whitespace at either end. */
  predicate Trimmed(t: string) {
    |t| == 0 || (!IsSpace(t[0]) && !IsSpace(t[|t| - 1]))
  }

  /** No two whitespace characters in a row. */
  predicate NoRuns(t: string) {
    forall i :: 0 <= i < |t| - 1 && IsSpace(t[i]) ==> !IsSpace(t[i + 1])
  }

  /** The only whitespace character left is the plain space. */
  predicate OnlyBlanks(t: string) {
    forall i :: 0 <= i < |t| && IsSpace(t[i]) ==> t[i] == ' '
  }

  /** What `normalize_whitespace` promises about its output. */
  predicate Clean(t: string) {
    Trimmed(t) && NoRuns(t) && OnlyBlanks(t)
  }

  // ---------------------------------------------------------------------
  // Lemmas

  /** The substitution copies a whitespace-free prefix unchanged. */
  lemma {:induction false} SubWhitespaceWord(s: string)
    ensures SubWhitespace(s) == WordPrefix(s) + SubWhitespace(s[|WordPrefix(s)|..])
    decreases |s|
  {
    if |s| > 0 && !IsSpace(s[0]) {
      SubWhitespaceWord(s[1..]);
      SubWhitespaceWordStep(s);
    } else {
      var w := WordPrefix(s);
      assert w == "" && s[|w|..] == s;
      assert w + SubWhitespace(s) == SubWhitespace(s);
    }
  }

  /** One character of the copied prefix. */
  lemma SubWhitespaceWordStep(s: string)
    requires |s| > 0 && !IsSpace(s[0])
    requires SubWhitespace(s[1..]) == WordPrefix(s[1..]) + SubWhitespace(s[1..][|WordPrefix(s[1..])|..])
    ensures SubWhitespace(s) == WordPrefix(s) + SubWhitespace(s[|WordPrefix(s)|..])
  {
    var t := s[1..];
    var w' := WordPrefix(t);
    var rest := t[|w'|..];
    assert WordPrefix(s) == [s[0]] + w';
    assert s[|WordPrefix(s)|..] == rest;
    assert SubWhitespace(s) == [s[0]] + SubWhitespace(t);
    ConcatAssoc([s[0]], w', SubWhitespace(rest));
  }
  /** Leading whitespace does not change the words. */
  lemma {:induction false} WordsLStrip(s: string)
    ensures Words(s) == Words(LStrip(s))
    decreases |s|
  {
    if |s| > 0 && IsSpace(s[0]) {
      WordsLStrip(s[1..]);
    }
  }

  /** Trailing whitespace is stripped from the end only, as long as the
      front part is followed by a non-whitespace character. */
  lemma {:induction false} RStripAppend(a: string, b: string)
    requires |b| > 0 && !IsSpace(b[0])
    ensures RStrip(a + b) == a + RStrip(b)
    decreases |b|
  {
    if IsSpace(b[|b| - 1]) {
      assert (a + b)[..|a + b| - 1] == a + b[..|b| - 1];
      RStripAppend(a, b[..|b| - 1]);
    }
  }

  lemma RStripWordSpace(w: string)
    requires IsWord(w)
    ensures RStrip(w) == w && RStrip(w + " ") == w
  {
    assert (w + " ")[..|w|] == w;
  }

  lemma JoinCons(w: string, ws: seq<string>)
    requires |ws| > 0
    ensures JoinWords([w] + ws) == w + " " + JoinWords(ws)
  {
    assert ([w] + ws)[1..] == ws;
  }

  /** A string that starts with a word: the substitution copies the word,
      and the word is the first piece of the split. */
  lemma AfterWord(s: string)
    requires |s| > 0 && !IsSpace(s[0])
    ensures IsWord(WordPrefix(s))
    ensures SubWhitespace(s) == WordPrefix(s) + SubWhitespace(s[|WordPrefix(s)|..])
    ensures Words(s) == [WordPrefix(s)] + Words(s[|WordPrefix(s)|..])
  {
    SubWhitespaceWord(s);
  }

  /** A string that starts with whitespace: the run becomes one space and
      the split skips it. */
  lemma AfterRun(s: string)
    requires |s| > 0 && IsSpace(s[0])
    ensures SubWhitespace(s) == " " + SubWhitespace(LStrip(s))
    ensures Words(s) == Words(LStrip(s))
  {
    WordsLStrip(s);
  }

  lemma RStripJoinStep(w: string, x: string, ws: seq<string>)
    requires IsWord(w) && |x| > 0 && !IsSpace(x[0]) && |ws| > 0
    requires RStrip(x) == JoinWords(ws)
    ensures RStrip(w + (" " + x)) == JoinWords([w] + ws)
  {
    assert w + (" " + x) == (w + " ") + x;
    RStripAppend(w + " ", x);
    JoinCons(w, ws);
  }

  /** For a string that does not start with whitespace, collapsing the runs
      and stripping the end gives the words joined by single spaces. */
  lemma {:induction false} SubThenRStrip(s: string)
    requires |s| == 0 || !IsSpace(s[0])
    ensures RStrip(SubWhitespace(s)) == JoinWords(Words(s))
    decreases |s|
  {
    if |s| > 0 {
      var w := WordPrefix(s);
      var rest := s[|w|..];
      AfterWord(s);
      RStripWordSpace(w);
      if |rest| == 0 {
        assert SubWhitespace(s) == w + "" == w;
        assert Words(s) == [w];
      } else {
        var r2 := LStrip(rest);
        AfterRun(rest);
        if |r2| == 0 {
          assert SubWhitespace(s) == w + " ";
          assert Words(s) == [w];
        } else {
          SubThenRStrip(r2);
          assert |Words(r2)| > 0;
          RStripJoinStep(w, SubWhitespace(r2), Words(r2));
        }
      }
    }
  }

  /** `normalize_whitespace(s)` is `" ".join(s.split())` for every string. */
  lemma StripSubIsJoinSplit(s: string)
    ensures Strip(SubWhitespace(s)) == JoinWords(Words(s))
  {
    if |s| == 0 || !IsSpace(s[0]) {
      SubThenRStrip(s);
    } else {
      var t := LStrip(s);
      assert SubWhitespace(s) == " " + SubWhitespace(t);
      assert LStrip(SubWhitespace(s)) == SubWhitespace(t);
      SubThenRStrip(t);
      WordsLStrip(s);
    }
  }

  lemma {:induction false} WordPrefixOf(w: string, rest: string)
    requires forall i :: 0 <= i < |w| ==> !IsSpace(w[i])
    requires |rest| == 0 || IsSpace(rest[0])
    ensures WordPrefix(w + rest) == w
    decreases |w|
  {
    if |w| > 0 {
      assert (w + rest)[1..] == w[1..] + rest;
      WordPrefixOf(w[1..], rest);
    }
  }

  /** Splitting the joined words gives them back. */
  lemma {:induction false} WordsJoin(ws: seq<string>)
    requires forall i :: 0 <= i < |ws| ==> IsWord(ws[i])
    ensures Words(JoinWords(ws)) == ws
    decreases |ws|
  {
    if |ws| == 1 {
      WordPrefixOf(ws[0], "");
      assert ws[0] + "" == ws[0];
    } else if |ws| > 1 {
      var w, tail := ws[0], JoinWords(ws[1..]);
      assert JoinWords(ws) == w + (" " + tail);
      WordPrefixOf(w, " " + tail);
      assert (w + (" " + tail))[|w|..] == " " + tail;
      assert (" " + tail)[1..] == tail;
      WordsJoin(ws[1..]);
      assert ws == [w] + ws[1..];
    }
  }

  /** Words joined by single spaces form a clean string that starts and
      ends with a word character. */
  lemma {:induction false} JoinClean(ws: seq<string>)
    requires forall i :: 0 <= i < |ws| ==> IsWord(ws[i])
    ensures Clean(JoinWords(ws))
    ensures |ws| > 0 ==> |JoinWords(ws)| > 0
    decreases |ws|
  {
    if |ws| > 1 {
      var w, tail := ws[0], JoinWords(ws[1..]);
      JoinClean(ws[1..]);
      var t := w + " " + tail;
      assert JoinWords(ws) == t;
      forall i | 0 <= i < |t| && IsSpace(t[i])
        ensures t[i] == ' ' && 0 < i < |t| - 1 && !IsSpace(t[i + 1])
      {
        if i > |w| {
          assert t[i] == tail[i - |w| - 1];
          assert i - |w| - 1 < |tail| - 1;
          assert t[i + 1] == tail[i - |w|];
        } else {
          assert i == |w|;
          assert t[i + 1] == tail[0];
        }
      }
    }
  }

  /** Applying `normalize_whitespace` twice equals applying it once. */
  lemma NormalizeIdempotent(text: Cell)
    ensures NormalizeWhitespace(Str(NormalizeWhitespace(text))) == NormalizeWhitespace(text)
  {
  }

  /** A clean string is made of its words joined by single spaces. */
  lemma {:induction false} CleanIsJoinedWords(t: string)
    requires Clean(t)
    ensures JoinWords(Words(t)) == t
    decreases |t|
  {
    if |t| > 0 {
      var w := WordPrefix(t);
      var rest := t[|w|..];
      assert Words(t) == [w] + Words(rest);
      if |rest| == 0 {
        assert w == t;
      } else {
        assert t[|w|] == rest[0] && IsSpace(rest[0]);
        assert |w| < |t| - 1;
        assert rest[0] == ' ' && !IsSpace(rest[1]);
        var t2 := rest[1..];
        assert t2 == t[|w| + 1..];
        assert Clean(t2) by {
          forall i | 0 <= i < |t2| && IsSpace(t2[i])
            ensures t2[i] == ' ' && (i < |t2| - 1 ==> !IsSpace(t2[i + 1]))
          {
            assert t2[i] == t[i + |w| + 1];
            if i < |t2| - 1 {
              assert t2[i + 1] == t[i + |w| + 2];
            }
          }
          assert t2[|t2| - 1] == t[|t| - 1];
        }
        CleanIsJoinedWords(t2);
        assert Words(rest) == Words(t2);
        assert |Words(t2)| > 0;
        JoinCons(w, Words(t2));
        assert w + " " + t2 == t;
      }
    }
  }

  /** A string is left unchanged by `normalize_whitespace` exactly when it
      is clean. */
  lemma FixpointIffClean(t: string)
    ensures NormalizeWhitespace(Str(t)) == t <==> Clean(t)
  {
    if Clean(t) {
      CleanIsJoinedWords(t);
    }
  }

  /** A value that is not a string normalises to the empty string. */
  lemma NonStringIsEmpty()
    ensures NormalizeWhitespace(NotStr) == ""
    ensures forall s :: NormalizeWhitespace(Str(s)) == "" <==> Words(s) == []
  {
    forall s ensures NormalizeWhitespace(Str(s)) == "" <==> Words(s) == [] {
      JoinClean(Words(s));
    }
  }

  // ---------------------------------------------------------------------
  // encode_and_pad

  function Max(a: nat, b: nat): nat {
    if a < b then b else a
  }

  /** The length of the longest row, 0 when there are none. */
  function Longest(rows: seq<seq<int>>): (m: nat)
    ensures forall i :: 0 <= i < |rows| ==> |rows[i]| <= m
    ensures |rows| == 0 ==> m == 0
    ensures |rows| > 0 ==> exists i :: 0 <= i < |rows| && |rows[i]| == m
  {
    if |rows| == 0 then 0
    else
      var init := rows[..|rows| - 1];
      assert forall i :: 0 <= i < |init| ==> init[i] == rows[i];
      Max(Longest(init), |rows[|rows| - 1]|)
  }

  /** A bound every row meets and some row reaches is the longest length. */
  lemma LongestUnique(rows: seq<seq<int>>, m: nat)
    requires forall i :: 0 <= i < |rows| ==> |rows[i]| <= m
    requires (|rows| == 0 && m == 0) || exists i :: 0 <= i < |rows| && |rows[i]| == m
    ensures Longest(rows) == m
  {
  }

  /** The loop of `encode_and_pad` that finds `max_length`. */
  method MaxLength(encodedTexts: seq<seq<int>>) returns (maxLength: nat)
    ensures maxLength == Longest(encodedTexts)
    ensures forall i :: 0 <= i < |encodedTexts| ==> |encodedTexts[i]| <= maxLength
    ensures |encodedTexts| == 0 ==> maxLength == 0
  {
    maxLength := 0;
    for k := 0 to |encodedTexts|
      invariant maxLength == Longest(encodedTexts[..k])
    {
      assert encodedTexts[..k + 1][..k] == encodedTexts[..k];
      var encodedLength := |encodedTexts[k]|;
      if encodedLength > maxLength {
        maxLength := encodedLength;
      }
    }
    assert encodedTexts[..|encodedTexts|] == encodedTexts;
  }

  /** `[x] * n`: `n` copies of `x`, none when `n` is not positive. */
  function Repeat(x: int, n: int): (r: seq<int>)
    ensures |r| == (if n > 0 then n else 0)
    ensures forall i :: 0 <= i < |r| ==> r[i] == x
  {
    if n <= 0 then [] else Repeat(x, n - 1) + [x]
  }

  /** One padded row: `encoded_text + [pad_token_id] * (max_length - len(encoded_text))`. */
  function PadRow(row: seq<int>, maxLength: nat): (r: seq<int>)
    ensures |r| == Max(|row|, maxLength)
    ensures r[..|row|] == row
    ensures forall j :: |row| <= j < |r| ==> r[j] == PAD_TOKEN_ID
  {
    row + Repeat(PAD_TOKEN_ID, maxLength - |row|)
  }

  /** Every row padded to the longest one. */
  function PadAll(rows: seq<seq<int>>): (padded: seq<seq<int>>)
    ensures |padded| == |rows|
    ensures forall i :: 0 <= i < |padded| ==> |padded[i]| == Longest(rows)
    ensures forall i :: 0 <= i < |padded| ==> |rows[i]| <= |padded[i]| && padded[i][..|rows[i]|] == rows[i]
    ensures forall i, j :: 0 <= i < |padded| && |rows[i]| <= j < |padded[i]| ==> padded[i][j] == PAD_TOKEN_ID
  {
    seq(|rows|, i requires 0 <= i < |rows| => PadRow(rows[i], Longest(rows)))
  }

  /** `encode_and_pad` on rows that are already tokenised: the same rows in
      the same order, each extended with pad tokens to the longest length. */
  method EncodeAndPad(encodedTexts: seq<seq<int>>) returns (padded: seq<seq<int>>)
    ensures padded == PadAll(encodedTexts)
  {
    var maxLength := MaxLength(encodedTexts);
    padded := seq(|encodedTexts|, i requires 0 <= i < |encodedTexts| =>
      PadRow(encodedTexts[i], maxLength));
  }

  /** A row that already has the longest length is left as it is. */
  lemma FullRowUnchanged(row: seq<int>, maxLength: nat)
    requires |row| >= maxLength
    ensures PadRow(row, maxLength) == row
  {
    assert PadRow(row, maxLength) == PadRow(row, maxLength)[..|row|];
  }

  /** Padding a padded batch again changes nothing. */
  lemma PadAllIdempotent(rows: seq<seq<int>>)
    ensures PadAll(PadAll(rows)) == PadAll(rows)
  {
    var p := PadAll(rows);
    var m := Longest(rows);
    assert forall i :: 0 <= i < |p| ==> |p[i]| == m;
    if |p| > 0 {
      assert |p[0]| == m;
    }
    LongestUnique(p, m);
    forall i | 0 <= i < |p|
      ensures PadAll(p)[i] == p[i]
    {
      FullRowUnchanged(p[i], m);
    }
  }

  // ---------------------------------------------------------------------
  // random_split

  /** A row of the prepared frame: the cleaned text and its 0/1 label. */
  datatype Email = Email(text: string, emailType: int)

  function Min(a: int, b: int): int {
    if a < b then a else b
  }

  /** Where a Python slice bound `i` lands in a sequence of length `n`: a
      negative bound counts from the end, and the result is clamped to
      `0 .. n`. */
  function ClampIndex(i: int, n: nat): (k: nat)
    ensures k <= n
  {
    if i < 0 then (if n + i < 0 then 0 else n + i) else if i < n then i else n
  }

  /** `s[lo:hi]` with Python's clamping; empty when the bounds cross. */
  function Slice<T>(s: seq<T>, lo: int, hi: int): (r: seq<T>)
    ensures |r| <= |s|
    ensures 0 <= lo <= hi ==> r == s[Min(lo, |s|)..Min(hi, |s|)]
    ensures 0 <= hi <= lo ==> r == []
  {
    var a, b := ClampIndex(lo, |s|), ClampIndex(hi, |s|);
    if a < b then s[a..b] else []
  }

  /** Whatever the bounds, the slice is the run of `s` that starts at the
      clamped lower bound and ends at the clamped upper one. */
  lemma SliceElements<T>(s: seq<T>, lo: int, hi: int)
    ensures ClampIndex(lo, |s|) + |Slice(s, lo, hi)| <= |s|
    ensures |Slice(s, lo, hi)| == if ClampIndex(lo, |s|) < ClampIndex(hi, |s|) then ClampIndex(hi, |s|) - ClampIndex(lo, |s|) else 0
    ensures forall j :: 0 <= j < |Slice(s, lo, hi)| ==> Slice(s, lo, hi)[j] == s[ClampIndex(lo, |s|) + j]
  {
  }

  /** For cut indices `0 <= trainEnd <= validationEnd` the three slices are
      the consecutive pieces `s[..a]`, `s[a..b]`, `s[b..]` where the cuts are
      clamped to the length, so they concatenate back to `s` and hold every
      row exactly as often as `s` does. */
  lemma SplitPartition<T>(s: seq<T>, trainEnd: int, validationEnd: int)
    requires 0 <= trainEnd <= validationEnd
    ensures Slice(s, 0, trainEnd) == s[..Min(trainEnd, |s|)]
    ensures Slice(s, trainEnd, validationEnd) == s[Min(trainEnd, |s|)..Min(validationEnd, |s|)]
    ensures Slice(s, validationEnd, |s|) == s[Min(validationEnd, |s|)..]
    ensures Slice(s, 0, trainEnd) + Slice(s, trainEnd, validationEnd) + Slice(s, validationEnd, |s|) == s
    ensures multiset(Slice(s, 0, trainEnd)) + multiset(Slice(s, trainEnd, validationEnd))
          + multiset(Slice(s, validationEnd, |s|)) == multiset(s)
  {
    var a, b := Min(trainEnd, |s|), Min(validationEnd, |s|);
    assert s[..a] + s[a..b] + s[b..] == s;
    calc {
      multiset(s);
      multiset(s[..a] + s[a..b] + s[b..]);
      multiset(s[..a] + s[a..b]) + multiset(s[b..]);
      multiset(s[..a]) + multiset(s[a..b]) + multiset(s[b..]);
    }
  }

  /** The frame and its three splits. */
  class Preprocessor {
    var df: seq<Email>
    var trainDf: seq<Email>
    var validationDf: seq<Email>
    var testDf: seq<Email>

    /** The three splits, in order, are the whole frame. */
    ghost predicate Partitioned()
      reads this
    {
      trainDf + validationDf + testDf == df
    }

    /** A preprocessor over an already prepared frame, not yet split. */
    constructor (prepared: seq<Email>)
      ensures df == prepared && trainDf == [] && validationDf == [] && testDf == []
    {
      df := prepared;
      trainDf, validationDf, testDf := [], [], [];
    }

    /** `random_split`: `shuffled` is the shuffled frame, `trainEnd` is
        `int(len(df) * train_frac)` and `validationCount` is
        `int(len(df) * validation_frac)`. */
    method RandomSplit(shuffled: seq<Email>, trainEnd: int, validationCount: int)
      requires multiset(shuffled) == multiset(df)
      modifies this
      ensures df == shuffled && multiset(df) == multiset(old(df))
      ensures trainDf == Slice(shuffled, 0, trainEnd)
      ensures validationDf == Slice(shuffled, trainEnd, trainEnd + validationCount)
      ensures testDf == Slice(shuffled, trainEnd + validationCount, |shuffled|)
      ensures 0 <= trainEnd && 0 <= validationCount ==> Partitioned()
    {
      var validationEnd := trainEnd + validationCount;
      var train := Slice(shuffled, 0, trainEnd);
      var validation := Slice(shuffled, trainEnd, validationEnd);
      var test := Slice(shuffled, validationEnd, |shuffled|);
      if 0 <= trainEnd && 0 <= validationCount {
        SplitPartition(shuffled, trainEnd, validationEnd);
      }
      df, trainDf, validationDf, testDf := shuffled, train, validation, test;
    }
  }
}
