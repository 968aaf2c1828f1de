/** Command-line handling of the benchmark (`Main.parseArgs`,
    `Main.parseIntList`), with the parts of `String.split` and
    `Integer.parseInt` these two rely on written out. */
module Arguments {
  import opened Wrappers
  import JavaInt

  // ---------------------------------------------------------------------
  // `arg.split("=", 2)`
  // ---------------------------------------------------------------------

  /** `s.split(sep, 2)` for a one-character separator: the whole string when
      `sep` does not occur, otherwise the text before its first occurrence
      and everything after it (which may itself contain `sep`). */
  function SplitFirst(s: string, sep: char): (kv: seq<string>)
    ensures |kv| == 1 || |kv| == 2
    ensures |kv| == 1 <==> sep !in s
    ensures |kv| == 1 ==> kv[0] == s
    ensures |kv| == 2 ==> s == kv[0] + [sep] + kv[1] && sep !in kv[0]
  {
    if |s| == 0 then [s]
    else if s[0] == sep then [[], s[1..]]
    else
      var rest := SplitFirst(s[1..], sep);
      if |rest| == 1 then [s] else [[s[0]] + rest[0], rest[1]]
  }

  /** Conversely, the key is the text before the first `sep` and the value
      everything after it. */
  lemma {:induction false} SplitFirstAt(s: string, sep: char, k: string, v: string)
    requires s == k + [sep] + v && sep !in k
    ensures SplitFirst(s, sep) == [k, v]
  {
    if |k| == 0 {
      assert s[1..] == v;
    } else {
      assert s[1..] == k[1..] + [sep] + v;
      SplitFirstAt(s[1..], sep, k[1..], v);
      assert [s[0]] + k[1..] == k;
    }
  }

  /** The argument `a` binds key `k`. */
  predicate Binds(a: string, k: string) {
    var kv := SplitFirst(a, '=');
    |kv| == 2 && kv[0] == k
  }

  /** The map that `parseArgs` builds from `args`, one argument at a time:
      an argument with an `=` puts its key and value, one without adds
      nothing. */
  function ArgsMap(args: seq<string>): (m: map<string, string>)
    ensures forall k :: k in m ==> exists i :: 0 <= i < |args| && Binds(args[i], k)
  {
    if |args| == 0 then map[]
    else
      var init := args[..|args| - 1];
      assert forall i :: 0 <= i < |init| ==> init[i] == args[i];
      var m := ArgsMap(init);
      var kv := SplitFirst(args[|args| - 1], '=');
      if |kv| == 2 then m[kv[0] := kv[1]] else m
  }

  /** `Main.parseArgs`: fills a map in one pass over the arguments. */
  method ParseArgs(args: seq<string>) returns (m: map<string, string>)
    ensures m == ArgsMap(args)
  {
    m := map[];
    for i := 0 to |args|
      invariant m == ArgsMap(args[..i])
    {
      var kv := SplitFirst(args[i], '=');
      if |kv| == 2 {
        m := m[kv[0] := kv[1]];
      }
      assert args[..i + 1][..i] == args[..i];
    }
    assert args[..|args|] == args;
  }

  /** A key is in the map exactly when some argument binds it. */
  lemma {:induction false} ArgsMapKeys(args: seq<string>, k: string)
    ensures k in ArgsMap(args) <==> exists i :: 0 <= i < |args| && Binds(args[i], k)
  {
    if |args| > 0 {
      var init := args[..|args| - 1];
      ArgsMapKeys(init, k);
      if k in ArgsMap(init) {
        var i :| 0 <= i < |init| && Binds(init[i], k);
        assert args[i] == init[i];
      }
      if i :| 0 <= i < |args| && Binds(args[i], k) {
        if i < |args| - 1 {
          assert init[i] == args[i];
        }
      }
    }
  }

  /** The value of a key is the value of the last argument that binds it. */
  lemma {:induction false} ArgsMapLastWins(args: seq<string>, i: nat)
    requires i < |args| && '=' in args[i]
    requires forall j :: i < j < |args| ==> !Binds(args[j], SplitFirst(args[i], '=')[0])
    ensures var kv := SplitFirst(args[i], '=');
      kv[0] in ArgsMap(args) && ArgsMap(args)[kv[0]] == kv[1]
  {
    var init := args[..|args| - 1];
    if i < |args| - 1 {
      forall j | i < j < |init|
        ensures !Binds(init[j], SplitFirst(init[i], '=')[0])
      {
        assert init[j] == args[j];
      }
      ArgsMapLastWins(init, i);
      assert init[i] == args[i];
      assert !Binds(args[|args| - 1], SplitFirst(args[i], '=')[0]);
    }
  }

  /** An argument without `=`, wherever it stands, leaves the map as if it
      were not there. */
  lemma {:induction false} ArgsMapIgnoresPlain(xs: seq<string>, a: string, ys: seq<string>)
    requires '=' !in a
    ensures ArgsMap(xs + [a] + ys) == ArgsMap(xs + ys)
  {
    if |ys| == 0 {
      assert xs + [a] + ys == xs + [a];
      assert (xs + [a])[..|xs|] == xs;
      assert xs + ys == xs;
    } else {
      var yinit := ys[..|ys| - 1];
      ArgsMapIgnoresPlain(xs, a, yinit);
      assert (xs + [a] + ys)[..|xs + [a] + ys| - 1] == xs + [a] + yinit;
      assert (xs + ys)[..|xs + ys| - 1] == xs + yinit;
    }
  }

  // ---------------------------------------------------------------------
  // `Integer.parseInt`
  // ---------------------------------------------------------------------

  predicate IsDigit(c: char) {
    '0' <= c <= '9'
  }

  predicate AllDigits(s: string) {
    forall i :: 0 <= i < |s| ==> IsDigit(s[i])
  }

  function DigitValue(c: char): nat
    requires IsDigit(c)
  {
    (c as int) - ('0' as int)
  }

  /** The value of a string of decimal digits, most significant first. */
  function DigitsValue(ds: string): nat
    requires AllDigits(ds)
  {
    if |ds| == 0 then 0
    else 10 * DigitsValue(ds[..|ds| - 1]) + DigitValue(ds[|ds| - 1])
  }

  /** `Integer.parseInt(s)`: an optional `-` or `+` followed by one or more
      decimal digits whose value fits in a 32-bit `int`; anything else
      raises NumberFormatException (`None`). */
  function ParseInt(s: string): (r: Option<int>)
    ensures r.Some? ==> JavaInt.InInt32(r.value)
  {
    if |s| == 0 then None
    else
      var digits := if s[0] == '-' || s[0] == '+' then s[1..] else s;
      if |digits| == 0 || !AllDigits(digits) then None
      else
        var v: int := if s[0] == '-' then 0 - (DigitsValue(digits) as int) else DigitsValue(digits);
        if JavaInt.InInt32(v) then Some(v) else None
  }

  /** `Integer.parseInt` throws on an empty string or a lone sign ... */
  lemma ParseIntNeedsDigits()
    ensures ParseInt("") == None && ParseInt("-") == None && ParseInt("+") == None
  {
  }

  /** ... on a character that is neither a leading sign nor a digit ... */
  lemma ParseIntRejectsNonDigit(s: string, i: nat)
    requires i < |s| && !IsDigit(s[i])
    requires i > 0 || (s[0] != '-' && s[0] != '+')
    ensures ParseInt(s) == None
  {
    if s[0] == '-' || s[0] == '+' {
      assert s[1..][i - 1] == s[i];
    }
  }

  function Digit(d: nat): (c: char)
    requires d < 10
    ensures IsDigit(c) && DigitValue(c) == d
  {
    ('0' as int + d) as char
  }

  /** The decimal notation of a natural number, without leading zeros. */
  function ShowNat(n: nat): (s: string)
    ensures |s| > 0 && AllDigits(s) && DigitsValue(s) == n
    ensures ',' !in s
  {
    if n < 10 then [Digit(n)]
    else
      var s := ShowNat(n / 10) + [Digit(n % 10)];
      assert s[..|s| - 1] == ShowNat(n / 10);
      s
  }

  /** `Integer.toString`: the decimal notation with a `-` for negatives. */
  function ShowInt(x: int): string {
    if x < 0 then "-" + ShowNat(-x) else ShowNat(x)
  }

  /** `Integer.parseInt` reads back what `Integer.toString` writes. */
  lemma ParseShowInt(x: int)
    requires JavaInt.InInt32(x)
    ensures ParseInt(ShowInt(x)) == Some(x)
    ensures |ShowInt(x)| > 0 && ',' !in ShowInt(x)
  {
    if x < 0 {
      var s := ShowInt(x);
      assert s[1..] == ShowNat(-x);
    } else {
      var s := ShowNat(x);
      assert IsDigit(s[0]);
    }
  }

  /** ... and on a value outside the 32-bit range, on either side. */
  lemma ParseIntRejectsOverflow(n: nat)
    ensures n > JavaInt.INT_MAX ==> ParseInt(ShowNat(n)) == None
    ensures n > JavaInt.INT_MAX ==> ParseInt("+" + ShowNat(n)) == None
    ensures n > -JavaInt.INT_MIN ==> ParseInt("-" + ShowNat(n)) == None
  {
    var d := ShowNat(n);
    assert IsDigit(d[0]);
    assert ("+" + d)[1..] == d && ("-" + d)[1..] == d;
  }

  // ---------------------------------------------------------------------
  // `csv.split(",")` and `Main.parseIntList`
  // ---------------------------------------------------------------------

  /** Every piece of `s` between occurrences of `sep`, empty pieces
      included: n occurrences give n + 1 pieces. */
  function Fields(s: string, sep: char): (r: seq<string>)
    ensures |r| >= 1
    ensures forall i :: 0 <= i < |r| ==> sep !in r[i]
    ensures sep !in s ==> r == [s]
  {
    if |s| == 0 then [[]]
    else
      var rest := Fields(s[1..], sep);
      if s[0] == sep then [[]] + rest
      else
        assert sep !in s ==> rest == [s[1..]] && s == [s[0]] + s[1..];
        [[s[0]] + rest[0]] + rest[1..]
  }

  /** The pieces joined back with `sep` between neighbours. */
  function Join(fs: seq<string>, sep: char): string
    requires |fs| >= 1
  {
    if |fs| == 1 then fs[0] else fs[0] + [sep] + Join(fs[1..], sep)
  }

  /** Splitting and joining are inverse: joining the pieces gives back the
      string. */
  lemma {:induction false} JoinFields(s: string, sep: char)
    ensures Join(Fields(s, sep), sep) == s
  {
    if |s| > 0 {
      JoinFields(s[1..], sep);
      var rest := Fields(s[1..], sep);
      if s[0] != sep {
        var r := [[s[0]] + rest[0]] + rest[1..];
        if |rest| > 1 {
          assert r[1..] == rest[1..];
          assert Join(rest, sep) == rest[0] + [sep] + Join(rest[1..], sep);
          assert Join(r, sep) == [s[0]] + rest[0] + [sep] + Join(rest[1..], sep);
        }
        assert s == [s[0]] + s[1..];
      } else {
        assert ([[]] + rest)[1..] == rest;
        assert s == [sep] + s[1..];
      }
    }
  }

  /** ... and splitting a join of pieces without `sep` gives back the pieces. */
  lemma {:induction false} FieldsJoin(fs: seq<string>, sep: char)
    requires |fs| >= 1
    requires forall i :: 0 <= i < |fs| ==> sep !in fs[i]
    ensures Fields(Join(fs, sep), sep) == fs
  {
    if |fs| > 1 {
      FieldsJoin(fs[1..], sep);
      FieldsAfterPlain(fs[0], sep, Join(fs[1..], sep));
      assert [fs[0]] + fs[1..] == fs;
    }
  }

  lemma {:induction false} FieldsAfterPlain(w: string, sep: char, t: string)
    requires sep !in w
    ensures Fields(w + [sep] + t, sep) == [w] + Fields(t, sep)
  {
    if |w| == 0 {
      assert w + [sep] + t == [sep] + t;
      assert ([sep] + t)[1..] == t;
    } else {
      FieldsAfterPlain(w[1..], sep, t);
      assert (w + [sep] + t)[1..] == w[1..] + [sep] + t;
      assert [w[0]] + w[1..] == w;
    }
  }

  /** Drops the empty pieces at the end, as `String.split` does with a zero
      limit. */
  function DropTrailingEmpty(fs: seq<string>): (r: seq<string>)
    ensures |r| <= |fs| && r == fs[..|r|]
    ensures |r| > 0 ==> r[|r| - 1] != []
    ensures forall i :: |r| <= i < |fs| ==> fs[i] == []
  {
    if |fs| == 0 then []
    else if fs[|fs| - 1] == [] then DropTrailingEmpty(fs[..|fs| - 1])
    else fs
  }

  /** `s.split(sep)` for a one-character separator: a string without
      `sep` is its own single piece (even the empty string); otherwise the
      pieces with the empty ones at the end removed. */
  function JavaSplit(s: string, sep: char): (r: seq<string>)
    ensures forall i :: 0 <= i < |r| ==> sep !in r[i]
    ensures sep !in s ==> r == [s]
    ensures sep in s ==> var fs := Fields(s, sep);
      && |r| <= |fs| && r == fs[..|r|]
      && (|r| == 0 || r[|r| - 1] != [])
      && forall i :: |r| <= i < |fs| ==> fs[i] == []
  {
    if sep !in s then [s] else DropTrailingEmpty(Fields(s, sep))
  }

  /** Parses every piece; fails as soon as one piece is not an `int`. */
  function ParseAll(fields: seq<string>): (r: Option<seq<int>>)
    ensures r.Some? <==> forall i :: 0 <= i < |fields| ==> ParseInt(fields[i]).Some?
    ensures r.Some? ==> |r.value| == |fields|
    ensures r.Some? ==> forall i :: 0 <= i < |fields| ==> ParseInt(fields[i]) == Some(r.value[i])
  {
    if |fields| == 0 then Some([])
    else
      match ParseInt(fields[0])
      case None => None
      case Some(x) =>
        match ParseAll(fields[1..])
        case None =>
          assert !forall i :: 0 <= i < |fields| - 1 ==> ParseInt(fields[1..][i]).Some?;
          None
        case Some(xs) => Some([x] + xs)
  }

  /** `Main.parseIntList`: `csv.split(",")` mapped through
      `Integer.parseInt`. */
  function ParseIntList(csv: string): (r: Option<seq<int>>)
    ensures r.Some? <==> forall i :: 0 <= i < |JavaSplit(csv, ',')| ==> ParseInt(JavaSplit(csv, ',')[i]).Some?
    ensures r.Some? ==> |r.value| == |JavaSplit(csv, ',')|
    ensures r.Some? ==> forall i :: 0 <= i < |r.value| ==> Some(r.value[i]) == ParseInt(JavaSplit(csv, ',')[i])
  {
    ParseAll(JavaSplit(csv, ','))
  }

  /** Splitting a join of non-empty pieces without `sep` gives the pieces. */
  lemma JavaSplitJoin(fs: seq<string>, sep: char)
    requires |fs| >= 1
    requires forall i :: 0 <= i < |fs| ==> |fs[i]| > 0 && sep !in fs[i]
    ensures JavaSplit(Join(fs, sep), sep) == fs
  {
    FieldsJoin(fs, sep);
    var s := Join(fs, sep);
    if |fs| > 1 {
      assert s == fs[0] + [sep] + Join(fs[1..], sep);
      assert s[|fs[0]|] == sep;
      assert fs[|fs| - 1] != [];
      assert DropTrailingEmpty(fs) == fs;
    }
  }

  /** The decimal notations of `xs`, one piece per option. */
  function ShowAll(xs: seq<int>): (fs: seq<string>)
    ensures |fs| == |xs|
  {
    seq(|xs|, i requires 0 <= i < |xs| => ShowInt(xs[i]))
  }

  /** Parsing each notation gives back the options. */
  lemma ParseAllShown(xs: seq<int>)
    requires forall i :: 0 <= i < |xs| ==> JavaInt.InInt32(xs[i])
    ensures ParseAll(ShowAll(xs)) == Some(xs)
    ensures forall i :: 0 <= i < |xs| ==> |ShowAll(xs)[i]| > 0 && ',' !in ShowAll(xs)[i]
  {
    var fs := ShowAll(xs);
    forall i | 0 <= i < |fs|
      ensures ParseInt(fs[i]) == Some(xs[i]) && |fs[i]| > 0 && ',' !in fs[i]
    {
      ParseShowInt(xs[i]);
    }
    var r := ParseAll(fs);
    assert r.Some?;
    assert r.value == xs;
  }

  /** The options written as decimal integers joined by `,`. */
  function JoinInts(xs: seq<int>): string
    requires |xs| >= 1
  {
    Join(ShowAll(xs), ',')
  }

  /** A non-empty list of `int`s joined by `,` parses back to the same list
      in the same order. */
  lemma ParseIntListRoundTrip(xs: seq<int>)
    requires |xs| >= 1
    requires forall i :: 0 <= i < |xs| ==> JavaInt.InInt32(xs[i])
    ensures ParseIntList(JoinInts(xs)) == Some(xs)
  {
    ParseAllShown(xs);
    JavaSplitJoin(ShowAll(xs), ',');
  }

  /** Java drops empty pieces at the end, so a trailing `,` is accepted ... */
  lemma TrailingCommaIgnored(xs: seq<int>)
    requires |xs| >= 1
    requires forall i :: 0 <= i < |xs| ==> JavaInt.InInt32(xs[i])
    ensures ParseIntList(JoinInts(xs) + ",") == Some(xs)
  {
    var fs := ShowAll(xs);
    ParseAllShown(xs);
    var s := JoinInts(xs);
    FieldsJoin(fs + [[]], ',');
    JoinSnoc(fs, [], ',');
    assert Join(fs + [[]], ',') == s + ",";
    assert (s + ",")[|s|] == ',';
    assert (fs + [[]])[..|fs|] == fs;
    assert DropTrailingEmpty(fs + [[]]) == fs;
  }

  lemma {:induction false} JoinSnoc(fs: seq<string>, w: string, sep: char)
    requires |fs| >= 1
    ensures Join(fs + [w], sep) == Join(fs, sep) + [sep] + w
  {
    if |fs| > 1 {
      JoinSnoc(fs[1..], w, sep);
      assert (fs + [w])[1..] == fs[1..] + [w];
    } else {
      assert (fs + [w])[1..] == [w];
    }
  }

  /** ... while an empty list or an empty piece makes `Integer.parseInt`
      throw ... */
  lemma EmptyPieceRejected()
    ensures ParseIntList("") == None
    ensures ParseIntList("4,,8") == None
  {
    assert JavaSplit("", ',') == [""];
    FieldsAfterPlain("", ',', "8");
    assert "" + [','] + "8" == ",8";
    FieldsAfterPlain("4", ',', ",8");
    assert "4" + [','] + ",8" == "4,,8";
    assert JavaSplit("4,,8", ',') == ["4", "", "8"];
  }

  /** ... and so does any piece that is not a number, wherever it stands. */
  lemma NonNumericRejected(fs: seq<string>, i: nat)
    requires |fs| >= 1 && i < |fs|
    requires forall j :: 0 <= j < |fs| ==> |fs[j]| > 0 && ',' !in fs[j]
    requires ParseInt(fs[i]).None?
    ensures ParseIntList(Join(fs, ',')) == None
  {
    JavaSplitJoin(fs, ',');
  }

  /** For example `"4,x"`. */
  lemma NonNumericExample()
    ensures ParseIntList("4,x") == None
  {
    NonNumericRejected(["4", "x"], 1);
    assert Join(["4", "x"], ',') == "4,x" by {
      assert ["4", "x"][1..] == ["x"];
    }
    assert !AllDigits("x");
  }

  /** A string of separators only splits into no pieces at all, so it
      parses to an empty list. */
  lemma OnlySeparatorsGiveEmptyList()
    ensures ParseIntList(",") == Some([])
  {
    FieldsAfterPlain("", ',', "");
    assert "" + [','] + "" == ",";
    assert JavaSplit(",", ',') == [];
  }
}
