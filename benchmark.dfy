/** The benchmark driver of `Main`: the settings read from the arguments,
    one configuration run (`runTest`) and the matrix loop of `main` that
    writes one CSV row per (connections, channels per connection) pair. */
module Benchmark {
  import opened Wrappers
  import JavaInt
  import Arguments
  import opened Provisioning
  import opened Publisher

  // ---------------------------------------------------------------------
  // Settings (`main`, the `getOrDefault` lines)
  // ---------------------------------------------------------------------

  datatype Settings = Settings(
    host: string,
    queueName: string,
    durationSeconds: int,
    connOptions: seq<int>,
    channelPerConnOptions: seq<int>,
    filePath: string,
    replyTo: string)

  function GetOrDefault(m: map<string, string>, key: string, default: string): string {
    if key in m then m[key] else default
  }

  /** The settings `main` reads; a malformed number aborts the program
      before any configuration runs (`None`). */
  function ReadSettings(args: seq<string>): (r: Option<Settings>)
    ensures r.Some? <==>
      var m := Arguments.ArgsMap(args);
      && Arguments.ParseInt(GetOrDefault(m, "TEST_DURATION_SECONDS", "10")).Some?
      && Arguments.ParseIntList(GetOrDefault(m, "connOptions", "4,8,16")).Some?
      && Arguments.ParseIntList(GetOrDefault(m, "channelPerConnOptions", "32,64")).Some?
  {
    var m := Arguments.ArgsMap(args);
    var duration := Arguments.ParseInt(GetOrDefault(m, "TEST_DURATION_SECONDS", "10"));
    var conns := Arguments.ParseIntList(GetOrDefault(m, "connOptions", "4,8,16"));
    var chans := Arguments.ParseIntList(GetOrDefault(m, "channelPerConnOptions", "32,64"));
    if duration.None? || conns.None? || chans.None? then None
    else Some(Settings(
      GetOrDefault(m, "RABBIT_HOST", "localhost"),
      GetOrDefault(m, "QUEUE_NAME", "perf.queue"),
      duration.value, conns.value, chans.value,
      GetOrDefault(m, "filepath", "sample.jpg"),
      GetOrDefault(m, "REPLY_TO", "perf_reply.queue")))
  }

  lemma ShowSmall()
    ensures Arguments.ShowInt(4) == "4" && Arguments.ShowInt(8) == "8"
    ensures Arguments.ShowInt(16) == "16"
    ensures Arguments.ShowInt(32) == "32" && Arguments.ShowInt(64) == "64"
  {
    assert Arguments.ShowNat(16) == Arguments.ShowNat(1) + [Arguments.Digit(6)];
    assert Arguments.ShowNat(32) == Arguments.ShowNat(3) + [Arguments.Digit(2)];
    assert Arguments.ShowNat(64) == Arguments.ShowNat(6) + [Arguments.Digit(4)];
  }

  lemma JoinDefaultConnections()
    ensures Arguments.JoinInts([4, 8, 16]) == "4,8,16"
  {
    ShowSmall();
    var fs := Arguments.ShowAll([4, 8, 16]);
    assert fs == ["4", "8", "16"];
    assert fs[1..] == ["8", "16"] && fs[1..][1..] == ["16"];
    assert Arguments.Join(fs[1..][1..], ',') == "16";
    assert Arguments.Join(fs[1..], ',') == "8,16";
  }

  lemma JoinDefaultChannels()
    ensures Arguments.JoinInts([32, 64]) == "32,64"
  {
    ShowSmall();
    var fs := Arguments.ShowAll([32, 64]);
    assert fs == ["32", "64"];
    assert fs[1..] == ["64"];
  }

  lemma DefaultDuration()
    ensures Arguments.ParseInt("10") == Some(10)
  {
    assert Arguments.AllDigits("10") && Arguments.DigitsValue("10") == 10 by {
      assert "10"[..1] == "1";
    }
  }

  lemma DefaultConnections()
    ensures Arguments.ParseIntList("4,8,16") == Some([4, 8, 16])
  {
    JoinDefaultConnections();
    Arguments.ParseIntListRoundTrip([4, 8, 16]);
  }

  lemma DefaultChannels()
    ensures Arguments.ParseIntList("32,64") == Some([32, 64])
  {
    JoinDefaultChannels();
    Arguments.ParseIntListRoundTrip([32, 64]);
  }

  lemma DefaultNumbers()
    ensures Arguments.ParseInt("10") == Some(10)
    ensures Arguments.ParseIntList("4,8,16") == Some([4, 8, 16])
    ensures Arguments.ParseIntList("32,64") == Some([32, 64])
  {
    DefaultDuration();
    DefaultConnections();
    DefaultChannels();
  }

  /** Without arguments every default applies. */
  lemma DefaultSettings()
    ensures ReadSettings([]) == Some(Settings(
      "localhost", "perf.queue", 10, [4, 8, 16], [32, 64], "sample.jpg", "perf_reply.queue"))
  {
    DefaultNumbers();
    assert Arguments.ArgsMap([]) == map[];
  }

  // ---------------------------------------------------------------------
  // One configuration run (`runTest`)
  // ---------------------------------------------------------------------

  /** Everything of one run the model does not compute itself: whether the
      broker-side set-up (purge connection, the pool, the channels, the queue
      declarations) succeeds, and each task's script. */
  datatype TestPlan = TestPlan(setupOk: bool, scripts: nat -> TaskScript)

  /** `totalMessages / durationSeconds` on Java `long`s: truncating, and
      ArithmeticException on a zero duration. */
  function Throughput(totalMessages: int, durationSeconds: int): (r: Option<int>)
    ensures r.Some? <==> durationSeconds != 0
    ensures totalMessages >= 0 && durationSeconds > 0 ==>
      && 0 <= r.value <= totalMessages
      && r.value * durationSeconds <= totalMessages < (r.value + 1) * durationSeconds
  {
    FloorRate(totalMessages, durationSeconds);
    JavaInt.Div(totalMessages, durationSeconds)
  }

  /** Java's quotient of a non-negative count by a positive duration is the
      floor rate. */
  lemma FloorRate(totalMessages: int, durationSeconds: int)
    ensures totalMessages >= 0 && durationSeconds > 0 ==>
      var r := JavaInt.Div(totalMessages, durationSeconds).value;
      && 0 <= r <= totalMessages
      && r * durationSeconds <= totalMessages < (r + 1) * durationSeconds
  {
    if totalMessages >= 0 && durationSeconds > 0 {
      JavaInt.DivOfNonNegative(totalMessages, durationSeconds);
    }
  }

  /** The value `runTest` returns as `Result.totalMessages` (the number the
      CSV prints as `tps_avg`), or `None` when it throws: a set-up fault, a
      negative array size, `i % 0` with channels but no connections, a
      negative `Thread.sleep`, or a zero duration. */
  function RunTestSpec(connCount: int, threadCount: int, durationSeconds: int, plan: TestPlan): (r: Option<int>)
    ensures !plan.setupOk || durationSeconds == 0 ==> r.None?
    ensures r.Some? ==> connCount >= 0 && threadCount >= 0
    ensures r.Some? && durationSeconds < 0 ==> r.value == 0
    ensures r.Some? && durationSeconds > 0 ==>
      var total := PublishedCount(plan.scripts, threadCount);
      && 0 <= r.value <= total
      && r.value * durationSeconds <= total < (r.value + 1) * durationSeconds
  {
    if !plan.setupOk || connCount < 0 || threadCount < 0 || (connCount == 0 && threadCount > 0)
       || durationSeconds * 1000 + 2000 < 0
    then None
    else
      PastDeadlineNoMessages(plan, durationSeconds, threadCount);
      Throughput(PublishedCount(Attempts(plan, durationSeconds), threadCount), durationSeconds)
  }

  /** The attempts the tasks make. `endTime = now + durationSeconds`
      (Main.java:87) is not in the future when the duration is not positive,
      so every task's `while` condition is false at once. */
  function Attempts(plan: TestPlan, durationSeconds: int): (scripts: nat -> TaskScript)
    ensures durationSeconds <= 0 ==> forall i: nat :: scripts(i).publishes == []
  {
    if durationSeconds > 0 then plan.scripts
    else (i: nat) => TaskScript([], plan.scripts(i).recovery)
  }

  /** The same, for any duration: a past deadline means no messages. */
  lemma PastDeadlineNoMessages(plan: TestPlan, durationSeconds: int, n: nat)
    ensures durationSeconds <= 0 ==> PublishedCount(Attempts(plan, durationSeconds), n) == 0
  {
    if durationSeconds <= 0 {
      NoAttemptsNoMessages(plan, durationSeconds, n);
    }
  }

  /** With a deadline already past, no task publishes anything. */
  lemma {:induction false} NoAttemptsNoMessages(plan: TestPlan, durationSeconds: int, n: nat)
    requires durationSeconds <= 0
    ensures PublishedCount(Attempts(plan, durationSeconds), n) == 0
  {
    if n > 0 {
      NoAttemptsNoMessages(plan, durationSeconds, n - 1);
      assert Attempts(plan, durationSeconds)(n - 1).publishes == [];
    }
  }

  /** `Main.runTest`: provision, run every task, divide the counter by the
      duration. */
  method RunTest(connCount: int, threadCount: int, durationSeconds: int, plan: TestPlan)
      returns (result: Option<int>)
    ensures result == RunTestSpec(connCount, threadCount, durationSeconds, plan)
  {
    if !plan.setupOk || connCount < 0 || threadCount < 0 || (connCount == 0 && threadCount > 0) {
      return None;
    }
    var connections, channels := Provision(connCount, threadCount);
    var metrics := new Metrics();
    var scripts := Attempts(plan, durationSeconds);
    RunTasks(connections, channels, metrics, scripts);
    AllLatenciesCount(scripts, threadCount);
    if durationSeconds * 1000 + 2000 < 0 {
      return None;
    }
    result := Throughput(metrics.messageCount, durationSeconds);
  }

  /** A run that sets up and lasts a positive number of seconds reports the
      successful publishes of all its tasks per second, rounded down. */
  lemma RunTestReportsRate(connCount: int, threadCount: int, durationSeconds: int, plan: TestPlan)
    requires plan.setupOk && connCount > 0 && threadCount >= 0 && durationSeconds > 0
    ensures var r := RunTestSpec(connCount, threadCount, durationSeconds, plan);
      var total := PublishedCount(plan.scripts, threadCount);
      && r.Some?
      && 0 <= r.value <= total
      && r.value * durationSeconds <= total < (r.value + 1) * durationSeconds
  {
  }

  /** A duration of -1 or -2 seconds publishes nothing, sleeps a legal 1000
      or 0 milliseconds, and reports `0 / durationSeconds == 0`. */
  lemma ShortNegativeDurationReportsZero(connCount: int, threadCount: int, durationSeconds: int, plan: TestPlan)
    requires plan.setupOk && connCount > 0 && threadCount >= 0 && -2 <= durationSeconds < 0
    ensures RunTestSpec(connCount, threadCount, durationSeconds, plan) == Some(0)
  {
    NoAttemptsNoMessages(plan, durationSeconds, threadCount);
  }

  // ---------------------------------------------------------------------
  // The matrix loop of `main`
  // ---------------------------------------------------------------------

  /** One CSV row: `connections,channels_per_conn,total_channels,
      total_threads,tps_avg` (the `latency_avg_ms` column is floating point
      and not modelled). */
  datatype Row = Row(connections: int, channelsPerConn: int, totalChannels: int,
                     totalThreads: int, tpsAvg: int)

  /** The pairs with connection count `c`, in channel-option order. */
  function PairsWith(c: int, ks: seq<int>): (ps: seq<(int, int)>)
    ensures |ps| == |ks|
  {
    seq(|ks|, j requires 0 <= j < |ks| => (c, ks[j]))
  }

  lemma PairsWithPrefix(c: int, ks: seq<int>, j: nat)
    requires j < |ks|
    ensures PairsWith(c, ks[..j + 1]) == PairsWith(c, ks[..j]) + [(c, ks[j])]
    ensures PairsWith(c, ks[..j + 1]) <= PairsWith(c, ks)
  {
  }

  /** The pairs in the order the nested loops visit them: connections
      outer, channels per connection inner. */
  function Cells(cs: seq<int>, ks: seq<int>): (r: seq<(int, int)>)
    ensures forall n :: 0 <= n < |r| ==> r[n].0 in cs && r[n].1 in ks
  {
    if |cs| == 0 then []
    else
      var init := cs[..|cs| - 1];
      var prev := Cells(init, ks);
      assert forall x :: x in init ==> x in cs;
      var r := prev + PairsWith(cs[|cs| - 1], ks);
      assert forall n :: |prev| <= n < |r| ==> r[n] == (cs[|cs| - 1], ks[n - |prev|]);
      r
  }

  lemma {:induction false} CellsLength(cs: seq<int>, ks: seq<int>)
    ensures |Cells(cs, ks)| == |cs| * |ks|
  {
    if |cs| > 0 {
      CellsLength(cs[..|cs| - 1], ks);
      assert (|cs| - 1) * |ks| + |ks| == |cs| * |ks|;
    }
  }

  /** Every pair is visited exactly once: pair (cs[i], ks[j]) is the
      visit number i * |ks| + j. */
  lemma {:induction false} CellsOrder(cs: seq<int>, ks: seq<int>, i: nat, j: nat)
    requires i < |cs| && j < |ks|
    ensures |Cells(cs, ks)| == |cs| * |ks|
    ensures i * |ks| + j < |cs| * |ks|
    ensures Cells(cs, ks)[i * |ks| + j] == (cs[i], ks[j])
  {
    CellsLength(cs, ks);
    var init := cs[..|cs| - 1];
    CellsLength(init, ks);
    assert (|cs| - 1) * |ks| + |ks| == |cs| * |ks|;
    if i < |cs| - 1 {
      CellsOrder(init, ks, i, j);
      assert init[i] == cs[i];
    } else {
      assert i * |ks| == (|cs| - 1) * |ks|;
    }
  }

  /** The row written after running the configuration numbered `n`, or
      `None` when that run throws. `totalChannels` is Java's `int` product. */
  function CellRow(n: nat, c: int, k: int, durationSeconds: int, plans: nat -> TestPlan): (r: Option<Row>)
    ensures r.None? <==> RunTestSpec(c, JavaInt.Wrap32(c * k), durationSeconds, plans(n)).None?
    ensures r.Some? ==>
      && r.value.connections == c && r.value.channelsPerConn == k
      && r.value.totalChannels == r.value.totalThreads == JavaInt.Wrap32(c * k)
      && Some(r.value.tpsAvg) == RunTestSpec(c, JavaInt.Wrap32(c * k), durationSeconds, plans(n))
  {
    var total := JavaInt.Wrap32(c * k);
    match RunTestSpec(c, total, durationSeconds, plans(n))
    case None => None
    case Some(tps) => Some(Row(c, k, total, total, tps))
  }

  /** The rows written for the visits `cells` and whether a run threw;
      an exception leaves `main`, so nothing after it runs. */
  function RunCells(cells: seq<(int, int)>, durationSeconds: int, plans: nat -> TestPlan): (r: (seq<Row>, bool))
    ensures |r.0| <= |cells|
    ensures !r.1 ==> |r.0| == |cells|
    ensures r.1 ==> |r.0| < |cells|
    ensures r.1 ==> CellRow(|r.0|, cells[|r.0|].0, cells[|r.0|].1, durationSeconds, plans).None?
    ensures forall n :: 0 <= n < |r.0| ==>
      CellRow(n, cells[n].0, cells[n].1, durationSeconds, plans) == Some(r.0[n])
  {
    if |cells| == 0 then ([], false)
    else
      var init := cells[..|cells| - 1];
      var prev := RunCells(init, durationSeconds, plans);
      if prev.1 then prev
      else
        var (c, k) := cells[|cells| - 1];
        match CellRow(|cells| - 1, c, k, durationSeconds, plans)
        case None => (prev.0, true)
        case Some(row) => (prev.0 + [row], false)
  }

  lemma {:induction false} RunCellsAfterAbort(xs: seq<(int, int)>, ys: seq<(int, int)>, d: int, plans: nat -> TestPlan)
    requires RunCells(xs, d, plans).1
    ensures RunCells(xs + ys, d, plans) == RunCells(xs, d, plans)
  {
    if |ys| > 0 {
      RunCellsAfterAbort(xs, ys[..|ys| - 1], d, plans);
      assert (xs + ys)[..|xs + ys| - 1] == xs + ys[..|ys| - 1];
    } else {
      assert xs + ys == xs;
    }
  }

  /** Each written row holds its pair, `total_channels == total_threads`,
      equal to `connCount * channelPerConn` whenever that fits in an `int`. */
  lemma RowColumns(cells: seq<(int, int)>, d: int, plans: nat -> TestPlan, n: nat)
    requires n < |RunCells(cells, d, plans).0|
    ensures var row := RunCells(cells, d, plans).0[n];
      && row.connections == cells[n].0 && row.channelsPerConn == cells[n].1
      && row.totalChannels == row.totalThreads == JavaInt.Wrap32(cells[n].0 * cells[n].1)
      && (JavaInt.InInt32(cells[n].0 * cells[n].1) ==> row.totalChannels == cells[n].0 * cells[n].1)
      && Some(row.tpsAvg) == RunTestSpec(cells[n].0, row.totalThreads, d, plans(n))
  {
  }

  /** A zero duration makes the first `runTest` throw: only the header is
      written. */
  lemma {:induction false} ZeroDurationAbortsMatrix(cells: seq<(int, int)>, plans: nat -> TestPlan)
    requires |cells| > 0
    ensures RunCells(cells, 0, plans) == ([], true)
  {
    if |cells| == 1 {
      assert cells[..0] == [];
    } else {
      ZeroDurationAbortsMatrix(cells[..1], plans);
      assert cells == cells[..1] + cells[1..];
      RunCellsAfterAbort(cells[..1], cells[1..], 0, plans);
    }
  }

  lemma {:induction false} CellsPrefix(cs: seq<int>, ks: seq<int>, i: nat)
    requires i <= |cs|
    ensures Cells(cs[..i], ks) <= Cells(cs, ks)
  {
    if i < |cs| {
      var init := cs[..|cs| - 1];
      CellsPrefix(init, ks, i);
      assert init[..i] == cs[..i];
    } else {
      assert cs[..i] == cs;
    }
  }

  lemma RunCellsStep(visited: seq<(int, int)>, c: int, k: int, d: int, plans: nat -> TestPlan)
    requires !RunCells(visited, d, plans).1
    ensures RunCells(visited + [(c, k)], d, plans) ==
      match CellRow(|visited|, c, k, d, plans)
      case None => (RunCells(visited, d, plans).0, true)
      case Some(row) => (RunCells(visited, d, plans).0 + [row], false)
  {
    assert (visited + [(c, k)])[..|visited|] == visited;
  }

  /** One configuration of the inner loop: the row it writes or the
      exception it ends the matrix with. */
  lemma RunCellsVisit(visited: seq<(int, int)>, c: int, k: int, d: int, plans: nat -> TestPlan,
                      result: Option<int>)
    requires !RunCells(visited, d, plans).1
    requires result == RunTestSpec(c, JavaInt.Wrap32(c * k), d, plans(|visited|))
    ensures result.None? ==> RunCells(visited + [(c, k)], d, plans) == (RunCells(visited, d, plans).0, true)
    ensures result.Some? ==>
      RunCells(visited + [(c, k)], d, plans) ==
      (RunCells(visited, d, plans).0 + [Row(c, k, JavaInt.Wrap32(c * k), JavaInt.Wrap32(c * k), result.value)], false)
  {
    RunCellsStep(visited, c, k, d, plans);
  }

  lemma PairsWithSplit(c: int, ks: seq<int>, j: nat)
    requires j <= |ks|
    ensures PairsWith(c, ks[..j]) + PairsWith(c, ks)[j..] == PairsWith(c, ks)
  {
  }

  /** The inner loop stops at the end of `ks` or at the first exception,
      after which nothing of the row is written. */
  lemma RowFinished(before: seq<(int, int)>, c: int, ks: seq<int>, j: nat, d: int, plans: nat -> TestPlan)
    requires j <= |ks|
    requires j < |ks| ==> RunCells(before + PairsWith(c, ks[..j]), d, plans).1
    ensures RunCells(before + PairsWith(c, ks), d, plans) == RunCells(before + PairsWith(c, ks[..j]), d, plans)
  {
    PairsWithSplit(c, ks, j);
    var visited := before + PairsWith(c, ks[..j]);
    var rest := PairsWith(c, ks)[j..];
    ConcatAssoc(before, PairsWith(c, ks[..j]), rest);
    if j < |ks| {
      RunCellsAfterAbort(visited, rest, d, plans);
    } else {
      assert ks[..j] == ks;
    }
  }

  /** The body of the inner loop: one test, and its row when it does not
      throw. */
  method RunConfiguration(connCount: int, channelPerConn: int, durationSeconds: int, plans: nat -> TestPlan,
                          ghost visited: seq<(int, int)>, n: nat, rows0: seq<Row>)
      returns (rows: seq<Row>, aborted: bool)
    requires n == |visited| && RunCells(visited, durationSeconds, plans) == (rows0, false)
    ensures (rows, aborted) == RunCells(visited + [(connCount, channelPerConn)], durationSeconds, plans)
  {
    var totalChannels := JavaInt.Wrap32(connCount * channelPerConn);
    var result := RunTest(connCount, totalChannels, durationSeconds, plans(n));
    RunCellsVisit(visited, connCount, channelPerConn, durationSeconds, plans, result);
    if result.None? {
      rows, aborted := rows0, true;
    } else {
      rows, aborted := rows0 + [Row(connCount, channelPerConn, totalChannels, totalChannels, result.value)], false;
    }
  }

  /** The inner loop of `main` for one connection count: the visits
      `(connCount, ks[0])`, `(connCount, ks[1])`, ... follow the visits
      `before`, of which there are `n`. */
  method RunChannelOptions(connCount: int, ks: seq<int>, durationSeconds: int, plans: nat -> TestPlan,
                           ghost before: seq<(int, int)>, n0: nat, rows0: seq<Row>)
      returns (rows: seq<Row>, aborted: bool)
    requires n0 == |before| && RunCells(before, durationSeconds, plans) == (rows0, false)
    ensures (rows, aborted) == RunCells(before + PairsWith(connCount, ks), durationSeconds, plans)
  {
    rows, aborted := rows0, false;
    ghost var visited := before;
    var n := n0;
    var j := 0;
    while j < |ks| && !aborted
      invariant 0 <= j <= |ks|
      invariant visited == before + PairsWith(connCount, ks[..j])
      invariant n == |visited|
      invariant (rows, aborted) == RunCells(visited, durationSeconds, plans)
    {
      rows, aborted := RunConfiguration(connCount, ks[j], durationSeconds, plans, visited, n, rows);
      PairsWithPrefix(connCount, ks, j);
      ConcatAssoc(before, PairsWith(connCount, ks[..j]), [(connCount, ks[j])]);
      visited := visited + [(connCount, ks[j])];
      n := n + 1;
      j := j + 1;
    }
    RowFinished(before, connCount, ks, j, durationSeconds, plans);
  }

  /** The nested loops of `main`, configuration by configuration, the
      `n`-th run driven by `plans(n)`. */
  method RunMatrix(connOptions: seq<int>, channelPerConnOptions: seq<int>,
                   durationSeconds: int, plans: nat -> TestPlan)
      returns (rows: seq<Row>, aborted: bool)
    ensures (rows, aborted) == RunCells(Cells(connOptions, channelPerConnOptions), durationSeconds, plans)
  {
    var cs, ks := connOptions, channelPerConnOptions;
    rows, aborted := [], false;
    var n := 0;
    var i := 0;
    while i < |cs| && !aborted
      invariant 0 <= i <= |cs|
      invariant n == |Cells(cs[..i], ks)|
      invariant (rows, aborted) == RunCells(Cells(cs[..i], ks), durationSeconds, plans)
    {
      assert cs[..i + 1][..i] == cs[..i];
      rows, aborted := RunChannelOptions(cs[i], ks, durationSeconds, plans, Cells(cs[..i], ks), n, rows);
      n := n + |ks|;
      i := i + 1;
    }
    if aborted {
      CellsPrefix(cs, ks, i);
      ghost var done := Cells(cs[..i], ks);
      ghost var all := Cells(cs, ks);
      assert all == done + all[|done|..];
      RunCellsAfterAbort(done, all[|done|..], durationSeconds, plans);
    } else {
      assert cs[..|cs|] == cs;
    }
  }

  // ---------------------------------------------------------------------
  // `main` as a whole
  // ---------------------------------------------------------------------

  /** What `main` leaves behind: whether it opened the CSV and wrote its
      header, the rows after the header, and whether it ended with an
      exception. */
  datatype MainOutcome = MainOutcome(csvOpened: bool, rows: seq<Row>, threw: bool)

  /** The file system as `main` meets it: whether the payload file at a
      path can be read (`Files.readAllBytes`, Main.java:26) and whether
      `output.csv` can be created (`new FileWriter`, Main.java:28). */
  datatype Environment = Environment(readable: string -> bool, csvWritable: bool)

  /** The outcome of `main`: a settings error throws first; then an
      unreadable payload file and then an uncreatable `output.csv` throw,
      all before the CSV is opened; otherwise the matrix runs,
      configuration `n` driven by `plans(n)`. */
  function MainSpec(args: seq<string>, env: Environment, plans: nat -> TestPlan): (out: MainOutcome)
    ensures out.csvOpened <==>
      ReadSettings(args).Some? && env.readable(ReadSettings(args).value.filePath) && env.csvWritable
    ensures !out.csvOpened ==> out.rows == [] && out.threw
    ensures out.csvOpened ==>
      var st := ReadSettings(args).value;
      (out.rows, out.threw) == RunCells(Cells(st.connOptions, st.channelPerConnOptions), st.durationSeconds, plans)
  {
    match ReadSettings(args)
    case None => MainOutcome(false, [], true)
    case Some(st) =>
      if !env.readable(st.filePath) || !env.csvWritable then MainOutcome(false, [], true)
      else
        var r := RunCells(Cells(st.connOptions, st.channelPerConnOptions), st.durationSeconds, plans);
        MainOutcome(true, r.0, r.1)
  }

  /** `Main.main`: read the arguments and settings, read the payload, open
      the CSV, then run the matrix. */
  method RunBenchmark(args: seq<string>, env: Environment, plans: nat -> TestPlan) returns (out: MainOutcome)
    ensures out == MainSpec(args, env, plans)
  {
    var argMap := Arguments.ParseArgs(args);
    var duration := Arguments.ParseInt(GetOrDefault(argMap, "TEST_DURATION_SECONDS", "10"));
    var connOptions := Arguments.ParseIntList(GetOrDefault(argMap, "connOptions", "4,8,16"));
    var channelsPerConnOptions := Arguments.ParseIntList(GetOrDefault(argMap, "channelPerConnOptions", "32,64"));
    if duration.None? || connOptions.None? || channelsPerConnOptions.None? {
      return MainOutcome(false, [], true);
    }
    var filePath := GetOrDefault(argMap, "filepath", "sample.jpg");
    ghost var st := ReadSettings(args).value;
    assert st.filePath == filePath && st.durationSeconds == duration.value;
    assert st.connOptions == connOptions.value && st.channelPerConnOptions == channelsPerConnOptions.value;
    if !env.readable(filePath) || !env.csvWritable {
      return MainOutcome(false, [], true);
    }
    var rows, aborted := RunMatrix(connOptions.value, channelsPerConnOptions.value, duration.value, plans);
    out := MainOutcome(true, rows, aborted);
  }

  /** When the last argument that sets `TEST_DURATION_SECONDS` gives a value
      `Integer.parseInt` rejects, `main` throws before it opens the CSV, so
      no configuration runs. */
  lemma BadDurationIsFatal(args: seq<string>, i: nat, v: string, env: Environment, plans: nat -> TestPlan)
    requires i < |args| && args[i] == "TEST_DURATION_SECONDS=" + v
    requires forall j :: i < j < |args| ==> !Arguments.Binds(args[j], "TEST_DURATION_SECONDS")
    requires Arguments.ParseInt(v).None?
    ensures ReadSettings(args) == None
    ensures MainSpec(args, env, plans) == MainOutcome(false, [], true)
  {
    var key := "TEST_DURATION_SECONDS";
    assert args[i] == key + ['='] + v;
    assert '=' !in key;
    Arguments.SplitFirstAt(args[i], '=', key, v);
    assert args[i][|key|] == '=';
    Arguments.ArgsMapLastWins(args, i);
  }

  /** For example, a last argument `TEST_DURATION_SECONDS=ten`. */
  lemma BadDurationExample(args: seq<string>, env: Environment, plans: nat -> TestPlan)
    requires |args| > 0 && args[|args| - 1] == "TEST_DURATION_SECONDS=ten"
    ensures MainSpec(args, env, plans) == MainOutcome(false, [], true)
  {
    assert args[|args| - 1] == "TEST_DURATION_SECONDS=" + "ten";
    assert !Arguments.IsDigit("ten"[0]);
    BadDurationIsFatal(args, |args| - 1, "ten", env, plans);
  }

  /** A missing payload file ends `main` before the CSV is opened, whatever
      the settings: no configuration runs. */
  lemma MissingPayloadIsFatal(args: seq<string>, env: Environment, plans: nat -> TestPlan)
    requires ReadSettings(args).Some? ==> !env.readable(ReadSettings(args).value.filePath)
    ensures MainSpec(args, env, plans) == MainOutcome(false, [], true)
  {
  }
}
