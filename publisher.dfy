/** One publisher task of `Main.runTest` (the lambda submitted per channel)
    as a sequential state machine. The broker and the clock are replaced by
    a script: what each publish attempt does, in order, until the deadline,
    and what recreating the channel does after a transport fault. */
module Publisher {
  import opened Provisioning

  /** What one `basicPublish` call does: returns after `latencyNanos`,
      throws `IOException` or `ShutdownSignalException` (a transport
      fault), or throws any other exception. */
  datatype PublishOutcome = Published(latencyNanos: int) | TransportFault | OtherFault

  /** What recreating the channel does: both `createChannel` and
      `queueDeclare` succeed, or one of them throws. */
  datatype RecoveryOutcome = Recovered | CreateFailed | DeclareFailed

  /** The environment of one task: the publish attempts the loop makes
      before the deadline (as long as none faults), and the recovery. */
  datatype TaskScript = TaskScript(publishes: seq<PublishOutcome>, recovery: RecoveryOutcome)

  /** How a task ends: the deadline passed; a transport fault and the
      channel was replaced; a transport fault whose recovery failed (the task
      sleeps one second and ends); another exception, printed. */
  datatype TaskEnd = DeadlineReached | ChannelReplaced | RecoveryFailed | FaultLogged

  /** The sum of the latency samples. */
  function Sum(s: seq<int>): int {
    if |s| == 0 then 0 else Sum(s[..|s| - 1]) + s[|s| - 1]
  }

  /** The run's counters (`AtomicLong counter`, `LongAdder totalLatency`),
      as plain counters. `samples` lists the latencies recorded so far. */
  class Metrics {
    var messageCount: int
    var latencyNanos: int
    ghost var samples: seq<int>

    /** Every sample is counted once and added once. */
    ghost predicate Valid()
      reads this
    {
      messageCount == |samples| && latencyNanos == Sum(samples)
    }

    constructor ()
      ensures Valid() && samples == []
    {
      messageCount, latencyNanos := 0, 0;
      samples := [];
    }

    /** `totalLatency.add(latency); counter.incrementAndGet();` */
    method Record(latency: int)
      requires Valid()
      modifies this
      ensures Valid() && samples == old(samples) + [latency]
    {
      latencyNanos := latencyNanos + latency;
      messageCount := messageCount + 1;
      samples := samples + [latency];
      assert samples[..|samples| - 1] == old(samples);
    }
  }

  predicate IsFault(o: PublishOutcome) {
    !o.Published?
  }

  /** The number of publishes that succeed before the first fault. */
  function SuccessRun(pubs: seq<PublishOutcome>): (n: nat)
    ensures n <= |pubs|
    ensures forall i :: 0 <= i < n ==> pubs[i].Published?
    ensures n < |pubs| ==> IsFault(pubs[n])
  {
    if |pubs| == 0 || IsFault(pubs[0]) then 0 else 1 + SuccessRun(pubs[1..])
  }

  /** The latencies of the first `n` publishes, all successful. */
  function LatenciesOf(pubs: seq<PublishOutcome>, n: nat): seq<int>
    requires n <= |pubs|
    requires forall i :: 0 <= i < n ==> pubs[i].Published?
  {
    seq(n, i requires 0 <= i < n => pubs[i].latencyNanos)
  }

  /** The latency samples one task records: those of the publishes before
      the first fault. */
  function Latencies(pubs: seq<PublishOutcome>): seq<int> {
    LatenciesOf(pubs, SuccessRun(pubs))
  }

  /** How the task driven by `script` ends. The `try` encloses the whole
      loop, so the first fault of either kind ends the task. */
  function TaskEndOf(script: TaskScript): (e: TaskEnd)
    ensures e == DeadlineReached <==>
      forall i :: 0 <= i < |script.publishes| ==> script.publishes[i].Published?
    ensures e == FaultLogged <==> FirstFaultIs(script.publishes, OtherFault)
    ensures e == ChannelReplaced <==> FirstFaultIs(script.publishes, TransportFault) && script.recovery.Recovered?
    ensures e == RecoveryFailed <==> FirstFaultIs(script.publishes, TransportFault) && !script.recovery.Recovered?
  {
    var n := SuccessRun(script.publishes);
    FirstFaultAt(script.publishes, n);
    if n == |script.publishes| then DeadlineReached
    else if script.publishes[n].OtherFault? then FaultLogged
    else if script.recovery.Recovered? then ChannelReplaced
    else RecoveryFailed
  }

  /** The first attempt that does not succeed has outcome `fault`. */
  ghost predicate FirstFaultIs(pubs: seq<PublishOutcome>, fault: PublishOutcome) {
    exists i :: 0 <= i < |pubs| && pubs[i] == fault && forall j :: 0 <= j < i ==> pubs[j].Published?
  }

  lemma FirstFaultAt(pubs: seq<PublishOutcome>, n: nat)
    requires n == SuccessRun(pubs)
    ensures n < |pubs| ==> forall f: PublishOutcome :: !f.Published? ==> (FirstFaultIs(pubs, f) <==> pubs[n] == f)
    ensures n == |pubs| ==> forall f: PublishOutcome :: !FirstFaultIs(pubs, f) || f.Published?
  {
    if n < |pubs| {
      assert forall j :: 0 <= j < n ==> pubs[j].Published?;
    }
  }

  /** The content of the task's own slot `channels[index]` after the task:
      a new channel on connection `index % connections.length` when the
      recovery succeeded, the old one otherwise. */
  function SlotAfter(slot: Channel, index: nat, script: TaskScript, connections: seq<Connection>): (r: Channel)
    requires |connections| > 0
    ensures r == slot <==> TaskEndOf(script) != ChannelReplaced
    ensures r != slot ==> r.conn == connections[index % |connections|] && r.incarnation == slot.incarnation + 1
  {
    if TaskEndOf(script) == ChannelReplaced
    then Channel(connections[index % |connections|], slot.incarnation + 1)
    else slot
  }

  /** A fault at position `i` caps the task at `i` recorded samples. */
  lemma {:induction false} FaultCapsSamples(pubs: seq<PublishOutcome>, i: nat)
    requires i < |pubs| && IsFault(pubs[i])
    ensures |Latencies(pubs)| <= i
    ensures forall recovery :: TaskEndOf(TaskScript(pubs, recovery)) != DeadlineReached
  {
    if i > 0 && !IsFault(pubs[0]) {
      FaultCapsSamples(pubs[1..], i - 1);
    }
  }

  /** Publishing does not resume after the first fault: whatever the broker
      would do afterwards is never seen, and the task ends the same way. */
  lemma {:induction false} NothingAfterFirstFault(pubs: seq<PublishOutcome>, rest: seq<PublishOutcome>, recovery: RecoveryOutcome)
    requires SuccessRun(pubs) < |pubs|
    ensures Latencies(pubs + rest) == Latencies(pubs)
    ensures TaskEndOf(TaskScript(pubs + rest, recovery)) == TaskEndOf(TaskScript(pubs, recovery))
  {
    SuccessRunPrefix(pubs, rest);
    var n := SuccessRun(pubs);
    assert (pubs + rest)[n] == pubs[n];
  }

  lemma {:induction false} SuccessRunPrefix(pubs: seq<PublishOutcome>, rest: seq<PublishOutcome>)
    requires SuccessRun(pubs) < |pubs|
    ensures SuccessRun(pubs + rest) == SuccessRun(pubs)
  {
    if !IsFault(pubs[0]) {
      assert (pubs + rest)[1..] == pubs[1..] + rest;
      SuccessRunPrefix(pubs[1..], rest);
    }
  }

  /** Without a fault every publish is recorded, in order, and the task runs
      to the deadline. */
  lemma AllPublished(script: TaskScript)
    requires forall i :: 0 <= i < |script.publishes| ==> script.publishes[i].Published?
    ensures |Latencies(script.publishes)| == |script.publishes|
    ensures forall i :: 0 <= i < |script.publishes| ==>
      Latencies(script.publishes)[i] == script.publishes[i].latencyNanos
    ensures TaskEndOf(script) == DeadlineReached
  {
  }

  /** One task, `index`, publishing on `channels[index]` until the deadline
      or the first fault; on a transport fault it recreates its channel on
      its own connection once and stores it in its own slot only. */
  method RunTask(index: nat, script: TaskScript, connections: array<Connection>,
                 channels: array<Channel>, metrics: Metrics) returns (end: TaskEnd)
    requires index < channels.Length && connections.Length > 0
    requires metrics.Valid()
    modifies channels, metrics
    ensures metrics.Valid()
    ensures metrics.samples == old(metrics.samples) + Latencies(script.publishes)
    ensures end == TaskEndOf(script)
    ensures channels[index] == SlotAfter(old(channels[index]), index, script, connections[..])
    ensures forall j :: 0 <= j < channels.Length && j != index ==> channels[j] == old(channels[j])
  {
    var channel := channels[index];
    var pubs := script.publishes;
    var k := 0;
    var faulted := false;
    while k < |pubs| && !faulted
      invariant 0 <= k <= |pubs|
      invariant forall i :: 0 <= i < k ==> pubs[i].Published?
      invariant faulted ==> k < |pubs| && IsFault(pubs[k])
      invariant metrics.Valid()
      invariant metrics.samples == old(metrics.samples) + LatenciesOf(pubs, k)
      invariant channels[..] == old(channels[..])
      decreases |pubs| - k, !faulted
    {
      match pubs[k]
      case Published(latency) =>
        metrics.Record(latency);
        assert LatenciesOf(pubs, k + 1) == LatenciesOf(pubs, k) + [latency];
        k := k + 1;
      case _ =>
        faulted := true;
    }
    assert k == SuccessRun(pubs);
    if !faulted {
      end := DeadlineReached;
    } else if pubs[k].OtherFault? {
      end := FaultLogged;
    } else {
      var connIndex := index % connections.Length;
      match script.recovery
      case Recovered =>
        channel := Channel(connections[connIndex], channel.incarnation + 1);
        channels[index] := channel;
        end := ChannelReplaced;
      case CreateFailed =>
        end := RecoveryFailed;
      case DeclareFailed =>
        // the new channel exists, but is not stored in the slot
        channel := Channel(connections[connIndex], channel.incarnation + 1);
        end := RecoveryFailed;
    }
  }

  /** The samples all tasks `0 .. n-1` record, task by task. */
  function AllLatencies(scripts: nat -> TaskScript, n: nat): seq<int> {
    if n == 0 then [] else AllLatencies(scripts, n - 1) + Latencies(scripts(n - 1).publishes)
  }

  /** The number of successful publishes of tasks `0 .. n-1`. */
  function PublishedCount(scripts: nat -> TaskScript, n: nat): nat {
    if n == 0 then 0 else PublishedCount(scripts, n - 1) + SuccessRun(scripts(n - 1).publishes)
  }

  /** The counter ends up equal to the number of successful publishes over
      all tasks: none is lost or counted twice. */
  lemma {:induction false} AllLatenciesCount(scripts: nat -> TaskScript, n: nat)
    ensures |AllLatencies(scripts, n)| == PublishedCount(scripts, n)
  {
    if n > 0 {
      AllLatenciesCount(scripts, n - 1);
    }
  }

  /** All tasks of one configuration, task `i` driven by `scripts(i)`, run
      one after the other. Each task touches only its own slot, and the
      counters only grow. */
  method RunTasks(connections: array<Connection>, channels: array<Channel>,
                  metrics: Metrics, scripts: nat -> TaskScript)
    requires connections.Length > 0 || channels.Length == 0
    requires metrics.Valid()
    modifies channels, metrics
    ensures metrics.Valid()
    ensures metrics.samples == old(metrics.samples) + AllLatencies(scripts, channels.Length)
    ensures forall j :: 0 <= j < channels.Length ==>
      channels[j] == SlotAfter(old(channels[j]), j, scripts(j), connections[..])
  {
    for i := 0 to channels.Length
      invariant metrics.Valid()
      invariant metrics.samples == old(metrics.samples) + AllLatencies(scripts, i)
      invariant forall j :: 0 <= j < i ==>
        channels[j] == SlotAfter(old(channels[j]), j, scripts(j), connections[..])
      invariant forall j :: i <= j < channels.Length ==> channels[j] == old(channels[j])
    {
      var _ := RunTask(i, scripts(i), connections, channels, metrics);
    }
  }

  /** A recreated channel stays on the connection of the round-robin layout,
      because `connections.length == connCount`. */
  lemma RecoveryKeepsConnection(connCount: nat, threadCount: nat, index: nat, script: TaskScript)
    requires connCount > 0 && index < threadCount
    ensures SlotAfter(InitialChannels(connCount, threadCount)[index], index, script, Connections(connCount)).conn
         == Connection(index % connCount)
  {
  }
}
