/** Connection and channel set-up of `Main.runTest`: `connCount`
    connections, then `threadCount` channels assigned round-robin, channel
    `i` on connection `i % connCount`. Broker handles are opaque values. */
module Provisioning {

  /** The connection opened at position `id` of the pool. */
  datatype Connection = Connection(id: nat)

  /** A channel opened on `conn`; `incarnation` tells a channel recreated
      after a fault (a new object) from the one it replaces. */
  datatype Channel = Channel(conn: Connection, incarnation: nat)

  /** The connection pool: connection `i` at index `i`. */
  function Connections(connCount: nat): (cs: seq<Connection>)
    ensures |cs| == connCount
  {
    seq(connCount, i requires 0 <= i < connCount => Connection(i))
  }

  /** The channels right after set-up: channel `i` on connection
      `i % connCount`. (Java's `%` agrees with Dafny's on these
      non-negative operands.) */
  function InitialChannels(connCount: nat, threadCount: nat): (chs: seq<Channel>)
    requires connCount > 0 || threadCount == 0
    ensures |chs| == threadCount
  {
    seq(threadCount, i requires 0 <= i < threadCount => Channel(Connection(i % connCount), 0))
  }

  /** The two set-up loops of `runTest`: open every connection, then open
      every channel on its round-robin connection. */
  method Provision(connCount: nat, threadCount: nat)
      returns (connections: array<Connection>, channels: array<Channel>)
    requires connCount > 0 || threadCount == 0
    ensures fresh(connections) && fresh(channels)
    ensures connections[..] == Connections(connCount)
    ensures channels[..] == InitialChannels(connCount, threadCount)
    ensures forall i :: 0 <= i < channels.Length ==>
      channels[i].conn == connections[i % connections.Length]
  {
    connections := new Connection[connCount];
    for i := 0 to connCount
      invariant forall j :: 0 <= j < i ==> connections[j] == Connection(j)
    {
      connections[i] := Connection(i);
    }
    channels := new Channel[threadCount];
    for i := 0 to threadCount
      modifies channels
      invariant forall j :: 0 <= j < i ==> channels[j] == Channel(connections[j % connCount], 0)
    {
      var connIndex := i % connCount;
      channels[i] := Channel(connections[connIndex], 0);
    }
  }

  /** How many of `chs` are bound to `conn`. */
  function CountOn(chs: seq<Channel>, conn: Connection): nat
  {
    if |chs| == 0 then 0
    else CountOn(chs[..|chs| - 1], conn) + (if chs[|chs| - 1].conn == conn then 1 else 0)
  }

  lemma ModOfMulAdd(n: nat, k: nat, m: nat)
    requires m < n
    ensures (n * k + m) % n == m
  {
    var t := n * k + m;
    var q: int, r: int := t / n, t % n;
    assert t == q * n + r && 0 <= r < n;
    assert n * k == k * n;
    SubMul(q, k, n);
    if q > k {
      AtLeastOnce(q - k, n);
    } else if q < k {
      SubMul(k, q, n);
      AtLeastOnce(k - q, n);
    }
  }

  lemma SubMul(a: int, b: int, n: int)
    ensures (a - b) * n == a * n - b * n
  {
  }

  lemma AtLeastOnce(d: int, n: nat)
    requires d >= 1
    ensures d * n >= n
  {
  }

  lemma MulSucc(n: nat, k: nat)
    ensures n * (k + 1) == n * k + n
  {
  }

  lemma InitialChannelsSnoc(n: nat, t: nat)
    requires n > 0
    ensures CountOn(InitialChannels(n, t + 1), Connection(t % n)) == CountOn(InitialChannels(n, t), Connection(t % n)) + 1
    ensures forall c :: c != t % n ==>
      CountOn(InitialChannels(n, t + 1), Connection(c)) == CountOn(InitialChannels(n, t), Connection(c))
  {
    var chs := InitialChannels(n, t + 1);
    assert chs[..t] == InitialChannels(n, t);
    assert chs[t].conn == Connection(t % n);
  }

  lemma {:induction false} CountPrefix(n: nat, k: nat, m: nat, t: nat, c: nat)
    requires n > 0 && m <= n && c < n
    requires t == n * k + m
    ensures CountOn(InitialChannels(n, t), Connection(c)) == k + (if c < m then 1 else 0)
    decreases k, m
  {
    if m == 0 {
      if k > 0 {
        MulSucc(n, k - 1);
        CountPrefix(n, k - 1, n, t, c);
      }
    } else {
      CountPrefix(n, k, m - 1, t - 1, c);
      ModOfMulAdd(n, k, m - 1);
      InitialChannelsSnoc(n, t - 1);
    }
  }

  /** With `threadCount = connCount * channelsPerConn`, every connection
      carries exactly `channelsPerConn` channels. */
  lemma EvenShare(connCount: nat, channelsPerConn: nat, c: nat)
    requires c < connCount
    ensures CountOn(InitialChannels(connCount, connCount * channelsPerConn), Connection(c))
         == channelsPerConn
  {
    CountPrefix(connCount, channelsPerConn, 0, connCount * channelsPerConn, c);
  }
}
