/** The relay engine of sim-cluster/peer.py as functions on values: how one received datagram
    changes the membership table, the round-robin cursor and `last`, and what it sends. */
module Relay {
  import opened Seqs
  import opened Bytes
  import opened Membership

  /** Size of a stream block and of a data datagram (a 2-byte block number followed by a 1024-byte payload). */
  const BlockSize: nat := 1024
  const DataMessageSize: nat := 2 + BlockSize

  /** A datagram written to the cluster socket. */
  datatype Send = Send(to: Endpoint, payload: Bytes)

  /** One receive on the cluster socket: the bytes `recvfrom` returned and their sender, or a timeout. */
  datatype Event = Datagram(sender: Endpoint, message: Bytes) | Timeout {
    predicate IsData() { Datagram? && |message| == DataMessageSize }
    predicate IsControl() { Datagram? && |message| == 0 }
  }

  /** The relay state: membership table, round-robin cursor `counter`, and `last`, the message
      most recently received from the splitter (initially the empty string). */
  datatype Relay = Relay(table: Table, counter: nat, last: Bytes)

  /** What a burst leaves behind. */
  datatype Sweep = Sweep(table: Table, sends: seq<Send>)

  /** What a congestion-avoidance step leaves behind. */
  datatype Forward = Forward(table: Table, counter: nat, sends: seq<Send>)

  /** What one receive leaves behind. */
  datatype Step = Step(relay: Relay, sends: seq<Send>)

  function Destinations(sends: seq<Send>): (d: seq<Endpoint>)
    ensures |d| == |sends| && forall i :: 0 <= i < |sends| ==> d[i] == sends[i].to
  {
    seq(|sends|, i requires 0 <= i < |sends| => sends[i].to)
  }

  /** The value receive_and_feed returns, following Python 2 (`None` orders below every integer). */
  datatype Returned = PyNone | PyInt(value: int)

  /** Outcome of receive_and_feed: a block number, -1 for a control datagram, -2 for a timeout,
      or nothing for a datagram of any other length. */
  datatype FeedResult = BlockNumber(n: nat) | ControlHandled | TimedOut | Ignored {

    function Returned(): Returned {
      match this
      case BlockNumber(n) => PyInt(n)
      case ControlHandled => PyInt(-1)
      case TimedOut => PyInt(-2)
      case Ignored => PyNone
    }

    /** Python's `r <= 0`, the test of the buffering loops. */
    predicate AtMostZero() {
      match Returned()
      case PyNone => true
      case PyInt(v) => v <= 0
    }

    /** Python's `r >= 0`, the test of the steady-state loop. */
    predicate AtLeastZero() {
      match Returned()
      case PyNone => false
      case PyInt(v) => v >= 0
    }
  }

  /** The result receive_and_feed returns for an event. */
  function Outcome(ev: Event): (r: FeedResult)
    ensures r.AtLeastZero() <==> ev.IsData()
    ensures r.BlockNumber? ==> r.n == DecodeU16(ev.message) && r.n < U16Limit
    ensures r.AtMostZero() <==> !ev.IsData() || DecodeU16(ev.message) == 0
    ensures r == ControlHandled <==> ev.IsControl()
    ensures r == TimedOut <==> ev.Timeout?
  {
    match ev
    case Timeout => TimedOut
    case Datagram(_, message) =>
      if |message| == DataMessageSize then BlockNumber(DecodeU16(message))
      else if |message| == 0 then ControlHandled
      else Ignored
  }

  /** Block 0 counts as "no data" for the buffering loops and as data for the steady-state loop. */
  lemma BlockZeroIsBoth(ev: Event)
    requires ev.IsData() && DecodeU16(ev.message) == 0
    ensures Outcome(ev).AtMostZero() && Outcome(ev).AtLeastZero()
  {
  }

  /** The burst loop: while `0 < counter < len(peer_list)` send `last` to `peer_list[counter]`,
      penalize that peer and advance `counter`, also past a peer just evicted. */
  function Burst(t: Table, c: nat, last: Bytes): (r: Sweep)
    requires t.Consistent()
    ensures r.table.Consistent()
    ensures !(0 < c < |t.peers|) ==> r == Sweep(t, [])
    decreases |t.peers| - c
  {
    if 0 < c < |t.peers| then
      var p := t.peers[c];
      var rest := Burst(Penalize(t, p), c + 1, last);
      Sweep(rest.table, [Send(p, last)] + rest.sends)
    else
      Sweep(t, [])
  }

  /** A burst sends `last` and nothing else, at most once per position from `c` on, and
      leaves no one listed who was not listed before. */
  lemma {:induction false} BurstShape(t: Table, c: nat, last: Bytes)
    requires t.Consistent()
    decreases |t.peers| - c
    ensures var r := Burst(t, c, last);
      && (c < |t.peers| ==> |r.sends| <= |t.peers| - c)
      && (forall i :: 0 <= i < |r.sends| ==> r.sends[i].payload == last)
      && (forall q :: q in r.table.peers ==> q in t.peers)
  {
    if 0 < c < |t.peers| {
      var p := t.peers[c];
      var t' := Penalize(t, p);
      BurstShape(t', c + 1, last);
      if p !in t'.peers { RemoveUnique(t.peers, p); }
    }
  }

  /** One round of the burst loop: the sweep from `c` is a send to `peers[c]` followed by the
      sweep from `c + 1` over the table with that peer penalized; returns that remaining sweep. */
  lemma BurstStep(t: Table, c: nat, last: Bytes) returns (rest: Sweep)
    requires t.Consistent() && 0 < c < |t.peers|
    ensures rest == Burst(Penalize(t, t.peers[c]), c + 1, last)
    ensures Burst(t, c, last) == Sweep(rest.table, [Send(t.peers[c], last)] + rest.sends)
  {
    rest := Burst(Penalize(t, t.peers[c]), c + 1, last);
  }

  /** The destinations of a burst from a position in range: that peer, then the rest of the burst. */
  lemma BurstDestStep(t: Table, c: nat, last: Bytes)
    requires t.Consistent() && 0 < c < |t.peers|
    ensures Destinations(Burst(t, c, last).sends) ==
      [t.peers[c]] + Destinations(Burst(Penalize(t, t.peers[c]), c + 1, last).sends)
  {
    var rest := Burst(Penalize(t, t.peers[c]), c + 1, last);
    assert Burst(t, c, last).sends == [Send(t.peers[c], last)] + rest.sends;
  }

  /** The burst loop's step in terms of what it has sent so far: sending to `peers[c]` and going
      on from `c + 1` over the penalized table ends with the same table and the same sends. */
  lemma BurstSendsStep(t: Table, c: nat, last: Bytes, before: seq<Send>)
    requires t.Consistent() && 0 < c < |t.peers|
    ensures Burst(Penalize(t, t.peers[c]), c + 1, last).table == Burst(t, c, last).table
    ensures (before + [Send(t.peers[c], last)]) + Burst(Penalize(t, t.peers[c]), c + 1, last).sends
            == before + Burst(t, c, last).sends
  {
    var rest := Burst(Penalize(t, t.peers[c]), c + 1, last);
    assert Burst(t, c, last).sends == [Send(t.peers[c], last)] + rest.sends;
    AppendAssociates(before, [Send(t.peers[c], last)], rest.sends);
  }

  /** Penalizing the peer at position `c` either keeps the list or closes the gap at `c`. */
  lemma PenalizeAt(t: Table, c: nat)
    requires t.Consistent() && c < |t.peers|
    ensures var t' := Penalize(t, t.peers[c]);
      t'.peers == t.peers || t'.peers == t.peers[..c] + t.peers[c + 1..]
  {
    if t.peers[c] !in Penalize(t, t.peers[c]).peers {
      RemoveAt(t.peers, c);
    }
  }

  /** A burst sends to distinct peers, all taken from position `c` onwards of the list it started with. */
  lemma {:induction false} BurstDestinations(t: Table, c: nat, last: Bytes)
    requires t.Consistent()
    decreases |t.peers| - c
    ensures var d := Destinations(Burst(t, c, last).sends);
      NoDuplicates(d) && (d != [] ==> c < |t.peers| && Elements(d) <= Elements(t.peers[c..]))
  {
    if 0 < c < |t.peers| {
      var p := t.peers[c];
      var t' := Penalize(t, p);
      BurstDestinations(t', c + 1, last);
      PenalizeAt(t, c);
      var dr := Destinations(Burst(t', c + 1, last).sends);
      BurstDestStep(t, c, last);
      LaterPositions(t.peers, t'.peers, c, dr);
    }
  }

  /** Elements found after position `c` of a list with position `c` possibly closed up were after
      position `c` of the original list; prefixing the element at `c` keeps them distinct. */
  lemma LaterPositions<T>(s: seq<T>, s': seq<T>, c: nat, dr: seq<T>)
    requires NoDuplicates(s) && c < |s|
    requires s' == s || s' == s[..c] + s[c + 1..]
    requires NoDuplicates(dr)
    requires dr != [] ==> c + 1 < |s'| && Elements(dr) <= Elements(s'[c + 1..])
    ensures NoDuplicates([s[c]] + dr)
    ensures Elements([s[c]] + dr) <= Elements(s[c..])
  {
    var d := [s[c]] + dr;
    assert s[c] !in Elements(s[c + 1..]) by {
      forall k | c + 1 <= k < |s| ensures s[k] != s[c] { }
    }
    if dr != [] {
      assert Elements(s'[c + 1..]) <= Elements(s[c + 1..]) by {
        if s' != s {
          assert s'[c + 1..] == s[c + 2..];
        }
      }
      forall i, j | 0 <= i < j < |d| ensures d[i] != d[j] {
        assert d[j] == dr[j - 1] && d[j] in Elements(dr);
        if i > 0 { assert d[i] == dr[i - 1]; }
      }
    }
    assert s[c..] == [s[c]] + s[c + 1..];
    assert Elements(s[c..]) == {s[c]} + Elements(s[c + 1..]);
    assert Elements(d) == {s[c]} + Elements(dr);
  }

  /** A burst leaves every endpoint it did not send to as it was: listed or not, same counter. */
  lemma {:induction false} BurstLeavesOthers(t: Table, c: nat, last: Bytes, q: Endpoint)
    requires t.Consistent()
    requires q !in Destinations(Burst(t, c, last).sends)
    decreases |t.peers| - c
    ensures var r := Burst(t, c, last).table;
      && (q in r.peers <==> q in t.peers)
      && (q in r.insolidarity <==> q in t.insolidarity)
      && (q in t.insolidarity ==> r.insolidarity[q] == t.insolidarity[q])
  {
    if 0 < c < |t.peers| {
      var p := t.peers[c];
      var t' := Penalize(t, p);
      BurstDestStep(t, c, last);
      BurstLeavesOthers(t', c + 1, last, q);
      if p !in t'.peers { RemoveUnique(t.peers, p); }
    }
  }

  /** A burst never adds a counter. */
  lemma {:induction false} BurstKeys(t: Table, c: nat, last: Bytes)
    requires t.Consistent()
    decreases |t.peers| - c
    ensures Burst(t, c, last).table.insolidarity.Keys <= t.insolidarity.Keys
  {
    if 0 < c < |t.peers| {
      BurstKeys(Penalize(t, t.peers[c]), c + 1, last);
    }
  }

  /** A peer the burst sent to got one point, and was evicted from both list and map exactly when
      its counter was already at the limit. */
  lemma {:induction false} BurstPenalizesOnce(t: Table, c: nat, last: Bytes, q: Endpoint)
    requires t.Consistent()
    requires q in Destinations(Burst(t, c, last).sends)
    decreases |t.peers| - c
    ensures q in t.peers
    ensures var r := Burst(t, c, last).table;
      && (q in r.peers <==> t.insolidarity[q] < InsolidarityLimit)
      && (q in r.insolidarity <==> q in r.peers)
      && (q in r.peers ==> r.insolidarity[q] == t.insolidarity[q] + 1)
  {
    BurstDestStep(t, c, last);
    var p := t.peers[c];
    if q == p {
      BurstPenalizesHead(t, c, last);
    } else {
      var t' := Penalize(t, p);
      BurstPenalizesOnce(t', c + 1, last, q);
      if p !in t'.peers { RemoveUnique(t.peers, p); }
    }
  }

  /** The first peer a burst sends to is penalized once and never again by that burst. */
  lemma BurstPenalizesHead(t: Table, c: nat, last: Bytes)
    requires t.Consistent() && 0 < c < |t.peers|
    ensures var q, r := t.peers[c], Burst(t, c, last).table;
      && (q in r.peers <==> t.insolidarity[q] < InsolidarityLimit)
      && (q in r.insolidarity <==> q in r.peers)
      && (q in r.peers ==> r.insolidarity[q] == t.insolidarity[q] + 1)
  {
    var p := t.peers[c];
    var t' := Penalize(t, p);
    BurstSkipsHead(t, c, last);
    BurstLeavesOthers(t', c + 1, last, p);
    assert Burst(t, c, last).table == Burst(t', c + 1, last).table;
  }

  /** The rest of a burst does not send to the peer it started with again. */
  lemma BurstSkipsHead(t: Table, c: nat, last: Bytes)
    requires t.Consistent() && 0 < c < |t.peers|
    ensures t.peers[c] !in Destinations(Burst(Penalize(t, t.peers[c]), c + 1, last).sends)
  {
    var p := t.peers[c];
    var dr := Destinations(Burst(Penalize(t, p), c + 1, last).sends);
    BurstDestStep(t, c, last);
    BurstDestinations(t, c, last);
    var d := [p] + dr;
    forall i | 0 <= i < |dr| ensures dr[i] != p { assert d[0] != d[i + 1]; }
  }

  /** When nobody from position `c` on is at the limit, a burst sends `last` to every one of
      them, once each and in list order, and evicts nobody. */
  lemma {:induction false} BurstWithoutEviction(t: Table, c: nat, last: Bytes)
    requires t.Consistent() && 0 < c <= |t.peers|
    requires forall i :: c <= i < |t.peers| ==> t.insolidarity[t.peers[i]] < InsolidarityLimit
    decreases |t.peers| - c
    ensures Burst(t, c, last).table.peers == t.peers
    ensures Destinations(Burst(t, c, last).sends) == t.peers[c..]
  {
    if c < |t.peers| {
      var p := t.peers[c];
      var t' := Penalize(t, p);
      var raised := t.insolidarity[p := t.insolidarity[p] + 1];
      assert t' == Table(t.peers, raised);
      forall i | c + 1 <= i < |t.peers| ensures raised[t.peers[i]] < InsolidarityLimit {
        assert t.peers[i] != t.peers[c];
      }
      BurstWithoutEviction(t', c + 1, last);
      BurstDestStep(t, c, last);
      assert t.peers[c..] == [p] + t.peers[c + 1..];
    }
  }

  /** One congestion-avoidance step: at most one datagram, `last` to `peer_list[counter]`, only when
      `counter` is in range; that peer is penalized and the cursor advances by one. */
  function Congest(t: Table, c: nat, last: Bytes): (r: Forward)
    requires t.Consistent()
    ensures r.table.Consistent()
    ensures |r.sends| == (if c < |t.peers| then 1 else 0)
    ensures c < |t.peers| ==> r.sends[0] == Send(t.peers[c], last) && r.counter == c + 1 && r.table == Penalize(t, t.peers[c])
    ensures c >= |t.peers| ==> r.counter == c && r.table == t
  {
    if c < |t.peers| then
      Forward(Penalize(t, t.peers[c]), c + 1, [Send(t.peers[c], last)])
    else
      Forward(t, c, [])
  }

  /** A data block: from the splitter it goes to the gatherer unchanged, the previous `last` is burst,
      the cursor resets and `last` becomes the new message; from anyone else the sender is admitted.
      Either way one congestion-avoidance step follows, with the `last` in force at that point. */
  function RelayBlock(r: Relay, sender: Endpoint, message: Bytes, splitter: Endpoint, gatherer: Endpoint): (s: Step)
    requires r.table.Consistent()
    ensures s.relay.table.Consistent()
  {
    if sender == splitter then
      var b := Burst(r.table, r.counter, r.last);
      var f := Congest(b.table, 0, message);
      Step(Relay(f.table, f.counter, message), [Send(gatherer, message)] + b.sends + f.sends)
    else
      var t := AdmitForwarder(r.table, sender);
      var f := Congest(t, r.counter, r.last);
      Step(Relay(f.table, f.counter, r.last), f.sends)
  }

  /** A splitter block reaches the gatherer first and replaces `last`; the cursor ends at 1 unless
      the list is empty, and with the cursor at 0 no burst happens, so only the first listed peer
      gets the new block. */
  lemma RelayFromSplitter(r: Relay, message: Bytes, splitter: Endpoint, gatherer: Endpoint)
    requires r.table.Consistent()
    ensures var s := RelayBlock(r, splitter, message, splitter, gatherer);
      && |s.sends| >= 1 && s.sends[0] == Send(gatherer, message) && s.relay.last == message
      && s.relay.counter == (if |Burst(r.table, r.counter, r.last).table.peers| > 0 then 1 else 0)
      && (r.counter == 0 ==>
           s.sends == [Send(gatherer, message)] + (if |r.table.peers| > 0 then [Send(r.table.peers[0], message)] else []))
  {
  }

  /** A block from anyone else leaves `last` alone, sends at most one datagram, and leaves the
      sender listed with a counter of at most 1 (it was reset to 0 and may be the one penalized). */
  lemma RelayFromForwarder(r: Relay, sender: Endpoint, message: Bytes, splitter: Endpoint, gatherer: Endpoint)
    requires r.table.Consistent() && sender != splitter
    ensures var s := RelayBlock(r, sender, message, splitter, gatherer);
      && s.relay.last == r.last && |s.sends| <= 1
      && sender in s.relay.table.peers && s.relay.table.insolidarity[sender] <= 1
  {
  }

  /** The effect of receive_and_feed on the relay state and the cluster socket. */
  function Feed(r: Relay, ev: Event, splitter: Endpoint, gatherer: Endpoint): (s: Step)
    requires r.table.Consistent()
    ensures s.relay.table.Consistent()
    ensures !ev.IsData() ==> s.sends == [] && s.relay.counter == r.counter && s.relay.last == r.last
    ensures ev.IsControl() ==> s.relay.table == ToggleControl(r.table, ev.sender)
    ensures !ev.IsData() && !ev.IsControl() ==> s.relay == r
  {
    match ev
    case Timeout => Step(r, [])
    case Datagram(sender, message) =>
      if |message| == DataMessageSize then RelayBlock(r, sender, message, splitter, gatherer)
      else if |message| == 0 then Step(Relay(ToggleControl(r.table, sender), r.counter, r.last), [])
      else Step(r, [])
  }
}
