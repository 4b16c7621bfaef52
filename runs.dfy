/** Sequences of receives on the cluster socket, as the loops of sim-cluster/peer.py perform them:
    the relay state and the datagrams that a whole run of receive_and_feed calls produces, and the
    count of receives that end a `while receive_and_feed() <= 0` wait. */
module Runs {
  import Seqs
  import opened Bytes
  import opened Membership
  import opened Relay

  /** A receive handler that can take every consistent relay state and keeps it consistent. */
  ghost predicate Keeps(feed: (Relay, Event) --> Step) {
    forall r: Relay, ev: Event :: r.table.Consistent() ==> feed.requires(r, ev) && feed(r, ev).relay.table.Consistent()
  }

  /** receive_and_feed as a handler, for a given splitter and gatherer. */
  function Receiver(splitter: Endpoint, gatherer: Endpoint): (feed: (Relay, Event) --> Step)
    ensures Keeps(feed)
    ensures forall r: Relay, ev: Event :: r.table.Consistent() ==> feed(r, ev) == Feed(r, ev, splitter, gatherer)
  {
    (r: Relay, ev: Event) requires r.table.Consistent() => Feed(r, ev, splitter, gatherer)
  }

  /** The relay state after handling the receives `evs[i..j]` in order, with every datagram they
      caused. */
  function Run(feed: (Relay, Event) --> Step, r: Relay, evs: seq<Event>, i: nat, j: nat): (s: Step)
    requires Keeps(feed) && r.table.Consistent() && i <= j <= |evs|
    ensures s.relay.table.Consistent()
    decreases j - i
  {
    if i == j then Step(r, [])
    else
      var t := feed(r, evs[i]);
      var rest := Run(feed, t.relay, evs, i + 1, j);
      Step(rest.relay, t.sends + rest.sends)
  }

  /** Handling `evs[i..j]` and then `evs[j..k]` is handling `evs[i..k]`, with the sends
      concatenated. */
  lemma {:induction false} RunSplit(feed: (Relay, Event) --> Step, r: Relay, evs: seq<Event>, i: nat, j: nat, k: nat)
    requires Keeps(feed) && r.table.Consistent() && i <= j <= k <= |evs|
    decreases j - i
    ensures var s := Run(feed, r, evs, i, j);
      var t := Run(feed, s.relay, evs, j, k);
      Run(feed, r, evs, i, k) == Step(t.relay, s.sends + t.sends)
  {
    if i < j {
      var f := feed(r, evs[i]);
      RunSplit(feed, f.relay, evs, i + 1, j, k);
      var s := Run(feed, f.relay, evs, i + 1, j);
      var t := Run(feed, s.relay, evs, j, k);
      Seqs.AppendAssociates(f.sends, s.sends, t.sends);
    } else {
      var t := Run(feed, r, evs, j, k);
      assert [] + t.sends == t.sends;
    }
  }

  /** Receives that contain no data block leave the cursor and `last` alone and send nothing. */
  lemma {:induction false} RunWithoutData(r: Relay, evs: seq<Event>, i: nat, j: nat, splitter: Endpoint, gatherer: Endpoint)
    requires r.table.Consistent() && i <= j <= |evs|
    requires forall m :: i <= m < j ==> !evs[m].IsData()
    decreases j - i
    ensures var s := Run(Receiver(splitter, gatherer), r, evs, i, j);
      s.sends == [] && s.relay.counter == r.counter && s.relay.last == r.last
  {
    if i < j {
      RunWithoutData(Feed(r, evs[i], splitter, gatherer).relay, evs, i + 1, j, splitter, gatherer);
    }
  }

  /** A receive ends a `while receive_and_feed() <= 0` wait exactly when it is a data block with a
      nonzero block number. */
  predicate EndsWait(ev: Event) {
    !Outcome(ev).AtMostZero()
  }

  lemma EndsWaitIff(ev: Event)
    ensures EndsWait(ev) <==> ev.IsData() && DecodeU16(ev.message) > 0
  {
  }

  /** The number of receives in `evs[i..j]` that end a wait. */
  function Arrivals(evs: seq<Event>, i: nat, j: nat): (n: nat)
    requires i <= j <= |evs|
    ensures n <= j - i
    decreases j - i
  {
    if i == j then 0
    else Arrivals(evs, i, j - 1) + (if EndsWait(evs[j - 1]) then 1 else 0)
  }

  /** Arrivals add up over adjacent windows of receives. */
  lemma {:induction false} ArrivalsSplit(evs: seq<Event>, i: nat, j: nat, k: nat)
    requires i <= j <= k <= |evs|
    decreases k - j
    ensures Arrivals(evs, i, k) == Arrivals(evs, i, j) + Arrivals(evs, j, k)
  {
    if j < k {
      ArrivalsSplit(evs, i, j, k - 1);
    }
  }

  /** The ring slot of a `size`-slot ring that a data block is stored in. */
  function SlotOf(ev: Event, size: nat): nat
    requires ev.IsData() && size > 0
  {
    DecodeU16(ev.message) % size
  }

  /** The `received` flags after feeding the first `k` receives of `evs` in order: each data block
      marks its slot. */
  function Marked(flags: seq<bool>, evs: seq<Event>, k: nat): (r: seq<bool>)
    requires |flags| > 0 && k <= |evs|
    ensures |r| == |flags|
    decreases k
  {
    if k == 0 then flags
    else
      var before := Marked(flags, evs, k - 1);
      var ev := evs[k - 1];
      if ev.IsData() then before[SlotOf(ev, |flags|) := true] else before
  }

  /** A flag is set after the first `k` receives exactly when it was set before or one of their
      data blocks went to that slot. */
  lemma {:induction false} MarkedIff(flags: seq<bool>, evs: seq<Event>, k: nat, slot: nat)
    requires |flags| > 0 && k <= |evs| && slot < |flags|
    decreases k
    ensures Marked(flags, evs, k)[slot] <==>
      flags[slot] || exists m :: 0 <= m < k && evs[m].IsData() && SlotOf(evs[m], |flags|) == slot
  {
    if k > 0 {
      MarkedIff(flags, evs, k - 1, slot);
    }
  }
}
