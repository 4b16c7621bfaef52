/** Values and pure definitions behind the transaction-relay peer of src/Peer.java: node and
    transaction identifiers, the events a peer receives or schedules for itself, what it hands to
    the simulator, and the functions that specify flooding, reconciliation bookkeeping and the
    round-robin reconciliation queue. */
module TxSpec {
  import opened Seqs

  /** A PeerSim node, identified by its ID; node 0 is the transaction source. */
  type NodeId = nat
  type TxId = nat
  const SourceId: NodeId := 0

  /** The SimpleEvent kinds a peer handles: INV, RECON_REQUEST and SKETCH arrive from a peer,
      SCHEDULED_INV and SCHEDULED_SKETCH are events a peer scheduled for itself. */
  datatype TxEvent =
    | Inv(sender: NodeId, tx: TxId)
    | ReconRequest(sender: NodeId)
    | Sketch(sender: NodeId, txs: seq<TxId>)
    | ScheduledInv(recipient: NodeId, tx: TxId)
    | ScheduledSketch(recipient: NodeId)

  /** What a peer hands to the simulator: an event scheduled for itself after a delay, or an
      event transmitted to another node. */
  datatype Output = Schedule(delay: nat, event: TxEvent) | Transmit(to: NodeId, event: TxEvent)

  /** scheduleInv may look up the recipient: it is the source or a connected peer. */
  predicate Addressable(recipient: NodeId, connected: set<NodeId>) {
    recipient == SourceId || recipient in connected
  }

  /** Every destination of a list is addressable. */
  predicate AllAddressable(dests: seq<NodeId>, connected: set<NodeId>) {
    forall i :: 0 <= i < |dests| ==> Addressable(dests[i], connected)
  }

  /** scheduleInv announces only to a peer that is not the source and does not know the tx. */
  predicate Announceable(recipient: NodeId, knows: map<NodeId, set<TxId>>, tx: TxId)
    requires Addressable(recipient, knows.Keys)
  {
    recipient != SourceId && tx !in knows[recipient]
  }

  /** The events one scheduleInv call adds. */
  function ScheduleFor(delay: nat, recipient: NodeId, knows: map<NodeId, set<TxId>>, tx: TxId): (r: seq<Output>)
    requires Addressable(recipient, knows.Keys)
    ensures |r| <= 1
    ensures r != [] <==> recipient != SourceId && tx !in knows[recipient]
    ensures forall o :: o in r ==> o == Schedule(delay, ScheduledInv(recipient, tx))
  {
    if Announceable(recipient, knows, tx) then [Schedule(delay, ScheduledInv(recipient, tx))] else []
  }

  /** The events a run of scheduleInv calls adds when `dests[i]` gets delay `delays[i]`. */
  function Announce(dests: seq<NodeId>, delays: seq<nat>, knows: map<NodeId, set<TxId>>, tx: TxId): (r: seq<Output>)
    requires |delays| == |dests| && AllAddressable(dests, knows.Keys)
    ensures |r| <= |dests|
    ensures forall o :: o in r ==> o.Schedule? && o.event.ScheduledInv? && o.event.tx == tx && o.event.recipient in dests
  {
    if dests == [] then []
    else
      var n := |dests| - 1;
      assert AllAddressable(dests[..n], knows.Keys);
      Announce(dests[..n], delays[..n], knows, tx) + ScheduleFor(delays[n], dests[n], knows, tx)
  }

  /** The announcements are exactly one scheduled INV, with its own delay, for each destination
      that is not the source and does not know the tx. */
  lemma {:induction false} AnnounceMembers(dests: seq<NodeId>, delays: seq<nat>, knows: map<NodeId, set<TxId>>, tx: TxId)
    requires |delays| == |dests| && AllAddressable(dests, knows.Keys)
    ensures |Announce(dests, delays, knows, tx)| <= |dests|
    ensures forall o :: o in Announce(dests, delays, knows, tx) ==>
      exists i :: 0 <= i < |dests| && Announceable(dests[i], knows, tx) && o == Schedule(delays[i], ScheduledInv(dests[i], tx))
    ensures forall i :: 0 <= i < |dests| && Announceable(dests[i], knows, tx) ==>
      Schedule(delays[i], ScheduledInv(dests[i], tx)) in Announce(dests, delays, knows, tx)
  {
    if dests != [] {
      var n := |dests| - 1;
      assert AllAddressable(dests[..n], knows.Keys);
      AnnounceMembers(dests[..n], delays[..n], knows, tx);
      var r := Announce(dests, delays, knows, tx);
      var front := Announce(dests[..n], delays[..n], knows, tx);
      var tail := ScheduleFor(delays[n], dests[n], knows, tx);
      assert r == front + tail;
      forall o | o in r
        ensures exists i :: 0 <= i < |dests| && Announceable(dests[i], knows, tx) && o == Schedule(delays[i], ScheduledInv(dests[i], tx))
      {
        if o in front {
          var i :| 0 <= i < n && Announceable(dests[..n][i], knows, tx) && o == Schedule(delays[..n][i], ScheduledInv(dests[..n][i], tx));
          assert dests[..n][i] == dests[i] && delays[..n][i] == delays[i];
        } else {
          assert o in tail;
          assert Announceable(dests[n], knows, tx) && o == Schedule(delays[n], ScheduledInv(dests[n], tx));
        }
      }
      forall i | 0 <= i < |dests| && Announceable(dests[i], knows, tx)
        ensures Schedule(delays[i], ScheduledInv(dests[i], tx)) in r
      {
        if i < n {
          assert dests[..n][i] == dests[i] && delays[..n][i] == delays[i];
          assert Schedule(delays[i], ScheduledInv(dests[i], tx)) in front;
        } else {
          assert tail == [Schedule(delays[i], ScheduledInv(dests[i], tx))];
        }
      }
    }
  }

  /** Announcing to one more destination appends that destination's scheduleInv events. */
  lemma AnnounceSnoc(dests: seq<NodeId>, delays: seq<nat>, p: NodeId, d: nat, knows: map<NodeId, set<TxId>>, tx: TxId)
    requires |delays| == |dests| && AllAddressable(dests, knows.Keys) && Addressable(p, knows.Keys)
    ensures AllAddressable(dests + [p], knows.Keys)
    ensures Announce(dests + [p], delays + [d], knows, tx) == Announce(dests, delays, knows, tx) + ScheduleFor(d, p, knows, tx)
  {
    assert (dests + [p])[..|dests|] == dests;
    assert (delays + [d])[..|delays|] == delays;
  }

  /** A flood loop's log after one more destination: the announcements to `dests[..j + 1]` are
      those to `dests[..j]` followed by destination `j`'s scheduleInv event. */
  lemma AnnounceStep(log: seq<Output>, dests: seq<NodeId>, j: nat, delays: seq<nat>, d: nat, knows: map<NodeId, set<TxId>>, tx: TxId)
    requires j < |dests| && |delays| == j
    requires AllAddressable(dests[..j], knows.Keys) && Addressable(dests[j], knows.Keys)
    ensures AllAddressable(dests[..j + 1], knows.Keys)
    ensures log + Announce(dests[..j + 1], delays + [d], knows, tx)
      == (log + Announce(dests[..j], delays, knows, tx)) + ScheduleFor(d, dests[j], knows, tx)
  {
    AnnounceSnoc(dests[..j], delays, dests[j], d, knows, tx);
    assert dests[..j + 1] == dests[..j] + [dests[j]];
    Seqs.AppendAssociates(log, Announce(dests[..j], delays, knows, tx), ScheduleFor(d, dests[j], knows, tx));
  }

  /** Peers that know the tx are never announced to. */
  lemma AnnounceSkipsKnowers(dests: seq<NodeId>, delays: seq<nat>, knows: map<NodeId, set<TxId>>, tx: TxId, p: NodeId)
    requires |delays| == |dests| && AllAddressable(dests, knows.Keys)
    requires p == SourceId || (p in knows && tx in knows[p])
    ensures forall o :: o in Announce(dests, delays, knows, tx) ==> o.event != ScheduledInv(p, tx)
  {
    AnnounceMembers(dests, delays, knows, tx);
  }

  /** `after` extends `before` by scheduled INVs only, each for one of `txs`. */
  predicate InvsOf(before: seq<Output>, after: seq<Output>, txs: set<TxId>) {
    && before <= after
    && forall k :: |before| <= k < |after| ==>
         after[k].Schedule? && after[k].event.ScheduledInv? && after[k].event.tx in txs
  }

  /** Appending scheduled INVs of `txs` is an extension by scheduled INVs of `txs`. */
  lemma InvsOfAppend(log: seq<Output>, a: seq<Output>, txs: set<TxId>)
    requires forall o :: o in a ==> o.Schedule? && o.event.ScheduledInv? && o.event.tx in txs
    ensures InvsOf(log, log + a, txs)
  {
    forall k | |log| <= k < |log + a|
      ensures (log + a)[k].Schedule? && (log + a)[k].event.ScheduledInv? && (log + a)[k].event.tx in txs
    {
      assert (log + a)[k] == a[k - |log|] && a[k - |log|] in a;
    }
  }

  /** Announcing a tx appends scheduled INVs of that tx only. */
  lemma AnnounceInvs(log: seq<Output>, dests: seq<NodeId>, delays: seq<nat>, knows: map<NodeId, set<TxId>>, tx: TxId)
    requires |delays| == |dests| && AllAddressable(dests, knows.Keys)
    ensures InvsOf(log, log + Announce(dests, delays, knows, tx), {tx})
  {
    InvsOfAppend(log, Announce(dests, delays, knows, tx), {tx});
  }

  /** Two extensions by scheduled INVs make one, for the txs of both. */
  lemma InvsOfTrans(a: seq<Output>, b: seq<Output>, c: seq<Output>, s: set<TxId>, t: set<TxId>, u: set<TxId>)
    requires InvsOf(a, b, s) && InvsOf(b, c, t) && s + t <= u
    ensures InvsOf(a, c, u)
  {
    assert c[..|b|] == b && b[..|a|] == a;
  }

  /** Flooding one tx both ways, which appends two runs of scheduled INVs of that tx, extends
      the log by scheduled INVs of that tx only. */
  lemma FloodInvs(log: seq<Output>, ins: seq<Output>, outs: seq<Output>, tx: TxId)
    requires forall o :: o in ins ==> o.Schedule? && o.event.ScheduledInv? && o.event.tx == tx
    requires forall o :: o in outs ==> o.Schedule? && o.event.ScheduledInv? && o.event.tx == tx
    ensures InvsOf(log, log + ins + outs, {tx})
  {
    InvsOfAppend(log, ins, {tx});
    InvsOfAppend(log + ins, outs, {tx});
    InvsOfTrans(log, log + ins, log + ins + outs, {tx}, {tx}, {tx});
  }

  /** The INVs handleSketchMessage schedules for the sender are scheduled INVs of the listed txs. */
  lemma {:induction false} InvsToInvs(log: seq<Output>, recipient: NodeId, txs: seq<TxId>)
    ensures InvsOf(log, log + InvsTo(recipient, txs), Elements(txs))
  {
    if txs != [] {
      var init, x := txs[..|txs| - 1], txs[|txs| - 1];
      var mid := log + InvsTo(recipient, init);
      InvsToInvs(log, recipient, init);
      assert txs == init + [x];
      assert log + InvsTo(recipient, txs) == mid + [Schedule(0, ScheduledInv(recipient, x))];
      assert InvsOf(mid, mid + [Schedule(0, ScheduledInv(recipient, x))], {x});
      InvsOfTrans(log, mid, log + InvsTo(recipient, txs), Elements(init), {x}, Elements(txs));
    }
  }

  /** The (recipient, tx) pairs of the scheduled INVs among some outputs. */
  function Invited(out: seq<Output>): set<(NodeId, TxId)> {
    set k | 0 <= k < |out| && out[k].Schedule? && out[k].event.ScheduledInv? :: (out[k].event.recipient, out[k].event.tx)
  }

  /** A pair is invited exactly when some output schedules an INV of that tx for that recipient. */
  lemma InvitedIff(out: seq<Output>, recipient: NodeId, tx: TxId)
    ensures (recipient, tx) in Invited(out) <==>
      exists k :: 0 <= k < |out| && out[k].Schedule? && out[k].event == ScheduledInv(recipient, tx)
  {
  }

  /** A single output invites its own pair when it schedules an INV, and nothing otherwise. */
  lemma InvitedSingle(o: Output)
    ensures Invited([o]) == if o.Schedule? && o.event.ScheduledInv? then {(o.event.recipient, o.event.tx)} else {}
  {
    assert [o][0] == o;
  }

  /** The pairs of two runs of outputs, one after the other. */
  lemma InvitedAppend(a: seq<Output>, b: seq<Output>)
    ensures Invited(a + b) == Invited(a) + Invited(b)
  {
    var ab := a + b;
    forall pr | pr in Invited(ab) ensures pr in Invited(a) + Invited(b) {
      var k :| 0 <= k < |ab| && ab[k].Schedule? && ab[k].event.ScheduledInv? && pr == (ab[k].event.recipient, ab[k].event.tx);
      if k < |a| {
        assert ab[k] == a[k];
      } else {
        assert ab[k] == b[k - |a|];
      }
    }
    forall pr | pr in Invited(a) + Invited(b) ensures pr in Invited(ab) {
      if pr in Invited(a) {
        var k :| 0 <= k < |a| && a[k].Schedule? && a[k].event.ScheduledInv? && pr == (a[k].event.recipient, a[k].event.tx);
        assert ab[k] == a[k];
      } else {
        var k :| 0 <= k < |b| && b[k].Schedule? && b[k].event.ScheduledInv? && pr == (b[k].event.recipient, b[k].event.tx);
        assert ab[|a| + k] == b[k];
      }
    }
  }

  /** What a log gains past a prefix, when more outputs are appended after it. */
  lemma InvitedExtend(log0: seq<Output>, mid: seq<Output>, tail: seq<Output>)
    requires log0 <= mid
    ensures log0 <= mid + tail
    ensures Invited((mid + tail)[|log0|..]) == Invited(mid[|log0|..]) + Invited(tail)
  {
    assert (mid + tail)[|log0|..] == mid[|log0|..] + tail;
    InvitedAppend(mid[|log0|..], tail);
  }

  /** The pairs that flooding each tx of `txs` to `dests` announces: every destination that is
      not the source and does not know the tx. */
  function Reach(txs: set<TxId>, dests: seq<NodeId>, knows: map<NodeId, set<TxId>>): set<(NodeId, TxId)>
    requires AllAddressable(dests, knows.Keys)
  {
    set x, i | x in txs && 0 <= i < |dests| && Announceable(dests[i], knows, x) :: (dests[i], x)
  }

  /** The pairs of INVs for one recipient, one per tx. */
  function Addressed(recipient: NodeId, txs: set<TxId>): set<(NodeId, TxId)> {
    set x | x in txs :: (recipient, x)
  }

  /** Floods of two sets of txs reach the pairs of both. */
  lemma ReachUnion(a: set<TxId>, b: set<TxId>, dests: seq<NodeId>, knows: map<NodeId, set<TxId>>)
    requires AllAddressable(dests, knows.Keys)
    ensures Reach(a + b, dests, knows) == Reach(a, dests, knows) + Reach(b, dests, knows)
  {
  }

  /** One more destination adds its own pair to what a flood of one tx reaches, when it may be
      announced to. */
  lemma ReachSnoc(dests: seq<NodeId>, seen: map<NodeId, set<TxId>>, tx: TxId)
    requires dests != [] && AllAddressable(dests, seen.Keys)
    ensures AllAddressable(dests[..|dests| - 1], seen.Keys)
    ensures var n := |dests| - 1;
      Reach({tx}, dests, seen) ==
        Reach({tx}, dests[..n], seen) + (if Announceable(dests[n], seen, tx) then {(dests[n], tx)} else {})
  {
    var n := |dests| - 1;
    assert AllAddressable(dests[..n], seen.Keys);
    var front := Reach({tx}, dests[..n], seen);
    var last := if Announceable(dests[n], seen, tx) then {(dests[n], tx)} else {};
    forall pr | pr in Reach({tx}, dests, seen) ensures pr in front + last {
      var x, i :| x in {tx} && 0 <= i < |dests| && Announceable(dests[i], seen, x) && pr == (dests[i], x);
      if i < n {
        assert dests[..n][i] == dests[i];
      }
    }
    forall pr | pr in front + last ensures pr in Reach({tx}, dests, seen) {
      if pr in front {
        var x, i :| x in {tx} && 0 <= i < n && Announceable(dests[..n][i], seen, x) && pr == (dests[..n][i], x);
        assert dests[..n][i] == dests[i];
      }
    }
  }

  /** One scheduleInv call invites its recipient exactly when it may be announced to. */
  lemma InvitedScheduleFor(delay: nat, recipient: NodeId, knows: map<NodeId, set<TxId>>, tx: TxId)
    requires Addressable(recipient, knows.Keys)
    ensures Invited(ScheduleFor(delay, recipient, knows, tx)) ==
      if Announceable(recipient, knows, tx) then {(recipient, tx)} else {}
  {
    if Announceable(recipient, knows, tx) {
      InvitedSingle(Schedule(delay, ScheduledInv(recipient, tx)));
    }
  }

  /** Announcing a tx invites exactly the pairs its flood reaches, under any knowledge that
      agrees on who knows that tx. */
  lemma {:induction false} AnnounceReach(dests: seq<NodeId>, delays: seq<nat>, knows: map<NodeId, set<TxId>>,
                                         seen: map<NodeId, set<TxId>>, tx: TxId)
    requires |delays| == |dests| && AllAddressable(dests, knows.Keys)
    requires seen.Keys == knows.Keys && forall p :: p in knows ==> (tx in knows[p] <==> tx in seen[p])
    ensures AllAddressable(dests, seen.Keys)
    ensures Invited(Announce(dests, delays, knows, tx)) == Reach({tx}, dests, seen)
  {
    assert AllAddressable(dests, seen.Keys);
    if dests != [] {
      var n := |dests| - 1;
      assert AllAddressable(dests[..n], knows.Keys);
      AnnounceReach(dests[..n], delays[..n], knows, seen, tx);
      InvitedAppend(Announce(dests[..n], delays[..n], knows, tx), ScheduleFor(delays[n], dests[n], knows, tx));
      InvitedScheduleFor(delays[n], dests[n], knows, tx);
      ReachSnoc(dests, seen, tx);
      assert Announceable(dests[n], knows, tx) == Announceable(dests[n], seen, tx);
    }
  }

  /** The INVs handleSketchMessage schedules for the sender invite it for each listed tx. */
  lemma {:induction false} InvitedInvsTo(recipient: NodeId, txs: seq<TxId>)
    ensures Invited(InvsTo(recipient, txs)) == Addressed(recipient, Elements(txs))
  {
    if txs != [] {
      var n := |txs| - 1;
      InvitedInvsTo(recipient, txs[..n]);
      InvitedAppend(InvsTo(recipient, txs[..n]), [Schedule(0, ScheduledInv(recipient, txs[n]))]);
      InvitedSingle(Schedule(0, ScheduledInv(recipient, txs[n])));
      assert txs == txs[..n] + [txs[n]];
      assert Elements(txs) == Elements(txs[..n]) + {txs[n]};
    }
  }

  /** One more first-time tx of a sketch, flooded both ways: the pairs the log has gained since
      `log0` grow by the pairs that tx's floods reach. */
  lemma FloodReach(log0: seq<Output>, mid: seq<Output>, ins: seq<Output>, outs: seq<Output>,
                   inbound: seq<NodeId>, outbound: seq<NodeId>, seen: map<NodeId, set<TxId>>,
                   txs: set<TxId>, tx: TxId)
    requires log0 <= mid
    requires AllAddressable(inbound, seen.Keys) && AllAddressable(outbound, seen.Keys)
    requires Invited(mid[|log0|..]) == Reach(txs, inbound, seen) + Reach(txs, outbound, seen)
    requires Invited(ins) == Reach({tx}, inbound, seen) && Invited(outs) == Reach({tx}, outbound, seen)
    ensures log0 <= mid + ins + outs
    ensures Invited((mid + ins + outs)[|log0|..]) == Reach(txs + {tx}, inbound, seen) + Reach(txs + {tx}, outbound, seen)
  {
    InvitedExtend(log0, mid, ins + outs);
    InvitedAppend(ins, outs);
    assert mid + ins + outs == mid + (ins + outs);
    ReachUnion(txs, {tx}, inbound, seen);
    ReachUnion(txs, {tx}, outbound, seen);
  }

  /** What the first loop of handleSketchMessage adds to the log past `log0`: scheduled INVs of
      the relayed txs only, whose (recipient, tx) pairs are exactly the pairs of a flood
      destination and a relayed tx it does not know, as a set. */
  ghost predicate SketchFloods(log0: seq<Output>, log: seq<Output>, relayed: set<TxId>,
                               inbound: seq<NodeId>, outbound: seq<NodeId>, knows: map<NodeId, set<TxId>>)
  {
    && InvsOf(log0, log, relayed)
    && AllAddressable(inbound, knows.Keys) && AllAddressable(outbound, knows.Keys)
    && Invited(log[|log0|..]) == Reach(relayed, inbound, knows) + Reach(relayed, outbound, knows)
  }

  /** What the two loops of handleSketchMessage add to the log past `log0`: scheduled INVs only,
      whose (recipient, tx) pairs, as a set, are the pairs of a flood destination and a relayed
      tx it does not know, together with the sender paired with each tx of `unheard`. */
  ghost predicate SketchInvs(log0: seq<Output>, log: seq<Output>, sender: NodeId, relayed: set<TxId>, unheard: set<TxId>,
                             inbound: seq<NodeId>, outbound: seq<NodeId>, knows: map<NodeId, set<TxId>>)
  {
    && InvsOf(log0, log, relayed + unheard)
    && AllAddressable(inbound, knows.Keys) && AllAddressable(outbound, knows.Keys)
    && Invited(log[|log0|..]) == Reach(relayed, inbound, knows) + Reach(relayed, outbound, knows) + Addressed(sender, unheard)
  }

  /** The floods of the first loop followed by the INVs of the second loop, one to the sender
      for each announced tx, make up what SketchInvs describes. */
  lemma SketchInvsCompose(log0: seq<Output>, absorbed: seq<Output>, sender: NodeId, relayed: set<TxId>,
                          announced: seq<TxId>, inbound: seq<NodeId>, outbound: seq<NodeId>,
                          knows: map<NodeId, set<TxId>>)
    requires SketchFloods(log0, absorbed, relayed, inbound, outbound, knows)
    ensures SketchInvs(log0, absorbed + InvsTo(sender, announced), sender, relayed, Elements(announced),
                       inbound, outbound, knows)
  {
    var log := absorbed + InvsTo(sender, announced);
    InvsToInvs(absorbed, sender, announced);
    InvsOfTrans(log0, absorbed, log, relayed, Elements(announced), relayed + Elements(announced));
    InvitedExtend(log0, absorbed, InvsTo(sender, announced));
    InvitedInvsTo(sender, announced);
  }

  /** Every pair SketchInvs accounts for is an INV the log did gain past `log0`: at least one
      to the sender for each unheard tx, and at least one to each flood destination that is not
      the source and does not know a relayed tx. */
  lemma SketchInvsPresent(log0: seq<Output>, log: seq<Output>, sender: NodeId, relayed: set<TxId>, unheard: set<TxId>,
                          inbound: seq<NodeId>, outbound: seq<NodeId>, knows: map<NodeId, set<TxId>>,
                          recipient: NodeId, tx: TxId)
    requires SketchInvs(log0, log, sender, relayed, unheard, inbound, outbound, knows)
    requires (recipient == sender && tx in unheard) ||
             (tx in relayed && (recipient in inbound || recipient in outbound) &&
              recipient != SourceId && recipient in knows && tx !in knows[recipient])
    ensures exists k :: |log0| <= k < |log| && log[k].Schedule? && log[k].event == ScheduledInv(recipient, tx)
  {
    var gained := log[|log0|..];
    assert (recipient, tx) in Invited(gained) by {
      if recipient == sender && tx in unheard {
        assert (recipient, tx) in Addressed(sender, unheard);
      } else if recipient in inbound {
        var i :| 0 <= i < |inbound| && inbound[i] == recipient;
        assert (recipient, tx) in Reach(relayed, inbound, knows);
      } else {
        var i :| 0 <= i < |outbound| && outbound[i] == recipient;
        assert (recipient, tx) in Reach(relayed, outbound, knows);
      }
    }
    InvitedIff(gained, recipient, tx);
    var k :| 0 <= k < |gained| && gained[k].Schedule? && gained[k].event == ScheduledInv(recipient, tx);
    assert log[|log0| + k] == gained[k];
  }

  /** The three counts of a sketch exchange: `shared` entries the local recon set also has,
      `usMiss` other entries, and `theyMiss` local txs the sketch lacks. */
  predicate Tallied(remote: seq<TxId>, local: set<TxId>, shared: nat, usMiss: nat, theyMiss: nat) {
    shared == SharedCount(remote, local) && shared + usMiss == |remote| && theyMiss == |local - Elements(remote)|
  }

  /** What the two loops of handleSketchMessage leave behind, against the recon sets,
      knowledge, arrival times, log and inbound flood timer they started from: the three counts
      are Tallied, the relayed txs are spread to the other recon sets when reconciling and the
      sender's recon set is emptied, the sender knows every tx of its sketch, the txs met for
      the first time are timed at `now`, the log gains the INVs of SketchInvs, and the timer is
      kept or rearmed once at `now`. */
  ghost predicate Exchanged(sender: NodeId, remote: seq<TxId>, now: nat, spread: nat, reconcile: bool,
                            inbound: seq<NodeId>, outbound: seq<NodeId>,
                            sets0: map<NodeId, set<TxId>>, sets: map<NodeId, set<TxId>>,
                            knows0: map<NodeId, set<TxId>>, knows: map<NodeId, set<TxId>>,
                            times0: map<TxId, nat>, times: map<TxId, nat>,
                            log0: seq<Output>, log: seq<Output>, timer0: nat, timer: nat,
                            shared: nat, usMiss: nat, theyMiss: nat)
    requires sender in sets0 && sender in knows0
  {
    var local := sets0[sender];
    var relayed := Relayed(remote, local, times0.Keys);
    && Tallied(remote, local, shared, usMiss, theyMiss)
    && sets == (if reconcile then Spread(sets0, sender, relayed) else sets0)[sender := {}]
    && knows == knows0[sender := knows0[sender] + Elements(remote)] && knows.Keys == knows0.Keys
    && times == Arrived(times0, relayed, now)
    && SketchInvs(log0, log, sender, relayed, Unheard(local, remote, sender, knows), inbound, outbound, knows)
    && TimerFrom(timer0, timer, now, spread)
  }


  /** The accounting of one verdict: the verdict on the difference, its sketch cost added to the
      short INVs, and exactly one of the three outcome counters incremented. */
  predicate Booked(capacity: nat, diff: nat, verdict: Verdict, short0: nat, short: nat, succ0: nat, succ: nat,
                   ext0: nat, ext: nat, failed0: nat, failed: nat)
  {
    && verdict == Judge(capacity, diff)
    && short == short0 + SketchCost(verdict, capacity)
    && succ == succ0 + (if verdict == Succeeded then 1 else 0)
    && ext == ext0 + (if verdict == Extended then 1 else 0)
    && failed == failed0 + (if verdict == Failed then 1 else 0)
  }

  /** Knowledge after learning `a` about one peer and after learning a larger `b` agree on who
      knows any tx of `a`. */
  lemma LearnedAlike(knows: map<NodeId, set<TxId>>, p: NodeId, a: set<TxId>, b: set<TxId>, tx: TxId)
    requires p in knows && tx in a && a <= b
    ensures var ka, kb := knows[p := knows[p] + a], knows[p := knows[p] + b];
      kb.Keys == ka.Keys && forall q :: q in ka ==> (tx in ka[q] <==> tx in kb[q])
  {
  }

  /** The inbound flood timer across several floods at one time `now`: untouched, or rearmed
      once, from an expired value, to a time in `[now, now + 2 * spread]`. */
  ghost predicate TimerFrom(first: nat, current: nat, now: nat, spread: nat) {
    current == first || (first < now && now <= current <= now + 2 * spread)
  }

  /** One more flood at the same time keeps that description: a rearmed timer is no longer
      expired, so it is not rearmed again. */
  lemma TimerFromStep(first: nat, before: nat, after: nat, now: nat, spread: nat, delays: seq<nat>)
    requires TimerFrom(first, before, now, spread) && SharedTimer(before, after, now, spread, delays)
    ensures TimerFrom(first, after, now, spread)
  {
  }

  /** The shared inbound flood timer of flood: the first inbound destination gets delay 0 and
      rearms the timer when it has expired (`before < now`); every other destination waits for
      the timer. `delays` are the delays given to the inbound destinations so far. */
  ghost predicate SharedTimer(before: nat, after: nat, now: nat, spread: nat, delays: seq<nat>) {
    if before < now && |delays| > 0 then
      now <= after <= now + 2 * spread && delays[0] == 0 &&
      forall j :: 1 <= j < |delays| ==> delays[j] == after - now
    else
      after == before && forall j :: 0 <= j < |delays| ==> delays[j] == before - now
  }

  /** One more inbound destination: it gets delay 0 and rearms the timer when the timer has
      expired, and otherwise waits for it. */
  ghost predicate TimerStep(before: nat, after: nat, now: nat, spread: nat, d: nat) {
    if before < now then d == 0 && now <= after <= now + 2 * spread
    else d == before - now && after == before
  }

  /** The shared timer is kept by one more inbound destination. */
  lemma SharedTimerSnoc(first: nat, before: nat, after: nat, now: nat, spread: nat, delays: seq<nat>, d: nat)
    requires SharedTimer(first, before, now, spread, delays)
    requires TimerStep(before, after, now, spread, d)
    ensures SharedTimer(first, after, now, spread, delays + [d])
  {
    var ds := delays + [d];
    if first < now && |delays| > 0 {
      assert !(before < now);
      forall j | 1 <= j < |ds| ensures ds[j] == after - now {
        if j < |delays| { assert ds[j] == delays[j]; }
      }
    } else if first < now {
      assert before == first;
    } else {
      forall j | 0 <= j < |ds| ensures ds[j] == after - now {
        if j < |delays| { assert ds[j] == delays[j]; }
      }
    }
  }

  /** Every inbound destination after the first waits until one and the same instant, which no
      later than `2 * spread` after now. */
  lemma SharedTimerOneInstant(before: nat, after: nat, now: nat, spread: nat, delays: seq<nat>, i: nat, j: nat)
    requires SharedTimer(before, after, now, spread, delays)
    requires 1 <= i < |delays| && 1 <= j < |delays|
    ensures delays[i] == delays[j]
    ensures before < now ==> delays[i] <= 2 * spread
  {
  }

  /** handleReconRequest: the delay before the sketch is sent, with the batching timer. */
  function ResponseDelay(next: nat, now: nat): (d: nat)
    ensures next < now ==> d == 0
    ensures now <= next ==> now + d == next
  {
    if next < now then 0 else next - now
  }

  /** The transactions `addToReconSets` adds, for each tx in `txs`, to every recon set except
      the sender's. */
  function Spread(sets: map<NodeId, set<TxId>>, sender: NodeId, txs: set<TxId>): (r: map<NodeId, set<TxId>>)
    ensures r.Keys == sets.Keys
    ensures sender in sets ==> r[sender] == sets[sender]
  {
    map n | n in sets :: if n == sender then sets[n] else sets[n] + txs
  }

  /** Spreading one batch of transactions and then another is spreading both at once. */
  lemma SpreadTwice(sets: map<NodeId, set<TxId>>, sender: NodeId, a: set<TxId>, b: set<TxId>)
    ensures Spread(Spread(sets, sender, a), sender, b) == Spread(sets, sender, a + b)
  {
    var l := Spread(Spread(sets, sender, a), sender, b);
    var r := Spread(sets, sender, a + b);
    assert l.Keys == r.Keys;
    forall n | n in l ensures l[n] == r[n] {
    }
  }

  /** Spreading nothing changes nothing. */
  lemma SpreadNothing(sets: map<NodeId, set<TxId>>, sender: NodeId)
    ensures Spread(sets, sender, {}) == sets
  {
    var r := Spread(sets, sender, {});
    assert r.Keys == sets.Keys;
    forall n | n in r ensures r[n] == sets[n] {
    }
  }

  /** The outcome of one sketch exchange. */
  datatype Verdict = Succeeded | Extended | Failed

  /** Sketch capacity: the set-size difference, plus the estimate term (`defaultQ` times the sum of
      the two set sizes, truncated), plus one. */
  function Capacity(localSize: nat, remoteSize: nat, qTerm: nat): (c: nat)
    ensures c > qTerm
    ensures c > localSize - remoteSize && c > remoteSize - localSize
  {
    (if localSize >= remoteSize then localSize - remoteSize else remoteSize - localSize) + qTerm + 1
  }

  /** A sketch decodes when its capacity exceeds the difference, an extended one when twice
      the capacity does, and otherwise the exchange fails. */
  function Judge(capacity: nat, diff: nat): (v: Verdict)
    ensures v == Succeeded <==> diff < capacity
    ensures v == Failed <==> 2 * capacity <= diff
  {
    if capacity > diff then Succeeded
    else if capacity * 2 > diff then Extended
    else Failed
  }

  /** How many short ids the exchange costs for a verdict. */
  function SketchCost(v: Verdict, capacity: nat): (c: nat)
    ensures capacity <= c <= 2 * capacity
    ensures v == Succeeded ==> c == capacity
    ensures v != Succeeded ==> c == 2 * capacity
  {
    if v == Succeeded then capacity else 2 * capacity
  }

  /** Verdicts in order of increasing cost. */
  function Rank(v: Verdict): nat {
    match v
    case Succeeded => 0
    case Extended => 1
    case Failed => 2
  }

  /** A larger difference never gives a cheaper verdict; a difference of zero always decodes. */
  lemma JudgeMonotone(capacity: nat, d1: nat, d2: nat)
    requires d1 <= d2
    ensures Rank(Judge(capacity, d1)) <= Rank(Judge(capacity, d2))
    ensures SketchCost(Judge(capacity, d1), capacity) <= SketchCost(Judge(capacity, d2), capacity)
    ensures capacity > 0 ==> Judge(capacity, 0) == Succeeded
  {
  }

  /** The number of positions of `remote` whose tx is in `local` (`shared`). */
  function SharedCount(remote: seq<TxId>, local: set<TxId>): (n: nat)
    ensures n <= |remote|
  {
    if remote == [] then 0
    else SharedCount(remote[..|remote| - 1], local) + (if remote[|remote| - 1] in local then 1 else 0)
  }

  /** `shared` reaches `|remote|` exactly when every tx of the sketch is in the local set, and
      is zero exactly when none is. */
  lemma {:induction false} SharedCountBounds(remote: seq<TxId>, local: set<TxId>)
    ensures SharedCount(remote, local) == |remote| <==> forall i :: 0 <= i < |remote| ==> remote[i] in local
    ensures SharedCount(remote, local) == 0 <==> forall i :: 0 <= i < |remote| ==> remote[i] !in local
  {
    if remote != [] {
      var n := |remote| - 1;
      SharedCountBounds(remote[..n], local);
      assert forall i :: 0 <= i < n ==> remote[..n][i] == remote[i];
    }
  }

  /** Positions of `remote` not in `local` whose tx was already known when the loop reached
      them: known before the sketch, or met earlier in the sketch. Each costs one extra INV. */
  function KnownMisses(remote: seq<TxId>, local: set<TxId>, known: set<TxId>): (n: nat)
    ensures n <= |remote| - SharedCount(remote, local)
  {
    if remote == [] then 0
    else
      var n := |remote| - 1;
      var x := remote[n];
      KnownMisses(remote[..n], local, known) + (if x !in local && (x in known || x in remote[..n]) then 1 else 0)
  }

  /** What handling one more position `i` of a sketch does to the counts and sets above. */
  lemma SketchStep(remote: seq<TxId>, i: nat, local: set<TxId>, known: set<TxId>)
    requires i < |remote|
    ensures var x := remote[i];
      SharedCount(remote[..i + 1], local) == SharedCount(remote[..i], local) + (if x in local then 1 else 0) &&
      KnownMisses(remote[..i + 1], local, known) ==
        KnownMisses(remote[..i], local, known) + (if x !in local && (x in known || x in remote[..i]) then 1 else 0) &&
      Relayed(remote[..i + 1], local, known) ==
        Relayed(remote[..i], local, known) + (if x !in local && x !in known && x !in remote[..i] then {x} else {}) &&
      Elements(remote[..i + 1]) == Elements(remote[..i]) + {x} &&
      (x !in local ==> (x in known + Relayed(remote[..i], local, known) <==> x in known || x in remote[..i]))
  {
    var p := remote[..i + 1];
    assert p[..i] == remote[..i];
    assert p == remote[..i] + [remote[i]];
  }

  /** The txs of a sketch that the peer meets for the first time: it records and relays them. */
  function Relayed(remote: seq<TxId>, local: set<TxId>, known: set<TxId>): set<TxId> {
    set x | x in remote && x !in local && x !in known
  }

  /** Arrival times after recording `added` at `now`; earlier times are kept. */
  function Arrived(times: map<TxId, nat>, added: set<TxId>, now: nat): (r: map<TxId, nat>)
    ensures r.Keys == times.Keys + added
    ensures forall t :: t in times ==> r[t] == times[t]
  {
    map t | t in times.Keys + added :: if t in times then times[t] else now
  }

  /** Recording nothing changes nothing. */
  lemma ArrivedNothing(times: map<TxId, nat>, now: nat)
    ensures Arrived(times, {}, now) == times
  {
  }

  /** Recording one more tx that has no time yet. */
  lemma ArrivedSnoc(times: map<TxId, nat>, added: set<TxId>, tx: TxId, now: nat)
    requires tx !in times && tx !in added
    ensures Arrived(times, added + {tx}, now) == Arrived(times, added, now)[tx := now]
  {
    var l := Arrived(times, added + {tx}, now);
    var r := Arrived(times, added, now)[tx := now];
    assert l.Keys == r.Keys;
  }

  /** One more entry of a sketch, in the terms handleSketchMessage keeps while it walks the
      sketch: the entry is relayed exactly when it is neither local nor timed yet, and the arrival
      times, recon sets and miss count move on accordingly. */
  lemma AbsorbAdvance(remote: seq<TxId>, i: nat, local: set<TxId>, times0: map<TxId, nat>,
                      sets0: map<NodeId, set<TxId>>, sender: NodeId, now: nat)
    requires i < |remote|
    ensures var x := remote[i];
      var before := Relayed(remote[..i], local, times0.Keys);
      var after := Relayed(remote[..i + 1], local, times0.Keys);
      var times := Arrived(times0, before, now);
      var relay := x !in local && x !in times;
      Arrived(times0, after, now) == (if relay then times[x := now] else times) &&
      Spread(sets0, sender, after) == (if relay then Spread(Spread(sets0, sender, before), sender, {x})
                                       else Spread(sets0, sender, before)) &&
      KnownMisses(remote[..i + 1], local, times0.Keys) ==
        KnownMisses(remote[..i], local, times0.Keys) + (if x !in local && x in times then 1 else 0) &&
      SharedCount(remote[..i + 1], local) == SharedCount(remote[..i], local) + (if x in local then 1 else 0) &&
      Elements(remote[..i + 1]) == Elements(remote[..i]) + {x} &&
      after == before + (if relay then {x} else {})
  {
    var x := remote[i];
    var before := Relayed(remote[..i], local, times0.Keys);
    SketchStep(remote, i, local, times0.Keys);
    if x !in local && x !in Arrived(times0, before, now) {
      ArrivedSnoc(times0, before, x, now);
      SpreadTwice(sets0, sender, before, {x});
    }
  }

  /** Learning `a` and then `b` about one peer is learning both. */
  lemma LearnTwice(knows: map<NodeId, set<TxId>>, p: NodeId, a: set<TxId>, b: set<TxId>)
    requires p in knows
    ensures var once := knows[p := knows[p] + a];
      once[p := once[p] + b] == knows[p := knows[p] + (a + b)]
  {
    var once := knows[p := knows[p] + a];
    assert once[p] + b == knows[p] + (a + b);
  }

  /** The local txs a sketch lacks that are announced back to its sender: those the sender is
      not known to have (and none when the sender is the source). */
  function Unheard(local: set<TxId>, remote: seq<TxId>, sender: NodeId, knows: map<NodeId, set<TxId>>): set<TxId>
    requires Addressable(sender, knows.Keys)
  {
    set x | x in local && x !in remote && Announceable(sender, knows, x)
  }

  /** Taking one more local tx into account. */
  lemma UnheardStep(done: set<TxId>, tx: TxId, remote: seq<TxId>, sender: NodeId, knows: map<NodeId, set<TxId>>)
    requires Addressable(sender, knows.Keys) && tx !in done
    ensures Unheard(done + {tx}, remote, sender, knows) ==
      Unheard(done, remote, sender, knows) + (if tx !in remote && Announceable(sender, knows, tx) then {tx} else {})
    ensures |(done + {tx}) - Elements(remote)| == |done - Elements(remote)| + (if tx in remote then 0 else 1)
  {
    if tx in remote {
      assert (done + {tx}) - Elements(remote) == done - Elements(remote);
    } else {
      assert (done + {tx}) - Elements(remote) == (done - Elements(remote)) + {tx};
    }
  }

  /** One more local tx taken from the set still to visit: the count of txs the sketch lacks,
      the txs announced and the INVs scheduled move on together. */
  lemma UnheardAdvance(localSet: set<TxId>, pending: set<TxId>, tx: TxId, remote: seq<TxId>, sender: NodeId,
                       knows: map<NodeId, set<TxId>>, theyMiss: nat, announced: seq<TxId>)
    requires Addressable(sender, knows.Keys)
    requires tx in pending && pending <= localSet
    requires theyMiss == |(localSet - pending) - Elements(remote)|
    requires NoDuplicates(announced) && Elements(announced) == Unheard(localSet - pending, remote, sender, knows)
    ensures var announce := tx !in remote && Announceable(sender, knows, tx);
      var next := if announce then announced + [tx] else announced;
      |(localSet - (pending - {tx})) - Elements(remote)| == theyMiss + (if tx in remote then 0 else 1) &&
      NoDuplicates(next) && Elements(next) == Unheard(localSet - (pending - {tx}), remote, sender, knows) &&
      InvsTo(sender, next) == InvsTo(sender, announced) + (if announce then [Schedule(0, ScheduledInv(sender, tx))] else [])
  {
    var done := localSet - pending;
    assert localSet - (pending - {tx}) == done + {tx};
    UnheardStep(done, tx, remote, sender, knows);
    if tx !in remote && Announceable(sender, knows, tx) {
      AppendFresh(announced, tx);
      InvsToSnoc(sender, announced, tx);
      assert Elements(announced + [tx]) == Elements(announced) + {tx};
    }
  }

  /** One scheduled INV with delay 0 to `recipient` for each tx, in order. */
  function InvsTo(recipient: NodeId, txs: seq<TxId>): seq<Output> {
    if txs == [] then [] else InvsTo(recipient, txs[..|txs| - 1]) + [Schedule(0, ScheduledInv(recipient, txs[|txs| - 1]))]
  }

  /** Scheduling one more tx appends its event. */
  lemma InvsToSnoc(recipient: NodeId, txs: seq<TxId>, tx: TxId)
    ensures InvsTo(recipient, txs + [tx]) == InvsTo(recipient, txs) + [Schedule(0, ScheduledInv(recipient, tx))]
  {
    assert (txs + [tx])[..|txs|] == txs;
  }

  /** The scheduled INVs are one per tx, in order, each to the recipient with delay 0. */
  lemma {:induction false} InvsToIndexed(recipient: NodeId, txs: seq<TxId>)
    ensures |InvsTo(recipient, txs)| == |txs|
    ensures forall i :: 0 <= i < |txs| ==> InvsTo(recipient, txs)[i] == Schedule(0, ScheduledInv(recipient, txs[i]))
  {
    if txs != [] {
      var n := |txs| - 1;
      InvsToIndexed(recipient, txs[..n]);
      assert forall i :: 0 <= i < n ==> txs[..n][i] == txs[i];
    }
  }

  /** nextCycle's queue move: `poll` the head and `offer` it at the tail. */
  function Rotate(q: seq<NodeId>): (r: seq<NodeId>)
    requires |q| > 0
    ensures |r| == |q| && r[|r| - 1] == q[0]
  {
    q[1..] + [q[0]]
  }

  /** The queue move keeps the same peers, each as often as before. */
  lemma RotatePermutes(q: seq<NodeId>)
    requires |q| > 0
    ensures multiset(Rotate(q)) == multiset(q)
  {
    assert q == [q[0]] + q[1..];
  }

  /** The queue after `k` reconciliation requests. */
  function Rotations(q: seq<NodeId>, k: nat): (r: seq<NodeId>)
    requires |q| > 0
    ensures |r| == |q|
  {
    if k == 0 then q else Rotate(Rotations(q, k - 1))
  }

  /** Turning a queue turned by `k - 1` places once more turns it by `k` places. */
  lemma RotateTurned(q: seq<NodeId>, k: nat)
    requires 0 < k <= |q|
    ensures Rotate(q[k - 1..] + q[..k - 1]) == q[k..] + q[..k]
  {
    var p := q[k - 1..] + q[..k - 1];
    assert p[0] == q[k - 1];
    assert p[1..] == q[k..] + q[..k - 1];
    assert q[..k] == q[..k - 1] + [q[k - 1]];
  }

  /** Within the first round, `k` requests turn the queue by `k` places. */
  lemma {:induction false} RotationsTurn(q: seq<NodeId>, k: nat)
    requires k <= |q|
    requires |q| > 0
    ensures Rotations(q, k) == q[k..] + q[..k]
  {
    if k == 0 {
      assert q[0..] + q[..0] == q;
    } else {
      var prev := Rotations(q, k - 1);
      assert Rotations(q, k) == Rotate(prev);
      RotationsTurn(q, k - 1);
      RotateTurned(q, k);
    }
  }

  /** `a + b` requests are `a` requests and then `b` more. */
  lemma {:induction false} RotationsAdd(q: seq<NodeId>, a: nat, b: nat)
    requires |q| > 0
    ensures Rotations(q, a + b) == Rotations(Rotations(q, a), b)
  {
    if b > 0 {
      RotationsAdd(q, a, b - 1);
      assert Rotations(q, a + b) == Rotate(Rotations(q, a + (b - 1)));
    }
  }

  /** Round robin: within a round the `k`-th request goes to `q[k]`; after a full round the
      queue is back in its original order, so the requests repeat with period `|q|`. */
  lemma RoundRobin(q: seq<NodeId>, k: nat)
    requires |q| > 0
    ensures k < |q| ==> Rotations(q, k)[0] == q[k]
    ensures Rotations(q, |q|) == q
    ensures Rotations(q, k + |q|) == Rotations(q, k)
  {
    if k < |q| {
      RotationsTurn(q, k);
    }
    RotationsTurn(q, |q|);
    assert q[|q|..] + q[..|q|] == q;
    RotationsAdd(q, |q|, k);
  }
}
