/** The transaction-relay peer of src/Peer.java as a stateful object: the peer lists, the flood
    destinations, what each peer is known to know, the recon sets, the reconciliation queue,
    the timers and the cost counters, changed in place by the handlers. What the peer hands to
    the simulator (`EDSimulator.add`, `Transport.send`) is appended to `log`; the simulation
    time is a parameter of each handler. */
module TxRelay {
  import opened Seqs
  import opened TxSpec

  /** The simulator's random delay: some value between 0 and twice the average, both included. */
  method RandomDelay(avg: nat) returns (d: nat)
    ensures d <= 2 * avg
  {
    d :| d <= 2 * avg;
  }

  /** The `alreadyConnected` search of addInboundPeer and addOutboundPeer. */
  method Connected(peers: seq<NodeId>, p: NodeId) returns (found: bool)
    ensures found <==> p in peers
  {
    found := false;
    var i := 0;
    while i < |peers|
      invariant 0 <= i <= |peers|
      invariant p !in peers[..i]
    {
      if peers[i] == p {
        found := true;
        return;
      }
      TakeSnoc(peers, i);
      i := i + 1;
    }
    assert peers[..i] == peers;
  }

  /** The sketch list built from a recon set: its elements, each once, in some order. */
  method ListOf(s: set<TxId>) returns (l: seq<TxId>)
    ensures NoDuplicates(l) && Elements(l) == s
  {
    l := [];
    var pending := s;
    while pending != {}
      invariant pending <= s
      invariant NoDuplicates(l)
      invariant Elements(l) == s - pending
      decreases pending
    {
      var x :| x in pending;
      AppendFresh(l, x);
      assert Elements(l + [x]) == Elements(l) + {x};
      l := l + [x];
      pending := pending - {x};
    }
  }

  /** The smaller of two numbers. */
  function Min(a: nat, b: nat): nat {
    if a <= b then a else b
  }

  /** The flood destinations of a list capped at `limit` gain a newly connected peer exactly
      while they are below the limit, and stay the first peers of the list. */
  lemma CappedAppend(list: seq<NodeId>, dests: seq<NodeId>, limit: nat, p: NodeId)
    requires dests == list[..Min(|list|, limit)]
    ensures (if |dests| < limit then dests + [p] else dests) == (list + [p])[..Min(|list| + 1, limit)]
  {
    var l := list + [p];
    if |dests| < limit {
      assert |list| < limit && dests == list;
      assert l[..|list| + 1] == l;
    } else {
      assert l[..limit] == list[..limit];
    }
  }

  /** Each peer list holds a node at most once, and exactly the connected peers have a
      knowledge entry. */
  ghost predicate PeersOk(inbound: seq<NodeId>, outbound: seq<NodeId>, connected: set<NodeId>) {
    NoDuplicates(inbound) && NoDuplicates(outbound) &&
    connected == Elements(inbound) + Elements(outbound)
  }

  /** Every flood destination is a connected peer; with reconciliation the destinations are the
      first peers of each list up to the limit, without it they are all the peers. */
  ghost predicate FloodOk(reconcile: bool, inbound: seq<NodeId>, outbound: seq<NodeId>, connected: set<NodeId>,
                          inDests: seq<NodeId>, outDests: seq<NodeId>, inLimit: nat, outLimit: nat)
  {
    AllAddressable(inDests, connected) && AllAddressable(outDests, connected) &&
    (reconcile ==>
      inDests == inbound[..Min(|inbound|, inLimit)] && outDests == outbound[..Min(|outbound|, outLimit)]) &&
    (!reconcile ==> inDests == inbound && outDests == outbound)
  }

  /** With reconciliation, exactly the connected peers have a recon set and the queue holds the
      outbound peers; without it there are neither recon sets nor a queue. */
  ghost predicate ReconOk(reconcile: bool, outbound: seq<NodeId>, connected: set<NodeId>,
                          reconciling: set<NodeId>, queue: seq<NodeId>)
  {
    (reconcile ==> reconciling == connected && multiset(queue) == multiset(outbound)) &&
    (!reconcile ==> reconciling == {} && queue == [])
  }

  /** The loop of handleSketchMessage over the local recon set, in the set's own (unspecified)
      order: every local tx missing from the sketch is counted and an INV with no delay is
      scheduled for the sender, unless the sender is the source or already knows the tx. The
      txs actually scheduled are returned in the order they were scheduled. */
  method MissingInvs(sender: NodeId, localSet: set<TxId>, remote: seq<TxId>, knows: map<NodeId, set<TxId>>)
    returns (theyMiss: nat, scheduled: seq<Output>, ghost announced: seq<TxId>)
    requires Addressable(sender, knows.Keys)
    ensures theyMiss == |localSet - Elements(remote)|
    ensures NoDuplicates(announced)
    ensures Elements(announced) == Unheard(localSet, remote, sender, knows)
    ensures scheduled == InvsTo(sender, announced)
  {
    theyMiss, scheduled, announced := 0, [], [];
    var pending := localSet;
    while pending != {}
      invariant pending <= localSet
      invariant theyMiss == |(localSet - pending) - Elements(remote)|
      invariant NoDuplicates(announced)
      invariant Elements(announced) == Unheard(localSet - pending, remote, sender, knows)
      invariant scheduled == InvsTo(sender, announced)
      decreases pending
    {
      var tx :| tx in pending;
      UnheardAdvance(localSet, pending, tx, remote, sender, knows, theyMiss, announced);
      if tx !in remote {
        if Announceable(sender, knows, tx) {
          scheduled := scheduled + [Schedule(0, ScheduledInv(sender, tx))];
          announced := announced + [tx];
        }
        theyMiss := theyMiss + 1;
      }
      pending := pending - {tx};
    }
    assert localSet - pending == localSet;
  }

  /** Connecting a new inbound peer keeps the invariant. */
  lemma AddInboundOk(reconcile: bool, inbound: seq<NodeId>, outbound: seq<NodeId>, connected: set<NodeId>,
                     inDests: seq<NodeId>, outDests: seq<NodeId>, inLimit: nat, outLimit: nat,
                     reconciling: set<NodeId>, queue: seq<NodeId>, p: NodeId)
    requires PeersOk(inbound, outbound, connected)
    requires FloodOk(reconcile, inbound, outbound, connected, inDests, outDests, inLimit, outLimit)
    requires ReconOk(reconcile, outbound, connected, reconciling, queue)
    requires p !in inbound
    ensures PeersOk(inbound + [p], outbound, connected + {p})
    ensures FloodOk(reconcile, inbound + [p], outbound, connected + {p},
                    inDests + (if !reconcile || |inDests| < inLimit then [p] else []), outDests, inLimit, outLimit)
    ensures ReconOk(reconcile, outbound, connected + {p}, if reconcile then reconciling + {p} else reconciling, queue)
  {
    AppendFresh(inbound, p);
    assert Elements(inbound + [p]) == Elements(inbound) + {p};
    if reconcile {
      CappedAppend(inbound, inDests, inLimit, p);
      assert (if |inDests| < inLimit then inDests + [p] else inDests) ==
             inDests + (if |inDests| < inLimit then [p] else []);
    } else {
      assert inDests + [p] == inbound + [p];
    }
  }

  /** Connecting a new outbound peer keeps the invariant. */
  lemma AddOutboundOk(reconcile: bool, inbound: seq<NodeId>, outbound: seq<NodeId>, connected: set<NodeId>,
                      inDests: seq<NodeId>, outDests: seq<NodeId>, inLimit: nat, outLimit: nat,
                      reconciling: set<NodeId>, queue: seq<NodeId>, p: NodeId)
    requires PeersOk(inbound, outbound, connected)
    requires FloodOk(reconcile, inbound, outbound, connected, inDests, outDests, inLimit, outLimit)
    requires ReconOk(reconcile, outbound, connected, reconciling, queue)
    requires p !in outbound
    ensures PeersOk(inbound, outbound + [p], connected + {p})
    ensures FloodOk(reconcile, inbound, outbound + [p], connected + {p},
                    inDests, outDests + (if !reconcile || |outDests| < outLimit then [p] else []), inLimit, outLimit)
    ensures ReconOk(reconcile, outbound + [p], connected + {p},
                    if reconcile then reconciling + {p} else reconciling,
                    queue + (if reconcile then [p] else []))
  {
    AppendFresh(outbound, p);
    assert Elements(outbound + [p]) == Elements(outbound) + {p};
    if reconcile {
      CappedAppend(outbound, outDests, outLimit, p);
      assert (if |outDests| < outLimit then outDests + [p] else outDests) ==
             outDests + (if |outDests| < outLimit then [p] else []);
    } else {
      assert outDests + [p] == outbound + [p];
      assert queue + [] == queue;
    }
  }

  class Peer {
    /** This node's own ID, the sender of what it transmits. */
    const self: NodeId
    const reconcile: bool
    const inFloodLimit: nat
    const outFloodLimit: nat
    const reconciliationInterval: nat
    const inFloodDelay: nat
    const outFloodDelay: nat

    var inboundPeers: seq<NodeId>
    var outboundPeers: seq<NodeId>
    var inboundFloodDestinations: seq<NodeId>
    var outboundFloodDestinations: seq<NodeId>
    var txArrivalTimes: map<TxId, nat>
    var peerKnowsTxs: map<NodeId, set<TxId>>
    var nextFloodInbound: nat

    var reconciliationQueue: seq<NodeId>
    var nextRecon: nat
    var nextReconResponse: nat
    var reconSets: map<NodeId, set<TxId>>

    var extraInvs: nat
    var shortInvs: nat
    var successRecons: nat
    var extSuccessRecons: nat
    var failedRecons: nat

    /** Everything scheduled or transmitted so far, in order. */
    var log: seq<Output>

    /** The invariant the topology methods and the handlers keep. It depends on the knowledge
        map and the recon sets only through the nodes they have entries for. */
    ghost predicate Valid()
      reads this
    {
      PeersOk(inboundPeers, outboundPeers, peerKnowsTxs.Keys) &&
      FloodOk(reconcile, inboundPeers, outboundPeers, peerKnowsTxs.Keys,
              inboundFloodDestinations, outboundFloodDestinations, inFloodLimit, outFloodLimit) &&
      ReconOk(reconcile, outboundPeers, peerKnowsTxs.Keys, reconSets.Keys, reconciliationQueue)
    }

    /** With reconciliation, the flood-destination lists never exceed their limits. */
    lemma FloodLimits()
      requires Valid()
      ensures reconcile ==> |inboundFloodDestinations| <= inFloodLimit && |outboundFloodDestinations| <= outFloodLimit
      ensures reconcile ==> forall p :: p in inboundFloodDestinations ==> p in inboundPeers
      ensures reconcile ==> forall p :: p in outboundFloodDestinations ==> p in outboundPeers
    {
    }

    /** A peer without connections; the limits, delays and the reconciliation switch are the
        values the initializer gives the public fields. */
    constructor (self: NodeId, reconcile: bool, inFloodLimit: nat, outFloodLimit: nat,
                 reconciliationInterval: nat, inFloodDelay: nat, outFloodDelay: nat)
      ensures Valid()
      ensures this.self == self && this.reconcile == reconcile
      ensures this.inFloodLimit == inFloodLimit && this.outFloodLimit == outFloodLimit
      ensures this.reconciliationInterval == reconciliationInterval
      ensures this.inFloodDelay == inFloodDelay && this.outFloodDelay == outFloodDelay
      ensures inboundPeers == [] && outboundPeers == []
      ensures inboundFloodDestinations == [] && outboundFloodDestinations == []
      ensures txArrivalTimes == map[] && peerKnowsTxs == map[] && reconSets == map[]
      ensures reconciliationQueue == [] && log == []
      ensures nextFloodInbound == 0 && nextRecon == 0 && nextReconResponse == 0
      ensures extraInvs == 0 && shortInvs == 0 && successRecons == 0 && extSuccessRecons == 0 && failedRecons == 0
    {
      this.self := self;
      this.reconcile := reconcile;
      this.inFloodLimit := inFloodLimit;
      this.outFloodLimit := outFloodLimit;
      this.reconciliationInterval := reconciliationInterval;
      this.inFloodDelay := inFloodDelay;
      this.outFloodDelay := outFloodDelay;
      inboundPeers := [];
      outboundPeers := [];
      inboundFloodDestinations := [];
      outboundFloodDestinations := [];
      txArrivalTimes := map[];
      peerKnowsTxs := map[];
      nextFloodInbound := 0;
      reconciliationQueue := [];
      nextRecon := 0;
      nextReconResponse := 0;
      reconSets := map[];
      extraInvs := 0;
      shortInvs := 0;
      successRecons := 0;
      extSuccessRecons := 0;
      failedRecons := 0;
      log := [];
    }

    /** nextCycle: with reconciliation on, a non-empty queue and the interval elapsed, request a
        reconciliation from the head of the queue, move it to the tail and rearm the timer;
        otherwise do nothing. */
    method NextCycle(now: nat)
      requires Valid()
      modifies this`reconciliationQueue, this`log, this`nextRecon
      ensures Valid()
      ensures if reconcile && |old(reconciliationQueue)| > 0 && now > old(nextRecon) then
          reconciliationQueue == Rotate(old(reconciliationQueue)) &&
          log == old(log) + [Transmit(old(reconciliationQueue)[0], ReconRequest(self))] &&
          nextRecon == now + reconciliationInterval
        else
          reconciliationQueue == old(reconciliationQueue) && log == old(log) && nextRecon == old(nextRecon)
    {
      if reconcile {
        if |reconciliationQueue| > 0 && now > nextRecon {
          var recipient := reconciliationQueue[0];
          log := log + [Transmit(recipient, ReconRequest(self))];
          RotatePermutes(reconciliationQueue);
          reconciliationQueue := reconciliationQueue[1..] + [recipient];
          nextRecon := now + reconciliationInterval;
        }
      }
    }

    /** handleReconRequest: schedule the sketch for the requester at once when the batching
        timer has expired (rearming it at `now`, the random delay of average 0 being 0), or
        when the timer fires otherwise. */
    method HandleReconRequest(sender: NodeId, now: nat)
      modifies this`nextReconResponse, this`log
      ensures log == old(log) + [Schedule(ResponseDelay(old(nextReconResponse), now), ScheduledSketch(sender))]
      ensures nextReconResponse == if old(nextReconResponse) < now then now else old(nextReconResponse)
    {
      var delay: nat;
      if nextReconResponse < now {
        delay := 0;
        var r := RandomDelay(0);
        nextReconResponse := now + r;
      } else {
        delay := nextReconResponse - now;
      }
      log := log + [Schedule(delay, ScheduledSketch(sender))];
    }

    /** scheduleInv: schedule an INV to the recipient unless it is the source or already knows
        the tx. */
    method ScheduleInv(delay: nat, recipient: NodeId, tx: TxId)
      requires Addressable(recipient, peerKnowsTxs.Keys)
      modifies this`log
      ensures log == old(log) + ScheduleFor(delay, recipient, peerKnowsTxs, tx)
    {
      if recipient == SourceId {
        return;
      }
      if tx in peerKnowsTxs[recipient] {
        return;
      }
      log := log + [Schedule(delay, ScheduledInv(recipient, tx))];
    }

    /** flood: announce the tx to every inbound flood destination on the shared inbound timer
        and to every outbound one after its own random delay. The delays drawn are returned. */
    method Flood(tx: TxId, now: nat) returns (ghost inDelays: seq<nat>, ghost outDelays: seq<nat>)
      requires AllAddressable(inboundFloodDestinations, peerKnowsTxs.Keys)
      requires AllAddressable(outboundFloodDestinations, peerKnowsTxs.Keys)
      modifies this`log, this`nextFloodInbound
      ensures |inDelays| == |inboundFloodDestinations| && |outDelays| == |outboundFloodDestinations|
      ensures log == old(log) + Announce(inboundFloodDestinations, inDelays, peerKnowsTxs, tx)
                              + Announce(outboundFloodDestinations, outDelays, peerKnowsTxs, tx)
      ensures SharedTimer(old(nextFloodInbound), nextFloodInbound, now, inFloodDelay, inDelays)
      ensures forall i :: 0 <= i < |outDelays| ==> outDelays[i] <= 2 * outFloodDelay
    {
      inDelays := FloodInbound(tx, now);
      outDelays := FloodOutbound(tx);
    }

    /** The inbound half of flood: every inbound destination shares one timer. */
    method FloodInbound(tx: TxId, now: nat) returns (ghost inDelays: seq<nat>)
      requires AllAddressable(inboundFloodDestinations, peerKnowsTxs.Keys)
      modifies this`log, this`nextFloodInbound
      ensures |inDelays| == |inboundFloodDestinations|
      ensures log == old(log) + Announce(inboundFloodDestinations, inDelays, peerKnowsTxs, tx)
      ensures SharedTimer(old(nextFloodInbound), nextFloodInbound, now, inFloodDelay, inDelays)
    {
      inDelays := [];
      var i := 0;
      while i < |inboundFloodDestinations|
        invariant 0 <= i <= |inboundFloodDestinations|
        invariant |inDelays| == i
        invariant AllAddressable(inboundFloodDestinations[..i], peerKnowsTxs.Keys)
        invariant log == old(log) + Announce(inboundFloodDestinations[..i], inDelays, peerKnowsTxs, tx)
        invariant SharedTimer(old(nextFloodInbound), nextFloodInbound, now, inFloodDelay, inDelays)
      {
        var peer := inboundFloodDestinations[i];
        ghost var before := nextFloodInbound;
        ghost var prev := log;
        var d := InboundStep(peer, tx, now);
        SharedTimerSnoc(old(nextFloodInbound), before, nextFloodInbound, now, inFloodDelay, inDelays, d);
        AnnounceStep(old(log), inboundFloodDestinations, i, inDelays, d, peerKnowsTxs, tx);
        inDelays := inDelays + [d];
        i := i + 1;
      }
      assert inboundFloodDestinations[..i] == inboundFloodDestinations;
    }

    /** One inbound destination of flood, on the shared timer. */
    method InboundStep(peer: NodeId, tx: TxId, now: nat) returns (d: nat)
      requires Addressable(peer, peerKnowsTxs.Keys)
      modifies this`log, this`nextFloodInbound
      ensures TimerStep(old(nextFloodInbound), nextFloodInbound, now, inFloodDelay, d)
      ensures log == old(log) + ScheduleFor(d, peer, peerKnowsTxs, tx)
    {
      if nextFloodInbound < now {
        d := 0;
        ScheduleInv(0, peer, tx);
        var r := RandomDelay(inFloodDelay);
        nextFloodInbound := now + r;
      } else {
        d := nextFloodInbound - now;
        ScheduleInv(d, peer, tx);
      }
    }

    /** The outbound half of flood: each outbound destination gets its own random delay. */
    method FloodOutbound(tx: TxId) returns (ghost outDelays: seq<nat>)
      requires AllAddressable(outboundFloodDestinations, peerKnowsTxs.Keys)
      modifies this`log
      ensures |outDelays| == |outboundFloodDestinations|
      ensures log == old(log) + Announce(outboundFloodDestinations, outDelays, peerKnowsTxs, tx)
      ensures forall i :: 0 <= i < |outDelays| ==> outDelays[i] <= 2 * outFloodDelay
    {
      outDelays := [];
      var j := 0;
      while j < |outboundFloodDestinations|
        invariant 0 <= j <= |outboundFloodDestinations|
        invariant |outDelays| == j
        invariant AllAddressable(outboundFloodDestinations[..j], peerKnowsTxs.Keys)
        invariant log == old(log) + Announce(outboundFloodDestinations[..j], outDelays, peerKnowsTxs, tx)
        invariant forall k :: 0 <= k < j ==> outDelays[k] <= 2 * outFloodDelay
      {
        var peer := outboundFloodDestinations[j];
        var d := OutboundStep(peer, tx);
        AnnounceStep(old(log), outboundFloodDestinations, j, outDelays, d, peerKnowsTxs, tx);
        outDelays := outDelays + [d];
        j := j + 1;
      }
      assert outboundFloodDestinations[..j] == outboundFloodDestinations;
    }

    /** One outbound destination of flood, on a delay of its own. */
    method OutboundStep(peer: NodeId, tx: TxId) returns (d: nat)
      requires Addressable(peer, peerKnowsTxs.Keys)
      modifies this`log
      ensures d <= 2 * outFloodDelay
      ensures log == old(log) + ScheduleFor(d, peer, peerKnowsTxs, tx)
    {
      d := RandomDelay(outFloodDelay);
      ScheduleInv(d, peer, tx);
    }

    /** addToReconSets: add the tx to every recon set except the sender's. */
    method AddToReconSets(tx: TxId, sender: NodeId)
      modifies this`reconSets
      ensures reconSets.Keys == old(reconSets).Keys
      ensures forall n :: n in reconSets ==>
        reconSets[n] == if n == sender then old(reconSets)[n] else old(reconSets)[n] + {tx}
    {
      var pending := reconSets.Keys;
      while pending != {}
        invariant pending <= reconSets.Keys
        invariant reconSets.Keys == old(reconSets).Keys
        invariant forall n :: n in reconSets ==>
          reconSets[n] == if n in pending || n == sender then old(reconSets)[n] else old(reconSets)[n] + {tx}
        decreases pending
      {
        var n :| n in pending;
        if n != sender {
          reconSets := reconSets[n := reconSets[n] + {tx}];
        }
        pending := pending - {n};
      }
    }

    /** removeFromReconSet: drop the tx from the target's recon set only. */
    method RemoveFromReconSet(tx: TxId, target: NodeId)
      requires target in reconSets
      modifies this`reconSets
      ensures reconSets == old(reconSets)[target := old(reconSets)[target] - {tx}]
    {
      if tx in reconSets[target] {
        reconSets := reconSets[target := reconSets[target] - {tx}];
      } else {
        assert reconSets[target] - {tx} == reconSets[target];
        assert reconSets[target := reconSets[target]] == reconSets;
      }
    }

    /** relayTx: with reconciliation, put the tx in the other peers' recon sets; then flood it. */
    method RelayTx(tx: TxId, sender: NodeId, now: nat) returns (ghost inDelays: seq<nat>, ghost outDelays: seq<nat>)
      requires AllAddressable(inboundFloodDestinations, peerKnowsTxs.Keys)
      requires AllAddressable(outboundFloodDestinations, peerKnowsTxs.Keys)
      modifies this`reconSets, this`log, this`nextFloodInbound
      ensures reconSets == if reconcile then Spread(old(reconSets), sender, {tx}) else old(reconSets)
      ensures |inDelays| == |inboundFloodDestinations| && |outDelays| == |outboundFloodDestinations|
      ensures log == old(log) + Announce(inboundFloodDestinations, inDelays, peerKnowsTxs, tx)
                              + Announce(outboundFloodDestinations, outDelays, peerKnowsTxs, tx)
      ensures SharedTimer(old(nextFloodInbound), nextFloodInbound, now, inFloodDelay, inDelays)
      ensures forall i :: 0 <= i < |outDelays| ==> outDelays[i] <= 2 * outFloodDelay
    {
      if reconcile {
        AddToReconSets(tx, sender);
        assert reconSets == Spread(old(reconSets), sender, {tx});
      }
      inDelays, outDelays := Flood(tx, now);
    }
  
    /** addInboundPeer: a node not yet inbound is appended, gets an empty knowledge entry and,
        with reconciliation, an empty recon set; it becomes a flood destination unless
        reconciliation is on and the inbound flood limit is reached. A node already inbound
        changes nothing. */
    method AddInboundPeer(p: NodeId)
      requires Valid()
      modifies this`inboundPeers, this`inboundFloodDestinations, this`reconSets, this`peerKnowsTxs
      ensures Valid()
      ensures p in old(inboundPeers) ==>
        inboundPeers == old(inboundPeers) && inboundFloodDestinations == old(inboundFloodDestinations) &&
        reconSets == old(reconSets) && peerKnowsTxs == old(peerKnowsTxs)
      ensures p !in old(inboundPeers) ==>
        inboundPeers == old(inboundPeers) + [p] &&
        peerKnowsTxs == old(peerKnowsTxs)[p := {}] &&
        reconSets == (if reconcile then old(reconSets)[p := {}] else old(reconSets)) &&
        inboundFloodDestinations == old(inboundFloodDestinations) +
          (if !reconcile || |old(inboundFloodDestinations)| < inFloodLimit then [p] else [])
    {
      var alreadyConnected := Connected(inboundPeers, p);
      if !alreadyConnected {
        AddInboundOk(reconcile, inboundPeers, outboundPeers, peerKnowsTxs.Keys,
                     inboundFloodDestinations, outboundFloodDestinations, inFloodLimit, outFloodLimit,
                     reconSets.Keys, reconciliationQueue, p);
        inboundPeers := inboundPeers + [p];
        if reconcile {
          reconSets := reconSets[p := {}];
          if |inboundFloodDestinations| < inFloodLimit {
            inboundFloodDestinations := inboundFloodDestinations + [p];
          }
        } else {
          inboundFloodDestinations := inboundFloodDestinations + [p];
        }
        peerKnowsTxs := peerKnowsTxs[p := {}];
        assert peerKnowsTxs.Keys == old(peerKnowsTxs).Keys + {p};
        assert reconcile ==> reconSets.Keys == old(reconSets).Keys + {p};
      }
    }

    /** addOutboundPeer: as addInboundPeer for the outbound list, and with reconciliation the
        new peer also joins the tail of the reconciliation queue. */
    method AddOutboundPeer(p: NodeId)
      requires Valid()
      modifies this`outboundPeers, this`outboundFloodDestinations, this`reconSets, this`peerKnowsTxs,
               this`reconciliationQueue
      ensures Valid()
      ensures p in old(outboundPeers) ==>
        outboundPeers == old(outboundPeers) && outboundFloodDestinations == old(outboundFloodDestinations) &&
        reconSets == old(reconSets) && peerKnowsTxs == old(peerKnowsTxs) &&
        reconciliationQueue == old(reconciliationQueue)
      ensures p !in old(outboundPeers) ==>
        outboundPeers == old(outboundPeers) + [p] &&
        peerKnowsTxs == old(peerKnowsTxs)[p := {}] &&
        reconSets == (if reconcile then old(reconSets)[p := {}] else old(reconSets)) &&
        reconciliationQueue == old(reconciliationQueue) + (if reconcile then [p] else []) &&
        outboundFloodDestinations == old(outboundFloodDestinations) +
          (if !reconcile || |old(outboundFloodDestinations)| < outFloodLimit then [p] else [])
    {
      var alreadyConnected := Connected(outboundPeers, p);
      if !alreadyConnected {
        AddOutboundOk(reconcile, inboundPeers, outboundPeers, peerKnowsTxs.Keys,
                      inboundFloodDestinations, outboundFloodDestinations, inFloodLimit, outFloodLimit,
                      reconSets.Keys, reconciliationQueue, p);
        outboundPeers := outboundPeers + [p];
        if reconcile {
          reconciliationQueue := reconciliationQueue + [p];
          reconSets := reconSets[p := {}];
          if |outboundFloodDestinations| < outFloodLimit {
            outboundFloodDestinations := outboundFloodDestinations + [p];
          }
        } else {
          outboundFloodDestinations := outboundFloodDestinations + [p];
        }
        peerKnowsTxs := peerKnowsTxs[p := {}];
        assert peerKnowsTxs.Keys == old(peerKnowsTxs).Keys + {p};
        assert reconcile ==> reconSets.Keys == old(reconSets).Keys + {p};
      }
    }

    /** What the handlers need of the invariant: flooding and scheduling reach connected peers
        only, and with reconciliation every connected peer has a recon set. */
    lemma ValidRoutes()
      requires Valid()
      ensures AllAddressable(inboundFloodDestinations, peerKnowsTxs.Keys)
      ensures AllAddressable(outboundFloodDestinations, peerKnowsTxs.Keys)
      ensures reconcile ==> reconSets.Keys == peerKnowsTxs.Keys
      ensures !reconcile ==> reconSets.Keys == {}
    {
    }

    /** The events a connected peer can deliver: INVs from the source or a connected peer,
        and sketches and scheduled events for peers that have the entries the handlers look up. */
    ghost predicate Handled(ev: TxEvent)
      reads this`peerKnowsTxs, this`reconSets
    {
      match ev
      case Inv(sender, _) => Addressable(sender, peerKnowsTxs.Keys)
      case ReconRequest(_) => true
      case Sketch(sender, _) => sender in reconSets
      case ScheduledInv(recipient, _) => recipient in peerKnowsTxs
      case ScheduledSketch(recipient) => recipient in reconSets
    }

    /** processEvent: dispatch an event to its handler; every handler keeps the invariant. */
    method ProcessEvent(ev: TxEvent, now: nat, qTerm: nat)
      requires Valid() && Handled(ev)
      modifies this
      ensures Valid()
    {
      match ev {
        case Inv(sender, tx) =>
          ghost var inDelays, outDelays := DeliverInv(sender, tx, now);
        case ReconRequest(sender) => HandleReconRequest(sender, now);
        case Sketch(sender, txs) =>
          var shared, usMiss, theyMiss, verdict := DeliverSketch(sender, txs, qTerm, now);
        case ScheduledInv(recipient, tx) => DeliverScheduledInv(recipient, tx);
        case ScheduledSketch(recipient) =>
          var sketch := DeliverScheduledSketch(recipient);
      }
    }

    /** The INV case of processEvent: it keeps the invariant and does what handleInvMessage does. */
    method DeliverInv(sender: NodeId, tx: TxId, now: nat) returns (ghost inDelays: seq<nat>, ghost outDelays: seq<nat>)
      requires Valid() && Addressable(sender, peerKnowsTxs.Keys)
      modifies this`peerKnowsTxs, this`reconSets, this`txArrivalTimes, this`log, this`nextFloodInbound,
               this`extraInvs
      ensures Valid()
      ensures InvHandled(sender, tx, now, inDelays, outDelays)
    {
      ValidRoutes();
      inDelays, outDelays := HandleInv(sender, tx, now);
    }

    /** The SKETCH case of processEvent: it keeps the invariant and does what
        handleSketchMessage does. */
    method DeliverSketch(sender: NodeId, txs: seq<TxId>, qTerm: nat, now: nat)
      returns (shared: nat, usMiss: nat, theyMiss: nat, verdict: Verdict)
      requires Valid() && sender in reconSets
      modifies this`peerKnowsTxs, this`txArrivalTimes, this`reconSets, this`log, this`nextFloodInbound,
               this`extraInvs, this`shortInvs, this`successRecons, this`extSuccessRecons, this`failedRecons
      ensures Valid()
      ensures SketchHandled(sender, txs, qTerm, now, shared, usMiss, theyMiss, verdict)
    {
      ValidRoutes();
      shared, usMiss, theyMiss, verdict := HandleSketch(sender, txs, qTerm, now);
    }

    /** The SCHEDULED_INV case of processEvent: it keeps the invariant and does what
        executeScheduledInv does. */
    method DeliverScheduledInv(recipient: NodeId, tx: TxId)
      requires Valid() && recipient in peerKnowsTxs
      modifies this`peerKnowsTxs, this`log, this`reconSets
      ensures Valid()
      ensures ScheduledInvHandled(recipient, tx)
    {
      ValidRoutes();
      ExecuteScheduledInv(recipient, tx);
    }

    /** The SCHEDULED_SKETCH case of processEvent: it keeps the invariant and does what
        executeScheduledSketch does. */
    method DeliverScheduledSketch(recipient: NodeId) returns (sketch: seq<TxId>)
      requires Valid() && recipient in reconSets
      modifies this`log, this`peerKnowsTxs, this`reconSets
      ensures Valid()
      ensures ScheduledSketchHandled(recipient, sketch)
    {
      ValidRoutes();
      sketch := ExecuteScheduledSketch(recipient);
    }

    /** What handleInvMessage does: a sender other than the source now knows the tx and, with
        reconciliation, the tx leaves that sender's recon set. The first INV of a tx records its
        arrival time, puts it in the other recon sets and floods it, with the shared inbound timer
        and outbound delays of at most twice their average; every later INV only costs an extra
        INV. */
    twostate predicate InvHandled(sender: NodeId, tx: TxId, now: nat, inDelays: seq<nat>, outDelays: seq<nat>)
      requires old(Addressable(sender, peerKnowsTxs.Keys))
      requires old(reconcile && sender != SourceId ==> sender in reconSets)
      reads this
    {
      && peerKnowsTxs.Keys == old(peerKnowsTxs).Keys && reconSets.Keys == old(reconSets).Keys
      && peerKnowsTxs == (if sender == SourceId then old(peerKnowsTxs)
                          else old(peerKnowsTxs)[sender := old(peerKnowsTxs)[sender] + {tx}])
      && AllAddressable(inboundFloodDestinations, peerKnowsTxs.Keys)
      && AllAddressable(outboundFloodDestinations, peerKnowsTxs.Keys)
      && var cleared := if reconcile && sender != SourceId
                        then old(reconSets)[sender := old(reconSets)[sender] - {tx}] else old(reconSets);
         if tx in old(txArrivalTimes) then
           && txArrivalTimes == old(txArrivalTimes) && extraInvs == old(extraInvs) + 1
           && reconSets == cleared && log == old(log) && nextFloodInbound == old(nextFloodInbound)
         else
           && txArrivalTimes == old(txArrivalTimes)[tx := now] && extraInvs == old(extraInvs)
           && reconSets == (if reconcile then Spread(cleared, sender, {tx}) else cleared)
           && |inDelays| == |inboundFloodDestinations| && |outDelays| == |outboundFloodDestinations|
           && log == old(log) + Announce(inboundFloodDestinations, inDelays, peerKnowsTxs, tx)
                              + Announce(outboundFloodDestinations, outDelays, peerKnowsTxs, tx)
           && SharedTimer(old(nextFloodInbound), nextFloodInbound, now, inFloodDelay, inDelays)
           && (forall i :: 0 <= i < |outDelays| ==> outDelays[i] <= 2 * outFloodDelay)
    }

    /** What handleSketchMessage does: the sender now knows every tx of its sketch; `shared`,
        `usMiss` and `theyMiss` count the exchange; the txs the peer meets for the first time are
        timed and, with reconciliation, spread to the other recon sets; the verdict sets the cost
        and the counters; failure costs full INVs for what the peer misses and for the shared txs;
        the sender's recon set ends empty; the simulator is handed only scheduled INVs, whose
        (recipient, tx) pairs, as a set, are the pairs of a flood destination and a relayed tx it
        does not know, together with the sender paired with each local tx it has not heard of; and the shared inbound flood timer is
        unchanged or rearmed once at `now`. */
    twostate predicate SketchHandled(sender: NodeId, remote: seq<TxId>, qTerm: nat, now: nat,
                                     shared: nat, usMiss: nat, theyMiss: nat, verdict: Verdict)
      requires old(sender in reconSets && sender in peerKnowsTxs)
      reads this
    {
      && reconSets.Keys == old(reconSets).Keys
      && Booked(Capacity(|old(reconSets)[sender]|, |remote|, qTerm), usMiss + theyMiss, verdict,
                old(shortInvs), shortInvs, old(successRecons), successRecons,
                old(extSuccessRecons), extSuccessRecons, old(failedRecons), failedRecons)
      && extraInvs == old(extraInvs) + KnownMisses(remote, old(reconSets)[sender], old(txArrivalTimes).Keys)
                      + (if verdict == Failed then usMiss + shared else 0)
      && Exchanged(sender, remote, now, inFloodDelay, reconcile, inboundFloodDestinations, outboundFloodDestinations,
                   old(reconSets), reconSets, old(peerKnowsTxs), peerKnowsTxs, old(txArrivalTimes), txArrivalTimes,
                   old(log), log, old(nextFloodInbound), nextFloodInbound, shared, usMiss, theyMiss)
    }

    /** What executeScheduledInv does: the INV goes out only if the recipient does not know the
        tx yet; then it knows it and, with reconciliation, the tx leaves its recon set. */
    twostate predicate ScheduledInvHandled(recipient: NodeId, tx: TxId)
      requires old(recipient in peerKnowsTxs)
      requires old(reconcile ==> recipient in reconSets)
      reads this
    {
      && peerKnowsTxs.Keys == old(peerKnowsTxs).Keys && reconSets.Keys == old(reconSets).Keys
      && (tx in old(peerKnowsTxs)[recipient] ==>
            peerKnowsTxs == old(peerKnowsTxs) && log == old(log) && reconSets == old(reconSets))
      && (tx !in old(peerKnowsTxs)[recipient] ==>
            && peerKnowsTxs == old(peerKnowsTxs)[recipient := old(peerKnowsTxs)[recipient] + {tx}]
            && log == old(log) + [Transmit(recipient, Inv(self, tx))]
            && reconSets == (if reconcile then old(reconSets)[recipient := old(reconSets)[recipient] - {tx}]
                             else old(reconSets)))
    }

    /** What executeScheduledSketch does: the recipient's recon set goes out as a sketch without
        repeats, the recipient now knows all of it, and the recon set ends empty. */
    twostate predicate ScheduledSketchHandled(recipient: NodeId, sketch: seq<TxId>)
      requires old(recipient in reconSets && recipient in peerKnowsTxs)
      reads this
    {
      && peerKnowsTxs.Keys == old(peerKnowsTxs).Keys && reconSets.Keys == old(reconSets).Keys
      && NoDuplicates(sketch) && Elements(sketch) == old(reconSets)[recipient]
      && log == old(log) + [Transmit(recipient, Sketch(self, sketch))]
      && peerKnowsTxs == old(peerKnowsTxs)[recipient := old(peerKnowsTxs)[recipient] + old(reconSets)[recipient]]
      && reconSets == old(reconSets)[recipient := {}]
    }

    /** handleInvMessage: a peer other than the source now knows the tx (and, with
        reconciliation, it leaves that peer's recon set); the first INV of a tx records its
        arrival time and relays it, every later one only costs an extra INV. */
    method HandleInv(sender: NodeId, tx: TxId, now: nat) returns (ghost inDelays: seq<nat>, ghost outDelays: seq<nat>)
      requires Addressable(sender, peerKnowsTxs.Keys)
      requires reconcile && sender != SourceId ==> sender in reconSets
      requires AllAddressable(inboundFloodDestinations, peerKnowsTxs.Keys)
      requires AllAddressable(outboundFloodDestinations, peerKnowsTxs.Keys)
      modifies this`peerKnowsTxs, this`reconSets, this`txArrivalTimes, this`log, this`nextFloodInbound,
               this`extraInvs
      ensures InvHandled(sender, tx, now, inDelays, outDelays)
      ensures sender != SourceId ==> tx in peerKnowsTxs[sender]
    {
      LearnFrom(sender, tx);
      if tx !in txArrivalTimes {
        txArrivalTimes := txArrivalTimes[tx := now];
        inDelays, outDelays := RelayTx(tx, sender, now);
      } else {
        extraInvs := extraInvs + 1;
        inDelays, outDelays := [], [];
      }
    }

    /** The first half of handleInvMessage: what it learns about a sender other than the source. */
    method LearnFrom(sender: NodeId, tx: TxId)
      requires Addressable(sender, peerKnowsTxs.Keys)
      requires reconcile && sender != SourceId ==> sender in reconSets
      modifies this`peerKnowsTxs, this`reconSets
      ensures peerKnowsTxs.Keys == old(peerKnowsTxs).Keys && reconSets.Keys == old(reconSets).Keys
      ensures peerKnowsTxs == if sender == SourceId then old(peerKnowsTxs)
                              else old(peerKnowsTxs)[sender := old(peerKnowsTxs)[sender] + {tx}]
      ensures reconSets == if reconcile && sender != SourceId
                           then old(reconSets)[sender := old(reconSets)[sender] - {tx}] else old(reconSets)
    {
      if sender != SourceId {
        peerKnowsTxs := peerKnowsTxs[sender := peerKnowsTxs[sender] + {tx}];
        assert peerKnowsTxs.Keys == old(peerKnowsTxs).Keys;
        if reconcile {
          RemoveFromReconSet(tx, sender);
          assert reconSets.Keys == old(reconSets).Keys;
        }
      }
    }

    /** executeScheduledInv: send the INV only if the recipient does not know the tx yet; then it
        knows it and, with reconciliation, the tx leaves its recon set. Replaying the event
        therefore sends nothing. */
    method ExecuteScheduledInv(recipient: NodeId, tx: TxId)
      requires recipient in peerKnowsTxs
      requires reconcile ==> recipient in reconSets
      modifies this`peerKnowsTxs, this`log, this`reconSets
      ensures ScheduledInvHandled(recipient, tx)
      ensures tx in peerKnowsTxs[recipient]
    {
      if tx !in peerKnowsTxs[recipient] {
        peerKnowsTxs := peerKnowsTxs[recipient := peerKnowsTxs[recipient] + {tx}];
        assert peerKnowsTxs.Keys == old(peerKnowsTxs).Keys;
        log := log + [Transmit(recipient, Inv(self, tx))];
        if reconcile {
          RemoveFromReconSet(tx, recipient);
          assert reconSets.Keys == old(reconSets).Keys;
        }
      }
    }

    /** The loop of executeScheduledSketch: the recipient now knows every tx of the list. */
    method LearnAll(recipient: NodeId, txs: seq<TxId>)
      requires recipient in peerKnowsTxs
      modifies this`peerKnowsTxs
      ensures peerKnowsTxs == old(peerKnowsTxs)[recipient := old(peerKnowsTxs)[recipient] + Elements(txs)]
    {
      var known := peerKnowsTxs[recipient];
      var i := 0;
      while i < |txs|
        invariant 0 <= i <= |txs|
        invariant known == old(peerKnowsTxs)[recipient] + Elements(txs[..i])
        invariant peerKnowsTxs == old(peerKnowsTxs)
      {
        TakeSnoc(txs, i);
        assert Elements(txs[..i + 1]) == Elements(txs[..i]) + {txs[i]};
        known := known + {txs[i]};
        i := i + 1;
      }
      assert txs[..i] == txs;
      peerKnowsTxs := peerKnowsTxs[recipient := known];
    }

    /** executeScheduledSketch: send the recipient's recon set as a sketch, record that the
        recipient now knows all of it, and empty the recon set. */
    method ExecuteScheduledSketch(recipient: NodeId) returns (sketch: seq<TxId>)
      requires recipient in reconSets && recipient in peerKnowsTxs
      modifies this`log, this`peerKnowsTxs, this`reconSets
      ensures ScheduledSketchHandled(recipient, sketch)
    {
      var reconSet := reconSets[recipient];
      sketch := ListOf(reconSet);
      log := log + [Transmit(recipient, Sketch(self, sketch))];
      LearnAll(recipient, sketch);
      assert peerKnowsTxs.Keys == old(peerKnowsTxs).Keys;
      reconSets := reconSets[recipient := {}];
      assert reconSets.Keys == old(reconSets).Keys;
    }

    /** handleSketchMessage: account for one sketch exchange with the sender. The sender now
        knows every tx of its sketch; the txs the peer misses are recorded and relayed when new;
        the txs the sender misses are announced to it at once; the verdict sets the cost; and the
        local recon set is emptied. */
    method HandleSketch(sender: NodeId, remote: seq<TxId>, qTerm: nat, now: nat)
      returns (shared: nat, usMiss: nat, theyMiss: nat, verdict: Verdict)
      requires sender in reconSets && sender in peerKnowsTxs
      requires AllAddressable(inboundFloodDestinations, peerKnowsTxs.Keys)
      requires AllAddressable(outboundFloodDestinations, peerKnowsTxs.Keys)
      modifies this`peerKnowsTxs, this`txArrivalTimes, this`reconSets, this`log, this`nextFloodInbound,
               this`extraInvs, this`shortInvs, this`successRecons, this`extSuccessRecons, this`failedRecons
      ensures SketchHandled(sender, remote, qTerm, now, shared, usMiss, theyMiss, verdict)
    {
      var capacity := Capacity(|reconSets[sender]|, |remote|, qTerm);
      shared, usMiss, theyMiss := Exchange(sender, remote, now);
      verdict := Settle(capacity, usMiss, theyMiss, shared);
    }

    /** The two loops of handleSketchMessage: the sketch is absorbed, then the local txs the
        sender misses are announced to it; the sender's recon set is then emptied, which
        handleSketchMessage does after the accounting, which reads no recon set. */
    method Exchange(sender: NodeId, remote: seq<TxId>, now: nat) returns (shared: nat, usMiss: nat, theyMiss: nat)
      requires sender in reconSets && sender in peerKnowsTxs
      requires AllAddressable(inboundFloodDestinations, peerKnowsTxs.Keys)
      requires AllAddressable(outboundFloodDestinations, peerKnowsTxs.Keys)
      modifies this`peerKnowsTxs, this`txArrivalTimes, this`reconSets, this`log, this`nextFloodInbound,
               this`extraInvs
      ensures reconSets.Keys == old(reconSets).Keys
      ensures extraInvs == old(extraInvs) + KnownMisses(remote, old(reconSets)[sender], old(txArrivalTimes).Keys)
      ensures Exchanged(sender, remote, now, inFloodDelay, reconcile, inboundFloodDestinations, outboundFloodDestinations,
                        old(reconSets), reconSets, old(peerKnowsTxs), peerKnowsTxs, old(txArrivalTimes), txArrivalTimes,
                        old(log), log, old(nextFloodInbound), nextFloodInbound, shared, usMiss, theyMiss)
    {
      var localSet := reconSets[sender];
      shared, usMiss := AbsorbSketch(sender, remote, now);
      ghost var absorbed := log;
      ghost var announced;
      theyMiss, announced := AnnounceMissing(sender, localSet, remote);
      SketchInvsCompose(old(log), absorbed, sender, Relayed(remote, localSet, old(txArrivalTimes).Keys), announced,
                        inboundFloodDestinations, outboundFloodDestinations, peerKnowsTxs);
      reconSets := reconSets[sender := {}];
    }

    /** The first loop of handleSketchMessage, over the sketch in order. */
    method AbsorbSketch(sender: NodeId, remote: seq<TxId>, now: nat) returns (shared: nat, usMiss: nat)
      requires sender in reconSets && sender in peerKnowsTxs
      requires AllAddressable(inboundFloodDestinations, peerKnowsTxs.Keys)
      requires AllAddressable(outboundFloodDestinations, peerKnowsTxs.Keys)
      modifies this`peerKnowsTxs, this`txArrivalTimes, this`reconSets, this`log, this`nextFloodInbound,
               this`extraInvs
      ensures peerKnowsTxs.Keys == old(peerKnowsTxs).Keys
      ensures reconSets.Keys == old(reconSets).Keys && reconSets[sender] == old(reconSets)[sender]
      ensures shared == SharedCount(remote, old(reconSets)[sender]) && shared + usMiss == |remote|
      ensures extraInvs == old(extraInvs) + KnownMisses(remote, old(reconSets)[sender], old(txArrivalTimes).Keys)
      ensures peerKnowsTxs == old(peerKnowsTxs)[sender := old(peerKnowsTxs)[sender] + Elements(remote)]
      ensures var relayed := Relayed(remote, old(reconSets)[sender], old(txArrivalTimes).Keys);
        txArrivalTimes == Arrived(old(txArrivalTimes), relayed, now) &&
        reconSets == if reconcile then Spread(old(reconSets), sender, relayed) else old(reconSets)
      ensures SketchFloods(old(log), log, Relayed(remote, old(reconSets)[sender], old(txArrivalTimes).Keys),
                           inboundFloodDestinations, outboundFloodDestinations, peerKnowsTxs)
      ensures TimerFrom(old(nextFloodInbound), nextFloodInbound, now, inFloodDelay)
    {
      var localSet := reconSets[sender];
      ghost var times0, sets0, knows0 := txArrivalTimes, reconSets, peerKnowsTxs;
      ghost var seen := knows0[sender := knows0[sender] + Elements(remote)];
      assert seen.Keys == knows0.Keys;
      shared, usMiss := 0, 0;
      ArrivedNothing(txArrivalTimes, now);
      SpreadNothing(reconSets, sender);
      assert Relayed(remote[..0], localSet, times0.Keys) == {};
      assert Elements(remote[..0]) == {};
      assert knows0[sender] + Elements(remote[..0]) == knows0[sender];
      assert log[|old(log)|..] == [];
      assert Reach({}, inboundFloodDestinations, seen) == {} && Reach({}, outboundFloodDestinations, seen) == {};
      var i := 0;
      while i < |remote|
        invariant 0 <= i <= |remote|
        invariant Absorbed(sender, remote, i, localSet, now, times0, sets0, knows0, old(extraInvs), shared, usMiss)
        invariant Flooded(remote, i, localSet, now, times0, seen, old(log), old(nextFloodInbound))
      {
        shared, usMiss := AbsorbNext(sender, remote, i, localSet, now, times0, sets0, knows0, seen, old(extraInvs),
                                     old(log), old(nextFloodInbound), shared, usMiss);
        i := i + 1;
      }
      assert remote[..i] == remote;
    }

    /** Where the first loop of handleSketchMessage stands after the first `i` entries of the
        sketch, against the arrival times, recon sets, knowledge and extra-INV count it started from. */
    ghost predicate Absorbed(sender: NodeId, remote: seq<TxId>, i: nat, localSet: set<TxId>, now: nat,
                             times0: map<TxId, nat>, sets0: map<NodeId, set<TxId>>, knows0: map<NodeId, set<TxId>>,
                             extra0: nat, shared: nat, usMiss: nat)
      requires i <= |remote| && sender in knows0
      reads this
    {
      && shared == SharedCount(remote[..i], localSet) && shared + usMiss == i
      && extraInvs == extra0 + KnownMisses(remote[..i], localSet, times0.Keys)
      && peerKnowsTxs == knows0[sender := knows0[sender] + Elements(remote[..i])]
      && txArrivalTimes == Arrived(times0, Relayed(remote[..i], localSet, times0.Keys), now)
      && reconSets == if reconcile then Spread(sets0, sender, Relayed(remote[..i], localSet, times0.Keys)) else sets0
    }

    /** What that loop has handed to the simulator after the first `i` entries: only scheduled
        INVs of the txs it relayed, whose (recipient, tx) pairs, as a set, are the pairs of a flood
        destination and a relayed tx it does not know in the knowledge `seen` the loop ends with; and the shared inbound flood timer is where
        it started or was rearmed once at `now`. */
    ghost predicate Flooded(remote: seq<TxId>, i: nat, localSet: set<TxId>, now: nat, times0: map<TxId, nat>,
                            seen: map<NodeId, set<TxId>>, log0: seq<Output>, timer0: nat)
      requires i <= |remote|
      reads this
    {
      && SketchFloods(log0, log, Relayed(remote[..i], localSet, times0.Keys),
                      inboundFloodDestinations, outboundFloodDestinations, seen)
      && TimerFrom(timer0, nextFloodInbound, now, inFloodDelay)
    }

    /** One round of that loop: entry `i` of the sketch is absorbed and counted. */
    method AbsorbNext(sender: NodeId, remote: seq<TxId>, i: nat, localSet: set<TxId>, now: nat,
                      ghost times0: map<TxId, nat>, ghost sets0: map<NodeId, set<TxId>>,
                      ghost knows0: map<NodeId, set<TxId>>, ghost seen: map<NodeId, set<TxId>>,
                      ghost extra0: nat, ghost log0: seq<Output>,
                      ghost timer0: nat, shared: nat, usMiss: nat)
      returns (shared': nat, usMiss': nat)
      requires i < |remote| && sender in knows0
      requires seen == knows0[sender := knows0[sender] + Elements(remote)]
      requires Absorbed(sender, remote, i, localSet, now, times0, sets0, knows0, extra0, shared, usMiss)
      requires Flooded(remote, i, localSet, now, times0, seen, log0, timer0)
      requires AllAddressable(inboundFloodDestinations, knows0.Keys)
      requires AllAddressable(outboundFloodDestinations, knows0.Keys)
      modifies this`peerKnowsTxs, this`txArrivalTimes, this`reconSets, this`log, this`nextFloodInbound,
               this`extraInvs
      ensures Absorbed(sender, remote, i + 1, localSet, now, times0, sets0, knows0, extra0, shared', usMiss')
      ensures Flooded(remote, i + 1, localSet, now, times0, seen, log0, timer0)
    {
      AbsorbAdvance(remote, i, localSet, times0, sets0, sender, now);
      LearnTwice(knows0, sender, Elements(remote[..i]), {remote[i]});
      assert peerKnowsTxs.Keys == knows0.Keys;
      ghost var inDelays, outDelays;
      ghost var logMid, timerMid := log, nextFloodInbound;
      var isShared;
      isShared, inDelays, outDelays := AbsorbOne(sender, remote[i], localSet, now);
      ghost var relay := remote[i] !in localSet && remote[i] !in Arrived(times0, Relayed(remote[..i], localSet, times0.Keys), now);
      InvsOfTrans(log0, logMid, log, Relayed(remote[..i], localSet, times0.Keys), if relay then {remote[i]} else {},
                  Relayed(remote[..i + 1], localSet, times0.Keys));
      if relay {
        TimerFromStep(timer0, timerMid, nextFloodInbound, now, inFloodDelay, inDelays);
        assert Elements(remote[..i + 1]) <= Elements(remote);
        LearnedAlike(knows0, sender, Elements(remote[..i + 1]), Elements(remote), remote[i]);
        AnnounceReach(inboundFloodDestinations, inDelays, peerKnowsTxs, seen, remote[i]);
        AnnounceReach(outboundFloodDestinations, outDelays, peerKnowsTxs, seen, remote[i]);
        FloodReach(log0, logMid, Announce(inboundFloodDestinations, inDelays, peerKnowsTxs, remote[i]),
                   Announce(outboundFloodDestinations, outDelays, peerKnowsTxs, remote[i]),
                   inboundFloodDestinations, outboundFloodDestinations, seen,
                   Relayed(remote[..i], localSet, times0.Keys), remote[i]);
      }
      if isShared {
        shared', usMiss' := shared + 1, usMiss;
      } else {
        shared', usMiss' := shared, usMiss + 1;
      }
    }

    /** One entry of that loop: the sender knows the tx; a tx the peer has in the recon set is
        shared; any other one is relayed with its arrival time when it is new, and costs an extra
        INV when it is not. */
    method AbsorbOne(sender: NodeId, tx: TxId, localSet: set<TxId>, now: nat)
      returns (isShared: bool, ghost inDelays: seq<nat>, ghost outDelays: seq<nat>)
      requires sender in peerKnowsTxs
      requires AllAddressable(inboundFloodDestinations, peerKnowsTxs.Keys)
      requires AllAddressable(outboundFloodDestinations, peerKnowsTxs.Keys)
      modifies this`peerKnowsTxs, this`txArrivalTimes, this`reconSets, this`log, this`nextFloodInbound,
               this`extraInvs
      ensures isShared <==> tx in localSet
      ensures peerKnowsTxs.Keys == old(peerKnowsTxs).Keys
      ensures peerKnowsTxs == old(peerKnowsTxs)[sender := old(peerKnowsTxs)[sender] + {tx}]
      ensures txArrivalTimes == if tx !in localSet && tx !in old(txArrivalTimes) then old(txArrivalTimes)[tx := now]
                                else old(txArrivalTimes)
      ensures reconSets == if tx !in localSet && tx !in old(txArrivalTimes) && reconcile
                           then Spread(old(reconSets), sender, {tx}) else old(reconSets)
      ensures extraInvs == old(extraInvs) + (if tx !in localSet && tx in old(txArrivalTimes) then 1 else 0)
      ensures tx !in localSet && tx !in old(txArrivalTimes) ==>
                |inDelays| == |inboundFloodDestinations| && |outDelays| == |outboundFloodDestinations| &&
                log == old(log) + Announce(inboundFloodDestinations, inDelays, peerKnowsTxs, tx)
                                + Announce(outboundFloodDestinations, outDelays, peerKnowsTxs, tx) &&
                SharedTimer(old(nextFloodInbound), nextFloodInbound, now, inFloodDelay, inDelays) &&
                (forall k :: 0 <= k < |outDelays| ==> outDelays[k] <= 2 * outFloodDelay)
      ensures !(tx !in localSet && tx !in old(txArrivalTimes)) ==> log == old(log) && nextFloodInbound == old(nextFloodInbound)
      ensures InvsOf(old(log), log, if tx !in localSet && tx !in old(txArrivalTimes) then {tx} else {})
    {
      peerKnowsTxs := peerKnowsTxs[sender := peerKnowsTxs[sender] + {tx}];
      assert peerKnowsTxs.Keys == old(peerKnowsTxs).Keys;
      isShared := tx in localSet;
      inDelays, outDelays := [], [];
      if !isShared {
        if tx !in txArrivalTimes {
          txArrivalTimes := txArrivalTimes[tx := now];
          inDelays, outDelays := RelayTx(tx, sender, now);
          FloodInvs(old(log), Announce(inboundFloodDestinations, inDelays, peerKnowsTxs, tx),
                    Announce(outboundFloodDestinations, outDelays, peerKnowsTxs, tx), tx);
        } else {
          extraInvs := extraInvs + 1;
        }
      }
    }

    /** The second loop of handleSketchMessage: the INVs it schedules for the sender are
        appended to the event log. */
    method AnnounceMissing(sender: NodeId, localSet: set<TxId>, remote: seq<TxId>)
      returns (theyMiss: nat, ghost announced: seq<TxId>)
      requires Addressable(sender, peerKnowsTxs.Keys)
      modifies this`log
      ensures theyMiss == |localSet - Elements(remote)|
      ensures NoDuplicates(announced)
      ensures Elements(announced) == Unheard(localSet, remote, sender, peerKnowsTxs)
      ensures log == old(log) + InvsTo(sender, announced)
      ensures InvsOf(old(log), log, Unheard(localSet, remote, sender, peerKnowsTxs))
    {
      var scheduled;
      theyMiss, scheduled, announced := MissingInvs(sender, localSet, remote, peerKnowsTxs);
      log := log + scheduled;
      InvsToInvs(old(log), sender, announced);
    }

    /** The accounting of handleSketchMessage: one verdict, its sketch cost, and on failure the
        full INVs for what either side misses and for the shared txs. */
    method Settle(capacity: nat, usMiss: nat, theyMiss: nat, shared: nat) returns (verdict: Verdict)
      modifies this`shortInvs, this`successRecons, this`extSuccessRecons, this`failedRecons, this`extraInvs
      ensures Booked(capacity, usMiss + theyMiss, verdict, old(shortInvs), shortInvs, old(successRecons), successRecons,
                     old(extSuccessRecons), extSuccessRecons, old(failedRecons), failedRecons)
      ensures extraInvs == old(extraInvs) + (if verdict == Failed then usMiss + shared else 0)
    {
      var diff := usMiss + theyMiss;
      if capacity > diff {
        shortInvs := shortInvs + capacity;
        successRecons := successRecons + 1;
        verdict := Succeeded;
      } else if capacity * 2 > diff {
        shortInvs := shortInvs + capacity * 2;
        extSuccessRecons := extSuccessRecons + 1;
        verdict := Extended;
      } else {
        shortInvs := shortInvs + capacity * 2;
        extraInvs := extraInvs + usMiss + shared;
        failedRecons := failedRecons + 1;
        verdict := Failed;
      }
    }
  }
}
