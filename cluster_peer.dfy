/** A cluster peer of sim-cluster/peer.py as a stateful object: the membership table, the
    round-robin cursor, `last`, the ring buffer and the player cursor, changed in place by
    receive_and_feed, the playback routine and the main loops. The socket writes are recorded
    in `sent` and the blocks handed to the player in `played`. */
module ClusterPeer {
  import opened Seqs
  import opened Bytes
  import opened Membership
  import opened Relay
  import opened Ring
  import opened Runs

  /** What one `player_sock.sendall` does: it delivers the bytes, or raises `socket.error`. */
  datatype PlayerReply = Accepted | SocketError

  /** One iteration of the steady-state loop: whether the churn deadline has passed when the loop
      test runs, what the cluster socket delivers, and how the player socket behaves. */
  datatype Tick = Tick(timeToDie: bool, event: Event, reply: PlayerReply)

  /** The churn deadline had not passed at any of the first `n` loop tests. */
  ghost predicate Alive(ticks: seq<Tick>, n: nat)
    requires n <= |ticks|
  {
    forall i :: 0 <= i < n ==> !ticks[i].timeToDie
  }

  /** One more loop test at which the deadline had not passed. */
  lemma AliveSnoc(ticks: seq<Tick>, n: nat)
    requires n < |ticks| && Alive(ticks, n) && !ticks[n].timeToDie
    ensures Alive(ticks, n + 1)
  {
  }

  /** Every slot flagged received holds a block, and every stored block is a full payload. */
  ghost predicate Filled(blocks: seq<Slot>, received: seq<bool>)
    requires |blocks| == |received|
  {
    && (forall i :: 0 <= i < |received| && received[i] ==> blocks[i].Block?)
    && (forall i :: 0 <= i < |blocks| && blocks[i].Block? ==> |blocks[i].payload| == BlockSize)
  }

  /** Storing a full block and flagging its slot keeps the ring filled. */
  lemma FilledStore(blocks: seq<Slot>, received: seq<bool>, slot: nat, payload: Bytes)
    requires |blocks| == |received| && slot < |blocks| && |payload| == BlockSize && Filled(blocks, received)
    ensures Filled(blocks[slot := Block(payload)], received[slot := true])
  {
  }

  /** Clearing a flag keeps the ring filled. */
  lemma FilledClear(blocks: seq<Slot>, received: seq<bool>, slot: nat)
    requires |blocks| == |received| && slot < |blocks| && Filled(blocks, received)
    ensures Filled(blocks, received[slot := false])
  {
  }

  /** One zero-length datagram to each endpoint, in list order (the hello after retrieving the
      list and the goodbye at shutdown). */
  function EmptyDatagrams(peers: seq<Endpoint>): (s: seq<Send>)
    ensures |s| == |peers|
    ensures forall i :: 0 <= i < |peers| ==> s[i] == Send(peers[i], [])
  {
    if peers == [] then [] else EmptyDatagrams(peers[..|peers| - 1]) + [Send(peers[|peers| - 1], [])]
  }

  /** retrieve_the_list_of_peers: each peer the splitter announces is appended with counter 0
      and sent an empty datagram. */
  method GreetPeers(peers: seq<Endpoint>) returns (t: Table, hellos: seq<Send>)
    requires NoDuplicates(peers)
    ensures t == Initial(peers) && hellos == EmptyDatagrams(peers)
  {
    var list: seq<Endpoint> := [];
    var counters: map<Endpoint, nat> := map[];
    hellos := [];
    var i := 0;
    while i < |peers|
      invariant 0 <= i <= |peers|
      invariant list == peers[..i]
      invariant counters == map p | p in peers[..i] :: 0
      invariant hellos == EmptyDatagrams(peers[..i])
    {
      TakeSnoc(peers, i);
      list := list + [peers[i]];
      counters := counters[peers[i] := 0];
      hellos := hellos + [Send(peers[i], [])];
      i := i + 1;
    }
    assert peers[..|peers|] == peers;
    t := Table(list, counters);
  }

  /** A block number whose remainder modulo 256 is zero triggers the halving of every counter. */
  const HalvingPeriod: nat := 256

  class PeerNode {
    const bufferSize: nat
    const splitter: Endpoint
    const gatherer: Endpoint
    /** `_PLAYER_`: false under `--no_player`. */
    const playerEnabled: bool
    /** Whether `--number_of_blocks` was given. */
    const countBlocks: bool
    const blocks: array<Slot>
    const received: array<bool>

    var peerList: seq<Endpoint>
    var insolidarity: map<Endpoint, nat>
    var counter: nat
    var last: Bytes
    var blockToPlay: nat
    var playerConnected: bool
    var numberOfBlocks: int
    var blocksExhausted: bool
    /** Every datagram written to the cluster socket, in order. */
    var sent: seq<Send>
    /** Every block written to the player socket, in order. */
    var played: seq<Bytes>

    function Members(): Table
      reads this`peerList, this`insolidarity
    {
      Table(peerList, insolidarity)
    }

    function RelayState(): Relay
      reads this`peerList, this`insolidarity, this`counter, this`last
    {
      Relay(Members(), counter, last)
    }

    /** The ring and the player cursor are well formed: every received slot holds a block, and
        every stored block is a full 1024-byte payload. */
    ghost predicate RingValid()
      reads this`blockToPlay, blocks, received
    {
      && 0 < bufferSize <= U16Limit
      && blocks.Length == bufferSize && received.Length == bufferSize
      && blockToPlay < bufferSize
      && Filled(blocks[..], received[..])
    }

    ghost predicate Valid()
      reads this`peerList, this`insolidarity, this`blockToPlay, blocks, received
    {
      Members().Consistent() && RingValid()
    }

    /** The peer after retrieve_the_list_of_peers: every peer of the splitter's list is listed
        with counter 0 and greeted with an empty datagram; the ring is empty. */
    constructor (bufferSize: nat, splitter: Endpoint, gatherer: Endpoint, peers: seq<Endpoint>,
                 playerEnabled: bool, countBlocks: bool, numberOfBlocks: int)
      requires 0 < bufferSize <= U16Limit
      requires NoDuplicates(peers)
      ensures Valid() && fresh(blocks) && fresh(received)
      ensures this.bufferSize == bufferSize && this.splitter == splitter && this.gatherer == gatherer
      ensures this.playerEnabled == playerEnabled && this.countBlocks == countBlocks
      ensures this.numberOfBlocks == numberOfBlocks && !blocksExhausted
      ensures Members() == Initial(peers)
      ensures counter == 0 && last == [] && blockToPlay == 0 && playerConnected
      ensures sent == EmptyDatagrams(peers) && played == []
      ensures forall i :: 0 <= i < bufferSize ==> blocks[i] == Empty && !received[i]
    {
      var table, hellos := GreetPeers(peers);
      this.bufferSize := bufferSize;
      this.splitter := splitter;
      this.gatherer := gatherer;
      this.playerEnabled := playerEnabled;
      this.countBlocks := countBlocks;
      this.numberOfBlocks := numberOfBlocks;
      blocks := new Slot[bufferSize](_ => Empty);
      received := new bool[bufferSize](_ => false);
      peerList := table.peers;
      insolidarity := table.insolidarity;
      counter := 0;
      last := [];
      blockToPlay := 0;
      playerConnected := true;
      blocksExhausted := false;
      sent := hellos;
      played := [];
    }

    /** One more insolidarity point for a peer; past the limit its counter is deleted and it is
        removed from the peer list. */
    method PenalizePeer(peer: Endpoint)
      requires Members().Consistent() && peer in peerList
      modifies this`peerList, this`insolidarity
      ensures Members() == Penalize(old(Members()), peer)
      ensures |peerList| <= old(|peerList|)
    {
      insolidarity := insolidarity[peer := insolidarity[peer] + 1];
      if insolidarity[peer] > InsolidarityLimit {
        insolidarity := insolidarity - {peer};
        peerList := Remove(peerList, peer);
      }
    }

    /** The burst loop's state: sending what is left of the burst from here completes `goal`
        on top of `sent0`. */
    ghost predicate Bursting(goal: Sweep, sent0: seq<Send>)
      reads this`peerList, this`insolidarity, this`counter, this`sent, this`last
    {
      Members().Consistent()
      && Burst(Members(), counter, last).table == goal.table
      && sent + Burst(Members(), counter, last).sends == sent0 + goal.sends
    }

    /** One round of the burst loop: send the last chunk to the peer at the counter, penalize it
        and move on. */
    method BurstNext(ghost goal: Sweep, ghost sent0: seq<Send>)
      requires Bursting(goal, sent0) && 0 < counter < |peerList|
      modifies this`peerList, this`insolidarity, this`counter, this`sent
      ensures Bursting(goal, sent0)
      ensures |peerList| - counter < old(|peerList|) - old(counter)
    {
      var peer := peerList[counter];
      ghost var t, c, before := Members(), counter, sent;
      ghost var rest := Burst(Penalize(t, peer), c + 1, last);
      BurstSendsStep(t, c, last, before);
      PenalizePeer(peer);
      assert Members() == Penalize(t, peer);
      sent := sent + [Send(peer, last)];
      counter := counter + 1;
      assert Burst(Members(), counter, last) == rest;
    }

    /** The burst loop run before a new splitter block is relayed. */
    method ForwardBurst()
      requires Members().Consistent()
      modifies this`peerList, this`insolidarity, this`counter, this`sent
      ensures Members().Consistent()
      ensures var b := Burst(old(Members()), old(counter), last);
        Members() == b.table && sent == old(sent) + b.sends
    {
      ghost var goal := Burst(Members(), counter, last);
      while 0 < counter < |peerList|
        invariant Bursting(goal, old(sent))
        decreases |peerList| - counter
      {
        BurstNext(goal, old(sent));
      }
    }

    /** The congestion-avoidance step that follows every data block. */
    method CongestionStep()
      requires Members().Consistent()
      modifies this`peerList, this`insolidarity, this`counter, this`sent
      ensures Members().Consistent()
      ensures var f := Congest(old(Members()), old(counter), last);
        Members() == f.table && counter == f.counter && sent == old(sent) + f.sends
    {
      if counter < |peerList| {
        var peer := peerList[counter];
        sent := sent + [Send(peer, last)];
        PenalizePeer(peer);
        counter := counter + 1;
      }
    }

    /** A data block from the splitter: relayed to the gatherer, then the burst of the previous
        `last`, then the new block becomes `last` and the sweep restarts at position 0. */
    method SplitterBlock(message: Bytes)
      requires Members().Consistent()
      modifies this`peerList, this`insolidarity, this`counter, this`last, this`sent
      ensures Members().Consistent()
      ensures var b := Burst(old(Members()), old(counter), old(last));
        var f := Congest(b.table, 0, message);
        && RelayState() == Relay(f.table, f.counter, message)
        && sent == old(sent) + ([Send(gatherer, message)] + b.sends + f.sends)
    {
      var g := [Send(gatherer, message)];
      sent := sent + g;
      ghost var afterGatherer := sent;
      ForwardBurst();
      ghost var afterBurst := sent;
      counter := 0;
      last := message;
      CongestionStep();
      ghost var b := Burst(old(Members()), old(counter), old(last));
      ghost var f := Congest(b.table, 0, message);
      assert afterBurst == afterGatherer + b.sends && sent == afterBurst + f.sends;
      AppendAssociates(old(sent), g, b.sends);
      AppendAssociates(old(sent), g + b.sends, f.sends);
    }

    /** A data block from anyone else: its sender is admitted with counter 0, then one
        congestion-avoidance step with the current `last`. */
    method ForwarderBlock(sender: Endpoint)
      requires Members().Consistent()
      modifies this`peerList, this`insolidarity, this`counter, this`sent
      ensures Members().Consistent()
      ensures var f := Congest(AdmitForwarder(old(Members()), sender), old(counter), last);
        && RelayState() == Relay(f.table, f.counter, last)
        && sent == old(sent) + f.sends
    {
      if sender !in peerList {
        AppendFresh(peerList, sender);
        peerList := peerList + [sender];
      }
      insolidarity := insolidarity[sender := 0];
      CongestionStep();
    }

    /** A data block, after it has been stored. */
    method RelayData(sender: Endpoint, message: Bytes)
      requires Members().Consistent()
      modifies this`peerList, this`insolidarity, this`counter, this`last, this`sent
      ensures Members().Consistent()
      ensures var s := RelayBlock(old(RelayState()), sender, message, splitter, gatherer);
        RelayState() == s.relay && sent == old(sent) + s.sends
    {
      if sender == splitter {
        SplitterBlock(message);
      } else {
        ForwarderBlock(sender);
      }
    }

    /** A zero-length datagram: an unknown sender joins with counter 0, a listed one leaves the
        list and keeps its counter. */
    method ControlDatagram(sender: Endpoint)
      requires Members().Consistent()
      modifies this`peerList, this`insolidarity
      ensures Members().Consistent()
      ensures Members() == ToggleControl(old(Members()), sender)
    {
      if sender !in peerList {
        AppendFresh(peerList, sender);
        peerList := peerList + [sender];
        insolidarity := insolidarity[sender := 0];
      } else {
        RemoveUnique(peerList, sender);
        peerList := Remove(peerList, sender);
      }
    }

    /** A block stored in its ring slot, and that slot flagged received. */
    method StoreBlock(slot: nat, payload: Bytes)
      requires Valid() && slot < bufferSize && |payload| == BlockSize
      modifies blocks, received
      ensures Valid()
      ensures blocks[..] == old(blocks[..])[slot := Block(payload)]
      ensures received[..] == old(received[..])[slot := true]
    {
      FilledStore(blocks[..], received[..], slot, payload);
      blocks[slot] := Block(payload);
      received[slot] := true;
    }

    /** The `--number_of_blocks` countdown. */
    method CountBlock()
      modifies this`numberOfBlocks, this`blocksExhausted
      ensures countBlocks ==>
        numberOfBlocks == old(numberOfBlocks) - 1 && blocksExhausted == (old(blocksExhausted) || numberOfBlocks <= 0)
      ensures !countBlocks ==> numberOfBlocks == old(numberOfBlocks) && blocksExhausted == old(blocksExhausted)
    {
      if countBlocks {
        numberOfBlocks := numberOfBlocks - 1;
        if numberOfBlocks <= 0 {
          blocksExhausted := true;
        }
      }
    }

    /** The data-block branch of receive_and_feed: the block goes to ring slot `n % buffer_size`,
        where `n` is its decoded 16-bit number, is relayed, and is counted. */
    method FeedBlock(sender: Endpoint, message: Bytes) returns (n: nat)
      requires Valid() && |message| == DataMessageSize
      modifies this`peerList, this`insolidarity, this`counter, this`last, this`sent
      modifies this`numberOfBlocks, this`blocksExhausted, blocks, received
      ensures Valid()
      ensures n == DecodeU16(message)
      ensures var s := RelayBlock(old(RelayState()), sender, message, splitter, gatherer);
        RelayState() == s.relay && sent == old(sent) + s.sends
      ensures blocks[..] == old(blocks[..])[n % bufferSize := Block(message[2..])]
      ensures received[..] == old(received[..])[n % bufferSize := true]
      ensures countBlocks ==>
        numberOfBlocks == old(numberOfBlocks) - 1 && blocksExhausted == (old(blocksExhausted) || numberOfBlocks <= 0)
      ensures !countBlocks ==> numberOfBlocks == old(numberOfBlocks) && blocksExhausted == old(blocksExhausted)
    {
      n := DecodeU16(message);
      StoreBlock(n % bufferSize, message[2..]);
      RelayData(sender, message);
      CountBlock();
    }

    /** receive_and_feed, for the receive the cluster socket delivers. A data block is stored in
        its ring slot and relayed; a control datagram toggles its sender; any other length is
        ignored; a timeout changes nothing. */
    method ReceiveAndFeed(ev: Event) returns (r: FeedResult)
      requires Valid()
      modifies this`peerList, this`insolidarity, this`counter, this`last, this`sent
      modifies this`numberOfBlocks, this`blocksExhausted, blocks, received
      ensures Valid()
      ensures r == Outcome(ev)
      ensures var s := Feed(old(RelayState()), ev, splitter, gatherer);
        RelayState() == s.relay && sent == old(sent) + s.sends
      ensures ev.IsData() ==>
        var slot := DecodeU16(ev.message) % bufferSize;
        && blocks[..] == old(blocks[..])[slot := Block(ev.message[2..])]
        && received[..] == old(received[..])[slot := true]
      ensures !ev.IsData() ==> blocks[..] == old(blocks[..]) && received[..] == old(received[..])
      ensures ev.IsData() && countBlocks ==>
        numberOfBlocks == old(numberOfBlocks) - 1 && blocksExhausted == (old(blocksExhausted) || numberOfBlocks <= 0)
      ensures !(ev.IsData() && countBlocks) ==>
        numberOfBlocks == old(numberOfBlocks) && blocksExhausted == old(blocksExhausted)
    {
      match ev
      case Timeout =>
        r := TimedOut;
      case Datagram(sender, message) =>
        if |message| == DataMessageSize {
          var n := FeedBlock(sender, message);
          r := BlockNumber(n);
        } else if |message| == 0 {
          ControlDatagram(sender);
          r := ControlHandled;
        } else {
          r := Ignored;
        }
    }

    /** The loop that halves every insolidarity counter in place. */
    method HalveInsolidarity()
      requires Members().Consistent()
      modifies this`insolidarity
      ensures insolidarity == Halve(old(insolidarity))
      ensures Members().Consistent()
    {
      ghost var start := insolidarity;
      var pending := insolidarity.Keys;
      while pending != {}
        invariant pending <= start.Keys && insolidarity.Keys == start.Keys
        invariant forall p :: p in start && p !in pending ==> insolidarity[p] == start[p] / 2
        invariant forall p :: p in pending ==> insolidarity[p] == start[p]
        decreases pending
      {
        var p :| p in pending;
        insolidarity := insolidarity[p := insolidarity[p] / 2];
        pending := pending - {p};
      }
      assert insolidarity == Halve(start);
      HalveConsistent(Table(peerList, start));
    }

    /** send_a_block_to_the_player. A slot not marked received is first complained about to the
        splitter with its 16-bit index. An empty slot makes `sendall(None)` raise a non-socket
        error, which is swallowed; a socket error marks the player gone; otherwise the block is
        played and its flag cleared. */
    method SendBlockToPlayer(reply: PlayerReply)
      requires Valid()
      modifies this`sent, this`played, this`playerConnected, received
      ensures Valid()
      ensures sent == old(sent) + (if old(received[blockToPlay]) then [] else [Send(splitter, EncodeU16(blockToPlay))])
      ensures blocks[blockToPlay] == Empty ==>
        played == old(played) && playerConnected == old(playerConnected) && received[..] == old(received[..])
      ensures blocks[blockToPlay].Block? && reply == SocketError ==>
        played == old(played) && !playerConnected && received[..] == old(received[..])
      ensures blocks[blockToPlay].Block? && reply == Accepted ==>
        && played == old(played) + [blocks[blockToPlay].payload]
        && playerConnected == old(playerConnected)
        && received[..] == old(received[..])[blockToPlay := false]
    {
      if !received[blockToPlay] {
        sent := sent + [Send(splitter, EncodeU16(blockToPlay))];
      }
      match blocks[blockToPlay]
      case Empty =>
        return;
      case Block(payload) =>
        if reply == SocketError {
          playerConnected := false;
          return;
        }
        played := played + [payload];
        FilledClear(blocks[..], received[..], blockToPlay);
        received[blockToPlay] := false;
    }

    /** The loss count after buffering: how many of the `buffer_size/2` slots from `block_to_play`
        on, wrapping, are not marked received. */
    method CountLosses() returns (losses: nat)
      requires Valid()
      ensures losses == Missing(received[..], blockToPlay, bufferSize / 2)
    {
      losses := 0;
      for x := blockToPlay to blockToPlay + bufferSize / 2
        invariant losses == Missing(received[..], blockToPlay, x - blockToPlay)
      {
        if !received[x % bufferSize] {
          losses := losses + 1;
        }
      }
    }

    /** The relay state, the sends and the received flags are what feeding the first `k`
        receives of `events` in order makes of `r0`, `sent0` and `flags0`. */
    ghost predicate Consumed(r0: Relay, sent0: seq<Send>, flags0: seq<bool>, events: seq<Event>, k: nat)
      requires r0.table.Consistent() && |flags0| > 0 && k <= |events|
      reads this`peerList, this`insolidarity, this`counter, this`last, this`sent, received
    {
      var s := Run(Receiver(splitter, gatherer), r0, events, 0, k);
      RelayState() == s.relay && sent == sent0 + s.sends && received[..] == Marked(flags0, events, k)
    }

    /** Where the buffering phase ends after `consumed` receives: what they did to the relay
        state, the sends and the flags, and on success `buffer_size/2 + 1` waits ended in all,
        the last at the final receive, with the losses counted over the flags they marked; `ok`
        is false only when the receives ran out. */
    ghost predicate Buffered(r0: Relay, sent0: seq<Send>, flags0: seq<bool>, events: seq<Event>,
                           ok: bool, consumed: nat, losses: nat)
      requires r0.table.Consistent() && |flags0| > 0
      reads this`peerList, this`insolidarity, this`counter, this`last, this`sent, received, this`blockToPlay
    {
      && consumed <= |events|
      && Consumed(r0, sent0, flags0, events, consumed)
      && (ok ==> Arrivals(events, 0, consumed) == bufferSize / 2 + 1 && EndsWait(events[consumed - 1]))
      && (ok ==> losses == Missing(Marked(flags0, events, consumed), blockToPlay, bufferSize / 2))
      && (!ok ==> consumed == |events|)
    }

    /** `while receive_and_feed() <= 0`: receive until a data block with a nonzero number arrives,
        or until the receives run out (`ok` false). The receives from `from` on extend the run
        consumed so far. */
    method AwaitBlock(events: seq<Event>, from: nat, ghost r0: Relay, ghost sent0: seq<Send>, ghost flags0: seq<bool>)
      returns (ok: bool, next: nat, n: nat)
      requires Valid() && from <= |events|
      requires r0.table.Consistent() && |flags0| == bufferSize
      requires Consumed(r0, sent0, flags0, events, from)
      modifies this`peerList, this`insolidarity, this`counter, this`last, this`sent
      modifies this`numberOfBlocks, this`blocksExhausted, blocks, received
      ensures Valid()
      ensures from <= next <= |events|
      ensures Arrivals(events, from, next) == (if ok then 1 else 0)
      ensures ok ==> from < next && EndsWait(events[next - 1]) && Outcome(events[next - 1]) == BlockNumber(n)
      ensures !ok ==> next == |events|
      ensures Consumed(r0, sent0, flags0, events, next)
    {
      next := from;
      while next < |events|
        invariant from <= next <= |events|
        invariant Valid()
        invariant Arrivals(events, from, next) == 0
        invariant Consumed(r0, sent0, flags0, events, next)
      {
        var ended;
        ended, n := AwaitStep(events, from, next, r0, sent0, flags0);
        next := next + 1;
        if ended {
          return true, next, n;
        }
      }
      return false, next, 0;
    }

    /** One receive of the wait loop: it extends the run consumed so far by one receive, and
        reports whether it ends the wait and with which block number. */
    method AwaitStep(events: seq<Event>, ghost from: nat, next: nat, ghost r0: Relay, ghost sent0: seq<Send>, ghost flags0: seq<bool>)
      returns (ended: bool, n: nat)
      requires Valid() && from <= next < |events|
      requires r0.table.Consistent() && |flags0| == bufferSize
      requires Consumed(r0, sent0, flags0, events, next)
      modifies this`peerList, this`insolidarity, this`counter, this`last, this`sent
      modifies this`numberOfBlocks, this`blocksExhausted, blocks, received
      ensures Valid()
      ensures Consumed(r0, sent0, flags0, events, next + 1)
      ensures ended == EndsWait(events[next])
      ensures ended ==> Outcome(events[next]) == BlockNumber(n)
      ensures Arrivals(events, from, next + 1) == Arrivals(events, from, next) + (if ended then 1 else 0)
    {
      ghost var feed := Receiver(splitter, gatherer);
      ghost var before := Run(feed, r0, events, 0, next);
      ghost var step := Feed(before.relay, events[next], splitter, gatherer);
      var r := ReceiveAndFeed(events[next]);
      RunSplit(feed, r0, events, 0, next, next + 1);
      assert Run(feed, before.relay, events, next, next + 1) == Step(step.relay, step.sends + []);
      assert step.sends + [] == step.sends;
      AppendAssociates(sent0, before.sends, step.sends);
      ended, n := !r.AtMostZero(), 0;
      if ended {
        n := r.n;
      }
    }

    /** The buffering phase: wait for the first block, play from its slot, wait for
        `buffer_size/2` more blocks, then count the empty slots of the half-buffer ahead of the
        cursor. `ok` is false when the receives run out first. */
    method Buffering(events: seq<Event>) returns (ok: bool, consumed: nat, firstAt: nat, losses: nat)
      requires Valid()
      modifies this`peerList, this`insolidarity, this`counter, this`last, this`sent
      modifies this`numberOfBlocks, this`blocksExhausted, blocks, received
      modifies this`blockToPlay
      ensures Valid()
      ensures Buffered(old(RelayState()), old(sent), old(received[..]), events, ok, consumed, losses)
      ensures ok ==>
        && firstAt < consumed && Arrivals(events, 0, firstAt) == 0 && EndsWait(events[firstAt])
        && blockToPlay == DecodeU16(events[firstAt].message) % bufferSize
    {
      ghost var r0, sent0, flags0 := RelayState(), sent, received[..];
      assert sent == sent + [];
      var found, next, n := AwaitBlock(events, 0, r0, sent0, flags0);
      ok, consumed, firstAt, losses := false, next, 0, 0;
      if found {
        firstAt := next - 1;
        ok, consumed, losses := PlayAndFill(events, next, n, r0, sent0, flags0);
      }
    }

    /** The buffering phase once the first block, number `n`, ended the first wait at receive
        `start - 1`: play from its slot, wait for `buffer_size/2` more blocks and count the
        losses. */
    method PlayAndFill(events: seq<Event>, start: nat, n: nat, ghost r0: Relay, ghost sent0: seq<Send>, ghost flags0: seq<bool>)
      returns (ok: bool, consumed: nat, losses: nat)
      requires Valid() && 0 < start <= |events|
      requires r0.table.Consistent() && |flags0| == bufferSize
      requires Consumed(r0, sent0, flags0, events, start)
      requires Arrivals(events, 0, start) == 1 && EndsWait(events[start - 1])
      requires Outcome(events[start - 1]) == BlockNumber(n)
      modifies this`peerList, this`insolidarity, this`counter, this`last, this`sent
      modifies this`numberOfBlocks, this`blocksExhausted, blocks, received
      modifies this`blockToPlay
      ensures Valid()
      ensures start <= consumed
      ensures blockToPlay == DecodeU16(events[start - 1].message) % bufferSize
      ensures Buffered(r0, sent0, flags0, events, ok, consumed, losses)
    {
      blockToPlay := n % bufferSize;
      ok, consumed := AwaitHalf(events, start, r0, sent0, flags0);
      losses := 0;
      if ok {
        losses := CountLosses();
      }
    }

    /** The second wait of the buffering phase: `buffer_size/2` more blocks, each ending a wait.
        `ok` is false when the receives run out first. */
    method AwaitHalf(events: seq<Event>, start: nat, ghost r0: Relay, ghost sent0: seq<Send>, ghost flags0: seq<bool>)
      returns (ok: bool, consumed: nat)
      requires Valid() && 0 < start <= |events|
      requires r0.table.Consistent() && |flags0| == bufferSize
      requires Consumed(r0, sent0, flags0, events, start)
      requires Arrivals(events, 0, start) == 1 && EndsWait(events[start - 1])
      modifies this`peerList, this`insolidarity, this`counter, this`last, this`sent
      modifies this`numberOfBlocks, this`blocksExhausted, blocks, received
      ensures Valid()
      ensures start <= consumed <= |events|
      ensures Consumed(r0, sent0, flags0, events, consumed)
      ensures ok ==> Arrivals(events, 0, consumed) == bufferSize / 2 + 1 && EndsWait(events[consumed - 1])
      ensures !ok ==> consumed == |events|
    {
      consumed := start;
      var x := 0;
      while x < bufferSize / 2
        invariant x <= bufferSize / 2
        invariant Valid()
        invariant start <= consumed <= |events|
        invariant Arrivals(events, 0, consumed) == 1 + x && EndsWait(events[consumed - 1])
        invariant Consumed(r0, sent0, flags0, events, consumed)
      {
        var got, after, _ := AwaitBlock(events, consumed, r0, sent0, flags0);
        ArrivalsSplit(events, 0, consumed, after);
        consumed := after;
        if !got {
          return false, consumed;
        }
        x := x + 1;
      }
      ok := true;
    }

    /** The rest of a steady-state iteration, once receive_and_feed has returned `r`: on a data
        block, halve every counter when its number is a multiple of 256 and, with a player, play
        the slot at the cursor and advance the cursor around the ring. */
    method AfterReceive(r: FeedResult, reply: PlayerReply)
      requires Valid()
      modifies this`insolidarity, this`sent, received, this`blockToPlay, this`played, this`playerConnected
      ensures Valid()
      ensures insolidarity == if r.AtLeastZero() && r.n % HalvingPeriod == 0 then Halve(old(insolidarity)) else old(insolidarity)
      ensures blockToPlay == if r.AtLeastZero() && playerEnabled then (old(blockToPlay) + 1) % bufferSize else old(blockToPlay)
      ensures sent == old(sent) + (if r.AtLeastZero() && playerEnabled && !old(received[blockToPlay])
                                   then [Send(splitter, EncodeU16(old(blockToPlay)))] else [])
      ensures !(r.AtLeastZero() && playerEnabled) ==>
        played == old(played) && playerConnected == old(playerConnected) && received[..] == old(received[..])
      ensures r.AtLeastZero() && playerEnabled && blocks[old(blockToPlay)] == Empty ==>
        played == old(played) && playerConnected == old(playerConnected) && received[..] == old(received[..])
      ensures r.AtLeastZero() && playerEnabled && blocks[old(blockToPlay)].Block? && reply == SocketError ==>
        played == old(played) && !playerConnected && received[..] == old(received[..])
      ensures r.AtLeastZero() && playerEnabled && blocks[old(blockToPlay)].Block? && reply == Accepted ==>
        && played == old(played) + [blocks[old(blockToPlay)].payload]
        && playerConnected == old(playerConnected)
        && received[..] == old(received[..])[old(blockToPlay) := false]
      ensures |played| <= |old(played)| + 1 && (!old(playerConnected) ==> !playerConnected)
    {
      if r.AtLeastZero() {
        if r.n % HalvingPeriod == 0 {
          HalveInsolidarity();
        }
        if playerEnabled {
          SendBlockToPlayer(reply);
          blockToPlay := (blockToPlay + 1) % bufferSize;
        }
      }
    }

    /** The steady-state loop: run while the player is connected and the churn deadline has not
        passed; returns how many iterations ran. */
    method SteadyState(ticks: seq<Tick>) returns (iterations: nat)
      requires Valid()
      modifies this`peerList, this`insolidarity, this`counter, this`last, this`sent
      modifies this`numberOfBlocks, this`blocksExhausted, blocks, received
      modifies this`blockToPlay, this`played, this`playerConnected
      ensures Valid()
      ensures iterations <= |ticks|
      ensures Alive(ticks, iterations)
      ensures iterations < |ticks| ==> !playerConnected || ticks[iterations].timeToDie
      ensures !old(playerConnected) ==> iterations == 0 && played == old(played)
      ensures |played| <= |old(played)| + iterations
    {
      iterations := 0;
      while iterations < |ticks| && playerConnected && !ticks[iterations].timeToDie
        invariant iterations <= |ticks|
        invariant Valid()
        invariant Alive(ticks, iterations)
        invariant !old(playerConnected) ==> !playerConnected && iterations == 0 && played == old(played)
        invariant |played| <= |old(played)| + iterations
      {
        AliveSnoc(ticks, iterations);
        var r := ReceiveAndFeed(ticks[iterations].event);
        AfterReceive(r, ticks[iterations].reply);
        iterations := iterations + 1;
      }
    }

    /** The goodbye: an empty datagram to the splitter, three more receives, then an empty
        datagram to every peer still listed. */
    method Shutdown(drain: seq<Event>)
      requires Valid() && |drain| == 3
      modifies this`peerList, this`insolidarity, this`counter, this`last, this`sent
      modifies this`numberOfBlocks, this`blocksExhausted, blocks, received
      ensures Valid()
      ensures old(sent) + [Send(splitter, [])] <= sent
      ensures |old(sent)| + 1 + |peerList| <= |sent|
      ensures sent[|sent| - |peerList|..] == EmptyDatagrams(peerList)
    {
      sent := sent + [Send(splitter, [])];
      ghost var base := sent;
      for x := 0 to 3
        invariant Valid()
        invariant base <= sent
      {
        ghost var before := sent;
        var _ := ReceiveAndFeed(drain[x]);
        assert sent[..|before|] == before;
        PrefixTransitive(base, before, sent);
      }
      ghost var fed := sent;
      SendGoodbyes();
      assert sent[..|fed|] == fed;
      PrefixTransitive(base, fed, sent);
    }

    /** The goodbye loop: one empty datagram to each listed peer, in list order. */
    method SendGoodbyes()
      modifies this`sent
      ensures sent == old(sent) + EmptyDatagrams(peerList)
    {
      for i := 0 to |peerList|
        invariant sent == old(sent) + EmptyDatagrams(peerList[..i])
      {
        assert peerList[..i + 1][..i] == peerList[..i];
        sent := sent + [Send(peerList[i], [])];
      }
      assert peerList[..|peerList|] == peerList;
    }
  }
}
