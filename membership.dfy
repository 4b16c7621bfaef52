/** The membership table of a cluster peer: the ordered peer list and the insolidarity counters
    (`peer_list` and `peer_insolidarity` in sim-cluster/peer.py). */
module Membership {
  import opened Seqs

  /** A cluster member's UDP endpoint; identity is the (address, port) pair. */
  datatype Endpoint = Endpoint(address: nat, port: nat)

  /** A counter above this value evicts the peer. */
  const InsolidarityLimit: nat := 64

  /** The peer list and the counter map. The map may hold keys of peers that left. */
  datatype Table = Table(peers: seq<Endpoint>, insolidarity: map<Endpoint, nat>) {

    /** Every listed peer is listed once and has a counter, and no counter exceeds the limit. */
    predicate Consistent() {
      && NoDuplicates(peers)
      && (forall p :: p in peers ==> p in insolidarity)
      && (forall p :: p in insolidarity ==> insolidarity[p] <= InsolidarityLimit)
    }
  }

  /** The table built from the splitter's list: every peer with counter 0. */
  function Initial(peers: seq<Endpoint>): (t: Table)
    requires NoDuplicates(peers)
    ensures t.Consistent()
    ensures t.peers == peers && t.insolidarity.Keys == Elements(peers)
    ensures forall p :: p in t.insolidarity ==> t.insolidarity[p] == 0
  {
    Table(peers, map p | p in peers :: 0)
  }

  /** One missed-forward point for `p`: the counter grows by one and, once it exceeds the limit,
      `p` leaves both the list and the map. */
  function Penalize(t: Table, p: Endpoint): (r: Table)
    requires t.Consistent() && p in t.peers
    ensures r.Consistent()
    ensures p in r.peers <==> t.insolidarity[p] < InsolidarityLimit
    ensures p in r.peers ==> r == Table(t.peers, t.insolidarity[p := t.insolidarity[p] + 1])
    ensures p !in r.peers ==> r == Table(Remove(t.peers, p), t.insolidarity - {p})
  {
    var v := t.insolidarity[p] + 1;
    if v > InsolidarityLimit then
      RemoveUnique(t.peers, p);
      Table(Remove(t.peers, p), t.insolidarity - {p})
    else
      Table(t.peers, t.insolidarity[p := v])
  }

  /** `k` successive penalties of `p`, stopping once `p` has been evicted. */
  function Penalties(t: Table, p: Endpoint, k: nat): (r: Table)
    requires t.Consistent()
    ensures r.Consistent()
    decreases k
  {
    if k == 0 || p !in t.peers then t else Penalties(Penalize(t, p), p, k - 1)
  }

  /** Fewer penalties than `65 - counter` leave `p` listed with its counter raised by that many;
      exactly that many evict it from the list and the map. */
  lemma {:induction false} PenaltiesEvictExactly(t: Table, p: Endpoint, k: nat)
    requires t.Consistent() && p in t.peers
    decreases k
    ensures var r := Penalties(t, p, k);
      if t.insolidarity[p] + k <= InsolidarityLimit then
        p in r.peers && r.insolidarity[p] == t.insolidarity[p] + k
      else
        p !in r.peers && p !in r.insolidarity
  {
    if k > 0 {
      var t' := Penalize(t, p);
      if p in t'.peers {
        PenaltiesEvictExactly(t', p, k - 1);
      }
    }
  }

  /** A data block relayed by `sender`: it is listed (appended when new) and its counter is reset. */
  function AdmitForwarder(t: Table, sender: Endpoint): (r: Table)
    requires t.Consistent()
    ensures r.Consistent()
    ensures sender in r.peers && r.insolidarity[sender] == 0
    ensures r.peers == if sender in t.peers then t.peers else t.peers + [sender]
    ensures r.insolidarity.Keys == t.insolidarity.Keys + {sender}
    ensures forall q :: q != sender && q in t.insolidarity ==> r.insolidarity[q] == t.insolidarity[q]
  {
    if sender in t.peers then
      Table(t.peers, t.insolidarity[sender := 0])
    else
      AppendFresh(t.peers, sender);
      Table(t.peers + [sender], t.insolidarity[sender := 0])
  }

  /** A zero-length datagram from `sender`: a join notice when `sender` is not listed (appended with
      counter 0), a leave notice otherwise (removed from the list only; its counter stays in the map). */
  function ToggleControl(t: Table, sender: Endpoint): (r: Table)
    requires t.Consistent()
    ensures r.Consistent()
    ensures sender in r.peers <==> sender !in t.peers
    ensures forall q :: q != sender ==> (q in r.peers <==> q in t.peers)
    ensures sender !in t.peers ==> r.peers == t.peers + [sender] && r.insolidarity == t.insolidarity[sender := 0]
    ensures sender in t.peers ==> r.peers == Remove(t.peers, sender) && r.insolidarity == t.insolidarity
  {
    if sender !in t.peers then
      AppendFresh(t.peers, sender);
      Table(t.peers + [sender], t.insolidarity[sender := 0])
    else
      RemoveUnique(t.peers, sender);
      Table(Remove(t.peers, sender), t.insolidarity)
  }

  /** A join notice followed by a leave notice from a new sender restores the peer list; the map
      keeps the sender's counter 0. */
  lemma ToggleTwiceFromNewSender(t: Table, sender: Endpoint)
    requires t.Consistent() && sender !in t.peers
    ensures ToggleControl(ToggleControl(t, sender), sender).peers == t.peers
    ensures ToggleControl(ToggleControl(t, sender), sender).insolidarity == t.insolidarity[sender := 0]
  {
    var s := t.peers + [sender];
    assert IndexOf(s, sender) == |t.peers| by {
      var i := IndexOf(s, sender);
      assert s[i] == sender;
    }
    assert s[..|t.peers|] == t.peers;
  }

  /** A leave notice followed by a join notice from a listed sender moves it to the tail with counter 0. */
  lemma ToggleTwiceFromListedSender(t: Table, sender: Endpoint)
    requires t.Consistent() && sender in t.peers
    ensures ToggleControl(ToggleControl(t, sender), sender).peers == Remove(t.peers, sender) + [sender]
    ensures ToggleControl(ToggleControl(t, sender), sender).insolidarity == t.insolidarity[sender := 0]
  {
  }

  /** Every counter halved with floor division (Python 2 integer division). */
  function Halve(m: map<Endpoint, nat>): (r: map<Endpoint, nat>)
    ensures r.Keys == m.Keys
    ensures forall p :: p in m ==> 2 * r[p] <= m[p] <= 2 * r[p] + 1
  {
    map p | p in m :: m[p] / 2
  }

  /** Halving keeps the table consistent and leaves the peer list alone. */
  lemma HalveConsistent(t: Table)
    requires t.Consistent()
    ensures Table(t.peers, Halve(t.insolidarity)).Consistent()
  {
  }

  /** `k` successive halvings. */
  function HalveTimes(m: map<Endpoint, nat>, k: nat): (r: map<Endpoint, nat>)
    decreases k
  {
    if k == 0 then m else HalveTimes(Halve(m), k - 1)
  }

  /** 2 to the power `k`. */
  function Pow2(k: nat): (r: nat)
    ensures r >= 1
  {
    if k == 0 then 1 else 2 * Pow2(k - 1)
  }

  /** Repeated halving forgives: a counter below 2^k is 0 after k halvings, and the keys never change. */
  lemma {:induction false} HalvingConverges(m: map<Endpoint, nat>, k: nat)
    ensures HalveTimes(m, k).Keys == m.Keys
    ensures forall p :: p in m && m[p] < Pow2(k) ==> HalveTimes(m, k)[p] == 0
  {
    if k > 0 {
      HalvingConverges(Halve(m), k - 1);
    }
  }

  /** Since no counter of a consistent table exceeds 64, seven halvings reset every counter. */
  lemma SevenHalvingsClear(t: Table)
    requires t.Consistent()
    ensures forall p :: p in t.insolidarity ==> HalveTimes(t.insolidarity, 7)[p] == 0
  {
    HalvingConverges(t.insolidarity, 7);
    assert Pow2(7) == 128;
  }
}
