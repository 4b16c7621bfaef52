/** The ring buffer of sim-cluster/peer.py: `blocks` and the parallel `received` flags, and the
    startup loss count over half of it. */
module Ring {
  import opened Bytes

  /** A slot of `blocks`: `None` until a block is first stored there. */
  datatype Slot = Empty | Block(payload: Bytes)

  /** The flag `j` slots after `start`, wrapping around the ring. */
  function ReceivedAt(received: seq<bool>, start: nat, j: nat): bool
    requires |received| > 0
  {
    received[(start + j) % |received|]
  }

  /** Number of slots, among the `k` starting at `start` and wrapping around, whose flag is false. */
  function Missing(received: seq<bool>, start: nat, k: nat): (n: nat)
    requires |received| > 0
    ensures n <= k
    decreases k
  {
    if k == 0 then 0
    else Missing(received, start, k - 1) + (if ReceivedAt(received, start, k - 1) then 0 else 1)
  }

  /** Nothing is missing exactly when every slot of the window was received. */
  lemma {:induction false} NoneMissing(received: seq<bool>, start: nat, k: nat)
    requires |received| > 0
    decreases k
    ensures Missing(received, start, k) == 0 <==> forall j: nat :: j < k ==> ReceivedAt(received, start, j)
  {
    if k > 0 {
      NoneMissing(received, start, k - 1);
    }
  }

  /** The whole window is missing exactly when no slot of it was received. */
  lemma {:induction false} AllMissing(received: seq<bool>, start: nat, k: nat)
    requires |received| > 0
    decreases k
    ensures Missing(received, start, k) == k <==> forall j: nat :: j < k ==> !ReceivedAt(received, start, j)
  {
    if k > 0 {
      AllMissing(received, start, k - 1);
    }
  }
}
