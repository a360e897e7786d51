/** The count ledger: a FIFO queue of per-document line counts, from the
    feeding loop to the reassembling loop. */
module CountLedger {
  import opened Wrappers

  class Ledger {
    var entries: seq<nat>

    constructor ()
      ensures entries == []
    {
      entries := [];
    }

    /** `Put`: a count joins the back of the queue. */
    method Put(n: nat)
      modifies this
      ensures entries == old(entries) + [n]
    {
      entries := entries + [n];
    }

    /** `Get(1)`: the count at the front of the queue. With the feeding loop
        run to completion first, an empty queue is a disposed one, and `Get`
        reports that with `None`. */
    method Get() returns (r: Option<nat>)
      modifies this
      ensures old(entries) == [] ==> r == None && entries == []
      ensures old(entries) != [] ==> r == Some(old(entries)[0]) && entries == old(entries)[1..]
    {
      if entries == [] {
        r := None;
      } else {
        r := Some(entries[0]);
        entries := entries[1..];
      }
    }
  }

  function Sum(counts: seq<nat>): nat
  {
    if counts == [] then 0 else counts[0] + Sum(counts[1..])
  }

  /** A sum splits at any point. */
  lemma {:induction false} SumSplit(counts: seq<nat>, k: nat)
    requires k <= |counts|
    ensures Sum(counts) == Sum(counts[..k]) + Sum(counts[k..])
  {
    if k > 0 {
      assert counts[..k][1..] == counts[1..][..k - 1];
      assert counts[k..] == counts[1..][k - 1..];
      SumSplit(counts[1..], k - 1);
    }
  }
}
