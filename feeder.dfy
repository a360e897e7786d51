/** The feeding loop of `main` (b64filter.go:233-249): every decoded document
    is written to the filter's standard input followed by one '\n', and its
    line count goes onto the ledger. */
module Feeder {
  import opened Wrappers
  import opened Bytes
  import opened Faults
  import opened Streams
  import opened CountLedger

  /** The count pushed for a document: its terminators plus one for the
      '\n' written after it, which is the number of lines the filter sees. */
  function LineCount(doc: Bytes): (n: nat)
    ensures n == |Split(doc)| && n >= 1
  {
    Count(doc) + 1
  }

  /** The ledger entries for a run of documents. */
  function Counts(docs: seq<Bytes>): (counts: seq<nat>)
    ensures |counts| == |docs|
    ensures forall k :: 0 <= k < |docs| ==> counts[k] == |Split(docs[k])|
  {
    if docs == [] then [] else [LineCount(docs[0])] + Counts(docs[1..])
  }

  /** One iteration of the feeding loop. */
  method FeedDoc(doc: Bytes, cmdin: Sink, counts: Ledger) returns (ok: bool)
    modifies cmdin, counts
    ensures cmdin.broken == old(cmdin.broken) && ok == !cmdin.broken
    ensures ok ==> cmdin.data == old(cmdin.data) + doc + [NL]
    ensures ok ==> counts.entries == old(counts.entries) + [LineCount(doc)]
    ensures !ok ==> cmdin.data == old(cmdin.data) && counts.entries == old(counts.entries)
  {
    var lines := Count(doc);
    ok := cmdin.Write(doc);
    if !ok {
      return;
    }
    ok := cmdin.Write([NL]);
    if !ok {
      return;
    }
    counts.Put(lines + 1);
  }

  /** The feeding loop: `i` documents fed, or the write fault that ended it. */
  method Feed(docs: seq<Bytes>, cmdin: Sink, counts: Ledger) returns (i: nat, fault: Option<Fault>)
    modifies cmdin, counts
    ensures cmdin.broken == old(cmdin.broken)
    ensures fault.None? <==> docs == [] || !cmdin.broken
    ensures fault.None? ==> i == |docs|
    ensures fault.None? ==> cmdin.data == old(cmdin.data) + Terminated(docs)
    ensures fault.None? ==> counts.entries == old(counts.entries) + Counts(docs)
    ensures fault.Some? ==> fault == Some(FilterWriteFailed) && i == 0
    ensures fault.Some? ==> cmdin.data == old(cmdin.data) && counts.entries == old(counts.entries)
  {
    i := 0;
    while i < |docs|
      invariant 0 <= i <= |docs|
      invariant cmdin.broken == old(cmdin.broken)
      invariant i > 0 ==> !cmdin.broken
      invariant cmdin.data == old(cmdin.data) + Terminated(docs[..i])
      invariant counts.entries == old(counts.entries) + Counts(docs[..i])
    {
      var ok := FeedDoc(docs[i], cmdin, counts);
      if !ok {
        return 0, Some(FilterWriteFailed);
      }
      TerminatedSnoc(docs, i);
      CountsSnoc(docs, i);
      i := i + 1;
    }
    assert docs[..i] == docs;
    fault := None;
  }

  lemma {:induction false} TerminatedSnoc(docs: seq<Bytes>, i: nat)
    requires i < |docs|
    ensures Terminated(docs[..i + 1]) == Terminated(docs[..i]) + docs[i] + [NL]
  {
    if i > 0 {
      assert docs[..i + 1][1..] == docs[1..][..i];
      assert docs[..i][1..] == docs[1..][..i - 1];
      TerminatedSnoc(docs[1..], i - 1);
    }
  }

  lemma {:induction false} CountsSnoc(docs: seq<Bytes>, i: nat)
    requires i < |docs|
    ensures Counts(docs[..i + 1]) == Counts(docs[..i]) + [LineCount(docs[i])]
  {
    if i > 0 {
      var head, tail := [LineCount(docs[0])], docs[1..];
      assert docs[..i + 1][1..] == tail[..i] && docs[..i][1..] == tail[..i - 1];
      assert Counts(docs[..i + 1]) == head + Counts(tail[..i]);
      assert Counts(docs[..i]) == head + Counts(tail[..i - 1]);
      CountsSnoc(tail, i - 1);
      assert tail[i - 1] == docs[i];
      SeqAssoc(head, Counts(tail[..i - 1]), [LineCount(docs[i])]);
    }
  }

  /** The ledger accounts for every line the filter is fed: the counts of a
      run of documents add up to the number of terminators written. */
  lemma {:induction false} CountsCoverFedLines(docs: seq<Bytes>)
    ensures Sum(Counts(docs)) == Count(Terminated(docs)) == |SplitAll(docs)|
  {
    SplitTerminated(docs);
    if docs != [] {
      CountsCoverFedLines(docs[1..]);
    }
  }
}
