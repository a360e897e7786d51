/** The reassembling side (b64filter.go:93-188): `readNLines` collects a
    given number of lines from the filter's output, and the loop of
    `writeDocs` turns each ledger entry back into one encoded record. */
module Reassembler {
  import opened Wrappers
  import opened Bytes
  import opened Faults
  import opened Streams
  import opened Codec
  import opened CountLedger

  /** The outcome of collecting one line: its bytes, the results left, and
      the error of the last result taken. */
  datatype LineRead = LineRead(line: Bytes, rest: seq<ReadResult>, status: Status)

  /** One line as readNLines assembles it: chunks are appended to `acc` up to
      and including the first that is not a prefix, or the first error. The
      bytes already read start the line. */
  function NextLine(rs: seq<ReadResult>, acc: Bytes): (l: LineRead)
    ensures acc <= l.line
    decreases |rs|
  {
    var c := Head(rs);
    if c.err != Ok then LineRead(acc + c.chunk, Tail(rs), c.err)
    else if !c.isPrefix then LineRead(acc + c.chunk, Tail(rs), Ok)
    else NextLine(Tail(rs), acc + c.chunk)
  }

  /** What readNLines returns: the lines, or a nil slice with a read error. */
  datatype LinesResult = Got(lines: seq<Bytes>) | ReadError(code: nat)

  /** A result of readNLines and the reader results it leaves unread. */
  datatype Step = Step(result: LinesResult, rest: seq<ReadResult>)

  /** `lines` read earlier, followed by the outcome of the rest of the call. */
  function After(lines: seq<Bytes>, s: Step): Step
  {
    match s.result
    case Got(more) => Step(Got(lines + more), s.rest)
    case ReadError(_) => s
  }

  /** readNLines(count, buf), when `pending` bytes of the current line have
      been read already: a finished line counts towards `count`; io.EOF
      ends the call with the pending line appended, even an empty one; any
      other error ends it with nothing. It never returns more than `count`
      lines. */
  function ReadN(count: nat, rs: seq<ReadResult>, pending: Bytes): (s: Step)
    ensures s.result.Got? ==> |s.result.lines| <= count
    decreases count
  {
    if count == 0 then Step(Got([]), rs)
    else
      var l := NextLine(rs, pending);
      match l.status
      case Eof => Step(Got([l.line]), l.rest)
      case Failed(e) => Step(ReadError(e), l.rest)
      case Ok => After([l.line], ReadN(count - 1, l.rest, []))
  }

  /** readNLines in terms of the next ReadLine result alone: io.EOF ends the
      call with the pending line, another error ends it with nothing, a
      prefix chunk only grows the pending line, and a final chunk finishes
      a line. */
  lemma ReadNChunk(count: nat, rs: seq<ReadResult>, pending: Bytes)
    requires count > 0
    ensures ReadN(count, rs, pending)
         == var c := Head(rs);
            var line := pending + c.chunk;
            if c.err == Eof then Step(Got([line]), Tail(rs))
            else if c.err != Ok then Step(ReadError(c.err.code), Tail(rs))
            else if c.isPrefix then ReadN(count, Tail(rs), line)
            else After([line], ReadN(count - 1, Tail(rs), []))
  {
  }

  /** `readNLines`, with its loop and the `n--` that keeps a prefix chunk from
      counting as a line. */
  method ReadNLines(count: nat, buf: ChunkReader) returns (res: LinesResult)
    requires buf.Valid()
    modifies buf
    ensures buf.Valid() && buf.results == old(buf.results)
    ensures Step(res, buf.Remaining()) == ReadN(count, old(buf.Remaining()), [])
  {
    ghost var goal := ReadN(count, buf.Remaining(), []);
    var lines: seq<Bytes> := [];
    var line: Bytes := [];
    var n: int := 0;
    while n < count
      invariant 0 <= n <= count && n == |lines|
      invariant buf.Valid() && buf.results == old(buf.results)
      invariant After(lines, ReadN(count - n, buf.Remaining(), line)) == goal
      decreases count - n, |buf.Remaining()|
    {
      ReadNChunk(count - n, buf.Remaining(), line);
      var c := buf.ReadLine();
      line := line + c.chunk;
      if c.err != Ok {
        if c.err == Eof {
          lines := lines + [line];
          res := Got(lines);
          return;
        } else {
          return ReadError(c.err.code);
        }
      }
      if !c.isPrefix {
        AfterAfter(lines, [line], ReadN(count - n - 1, buf.Remaining(), []));
        lines := lines + [line];
        line := [];
      } else {
        n := n - 1;
      }
      n := n + 1;
    }
    res := Got(lines);
  }

  lemma AfterAfter(a: seq<Bytes>, b: seq<Bytes>, s: Step)
    ensures After(a, After(b, s)) == After(a + b, s)
  {
    if s.result.Got? {
      assert a + (b + s.result.lines) == (a + b) + s.result.lines;
    }
  }

  /** One line is finished exactly when the results hold a finished line,
      and taking it leaves one finished line fewer and the same first error;
      a line that is not finished ends at that error. */
  lemma {:induction false} NextLineProgress(rs: seq<ReadResult>, acc: Bytes)
    ensures var l := NextLine(rs, acc);
      (l.status == Ok <==> CompleteLines(rs) > 0)
      && (l.status == Ok ==> CompleteLines(l.rest) == CompleteLines(rs) - 1 && Stop(l.rest) == Stop(rs))
      && (l.status != Ok ==> l.status == Stop(rs))
    decreases |rs|
  {
    var c := Head(rs);
    if c.err == Ok && c.isPrefix {
      NextLineProgress(Tail(rs), acc + c.chunk);
    }
  }

  /** readNLines never returns more than `count` lines; it returns exactly
      `count` when the stream holds them; when io.EOF comes after m < count
      finished lines it returns m + 1, the last being what was pending; on
      any other error it returns the error alone. */
  lemma {:induction false} ReadNCount(count: nat, rs: seq<ReadResult>, pending: Bytes)
    ensures var s := ReadN(count, rs, pending);
      if CompleteLines(rs) >= count then s.result.Got? && |s.result.lines| == count
      else if Stop(rs) == Eof then s.result.Got? && |s.result.lines| == CompleteLines(rs) + 1
      else s.result == ReadError(Stop(rs).code)
    decreases count
  {
    if count > 0 {
      var l := NextLine(rs, pending);
      NextLineProgress(rs, pending);
      if l.status == Ok {
        ReadNCount(count - 1, l.rest, []);
      }
    }
  }

  /** The results NextLine leaves hold no terminator when the results it
      started from held none. */
  lemma {:induction false} NextLineFree(rs: seq<ReadResult>, acc: Bytes)
    requires TerminatorFree(rs)
    ensures TerminatorFree(NextLine(rs, acc).rest)
    decreases |rs|
  {
    var c := Head(rs);
    TerminatorFreeTail(rs);
    if c.err == Ok && c.isPrefix {
      NextLineFree(Tail(rs), acc + c.chunk);
    }
  }

  /** The line NextLine assembles is the first line of the text, `acc`
      included, and the rest of the text holds the lines after it. */
  lemma {:induction false} NextLineText(rs: seq<ReadResult>, acc: Bytes)
    requires CompleteLines(rs) > 0 && TerminatorFree(rs) && NL !in acc
    ensures var l := NextLine(rs, acc);
      l.status == Ok && Split(acc + Text(rs)) == [l.line] + Split(Text(l.rest))
    decreases |rs|
  {
    var c := Head(rs);
    var rest := Tail(rs);
    TerminatorFreeTail(rs);
    assert NL !in acc + c.chunk;
    if c.isPrefix {
      assert NextLine(rs, acc) == NextLine(rest, acc + c.chunk);
      NextLineText(rest, acc + c.chunk);
      assert acc + Text(rs) == (acc + c.chunk) + Text(rest);
    } else {
      FinishedLineText(rs, acc);
    }
  }

  /** A chunk that finishes a line ends the first line of the text. */
  lemma FinishedLineText(rs: seq<ReadResult>, acc: Bytes)
    requires Head(rs).err == Ok && !Head(rs).isPrefix && NL !in acc + Head(rs).chunk
    ensures Split(acc + Text(rs)) == [acc + Head(rs).chunk] + Split(Text(Tail(rs)))
  {
    var c, t := Head(rs), Text(Tail(rs));
    var line := acc + c.chunk;
    assert Text(rs) == c.chunk + [NL] + t;
    SeqAssoc(acc, c.chunk + [NL], t);
    SeqAssoc(acc, c.chunk, [NL]);
    SplitAround(line, t);
    SplitLine(line);
  }

  /** When the stream holds `count` finished lines, readNLines returns the
      first `count` lines of the text the chunks spell out: every line is
      the concatenation of consecutive chunks up to the first that is not a
      prefix, and no chunk after it is taken. */
  lemma {:induction false} ReadNText(count: nat, rs: seq<ReadResult>, pending: Bytes)
    requires CompleteLines(rs) >= count && TerminatorFree(rs) && NL !in pending
    ensures count <= |Split(pending + Text(rs))|
      && ReadN(count, rs, pending).result == Got(Split(pending + Text(rs))[..count])
    decreases count
  {
    if count > 0 {
      var l := NextLine(rs, pending);
      NextLineFree(rs, pending);
      NextLineProgress(rs, pending);
      ReadNText(count - 1, l.rest, []);
      ReadNTextCons(count, rs, pending);
    } else {
      assert |Split(pending + Text(rs))| >= 1;
    }
  }

  /** The step of ReadNText's induction: the first line, then the lines the
      rest of the call returns. */
  lemma ReadNTextCons(count: nat, rs: seq<ReadResult>, pending: Bytes)
    requires 0 < count <= CompleteLines(rs) && TerminatorFree(rs) && NL !in pending
    requires var l := NextLine(rs, pending);
      count - 1 <= |Split([] + Text(l.rest))|
      && ReadN(count - 1, l.rest, []).result == Got(Split([] + Text(l.rest))[..count - 1])
    ensures count <= |Split(pending + Text(rs))|
      && ReadN(count, rs, pending).result == Got(Split(pending + Text(rs))[..count])
  {
    var l := NextLine(rs, pending);
    NextLineText(rs, pending);
    NextLineProgress(rs, pending);
    assert [] + Text(l.rest) == Text(l.rest);
    var more := Split(Text(l.rest));
    var s := ReadN(count - 1, l.rest, []);
    assert ReadN(count, rs, pending) == After([l.line], s);
    AfterGot(l.line, s, more[..count - 1]);
    TakeCons(l.line, more, count);
  }

  /** The first `count` of a line and the lines after it. */
  lemma TakeCons(line: Bytes, more: seq<Bytes>, count: nat)
    requires 0 < count <= |more| + 1
    ensures ([line] + more)[..count] == [line] + more[..count - 1]
  {
  }

  /** With no finished line left, NextLine gathers everything up to the
      first error, that error's chunk included. */
  lemma {:induction false} NextLineUnfinished(rs: seq<ReadResult>, acc: Bytes)
    requires CompleteLines(rs) == 0 && TerminatorFree(rs)
    ensures NextLine(rs, acc).line == acc + Text(rs) && NextLine(rs, acc).status == Stop(rs)
    ensures NL !in Text(rs)
    decreases |rs|
  {
    var c := Head(rs);
    var rest := Tail(rs);
    assert NL !in c.chunk by { if rs != [] { assert c == rs[0]; } }
    if c.err == Ok {
      assert TerminatorFree(rest) by {
        forall k | 0 <= k < |rest| ensures NL !in rest[k].chunk { assert rest[k] == rs[k + 1]; }
      }
      NextLineUnfinished(rest, acc + c.chunk);
      assert acc + Text(rs) == (acc + c.chunk) + Text(Tail(rs));
    }
  }

  /** When io.EOF comes before `count` finished lines, readNLines returns
      every finished line and then the pending one, even when it is empty:
      one entry per piece of the text. */
  lemma {:induction false} ReadNTextEof(count: nat, rs: seq<ReadResult>, pending: Bytes)
    requires CompleteLines(rs) < count && Stop(rs) == Eof && TerminatorFree(rs) && NL !in pending
    ensures ReadN(count, rs, pending).result == Got(Split(pending + Text(rs)))
    decreases count
  {
    var l := NextLine(rs, pending);
    NextLineProgress(rs, pending);
    if CompleteLines(rs) == 0 {
      NextLineUnfinished(rs, pending);
      SplitLine(pending + Text(rs));
      assert ReadN(count, rs, pending) == Step(Got([l.line]), l.rest);
    } else {
      NextLineText(rs, pending);
      NextLineFree(rs, pending);
      ReadNTextEof(count - 1, l.rest, []);
      assert [] + Text(l.rest) == Text(l.rest);
      var s := ReadN(count - 1, l.rest, []);
      assert ReadN(count, rs, pending) == After([l.line], s);
      AfterGot(l.line, s, Split(Text(l.rest)));
    }
  }

  /** A line read before a call that returned lines comes first. */
  lemma AfterGot(line: Bytes, s: Step, lines: seq<Bytes>)
    requires s.result == Got(lines)
    ensures After([line], s).result == Got([line] + lines)
  {
  }

  /** The short read the program lets through: when the output ends one
      finished line short of `n`, the pending (empty) line makes up the
      count, and the record is written with no fault. */
  lemma EofShortfallAccepted(n: nat, rs: seq<ReadResult>, enc: Encoder)
    requires n > 0 && CompleteLines(rs) == n - 1 && Stop(rs) == Eof
    ensures WriteOne(n, rs, enc, true).fault == None
  {
    ReadNCount(n, rs, []);
  }

  /** The short read the program aborts on: when io.EOF comes two or more
      finished lines short of `n`, the length check fails with the number of
      lines actually returned. */
  lemma EofShortfallFatal(n: nat, rs: seq<ReadResult>, enc: Encoder, writable: bool)
    requires CompleteLines(rs) + 1 < n && Stop(rs) == Eof
    ensures WriteOne(n, rs, enc, writable).fault == Some(LineCountMismatch(n, CompleteLines(rs) + 1))
  {
    ReadNCount(n, rs, []);
  }

  /** Any other read error before `n` finished lines ends the run with that
      error, whatever was read before it. */
  lemma ReadErrorFatal(n: nat, rs: seq<ReadResult>, enc: Encoder, writable: bool)
    requires CompleteLines(rs) < n && Stop(rs).Failed?
    ensures WriteOne(n, rs, enc, writable).fault == Some(OutputReadFailed(Stop(rs).code))
  {
    ReadNCount(n, rs, []);
  }

  /** NextLine takes exactly the chunks ReadLine makes of one line. */
  lemma {:induction false} NextLineChunks(line: Bytes, size: nat, rest: seq<ReadResult>, acc: Bytes)
    requires size > 0
    ensures NextLine(Chunks(line, size) + rest, acc) == LineRead(acc + line, rest, Ok)
    decreases |line|
  {
    var rs := Chunks(line, size) + rest;
    if |line| <= size {
      assert Chunks(line, size) == [ReadResult(line, false, Ok)];
      assert rs[0] == ReadResult(line, false, Ok) && rs[1..] == rest;
    } else {
      var tail := Chunks(line[size..], size);
      assert Chunks(line, size) == [ReadResult(line[..size], true, Ok)] + tail;
      assert rs[0] == ReadResult(line[..size], true, Ok) && rs[1..] == tail + rest;
      assert NextLine(rs, acc) == NextLine(tail + rest, acc + line[..size]);
      NextLineChunks(line[size..], size, rest, acc + line[..size]);
      SeqAssoc(acc, line[..size], line[size..]);
      assert line[..size] + line[size..] == line;
    }
  }

  /** A line ReadLine delivered in chunks is one line to readNLines. */
  lemma ReadNLine(count: nat, line: Bytes, size: nat, rest: seq<ReadResult>)
    requires count > 0 && size > 0
    ensures ReadN(count, Chunks(line, size) + rest, []) == After([line], ReadN(count - 1, rest, []))
  {
    NextLineChunks(line, size, rest, []);
    assert [] + line == line;
  }

  /** Asking for `|lines| + k` lines of a stream that starts with `lines`
      returns those lines, then what asking the rest for `k` lines returns. */
  lemma {:induction false} ReadNChunked(lines: seq<Bytes>, k: nat, size: nat, rest: seq<ReadResult>)
    requires size > 0
    ensures ReadN(|lines| + k, LinesResults(lines, size) + rest, []) == After(lines, ReadN(k, rest, []))
  {
    if lines == [] {
      assert LinesResults(lines, size) + rest == rest;
      var s := ReadN(k, rest, []);
      assert s.result.Got? ==> [] + s.result.lines == s.result.lines;
    } else {
      ReadNChunked(lines[1..], k, size, rest);
      ReadNChunkedCons(lines, k, size, rest);
    }
  }

  /** One more line in front: the step of ReadNChunked's induction. */
  lemma ReadNChunkedCons(lines: seq<Bytes>, k: nat, size: nat, rest: seq<ReadResult>)
    requires lines != [] && size > 0
    requires ReadN(|lines| - 1 + k, LinesResults(lines[1..], size) + rest, []) == After(lines[1..], ReadN(k, rest, []))
    ensures ReadN(|lines| + k, LinesResults(lines, size) + rest, []) == After(lines, ReadN(k, rest, []))
  {
    var tail := LinesResults(lines[1..], size) + rest;
    SeqAssoc(Chunks(lines[0], size), LinesResults(lines[1..], size), rest);
    assert LinesResults(lines, size) + rest == Chunks(lines[0], size) + tail;
    ReadNLine(|lines| + k, lines[0], size, tail);
    AfterAfter([lines[0]], lines[1..], ReadN(k, rest, []));
    assert [lines[0]] + lines[1..] == lines;
  }

  /** The output of one iteration of writeDocs' loop: the record written,
      the reader results left, the documents finished, and the fault. */
  datatype Emitted = Emitted(out: Bytes, rest: seq<ReadResult>, done: nat, fault: Option<Fault>)

  /** One iteration of writeDocs' loop for a popped count `n`: read `n`
      lines, require exactly `n`, join them with '\n', encode and write the
      record with one '\n'. `writable` is false when the output is broken. */
  function WriteOne(n: nat, rs: seq<ReadResult>, enc: Encoder, writable: bool): (e: Emitted)
    ensures e.fault.None? ==> e.done == 1
    ensures e.fault.Some? ==> e.done == 0 && e.out == []
    ensures OneLine(enc) ==> Count(e.out) == e.done
  {
    var s := ReadN(n, rs, []);
    match s.result
    case ReadError(e) => Emitted([], s.rest, 0, Some(OutputReadFailed(e)))
    case Got(lines) =>
      if |lines| != n then Emitted([], s.rest, 0, Some(LineCountMismatch(n, |lines|)))
      else if !writable then Emitted([], s.rest, 0, Some(OutputWriteFailed))
      else
        CountAppend(enc(Join(lines)), [NL]);
        CountZero(enc(Join(lines)));
        Emitted(enc(Join(lines)) + [NL], s.rest, 1, None)
  }

  /** writeDocs' loop over the counts, in ledger order, up to the first fault. */
  function Reassemble(counts: seq<nat>, rs: seq<ReadResult>, enc: Encoder, writable: bool): (e: Emitted)
    ensures e.fault.None? ==> e.done == |counts|
    ensures e.fault.Some? ==> e.done < |counts|
    ensures OneLine(enc) ==> Count(e.out) == e.done
    decreases |counts|, 1
  {
    if counts == [] then Emitted([], rs, 0, None) else WriteThen(counts[0], counts[1..], rs, enc, writable)
  }

  /** writeDocs' loop from a popped count `n`, with the counts `more` still
      queued behind it. */
  function WriteThen(n: nat, more: seq<nat>, rs: seq<ReadResult>, enc: Encoder, writable: bool): (e: Emitted)
    ensures e.fault.None? ==> e.done == |more| + 1
    ensures e.fault.Some? ==> e.done <= |more|
    ensures OneLine(enc) ==> Count(e.out) == e.done
    decreases |more| + 1, 0
  {
    var e := WriteOne(n, rs, enc, writable);
    if e.fault.Some? then e
    else
      var r := Reassemble(more, e.rest, enc, writable);
      CountAppend(e.out, r.out);
      Prefixed(e.out, 1, r)
  }

  /** The loop over one count is one iteration. */
  lemma ReassembleOne(n: nat, rs: seq<ReadResult>, enc: Encoder, writable: bool)
    ensures Reassemble([n], rs, enc, writable) == WriteOne(n, rs, enc, writable)
  {
    var e := WriteOne(n, rs, enc, writable);
    assert [n][1..] == [];
    assert e.out + [] == e.out;
  }

  /** The loop does one iteration for the first count, and stops at its
      fault or goes on with the others. */
  lemma ReassembleStep(counts: seq<nat>, rs: seq<ReadResult>, enc: Encoder, writable: bool)
    requires counts != []
    ensures Reassemble(counts, rs, enc, writable)
         == var e := WriteOne(counts[0], rs, enc, writable);
            if e.fault.Some? then e else Prefixed(e.out, 1, Reassemble(counts[1..], e.rest, enc, writable))
  {
  }

  /** `e`, after output `out` and `done` finished documents. */
  function Prefixed(out: Bytes, done: nat, e: Emitted): Emitted
  {
    Emitted(out + e.out, e.rest, done + e.done, e.fault)
  }

  lemma PrefixedTwice(out1: Bytes, d1: nat, out2: Bytes, d2: nat, e: Emitted)
    ensures Prefixed(out1, d1, Prefixed(out2, d2, e)) == Prefixed(out1 + out2, d1 + d2, e)
  {
    assert out1 + (out2 + e.out) == (out1 + out2) + e.out;
  }

  /** The body of writeDocs' loop: pop a count off the ledger (none once it
      is drained), read that many lines, and write their record. */
  method WriteDoc(counts: Ledger, buf: ChunkReader, w: Sink, enc: Encoder)
    returns (popped: Option<nat>, fault: Option<Fault>)
    requires buf.Valid()
    modifies counts, buf, w
    ensures buf.Valid() && buf.results == old(buf.results) && w.broken == old(w.broken)
    ensures popped.None? ==> (old(counts.entries) == [] && counts.entries == [] && fault.None?
      && buf.Remaining() == old(buf.Remaining()) && w.data == old(w.data))
    ensures popped.Some? ==> (old(counts.entries) != [] && popped.value == old(counts.entries)[0]
      && counts.entries == old(counts.entries)[1..])
    ensures popped.Some? ==> var e := Reassemble([popped.value], old(buf.Remaining()), enc, !old(w.broken));
      fault == e.fault && buf.Remaining() == e.rest && w.data == old(w.data) + e.out
  {
    popped := counts.Get();
    if popped.None? {
      return popped, None;
    }
    var n := popped.value;
    ReassembleOne(n, buf.Remaining(), enc, !w.broken);
    var res := ReadNLines(n, buf);
    if res.ReadError? {
      return popped, Some(OutputReadFailed(res.code));
    }
    var lines := res.lines;
    if |lines| != n {
      return popped, Some(LineCountMismatch(n, |lines|));
    }
    var doc := Join(lines);
    var b := enc(doc) + [NL];
    var ok := w.Write(b);
    if !ok {
      return popped, Some(OutputWriteFailed);
    }
    fault := None;
  }

  /** The records of a run of documents, written one after the other. */
  function Concat(outs: seq<Bytes>): Bytes
  {
    if outs == [] then [] else Concat(outs[..|outs| - 1]) + outs[|outs| - 1]
  }

  lemma ConcatSnoc(outs: seq<Bytes>, o: Bytes)
    ensures Concat(outs + [o]) == Concat(outs) + o
  {
    assert (outs + [o])[..|outs|] == outs;
  }

  /** Document `k` of a run: count `counts[k]` took the reader from
      `states[k]` to `states[k + 1]` and wrote record `outs[k]`. */
  ghost predicate Traced(counts: seq<nat>, states: seq<seq<ReadResult>>, outs: seq<Bytes>,
                         enc: Encoder, writable: bool)
  {
    |states| == |outs| + 1 && |outs| <= |counts|
    && forall k :: 0 <= k < |outs| ==>
      Reassemble([counts[k]], states[k], enc, writable) == Emitted(outs[k], states[k + 1], 1, None)
  }

  /** A trace grows by one document at a time. */
  lemma TracedSnoc(counts: seq<nat>, states: seq<seq<ReadResult>>, outs: seq<Bytes>,
                   enc: Encoder, writable: bool, next: seq<ReadResult>, out: Bytes)
    requires Traced(counts, states, outs, enc, writable) && |outs| < |counts|
    requires Reassemble([counts[|outs|]], states[|outs|], enc, writable) == Emitted(out, next, 1, None)
    ensures Traced(counts, states + [next], outs + [out], enc, writable)
  {
    var states', outs' := states + [next], outs + [out];
    forall k | 0 <= k < |outs'|
      ensures Reassemble([counts[k]], states'[k], enc, writable) == Emitted(outs'[k], states'[k + 1], 1, None)
    {
      if k < |outs| {
        assert states'[k] == states[k] && states'[k + 1] == states[k + 1] && outs'[k] == outs[k];
      }
    }
  }

  /** A traced run is what writeDocs' loop does: its records, then whatever
      the remaining counts do. */
  lemma {:induction false} ReassembleTrace(counts: seq<nat>, states: seq<seq<ReadResult>>, outs: seq<Bytes>,
                                           enc: Encoder, writable: bool)
    requires Traced(counts, states, outs, enc, writable)
    ensures Reassemble(counts, states[0], enc, writable)
         == Prefixed(Concat(outs), |outs|, Reassemble(counts[|outs|..], states[|outs|], enc, writable))
  {
    var m := |outs|;
    if m == 0 {
      var e := Reassemble(counts, states[0], enc, writable);
      assert counts[0..] == counts && [] + e.out == e.out;
    } else {
      assert Traced(counts, states[..m], outs[..m - 1], enc, writable) by {
        forall k | 0 <= k < m - 1
          ensures Reassemble([counts[k]], states[..m][k], enc, writable) == Emitted(outs[..m - 1][k], states[..m][k + 1], 1, None)
        {
          assert Reassemble([counts[k]], states[k], enc, writable) == Emitted(outs[k], states[k + 1], 1, None);
        }
      }
      ReassembleTrace(counts, states[..m], outs[..m - 1], enc, writable);
      assert counts[m - 1..][1..] == counts[m..];
      assert Reassemble([counts[m - 1]], states[m - 1], enc, writable) == Emitted(outs[m - 1], states[m], 1, None);
      ReassembleOne(counts[m - 1], states[m - 1], enc, writable);
      ReassembleStep(counts[m - 1..], states[m - 1], enc, writable);
      var left := Reassemble(counts[m..], states[m], enc, writable);
      assert Reassemble(counts[m - 1..], states[m - 1], enc, writable) == Prefixed(outs[m - 1], 1, left);
      PrefixedTwice(Concat(outs[..m - 1]), m - 1, outs[m - 1], 1, left);
    }
  }

  /** The loop of writeDocs: pop counts until the ledger is drained or a
      document fails, writing one record per count and keeping the `ndocs`
      and `nlines` counters. The ghost results record, document by
      document, where the reader stood and what was written. */
  method DrainLedger(counts: Ledger, buf: ChunkReader, w: Sink, enc: Encoder)
    returns (ndocs: nat, nlines: nat, fault: Option<Fault>,
             ghost states: seq<seq<ReadResult>>, ghost outs: seq<Bytes>)
    requires buf.Valid()
    modifies counts, buf, w
    ensures buf.Valid() && buf.results == old(buf.results) && w.broken == old(w.broken)
    ensures Traced(old(counts.entries), states, outs, enc, !old(w.broken))
    ensures ndocs == |outs| && states[0] == old(buf.Remaining()) && w.data == old(w.data) + Concat(outs)
    ensures nlines == Sum(old(counts.entries)[..ndocs])
    ensures fault.None? ==> ndocs == |old(counts.entries)| && counts.entries == [] && buf.Remaining() == states[ndocs]
    ensures fault.Some? ==> (ndocs < |old(counts.entries)| && counts.entries == old(counts.entries)[ndocs + 1..]
      && Reassemble([old(counts.entries)[ndocs]], states[ndocs], enc, !old(w.broken)) == Emitted([], buf.Remaining(), 0, fault))
  {
    ghost var writable := !w.broken;
    ghost var entries := counts.entries;
    ghost var data0 := w.data;
    ghost var out: Bytes := [];
    states, outs := [buf.Remaining()], [];
    ndocs, nlines, fault := 0, 0, None;
    var more := true;
    while more
      invariant buf.Valid() && buf.results == old(buf.results) && w.broken == old(w.broken)
      invariant Traced(entries, states, outs, enc, writable)
      invariant ndocs == |outs| && states[0] == old(buf.Remaining())
      invariant w.data == data0 + out && out == Concat(outs) && nlines == Sum(entries[..ndocs])
      invariant more ==> fault.None? && counts.entries == entries[ndocs..] && buf.Remaining() == states[ndocs]
      invariant !more && fault.None? ==> ndocs == |entries| && counts.entries == [] && buf.Remaining() == states[ndocs]
      invariant fault.Some? ==> (ndocs < |entries| && counts.entries == entries[ndocs + 1..]
        && Reassemble([entries[ndocs]], states[ndocs], enc, writable) == Emitted([], buf.Remaining(), 0, fault))
      decreases more, |counts.entries|
    {
      ghost var rs := buf.Remaining();
      var ns;
      ns, fault := WriteDoc(counts, buf, w, enc);
      if ns.None? || fault.Some? {
        more := false;
        if ns.Some? {
          SumSnoc(entries, ndocs);
        }
      } else {
        var n := ns.value;
        ghost var e := Reassemble([n], rs, enc, writable);
        ConcatSnoc(outs, e.out);
        SeqAssoc(data0, out, e.out);
        SumSnoc(entries, ndocs);
        TracedSnoc(entries, states, outs, enc, writable, buf.Remaining(), e.out);
        states := states + [buf.Remaining()];
        outs := outs + [e.out];
        out := out + e.out;
        ndocs := ndocs + 1;
        nlines := nlines + n;
      }
    }
  }

  /** The counts up to `k + 1` add up to those up to `k` and count `k`,
      and popping count `k` leaves those after it. */
  lemma SumSnoc(entries: seq<nat>, k: nat)
    requires k < |entries|
    ensures Sum(entries[..k + 1]) == Sum(entries[..k]) + entries[k]
    ensures entries[k..][1..] == entries[k + 1..]
  {
    SumSplit(entries[..k + 1], k);
    assert entries[..k + 1][..k] == entries[..k];
    assert entries[..k + 1][k..] == [entries[k]];
  }

  /** writeDocs: its loop, which writes exactly what Reassemble says, and
      keeps `nlines` at the sum of the counts of the documents written. */
  method WriteDocs(counts: Ledger, buf: ChunkReader, w: Sink, enc: Encoder)
    returns (ndocs: nat, nlines: nat, fault: Option<Fault>)
    requires buf.Valid()
    modifies counts, buf, w
    ensures buf.Valid() && buf.results == old(buf.results) && w.broken == old(w.broken)
    ensures var e := Reassemble(old(counts.entries), old(buf.Remaining()), enc, !old(w.broken));
      fault == e.fault && ndocs == e.done && buf.Remaining() == e.rest && w.data == old(w.data) + e.out
    ensures nlines == Sum(old(counts.entries)[..ndocs])
    ensures counts.entries == old(counts.entries)[if fault.None? then ndocs else ndocs + 1..]
  {
    ghost var entries := counts.entries;
    ghost var writable := !w.broken;
    ghost var states, outs;
    ndocs, nlines, fault, states, outs := DrainLedger(counts, buf, w, enc);
    ReassembleTrace(entries, states, outs, enc, writable);
    if fault.Some? {
      ReassembleOne(entries[ndocs], states[ndocs], enc, writable);
      ReassembleStep(entries[ndocs..], states[ndocs], enc, writable);
    }
  }
}
