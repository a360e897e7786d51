/** The byte streams around the filter process: `bufio.Reader.ReadLine` as a
    source of chunks, and a writable pipe. */
module Streams {
  import opened Bytes

  /** The error part of a ReadLine result: none, io.EOF, or another error. */
  datatype Status = Ok | Eof | Failed(code: nat)

  /** One result of `ReadLine`: a chunk of a line (without its terminator),
      whether more of the same line follows, and the error. */
  datatype ReadResult = ReadResult(chunk: Bytes, isPrefix: bool, err: Status)

  /** What ReadLine keeps returning once the stream is exhausted. */
  const AtEof := ReadResult([], false, Eof)

  /** The next result a reader positioned before `rs` returns. */
  function Head(rs: seq<ReadResult>): ReadResult
  {
    if rs == [] then AtEof else rs[0]
  }

  /** The results left after one ReadLine call. */
  function Tail(rs: seq<ReadResult>): seq<ReadResult>
  {
    if rs == [] then [] else rs[1..]
  }

  /** The concatenated bytes of a run of chunks. */
  function Glue(rs: seq<ReadResult>): Bytes
  {
    if rs == [] then [] else rs[0].chunk + Glue(rs[1..])
  }

  /** The number of finished lines the results hold before the first error. */
  function CompleteLines(rs: seq<ReadResult>): nat
    decreases |rs|
  {
    var c := Head(rs);
    if c.err != Ok then 0 else (if c.isPrefix then 0 else 1) + CompleteLines(Tail(rs))
  }

  /** The first error in the results: io.EOF when the stream simply ends. */
  function Stop(rs: seq<ReadResult>): (st: Status)
    ensures st != Ok
    decreases |rs|
  {
    var c := Head(rs);
    if c.err != Ok then c.err else Stop(Tail(rs))
  }

  /** The text the results spell out up to the first error: the chunks in
      order, with a '\n' after each finished line. The chunk that comes with
      the error is included, since both readers of the program append it
      before they look at the error. */
  function Text(rs: seq<ReadResult>): Bytes
    decreases |rs|
  {
    var c := Head(rs);
    if c.err != Ok then c.chunk else c.chunk + (if c.isPrefix then [] else [NL]) + Text(Tail(rs))
  }

  /** ReadLine never returns a terminator inside a chunk. */
  predicate TerminatorFree(rs: seq<ReadResult>)
  {
    forall k :: 0 <= k < |rs| ==> NL !in rs[k].chunk
  }

  /** The next chunk, and every chunk after it, hold no terminator. */
  lemma TerminatorFreeTail(rs: seq<ReadResult>)
    requires TerminatorFree(rs)
    ensures NL !in Head(rs).chunk && TerminatorFree(Tail(rs))
  {
    if rs != [] {
      assert Head(rs) == rs[0];
      forall k | 0 <= k < |Tail(rs)| ensures NL !in Tail(rs)[k].chunk { assert Tail(rs)[k] == rs[k + 1]; }
    }
  }

  /** The lines of a text split at its terminators: every terminated piece,
      then the unterminated tail when it is not empty. */
  function Kept(pieces: seq<Bytes>): (lines: seq<Bytes>)
    requires |pieces| > 0
  {
    var last := pieces[|pieces| - 1];
    pieces[..|pieces| - 1] + (if last == [] then [] else [last])
  }

  /** A `bufio.Reader` over a stream, seen through ReadLine only: the results
      successive calls return, and how many have been returned. */
  class ChunkReader {
    var results: seq<ReadResult>
    var pos: nat

    ghost predicate Valid()
      reads this
    {
      pos <= |results|
    }

    /** The results still to come. */
    function Remaining(): seq<ReadResult>
      reads this
      requires Valid()
    {
      results[pos..]
    }

    constructor (rs: seq<ReadResult>)
      ensures Valid() && results == rs && Remaining() == rs
    {
      results, pos := rs, 0;
    }

    /** `ReadLine`: the next result; at the end of the stream, io.EOF forever. */
    method ReadLine() returns (r: ReadResult)
      requires Valid()
      modifies this
      ensures Valid() && results == old(results)
      ensures r == Head(old(Remaining())) && Remaining() == Tail(old(Remaining()))
    {
      if pos < |results| {
        r := results[pos];
        pos := pos + 1;
        assert results[pos..] == old(results[pos..])[1..];
      } else {
        r := AtEof;
      }
    }
  }

  /** An `io.Writer` (the filter's input pipe or standard output): what has
      been written, and whether the other end is gone. */
  class Sink {
    var data: Bytes
    var broken: bool

    constructor (broken: bool)
      ensures data == [] && this.broken == broken
    {
      data, this.broken := [], broken;
    }

    /** `Write`: all of `b` is written, unless the pipe is broken. */
    method Write(b: Bytes) returns (ok: bool)
      modifies this
      ensures broken == old(broken) && ok == !broken
      ensures data == if ok then old(data) + b else old(data)
    {
      ok := !broken;
      if ok {
        data := data + b;
      }
    }
  }

  /** The line ReadLine returns for a piece that was followed by '\n': one
      '\r' in front of the terminator is dropped as well. At most that one
      byte goes, and the piece comes back unchanged exactly when it does not
      end in '\r'. */
  function StripCR(piece: Bytes): (line: Bytes)
    ensures line <= piece && |piece| - |line| <= 1
    ensures line == piece <==> !EndsInCR(piece)
  {
    if piece != [] && piece[|piece| - 1] == CR then piece[..|piece| - 1] else piece
  }

  /** The lines ReadLine returns for terminated pieces, one for each. */
  function StripAll(pieces: seq<Bytes>): (lines: seq<Bytes>)
    ensures |lines| == |pieces|
    ensures forall k :: 0 <= k < |pieces| ==> lines[k] == StripCR(pieces[k])
  {
    if pieces == [] then [] else [StripCR(pieces[0])] + StripAll(pieces[1..])
  }

  /** A piece ending in '\r', which ReadLine shortens by that byte when a
      '\n' follows it. */
  predicate EndsInCR(piece: Bytes)
  {
    piece != [] && piece[|piece| - 1] == CR
  }

  /** The lines ReadLine delivers from stream `s`: every terminated piece
      with a '\r' before the '\n' dropped, then the unterminated tail when it
      is not empty. No line holds a terminator, and there is one line per
      terminator, plus one when the stream does not end with '\n'. */
  function Delivered(s: Bytes): (lines: seq<Bytes>)
    ensures forall k :: 0 <= k < |lines| ==> NL !in lines[k]
    ensures |lines| == if s == [] || s[|s| - 1] == NL then Count(s) else Count(s) + 1
  {
    SplitLast(s);
    var pieces := Split(s);
    var last := pieces[|pieces| - 1];
    StripAll(pieces[..|pieces| - 1]) + (if last == [] then [] else [last])
  }

  /** How ReadLine hands over one line when its buffer holds `size` bytes:
      full buffers flagged as prefixes, then the rest. */
  function Chunks(line: Bytes, size: nat): (rs: seq<ReadResult>)
    requires size > 0
    ensures |rs| > 0 && Glue(rs) == line
    ensures forall k :: 0 <= k < |rs| ==> rs[k].err == Ok && rs[k].isPrefix == (k < |rs| - 1)
    decreases |line|
  {
    if |line| <= size then [ReadResult(line, false, Ok)]
    else
      var rest := Chunks(line[size..], size);
      assert line == line[..size] + line[size..];
      [ReadResult(line[..size], true, Ok)] + rest
  }

  /** The results of reading `lines` one after the other. */
  function LinesResults(lines: seq<Bytes>, size: nat): seq<ReadResult>
    requires size > 0
  {
    if lines == [] then [] else Chunks(lines[0], size) + LinesResults(lines[1..], size)
  }

  /** The results ReadLine returns for the whole of stream `s`, before io.EOF. */
  function StreamResults(s: Bytes, size: nat): seq<ReadResult>
    requires size > 0
  {
    LinesResults(Delivered(s), size)
  }

  /** Reading the lines of `a` and then of `b` is reading the lines of `a + b`. */
  lemma {:induction false} LinesResultsAppend(a: seq<Bytes>, b: seq<Bytes>, size: nat)
    requires size > 0
    ensures LinesResults(a + b, size) == LinesResults(a, size) + LinesResults(b, size)
  {
    if a == [] {
      assert a + b == b;
    } else {
      assert (a + b)[0] == a[0] && (a + b)[1..] == a[1..] + b;
      LinesResultsAppend(a[1..], b, size);
      SeqAssoc(Chunks(a[0], size), LinesResults(a[1..], size), LinesResults(b, size));
    }
  }

  /** The chunks of one line hold no terminator when the line holds none. */
  lemma {:induction false} ChunksFree(line: Bytes, size: nat)
    requires size > 0 && NL !in line
    ensures TerminatorFree(Chunks(line, size))
    decreases |line|
  {
    var cs := Chunks(line, size);
    if |line| > size {
      var tail := line[size..];
      assert NL !in line[..size] by {
        forall k | 0 <= k < size ensures line[..size][k] != NL { assert line[..size][k] == line[k]; }
      }
      assert NL !in tail by {
        forall k | 0 <= k < |tail| ensures tail[k] != NL { assert tail[k] == line[size + k]; }
      }
      ChunksFree(tail, size);
      forall k | 0 <= k < |cs| ensures NL !in cs[k].chunk {
        if k > 0 { assert cs[k] == Chunks(tail, size)[k - 1]; }
      }
    }
  }

  /** A line longer than the buffer starts with one full prefix chunk. */
  lemma ChunksCons(line: Bytes, size: nat)
    requires 0 < size < |line|
    ensures Chunks(line, size) == [ReadResult(line[..size], true, Ok)] + Chunks(line[size..], size)
  {
  }

  /** The result in front of `more` is the next one ReadLine returns. */
  lemma HeadCons(r: ReadResult, more: seq<ReadResult>)
    ensures Head([r] + more) == r && Tail([r] + more) == more
  {
    assert ([r] + more)[1..] == more;
  }

  /** The chunks of one line spell out that line and its terminator, and
      then give way to what follows. */
  lemma {:induction false} ChunksText(line: Bytes, size: nat, rest: seq<ReadResult>)
    requires size > 0
    ensures Text(Chunks(line, size) + rest) == line + [NL] + Text(rest)
    decreases |line|
  {
    if |line| <= size {
      HeadCons(ReadResult(line, false, Ok), rest);
    } else {
      var head, tail := line[..size], line[size..];
      ChunksText(tail, size, rest);
      ChunksCons(line, size);
      PrefixText(head, Chunks(tail, size), rest);
      PrefixLine(line, size, Text(rest));
    }
  }

  /** A prefix chunk in front of the results adds its bytes to the text. */
  lemma PrefixText(head: Bytes, cs: seq<ReadResult>, rest: seq<ReadResult>)
    ensures Text([ReadResult(head, true, Ok)] + cs + rest) == head + Text(cs + rest)
  {
    assert [ReadResult(head, true, Ok)] + cs + rest == [ReadResult(head, true, Ok)] + (cs + rest);
    HeadCons(ReadResult(head, true, Ok), cs + rest);
  }

  /** A line is its first `size` bytes followed by the others. */
  lemma PrefixLine(line: Bytes, size: nat, t: Bytes)
    requires size <= |line|
    ensures line[..size] + (line[size..] + [NL] + t) == line + [NL] + t
  {
    assert line == line[..size] + line[size..];
  }

  /** The chunks of one line hold one finished line, and the stream goes on
      to the same error. */
  lemma {:induction false} ChunksLines(line: Bytes, size: nat, rest: seq<ReadResult>)
    requires size > 0
    ensures CompleteLines(Chunks(line, size) + rest) == CompleteLines(rest) + 1
    ensures Stop(Chunks(line, size) + rest) == Stop(rest)
    decreases |line|
  {
    if |line| <= size {
      HeadCons(ReadResult(line, false, Ok), rest);
    } else {
      var first := ReadResult(line[..size], true, Ok);
      var more := Chunks(line[size..], size) + rest;
      ChunksLines(line[size..], size, rest);
      ChunksCons(line, size);
      assert Chunks(line, size) + rest == [first] + more;
      HeadCons(first, more);
    }
  }

  /** Reading terminator-free lines: the text is the lines, each terminated,
      every line is finished, and the stream ends with io.EOF. */
  lemma {:induction false} LinesResultsText(lines: seq<Bytes>, size: nat)
    requires size > 0
    requires forall k :: 0 <= k < |lines| ==> NL !in lines[k]
    ensures var rs := LinesResults(lines, size);
      Text(rs) == Terminated(lines) && CompleteLines(rs) == |lines|
      && Stop(rs) == Eof && TerminatorFree(rs)
  {
    if lines != [] {
      var cs, rest := Chunks(lines[0], size), LinesResults(lines[1..], size);
      LinesResultsText(lines[1..], size);
      ChunksText(lines[0], size, rest);
      ChunksLines(lines[0], size, rest);
      ChunksFree(lines[0], size);
      forall k | 0 <= k < |cs + rest| ensures NL !in (cs + rest)[k].chunk {
        if k >= |cs| { assert (cs + rest)[k] == rest[k - |cs|]; }
      }
    }
  }

  /** ReadLine on terminated lines delivers the lines themselves, each without
      a trailing '\r'. */
  lemma DeliveredTerminated(lines: seq<Bytes>)
    requires forall k :: 0 <= k < |lines| ==> NL !in lines[k]
    ensures Delivered(Terminated(lines)) == StripAll(lines)
  {
    SplitTerminatedLines(lines);
    assert (lines + [[]])[..|lines|] == lines;
  }

  /** The lines ReadLine delivers from terminated documents: their pieces, in
      order, with '\r' in front of every terminator dropped. */
  lemma DeliveredDocuments(docs: seq<Bytes>)
    ensures Delivered(Terminated(docs)) == StripAll(SplitAll(docs))
  {
    SplitTerminated(docs);
    assert (SplitAll(docs) + [[]])[..|SplitAll(docs)|] == SplitAll(docs);
  }

  /** Stripping changes nothing exactly when no piece ends in '\r'. */
  lemma {:induction false} StripAllUnchanged(pieces: seq<Bytes>)
    ensures StripAll(pieces) == pieces <==> forall k :: 0 <= k < |pieces| ==> !EndsInCR(pieces[k])
  {
    if pieces != [] {
      StripAllUnchanged(pieces[1..]);
      assert pieces == [pieces[0]] + pieces[1..];
      if StripAll(pieces) == pieces {
        assert StripCR(pieces[0]) == pieces[0];
        assert StripAll(pieces[1..]) == pieces[1..];
        forall k | 0 <= k < |pieces| ensures !EndsInCR(pieces[k]) {
          if k > 0 { assert pieces[k] == pieces[1..][k - 1]; }
        }
      }
    }
  }
}
