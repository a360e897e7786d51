/** The decoding side (b64filter.go:46-91): `readDocs` glues ReadLine chunks
    into input lines and base64-decodes one document per line. */
module Decoding {
  import opened Wrappers
  import opened Bytes
  import opened Faults
  import opened Streams
  import opened Codec

  /** The documents sent on the channel, in order, and the fault that ended
      the run, if any. */
  datatype Decoded = Decoded(docs: seq<Bytes>, fault: Option<Fault>)

  /** `docs` sent earlier, followed by what the rest of the run does. */
  function Sent(docs: seq<Bytes>, r: Decoded): Decoded
  {
    Decoded(docs + r.docs, r.fault)
  }

  /** Decoding lines one after the other, stopping at the first that is not
      valid base64: every line before it gives its document, in order. */
  function DecodeAll(lines: seq<Bytes>, dec: Decoder): (r: Decoded)
    ensures r.fault.None? ==> |r.docs| == |lines|
    ensures r.fault.Some? ==> r.fault == Some(DecodeFailed) && |r.docs| < |lines| && dec(lines[|r.docs|]).None?
    ensures |r.docs| <= |lines| && forall k :: 0 <= k < |r.docs| ==> dec(lines[k]) == Some(r.docs[k])
  {
    if lines == [] then Decoded([], None)
    else match dec(lines[0])
      case None => Decoded([], Some(DecodeFailed))
      case Some(doc) => Sent([doc], DecodeAll(lines[1..], dec))
  }

  /** readDocs from the ReadLine results `rs`, with `pending` bytes of the
      current input line already read: a finished line is decoded and sent,
      whatever its length; at io.EOF the pending line is decoded and sent
      only when it is not empty; any other read error is fatal, and so is a
      line that does not decode. */
  function DecodeLines(rs: seq<ReadResult>, pending: Bytes, dec: Decoder): Decoded
    decreases |rs|
  {
    var c := Head(rs);
    var line := pending + c.chunk;
    if c.err == Eof then
      if line == [] then Decoded([], None)
      else match dec(line)
        case None => Decoded([], Some(DecodeFailed))
        case Some(doc) => Decoded([doc], None)
    else if c.err.Failed? then Decoded([], Some(InputReadFailed(c.err.code)))
    else if c.isPrefix then DecodeLines(Tail(rs), line, dec)
    else match dec(line)
      case None => Decoded([], Some(DecodeFailed))
      case Some(doc) => Sent([doc], DecodeLines(Tail(rs), [], dec))
  }

  /** A run of readDocs without a fault read its input to io.EOF, and it
      sends at most one document per finished line plus the pending one. */
  lemma {:induction false} DecodeLinesEnd(rs: seq<ReadResult>, pending: Bytes, dec: Decoder)
    ensures var r := DecodeLines(rs, pending, dec);
      (r.fault.None? ==> Stop(rs) == Eof) && |r.docs| <= CompleteLines(rs) + 1
    decreases |rs|
  {
    var c := Head(rs);
    if c.err == Ok {
      if c.isPrefix {
        DecodeLinesEnd(Tail(rs), pending + c.chunk, dec);
      } else {
        DecodeLinesEnd(Tail(rs), [], dec);
      }
    }
  }

  /** `r`, except that a run that decoded everything ends with `fault`. */
  function EndingWith(r: Decoded, fault: Fault): Decoded
  {
    if r.fault.None? then Decoded(r.docs, Some(fault)) else r
  }

  /** What readDocs is meant to send for an input whose text splits into
      `pieces` at its terminators and that ends with `stop`: when the input
      ends with io.EOF, one document per finished line (an empty one
      included) and one for the unterminated tail when that is not empty;
      when it ends with another read error, one per finished line and then
      that error. Either way the run stops at the first line that does not
      decode. */
  function FromLines(pieces: seq<Bytes>, stop: Status, dec: Decoder): Decoded
    requires |pieces| > 0
  {
    match stop
    case Failed(e) => EndingWith(DecodeAll(pieces[..|pieces| - 1], dec), InputReadFailed(e))
    case _ => DecodeAll(Kept(pieces), dec)
  }

  /** A finished line in front of the others is decoded first. */
  lemma FromLinesCons(line: Bytes, more: seq<Bytes>, stop: Status, dec: Decoder)
    requires |more| > 0
    ensures FromLines([line] + more, stop, dec)
         == match dec(line)
            case None => Decoded([], Some(DecodeFailed))
            case Some(doc) => Sent([doc], FromLines(more, stop, dec))
  {
    var pieces := [line] + more;
    assert Kept(pieces) == [line] + Kept(more);
    assert Kept(pieces)[1..] == Kept(more);
    assert pieces[..|pieces| - 1] == [line] + more[..|more| - 1];
    assert pieces[..|pieces| - 1][1..] == more[..|more| - 1];
  }

  /** The first result is an error: the pending line, with its chunk, is
      the only piece. */
  lemma DecodeLinesStop(rs: seq<ReadResult>, pending: Bytes, dec: Decoder)
    requires Head(rs).err != Ok && NL !in pending + Head(rs).chunk
    ensures DecodeLines(rs, pending, dec) == FromLines(Split(pending + Text(rs)), Stop(rs), dec)
  {
    var line := pending + Head(rs).chunk;
    SplitLine(line);
    assert Split(pending + Text(rs)) == [line];
    assert Kept([line]) == if line == [] then [] else [line];
  }

  /** The first result finishes a line: it is decoded ahead of the rest. */
  lemma DecodeLinesFinished(rs: seq<ReadResult>, pending: Bytes, dec: Decoder)
    requires Head(rs).err == Ok && !Head(rs).isPrefix && NL !in pending + Head(rs).chunk
    requires DecodeLines(Tail(rs), [], dec) == FromLines(Split(Text(Tail(rs))), Stop(Tail(rs)), dec)
    ensures DecodeLines(rs, pending, dec) == FromLines(Split(pending + Text(rs)), Stop(rs), dec)
  {
    var line := pending + Head(rs).chunk;
    var rest := Tail(rs);
    assert pending + Text(rs) == line + [NL] + Text(rest);
    SplitAround(line, Text(rest));
    SplitLine(line);
    FromLinesCons(line, Split(Text(rest)), Stop(rest), dec);
  }

  /** The first result is a prefix chunk: it only grows the pending line. */
  lemma DecodeLinesPrefix(rs: seq<ReadResult>, pending: Bytes, dec: Decoder)
    requires Head(rs).err == Ok && Head(rs).isPrefix
    requires var line := pending + Head(rs).chunk;
      DecodeLines(Tail(rs), line, dec) == FromLines(Split(line + Text(Tail(rs))), Stop(Tail(rs)), dec)
    ensures DecodeLines(rs, pending, dec) == FromLines(Split(pending + Text(rs)), Stop(rs), dec)
  {
    var c := Head(rs);
    assert DecodeLines(rs, pending, dec) == DecodeLines(Tail(rs), pending + c.chunk, dec);
    assert Text(rs) == c.chunk + Text(Tail(rs)) by {
      assert Text(rs) == c.chunk + [] + Text(Tail(rs));
    }
    assert Stop(rs) == Stop(Tail(rs));
    SeqAssoc(pending, c.chunk, Text(Tail(rs)));
  }

  /** readDocs sends what FromLines says for the lines of its input. */
  lemma {:induction false} DecodeLinesText(rs: seq<ReadResult>, pending: Bytes, dec: Decoder)
    requires TerminatorFree(rs) && NL !in pending
    ensures DecodeLines(rs, pending, dec) == FromLines(Split(pending + Text(rs)), Stop(rs), dec)
    decreases |rs|
  {
    var c := Head(rs);
    TerminatorFreeTail(rs);
    assert NL !in pending + c.chunk;
    if c.err != Ok {
      DecodeLinesStop(rs, pending, dec);
    } else if c.isPrefix {
      DecodeLinesText(Tail(rs), pending + c.chunk, dec);
      DecodeLinesPrefix(rs, pending, dec);
    } else {
      DecodeLinesText(Tail(rs), [], dec);
      assert [] + Text(Tail(rs)) == Text(Tail(rs));
      DecodeLinesFinished(rs, pending, dec);
    }
  }

  /** Reading whole lines one after the other: one document per line. */
  lemma DecodeLinesResults(lines: seq<Bytes>, size: nat, dec: Decoder)
    requires size > 0
    requires forall k :: 0 <= k < |lines| ==> NL !in lines[k]
    ensures DecodeLines(LinesResults(lines, size), [], dec) == DecodeAll(lines, dec)
  {
    var rs := LinesResults(lines, size);
    LinesResultsText(lines, size);
    DecodeLinesText(rs, [], dec);
    SplitTerminatedLines(lines);
    assert [] + Text(rs) == Terminated(lines);
    assert Kept(lines + [[]]) == lines by {
      assert (lines + [[]])[..|lines|] == lines;
    }
  }

  /** `readDocs`: the channel's documents, or the fault that ends the run. */
  method ReadDocs(buf: ChunkReader, dec: Decoder) returns (docs: seq<Bytes>, fault: Option<Fault>)
    requires buf.Valid()
    modifies buf
    ensures buf.Valid() && buf.results == old(buf.results)
    ensures Decoded(docs, fault) == DecodeLines(old(buf.Remaining()), [], dec)
  {
    ghost var goal := DecodeLines(buf.Remaining(), [], dec);
    docs := [];
    var line: Bytes := [];
    while true
      invariant buf.Valid() && buf.results == old(buf.results)
      invariant Sent(docs, DecodeLines(buf.Remaining(), line, dec)) == goal
      decreases |buf.Remaining()|
    {
      ghost var rs, pending := buf.Remaining(), line;
      var c := buf.ReadLine();
      if |c.chunk| > 0 {
        line := line + c.chunk;
      } else {
        assert line + c.chunk == line;
      }
      DecodeLinesStep(rs, pending, dec);
      if c.err != Ok {
        if c.err == Eof {
          if |line| > 0 {
            var b := dec(line);
            if b.None? {
              return docs, Some(DecodeFailed);
            }
            docs := docs + [b.value];
          } else {
            assert docs + [] == docs;
          }
          return docs, None;
        } else {
          return docs, Some(InputReadFailed(c.err.code));
        }
      }
      // A chunk that is not a prefix ends the line: decode it now.
      if !c.isPrefix {
        var b := dec(line);
        if b.None? {
          return docs, Some(DecodeFailed);
        }
        ghost var r := DecodeLines(buf.Remaining(), [], dec);
        SeqAssoc(docs, [b.value], r.docs);
        docs := docs + [b.value];
        line := [];
      }
    }
  }

  /** One ReadLine result's worth of readDocs, each case spelled out. */
  lemma DecodeLinesStep(rs: seq<ReadResult>, pending: Bytes, dec: Decoder)
    ensures var c, line, d := Head(rs), pending + Head(rs).chunk, DecodeLines(rs, pending, dec);
      && (c.err == Eof && line == [] ==> d == Decoded([], None))
      && (c.err == Eof && line != [] && dec(line).None? ==> d == Decoded([], Some(DecodeFailed)))
      && (c.err == Eof && line != [] && dec(line).Some? ==> d == Decoded([dec(line).value], None))
      && (c.err.Failed? ==> d == Decoded([], Some(InputReadFailed(c.err.code))))
      && (c.err == Ok && c.isPrefix ==> d == DecodeLines(Tail(rs), line, dec))
      && (c.err == Ok && !c.isPrefix && dec(line).None? ==> d == Decoded([], Some(DecodeFailed)))
      && (c.err == Ok && !c.isPrefix && dec(line).Some? ==> d == Sent([dec(line).value], DecodeLines(Tail(rs), [], dec)))
  {
  }

  /** Every document encoded, one per input line. */
  function EncodeAll(docs: seq<Bytes>, enc: Encoder): (lines: seq<Bytes>)
    ensures |lines| == |docs| && forall k :: 0 <= k < |docs| ==> lines[k] == enc(docs[k])
  {
    if docs == [] then [] else [enc(docs[0])] + EncodeAll(docs[1..], enc)
  }

  /** Decoding the encodings gives the documents back. */
  lemma {:induction false} DecodeEncodeAll(docs: seq<Bytes>, enc: Encoder, dec: Decoder)
    requires IsBase64Like(enc, dec)
    ensures DecodeAll(EncodeAll(docs, enc), dec) == Decoded(docs, None)
  {
    if docs != [] {
      DecodeEncodeAll(docs[1..], enc, dec);
      assert EncodeAll(docs, enc)[1..] == EncodeAll(docs[1..], enc);
      assert [docs[0]] + docs[1..] == docs;
    }
  }

  /** The input of the program, when it is written as one encoded line per
      document, each with its '\n': readDocs sends exactly those documents,
      in order. */
  lemma ReadEncodedDocs(docs: seq<Bytes>, size: nat, enc: Encoder, dec: Decoder)
    requires size > 0 && IsBase64Like(enc, dec)
    ensures DecodeLines(StreamResults(Terminated(EncodeAll(docs, enc)), size), [], dec) == Decoded(docs, None)
  {
    var lines := EncodeAll(docs, enc);
    assert forall k :: 0 <= k < |lines| ==> NL !in lines[k] && CR !in lines[k];
    DeliveredTerminated(lines);
    assert forall k :: 0 <= k < |lines| ==> !EndsInCR(lines[k]) by {
      forall k | 0 <= k < |lines| ensures !EndsInCR(lines[k]) {
        assert CR !in lines[k];
      }
    }
    StripAllUnchanged(lines);
    DecodeLinesResults(lines, size, dec);
    DecodeEncodeAll(docs, enc, dec);
  }
}
