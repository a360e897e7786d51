/** The whole program (b64filter.go:190-269) as one sequential run: readDocs
    decodes every input document, the feeding loop writes them all to the
    filter and fills the ledger, the filter turns everything it was fed into
    its output, and writeDocs drains the ledger against that output. */
module Pipeline {
  import opened Wrappers
  import opened Bytes
  import opened Faults
  import opened Streams
  import opened Codec
  import opened CountLedger
  import opened Decoding
  import opened Feeder
  import opened Reassembler

  /** The filter program, seen from outside: what it writes to its standard
      output for everything written to its standard input. */
  type Filter = Bytes -> Bytes

  /** The line filter `cat` is: every line comes out as it went in. */
  function Identity(fed: Bytes): Bytes
  {
    fed
  }

  /** What the program writes to standard output, the number of documents
      the feeding loop counted (`i`), and the fatal fault, if any. */
  datatype Outcome = Outcome(out: Bytes, ndocs: nat, fault: Option<Fault>)

  /** One run of the program on the ReadLine results of its standard input.
      `size` is the buffer size of the reader on the filter's output;
      `inOpen` and `outOpen` say whether the filter's input pipe and the
      standard output accept writes. A run without a fault read its input
      to io.EOF and wrote one output line per document. */
  function Run(stdin: seq<ReadResult>, filter: Filter, size: nat, enc: Encoder, dec: Decoder,
               inOpen: bool, outOpen: bool): (o: Outcome)
    requires size > 0
    ensures o.fault.None? ==> Stop(stdin) == Eof
    ensures o.fault.None? && OneLine(enc) ==> Count(o.out) == o.ndocs
  {
    DecodeLinesEnd(stdin, [], dec);
    var d := DecodeLines(stdin, [], dec);
    if d.fault.Some? then Outcome([], 0, d.fault)
    else if !inOpen && d.docs != [] then Outcome([], 0, Some(FilterWriteFailed))
    else
      var e := Reassemble(Counts(d.docs), StreamResults(filter(Terminated(d.docs)), size), enc, outOpen);
      Outcome(e.out, |d.docs|, e.fault)
  }

  /** `main` after the filter has been started: decode the input, feed every
      document to the filter and its count to the ledger, close the filter's
      input, and let writeDocs reassemble the filter's output. */
  method RunFilter(stdin: ChunkReader, cmdin: Sink, stdout: Sink, filter: Filter, size: nat,
                   enc: Encoder, dec: Decoder)
    returns (i: nat, fault: Option<Fault>)
    requires stdin.Valid() && cmdin != stdout && cmdin.data == [] && size > 0
    modifies stdin, cmdin, stdout
    ensures var o := Run(old(stdin.Remaining()), filter, size, enc, dec, !old(cmdin.broken), !old(stdout.broken));
      i == o.ndocs && fault == o.fault && stdout.data == old(stdout.data) + o.out
  {
    ghost var o := Run(stdin.Remaining(), filter, size, enc, dec, !cmdin.broken, !stdout.broken);
    ghost var d := DecodeLines(stdin.Remaining(), [], dec);
    var docs;
    docs, fault := ReadDocs(stdin, dec);
    assert d == Decoded(docs, fault);
    if fault.Some? {
      assert o == Outcome([], 0, fault);
      return 0, fault;
    }
    var counts := new Ledger();
    i, fault := Feed(docs, cmdin, counts);
    if fault.Some? {
      assert o == Outcome([], 0, fault);
      return;
    }
    assert cmdin.data == Terminated(docs) && counts.entries == Counts(docs);
    // cmdin.Close(): the filter has seen all of its input
    var cmdout := new ChunkReader(StreamResults(filter(cmdin.data), size));
    var ndocs, nlines;
    ndocs, nlines, fault := WriteDocs(counts, cmdout, stdout, enc);
  }

  /** A document whose lines all survive ReadLine: no line of it, the last
      one included, ends in '\r'. */
  predicate NoCRAtLineEnd(doc: Bytes)
  {
    forall k :: 0 <= k < |Split(doc)| ==> !EndsInCR(Split(doc)[k])
  }

  /** The physical lines of documents without a '\r' at a line end have none
      either. */
  lemma {:induction false} NoCRInLines(docs: seq<Bytes>)
    requires forall k :: 0 <= k < |docs| ==> NoCRAtLineEnd(docs[k])
    ensures forall k :: 0 <= k < |SplitAll(docs)| ==> !EndsInCR(SplitAll(docs)[k])
  {
    if docs != [] {
      NoCRInLines(docs[1..]);
      var head, tail := Split(docs[0]), SplitAll(docs[1..]);
      assert SplitAll(docs) == head + tail;
      assert NoCRAtLineEnd(docs[0]);
      forall k | 0 <= k < |head + tail| ensures !EndsInCR((head + tail)[k]) {
        if k < |head| {
          assert (head + tail)[k] == head[k];
        } else {
          assert (head + tail)[k] == tail[k - |head|];
        }
      }
    }
  }

  /** `g` applied to every line, in order. */
  function MapLines(g: Bytes -> Bytes, lines: seq<Bytes>): (out: seq<Bytes>)
    ensures |out| == |lines| && forall k :: 0 <= k < |lines| ==> out[k] == g(lines[k])
  {
    if lines == [] then [] else [g(lines[0])] + MapLines(g, lines[1..])
  }

  lemma MapLinesAppend(g: Bytes -> Bytes, a: seq<Bytes>, b: seq<Bytes>)
    ensures MapLines(g, a + b) == MapLines(g, a) + MapLines(g, b)
  {
  }

  /** A line filter built from `g` (`sed`, `tr`, `cat`): it reads its input
      line by line, a last line without '\n' included, and writes `g` of
      each line followed by '\n'. */
  function PerLine(g: Bytes -> Bytes, fed: Bytes): Bytes
  {
    Terminated(MapLines(g, Kept(Split(fed))))
  }

  /** `g` turns each of `lines` into one line: no '\n' inside it. */
  ghost predicate KeepsLines(g: Bytes -> Bytes, lines: seq<Bytes>)
  {
    forall k :: 0 <= k < |lines| ==> NL !in g(lines[k])
  }

  /** A line `g` writes, as ReadLine returns it: a '\r' in front of its '\n'
      dropped. */
  function ReadBack(g: Bytes -> Bytes): Bytes -> Bytes
  {
    line => StripCR(g(line))
  }

  /** Reading back what `g` writes for every line strips each of them. */
  lemma ReadBackLines(g: Bytes -> Bytes, lines: seq<Bytes>)
    ensures MapLines(ReadBack(g), lines) == StripAll(MapLines(g, lines))
  {
    forall k | 0 <= k < |lines| ensures MapLines(ReadBack(g), lines)[k] == StripAll(MapLines(g, lines))[k] {
      assert ReadBack(g)(lines[k]) == StripCR(g(lines[k]));
    }
  }

  /** The documents as a line filter leaves them: every line of each
      document put through `g`, and the lines joined again. */
  function Filtered(docs: seq<Bytes>, g: Bytes -> Bytes): (out: seq<Bytes>)
    ensures |out| == |docs|
    ensures forall k :: 0 <= k < |docs| ==> out[k] == Join(MapLines(g, Split(docs[k])))
  {
    if docs == [] then [] else [Join(MapLines(g, Split(docs[0])))] + Filtered(docs[1..], g)
  }

  /** writeDocs over the ledger of `docs`, when the filter's output holds
      one line for every line fed to it: every count takes exactly the
      output lines of its own document, none of the next, and every record
      is those lines joined, encoded and terminated. */
  lemma {:induction false} ReassembleDocuments(docs: seq<Bytes>, g: Bytes -> Bytes, size: nat, enc: Encoder)
    requires size > 0
    ensures Reassemble(Counts(docs), LinesResults(MapLines(g, SplitAll(docs)), size), enc, true)
         == Emitted(Terminated(EncodeAll(Filtered(docs, g), enc)), [], |docs|, None)
  {
    if docs != [] {
      var doc := docs[0];
      var lines := MapLines(g, Split(doc));
      var more := MapLines(g, SplitAll(docs[1..]));
      var rest := LinesResults(more, size);
      MapLinesAppend(g, Split(doc), SplitAll(docs[1..]));
      LinesResultsAppend(lines, more, size);
      FirstRecord(docs, lines, size, rest, enc);
      ReassembleDocuments(docs[1..], g, size, enc);
      var encoded := EncodeAll(Filtered(docs, g), enc);
      assert encoded[0] == enc(Join(lines));
      assert encoded[1..] == EncodeAll(Filtered(docs[1..], g), enc);
    }
  }

  /** The first count takes the first document's output lines and writes
      their record; the other counts go on from there. */
  lemma FirstRecord(docs: seq<Bytes>, lines: seq<Bytes>, size: nat, rest: seq<ReadResult>, enc: Encoder)
    requires docs != [] && |lines| == LineCount(docs[0]) && size > 0
    ensures Reassemble(Counts(docs), LinesResults(lines, size) + rest, enc, true)
         == Prefixed(enc(Join(lines)) + [NL], 1, Reassemble(Counts(docs[1..]), rest, enc, true))
  {
    var rs := LinesResults(lines, size) + rest;
    RecordOf(lines, size, rest, enc);
    assert WriteOne(Counts(docs)[0], rs, enc, true) == Emitted(enc(Join(lines)) + [NL], rest, 1, None);
    ReassembleStep(Counts(docs), rs, enc, true);
    assert Counts(docs)[1..] == Counts(docs[1..]);
  }

  /** A count equal to the number of lines the stream starts with writes
      their record and leaves the rest of the stream. */
  lemma RecordOf(lines: seq<Bytes>, size: nat, rest: seq<ReadResult>, enc: Encoder)
    requires size > 0
    ensures WriteOne(|lines|, LinesResults(lines, size) + rest, enc, true)
         == Emitted(enc(Join(lines)) + [NL], rest, 1, None)
  {
    ReadNChunked(lines, 0, size, rest);
    assert lines + [] == lines;
  }

  /** What ReadLine makes of a line filter's output for the fed documents:
      `g` of every fed line, each as one line, with a '\r' at its end
      dropped. */
  lemma FilteredStream(docs: seq<Bytes>, g: Bytes -> Bytes, size: nat)
    requires size > 0 && KeepsLines(g, SplitAll(docs))
    ensures StreamResults(PerLine(g, Terminated(docs)), size) == LinesResults(MapLines(ReadBack(g), SplitAll(docs)), size)
  {
    var lines := SplitAll(docs);
    var out := MapLines(g, lines);
    SplitTerminated(docs);
    assert Kept(lines + [[]]) == lines by {
      assert (lines + [[]])[..|lines|] == lines;
    }
    DeliveredTerminated(out);
    ReadBackLines(g, lines);
  }

  /** The framing guarantee: for any input that readDocs decodes without a
      fault into `docs`, when the filter writes one line for each line it
      reads, as the line filter `g` does, output record k is the encoding
      of document k with `g` applied to each of its lines, as ReadLine
      returns them; every document is counted, and there is no fault. No
      count takes a line that belongs to another document. */
  lemma LineFilterRun(stdin: seq<ReadResult>, docs: seq<Bytes>, filter: Filter, g: Bytes -> Bytes, size: nat,
                      enc: Encoder, dec: Decoder)
    requires size > 0 && DecodeLines(stdin, [], dec) == Decoded(docs, None)
    requires filter(Terminated(docs)) == PerLine(g, Terminated(docs)) && KeepsLines(g, SplitAll(docs))
    ensures Run(stdin, filter, size, enc, dec, true, true)
         == Outcome(Terminated(EncodeAll(Filtered(docs, ReadBack(g)), enc)), |docs|, None)
  {
    FilteredStream(docs, g, size);
    ReassembleDocuments(docs, ReadBack(g), size, enc);
  }

  /** `cat` is the line filter that leaves every line as it is. */
  lemma IdentityPerLine(docs: seq<Bytes>)
    ensures Identity(Terminated(docs)) == PerLine(Identity, Terminated(docs))
  {
    var lines := SplitAll(docs);
    SplitTerminated(docs);
    assert Kept(lines + [[]]) == lines by {
      assert (lines + [[]])[..|lines|] == lines;
    }
    assert MapLines(Identity, lines) == lines;
    TerminatedSplitAll(docs);
  }

  /** Leaving every line as it is leaves every document as it is. */
  lemma IdentityFiltered(docs: seq<Bytes>)
    ensures Filtered(docs, Identity) == docs
  {
    forall k | 0 <= k < |docs| ensures Filtered(docs, Identity)[k] == docs[k] {
      assert MapLines(Identity, Split(docs[k])) == Split(docs[k]);
      JoinSplit(docs[k]);
    }
  }

  /** The lines of a document without a '\r' at a line end are read back
      unchanged. */
  lemma ReadBackLinesKept(doc: Bytes)
    requires NoCRAtLineEnd(doc)
    ensures MapLines(ReadBack(Identity), Split(doc)) == Split(doc)
  {
    var lines := Split(doc);
    forall j | 0 <= j < |lines| ensures MapLines(ReadBack(Identity), lines)[j] == lines[j] {
      assert !EndsInCR(Split(doc)[j]);
      assert ReadBack(Identity)(lines[j]) == StripCR(Identity(lines[j]));
    }
  }

  /** Documents without a '\r' at a line end are read back unchanged. */
  lemma IdentityReadBack(docs: seq<Bytes>)
    requires forall k :: 0 <= k < |docs| ==> NoCRAtLineEnd(docs[k])
    ensures Filtered(docs, ReadBack(Identity)) == docs
  {
    forall k | 0 <= k < |docs| ensures Filtered(docs, ReadBack(Identity))[k] == docs[k] {
      ReadBackLinesKept(docs[k]);
      JoinSplit(docs[k]);
    }
  }

  /** The round trip of the framing protocol: when the input holds one
      encoded line per document, each followed by '\n', and the filter
      passes lines through, the
      output is the input, byte for byte, and every document is counted.
      The documents must not end a line in '\r', which ReadLine would drop. */
  lemma IdentityRoundTrip(docs: seq<Bytes>, size: nat, enc: Encoder, dec: Decoder)
    requires size > 0 && IsBase64Like(enc, dec)
    requires forall k :: 0 <= k < |docs| ==> NoCRAtLineEnd(docs[k])
    ensures var input := Terminated(EncodeAll(docs, enc));
      Run(StreamResults(input, size), Identity, size, enc, dec, true, true) == Outcome(input, |docs|, None)
  {
    ReadEncodedDocs(docs, size, enc, dec);
    IdentityPerLine(docs);
    IdentityReadBack(docs);
    LineFilterRun(StreamResults(Terminated(EncodeAll(docs, enc)), size), docs, Identity, Identity, size, enc, dec);
  }

  /** Why the input lines must each end in '\n': an input that is a single
      encoded document without its '\n' is accepted, and the output gains
      one. */
  lemma UnterminatedInputGainsNewline(doc: Bytes, size: nat, enc: Encoder, dec: Decoder)
    requires size > 0 && IsBase64Like(enc, dec) && enc(doc) != [] && NoCRAtLineEnd(doc)
    ensures var o := Run(StreamResults(enc(doc), size), Identity, size, enc, dec, true, true);
      o.fault == None && o.out == enc(doc) + [NL] && o.out != enc(doc)
  {
    var line := enc(doc);
    UnterminatedDecodes(doc, size, enc, dec);
    IdentityPerLine([doc]);
    IdentityReadBack([doc]);
    LineFilterRun(StreamResults(line, size), [doc], Identity, Identity, size, enc, dec);
    assert EncodeAll([doc], enc) == [line];
    assert Terminated([line]) == line + [NL] + Terminated([]);
    assert |line + [NL]| != |line|;
  }

  /** readDocs decodes an unterminated encoded line into its document. */
  lemma UnterminatedDecodes(doc: Bytes, size: nat, enc: Encoder, dec: Decoder)
    requires size > 0 && IsBase64Like(enc, dec) && enc(doc) != []
    ensures DecodeLines(StreamResults(enc(doc), size), [], dec) == Decoded([doc], None)
  {
    var line := enc(doc);
    assert NL !in line;
    SplitLine(line);
    assert Delivered(line) == [line];
    DecodeLinesResults([line], size, dec);
    assert DecodeAll([line], dec) == Sent([doc], DecodeAll([], dec));
  }

  /** The output of a line-filter run decodes to the filtered documents. */
  lemma OutputDecodes(stdin: seq<ReadResult>, docs: seq<Bytes>, filter: Filter, g: Bytes -> Bytes, size: nat,
                      enc: Encoder, dec: Decoder)
    requires size > 0 && IsBase64Like(enc, dec) && DecodeLines(stdin, [], dec) == Decoded(docs, None)
    requires filter(Terminated(docs)) == PerLine(g, Terminated(docs)) && KeepsLines(g, SplitAll(docs))
    ensures var o := Run(stdin, filter, size, enc, dec, true, true);
      DecodeLines(StreamResults(o.out, size), [], dec) == Decoded(Filtered(docs, ReadBack(g)), None)
  {
    LineFilterRun(stdin, docs, filter, g, size, enc, dec);
    ReadEncodedDocs(Filtered(docs, ReadBack(g)), size, enc, dec);
  }

  /** Why the documents must not end a line in '\r': a document that is a
      single '\r' comes back empty. */
  lemma CarriageReturnLost(size: nat, enc: Encoder, dec: Decoder)
    requires size > 0 && IsBase64Like(enc, dec)
    ensures var input := Terminated(EncodeAll([[CR]], enc));
      var o := Run(StreamResults(input, size), Identity, size, enc, dec, true, true);
      o.fault == None && o.out == Terminated(EncodeAll([[]], enc)) && o.out != input
  {
    var doc: Bytes := [CR];
    var input := Terminated(EncodeAll([doc], enc));
    ReadEncodedDocs([doc], size, enc, dec);
    SplitLine(doc);
    SplitLine([]);
    assert SplitAll([doc]) == [doc] by { assert SplitAll([doc]) == Split(doc) + SplitAll([]); }
    DeliveredDocuments([doc]);
    assert Delivered(Terminated([doc])) == [[]];
    assert SplitAll([[]]) == [[]] by { assert SplitAll([[]]) == Split([]) + SplitAll([]); }
    IdentityFiltered([[]]);
    assert MapLines(Identity, SplitAll([[]])) == [[]];
    ReassembleDocuments([[]], Identity, size, enc);
    assert Counts([doc]) == Counts([[]]) == [1];
    assert StreamResults(Terminated([doc]), size) == LinesResults(SplitAll([[]]), size);
    assert Run(StreamResults(input, size), Identity, size, enc, dec, true, true).out
        == Reassemble(Counts([[]]), LinesResults(SplitAll([[]]), size), enc, true).out;
    var a, b := enc(doc), enc([]);
    assert dec(a) != dec(b);
    assert Terminated(EncodeAll([doc], enc)) == a + [NL] + Terminated([]);
    assert Terminated(EncodeAll([[]], enc)) == b + [NL] + Terminated([]);
    assert input == a + [NL] && Terminated(EncodeAll([[]], enc)) == b + [NL];
    assert a != b && (a + [NL])[..|a|] == a && (b + [NL])[..|b|] == b;
  }
}
