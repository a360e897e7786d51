# b64filter: the line-count framing protocol, in Dafny

`b64filter` runs a line-oriented program as a filter over a stream of
documents. Each input line is one base64-encoded document. The program
decodes it, writes the document and one `'\n'` to the filter, and puts the
document's line count (its `'\n'` count plus one) on a FIFO ledger. A second
loop, `writeDocs`, pops each count, reads that many lines from the filter's
output with `readNLines`, joins them with `'\n'`, and writes the encoding as
one output line.

This project models that protocol with goroutines, pipes and the process
stripped away. The pieces are:

- `Bytes`: Go's `bytes.Count`, `bytes.Split` and `bytes.Join` with the
  separator `"\n"`, and the split/join laws.
- `Codec`: base64 as a pair of functions, an encoder and a decoder, about
  which only two facts are assumed: decoding an encoding gives the bytes back,
  and an encoding holds no `'\n'` and no `'\r'` (`IsBase64Like`). The
  encoding is the padded one of section 4 of RFC 4648.
- `CountLedger`: the ledger as a class over a `seq<nat>` queue.
- `Streams`: `bufio.Reader.ReadLine` as a class that hands out a fixed
  sequence of `(chunk, isPrefix, err)` results through a cursor. It also
  defines what `ReadLine` makes of a byte stream (`Delivered`, `Chunks`), and
  an `io.Writer` as a `Sink` class.
- `Decoding`: `readDocs` as a method with its loop, proved against the
  function `DecodeLines`.
- `Feeder`: the feeding loop of `main`, as methods.
- `Reassembler`: `readNLines` and the `writeDocs` loop as methods, proved
  against the functions `ReadN` and `Reassemble`.
- `Pipeline`: the whole program as one sequential run. Its central theorem
  is `LineFilterRun`. It covers any input that `readDocs` decodes without a
  fault, and a filter that writes, for each line it reads, one line with no
  `'\n'` inside it. For such a filter, output record k is document k with
  the filter applied to each of its lines, and with a `'\r'` at the end of
  an output line dropped, as `ReadLine` drops it.
  `IdentityRoundTrip` is the case of a pass-through filter such as `cat`.
  The output equals the input byte for byte under two conditions: the input
  is one encoding per document, each followed by `'\n'`, and no document
  ends a line in `'\r'`. Two lemmas show that both conditions are needed.
  `CarriageReturnLost` covers the `'\r'`, and
  `UnterminatedInputGainsNewline` shows that a last input line without
  `'\n'` is accepted and comes back with one. Input that is not in that
  form also comes back changed: `"\r\n"` line ends lose their `'\r'`, and
  an encoding the decoder accepts but that is not the one the encoder
  writes comes back in the encoder's form.

The run is a sequentialisation of the program's concurrent stages, not
one of its interleavings. The document channel is unbuffered, so in the
program `readDocs` cannot finish before the feeding loop has received every
document. In the model, `readDocs` finishes first, then the feeding loop
feeds every document, then the filter turns everything it was fed into its
output, and then `writeDocs` drains the ledger. A run without a fault has
the program's outcome. The filter is a parameter: a
function from the bytes written to its input to the bytes it writes out.

Three facts about the code shape the model:

- The ledger is unbounded. It is `queue.New(32)` from go-datastructures,
  where the 32 only sizes the queue's initial storage and `Put` never
  blocks. There is no back-pressure through it, and the model's ledger is
  an unbounded sequence.
- A read that comes up one line short at the end of the filter's output is
  not fatal. At `io.EOF`, `readNLines` appends the pending line, even an
  empty one. So an output that ends exactly one line short of a count
  passes the length check in `writeDocs`. `Reassembler.EofShortfallAccepted`
  states this, and `Reassembler.ReadNCount` gives the general case. Once the
  output is used up, `ReadLine` keeps returning `io.EOF`. So every later
  count of 1 also passes, with an empty line, and writes the encoding of
  the empty document. `EofShortfallAccepted` with no results left states
  that too.
- Reassembly drops nothing. The count is the number of pieces `bytes.Split`
  makes of the document. The feeder's one `'\n'` only ends the last piece,
  and `bytes.Join` of the lines read back gives the document itself
  (`Bytes.JoinSplit`).

## Model

| member | source | states |
|---|---|---|
| `Bytes.Count` | b64filter.go:235 | `bytes.Count` of `"\n"` is at most the length of the document |
| `Bytes.CountOccurrences` | b64filter.go:235 | the count is the number of occurrences of `'\n'` in the document |
| `Bytes.CountAppend` | b64filter.go:235 | the terminators of two byte runs written one after the other add up |
| `Bytes.Split` | b64filter.go:235 | a document has one more piece between terminators than it has terminators, and no piece holds a terminator; this is why the count pushed is `bytes.Count + 1` |
| `Bytes.JoinSplit` | b64filter.go:165 | joining the pieces of a document with `'\n'` gives the document back |
| `Bytes.Join` | b64filter.go:165 | `bytes.Join` puts exactly one `'\n'` between neighbouring lines: terminator-free lines joined hold one terminator fewer than there are lines |
| `Bytes.SplitJoin` | b64filter.go:165 | joining terminator-free lines and splitting again gives the same lines back |
| `Bytes.SplitLine` | b64filter.go:105-123 | bytes without a terminator are a single line |
| `Bytes.SplitLast` | b64filter.go:105-123 | the last piece is empty exactly when the stream is empty or ends with `'\n'` |
| `Bytes.SplitAround` | b64filter.go:240-245 | a `'\n'` written between two byte runs separates their lines |
| `Bytes.Terminated` | b64filter.go:240-245 | the bytes the feeding loop writes: every document followed by one `'\n'`, in order |
| `Bytes.TerminatedJoin` | b64filter.go:240-245 | writing each part followed by `'\n'` equals joining the parts and adding one final `'\n'` |
| `Bytes.SplitTerminated` | b64filter.go:234-249 | the lines of the fed stream are the lines of each document in order, then one empty piece after the final `'\n'` |
| `Bytes.SplitTerminatedLines` | b64filter.go:171-172 | a stream of terminated lines splits into those lines and one empty piece |
| `Bytes.TerminatedAppend` | b64filter.go:240-245 | writing two runs of terminated parts one after the other writes their concatenation |
| `Bytes.TerminatedSplitAll` | b64filter.go:240-245 | writing every line of every document with its `'\n'` writes the documents, each with one `'\n'` |
| `CountLedger.Ledger.constructor` | b64filter.go:227 | the ledger starts empty |
| `CountLedger.Ledger.Put` | b64filter.go:247 | `Put` appends the count at the back of the queue |
| `CountLedger.Ledger.Get` | b64filter.go:138-152 | `Get(1)` removes and returns the front count; an empty, disposed queue gives none and stays empty |
| `CountLedger.Sum` | b64filter.go:178 | `nlines`: the counts of the documents written, added up |
| `CountLedger.SumSplit` | b64filter.go:178 | a sum of counts splits at any point, which is how `nlines` grows one document at a time |
| `Streams.ChunkReader.constructor` | b64filter.go:229 | a reader starts before the first result |
| `Streams.ChunkReader.ReadLine` | b64filter.go:105 | `ReadLine` returns the next result and advances past it; after the last one it returns `io.EOF` with no bytes, forever |
| `Streams.Sink.Write` | b64filter.go:240-245 | a write appends all of its bytes, or fails and appends nothing when the pipe is broken |
| `Streams.Stop` | b64filter.go:109-116 | every stream of results ends in an error, `io.EOF` when it simply runs out |
| `Streams.StripCR` | b64filter.go:105 | `ReadLine` drops at most one byte from a terminated line, and leaves it unchanged exactly when it does not end in `'\r'` |
| `Streams.StripAll` | b64filter.go:53 | `ReadLine` returns one line per terminated piece, each the piece with a final `'\r'` dropped |
| `Streams.Delivered` | b64filter.go:53 | `ReadLine` delivers one terminator-free line per `'\n'` of the stream, plus one when the stream does not end with `'\n'` |
| `Streams.Chunks` | b64filter.go:105-123 | `ReadLine` hands over a long line as prefix chunks followed by one final chunk, and the chunks glue back to the line |
| `Streams.ChunksFree` | b64filter.go:105 | no chunk of a terminator-free line holds a terminator |
| `Streams.ChunksText` | b64filter.go:105-123 | the chunks of a line spell out the line and its `'\n'`, and what follows comes after them |
| `Streams.ChunksLines` | b64filter.go:118-123 | the chunks of a line hold exactly one finished line, since only the last is not a prefix, and leave the stream's final error unchanged |
| `Streams.LinesResults` | b64filter.go:105 | the results `ReadLine` returns for a run of lines, each cut into its chunks |
| `Streams.StreamResults` | b64filter.go:229 | the results `ReadLine` on the filter's output returns for the whole of that output, before `io.EOF` |
| `Streams.LinesResultsText` | b64filter.go:105-123 | reading a run of lines spells out each line with its `'\n'`, finishes every line and ends with `io.EOF` |
| `Streams.LinesResultsAppend` | b64filter.go:105 | reading two runs of lines one after the other is reading their concatenation |
| `Streams.DeliveredTerminated` | b64filter.go:53 | `ReadLine` on terminated lines delivers each line, with a `'\r'` before its `'\n'` dropped |
| `Streams.DeliveredDocuments` | b64filter.go:229 | `ReadLine` on the fed stream delivers the lines of every document in order, with a `'\r'` before each `'\n'` dropped |
| `Streams.StripAllUnchanged` | b64filter.go:53 | `ReadLine` leaves the lines unchanged if and only if none of them ends in `'\r'` |
| `Decoding.DecodeAll` | b64filter.go:79-85 | documents are decoded line by line in order; the run stops at the first line that is not valid base64, with the fatal decode fault, and every earlier line gave its document |
| `Decoding.DecodeLines` | b64filter.go:52-87 | the chunk loop of `readDocs` on the results still to come, with the bytes of the current line already read: a finished line is decoded and sent, `io.EOF` sends the pending line when it is not empty, another error or a failed decode is fatal |
| `Decoding.DecodeLinesEnd` | b64filter.go:59-76 | a run of `readDocs` without a fault read its input to `io.EOF`, and it sends at most one document per finished line plus the pending one |
| `Decoding.DecodeLinesText` | b64filter.go:52-87 | `readDocs` sends one document per finished input line, an empty line included, in input order; at `io.EOF` it sends one more for a non-empty pending line and none for an empty one; another read error is fatal after the finished lines; any decode failure is fatal |
| `Decoding.FromLinesCons` | b64filter.go:79-86 | a finished line is decoded and sent before the lines after it |
| `Decoding.DecodeLinesStop` | b64filter.go:59-76 | at a read error the pending line, with the chunk that came with the error, is the only line left |
| `Decoding.DecodeLinesFinished` | b64filter.go:79-86 | a chunk that finishes a line sends that line's document ahead of the rest |
| `Decoding.DecodeLinesResults` | b64filter.go:52-87 | reading whole lines gives one decoding per line |
| `Decoding.ReadDocs` | b64filter.go:46-91 | the loop of `readDocs` sends exactly the documents `DecodeLines` gives and stops with its fault |
| `Decoding.EncodeAll` | b64filter.go:168-171 | one encoded line per document, in order |
| `Decoding.DecodeEncodeAll` | b64filter.go:79-85 | decoding the encodings gives every document back, with no fault |
| `Decoding.ReadEncodedDocs` | b64filter.go:46-91 | an input of one encoded line per document, each with its `'\n'`, makes `readDocs` send exactly those documents |
| `Feeder.LineCount` | b64filter.go:235 | the count pushed for a document is the number of its lines, at least one; an empty document counts 1 |
| `Feeder.Counts` | b64filter.go:234-249 | the ledger holds one count per document, in document order, each the number of that document's lines |
| `Feeder.FeedDoc` | b64filter.go:235-247 | one document is written to the filter followed by exactly one `'\n'`, and its count is pushed; a broken pipe fails with nothing written and nothing pushed |
| `Feeder.Feed` | b64filter.go:233-249 | the feeding loop writes every document followed by `'\n'`, in order, and pushes their counts in the same order; `i` counts the documents |
| `Feeder.TerminatedSnoc` | b64filter.go:240-245 | feeding one more document adds it and one `'\n'` to the fed stream |
| `Feeder.CountsSnoc` | b64filter.go:247 | feeding one more document adds its count at the back of the ledger |
| `Feeder.CountsCoverFedLines` | b64filter.go:235-247 | the counts on the ledger add up to the number of `'\n'` written to the filter |
| `Reassembler.NextLine` | b64filter.go:105-123 | one line is gathered from consecutive chunks up to the first that is not a prefix or the first error, and begins with the bytes already read |
| `Reassembler.ReadN` | b64filter.go:98-124 | `readNLines` never returns more than `count` lines |
| `Reassembler.ReadNChunk` | b64filter.go:105-123 | `readNLines` on the next result: `io.EOF` ends with the pending line, another error ends with the error, a prefix chunk only grows the pending line, a final chunk finishes a line |
| `Reassembler.ReadNLines` | b64filter.go:93-130 | the loop of `readNLines`, with the `n--` for prefix chunks, returns what `ReadN` gives and consumes the results `ReadN` consumes |
| `Reassembler.NextLineProgress` | b64filter.go:105-123 | taking one line succeeds exactly when a finished line is left, and then leaves one finished line fewer |
| `Reassembler.ReadNCount` | b64filter.go:98-124 | `readNLines` returns exactly `count` lines when the stream holds them; after m < `count` finished lines and `io.EOF` it returns m + 1; after another error it returns the error alone |
| `Reassembler.NextLineText` | b64filter.go:105-123 | the line assembled is the first line of the text the chunks spell out |
| `Reassembler.ReadNText` | b64filter.go:105-123 | each returned line is the concatenation of consecutive chunks up to the first non-prefix chunk, and the lines are the first `count` lines of the text |
| `Reassembler.NextLineUnfinished` | b64filter.go:107-112 | with no finished line left, the pending line gathers every chunk up to the error |
| `Reassembler.ReadNTextEof` | b64filter.go:109-112 | at `io.EOF` before `count` lines, `readNLines` returns every finished line and then the pending one, even when it is empty |
| `Reassembler.EofShortfallAccepted` | b64filter.go:109-112 | an output that ends one line short of the count passes the length check of `writeDocs` with no fault |
| `Reassembler.EofShortfallFatal` | b64filter.go:109-164 | an output that ends two or more lines short of the count fails the length check with the number of lines returned |
| `Reassembler.ReadErrorFatal` | b64filter.go:113-161 | a read error other than `io.EOF` before the count is reached ends the run with that error |
| `Reassembler.NextLineChunks` | b64filter.go:105-123 | the chunks `ReadLine` makes of one line are assembled into that line and nothing more |
| `Reassembler.ReadNLine` | b64filter.go:105-123 | a line delivered in chunks counts as one line |
| `Reassembler.ReadNChunked` | b64filter.go:98-124 | asking for as many lines as a stream begins with returns exactly those lines and reads nothing after them |
| `Reassembler.WriteOne` | b64filter.go:157-178 | one iteration writes a record and finishes one document, or writes nothing on a read error, a line-count mismatch or a write failure |
| `Reassembler.Reassemble` | b64filter.go:136-183 | the loop finishes every count in ledger order unless a fault stops it first |
| `Reassembler.WriteThen` | b64filter.go:136-183 | after one popped count, the loop goes on with the counts queued behind it |
| `Reassembler.ReassembleOne` | b64filter.go:157-178 | the loop over one count is one iteration |
| `Reassembler.ReassembleStep` | b64filter.go:136-183 | the loop takes the front count first, then stops on its fault or goes on with the rest |
| `Reassembler.WriteDoc` | b64filter.go:136-178 | one loop body pops the front count, reads that many lines, checks the number, and writes `Enc(join(lines, "\n"))` followed by one `'\n'` |
| `Reassembler.TracedSnoc` | b64filter.go:177-178 | a run's record grows by one document per count popped |
| `Reassembler.ReassembleTrace` | b64filter.go:136-183 | a run of finished iterations is the start of the loop's output |
| `Reassembler.DrainLedger` | b64filter.go:132-188 | the loop pops counts in the order they were put, writes one record per count, and keeps `ndocs` at the number of documents written and `nlines` at the sum of their counts |
| `Reassembler.WriteDocs` | b64filter.go:132-188 | `writeDocs` writes exactly what `Reassemble` gives for the ledger, stops with its fault, and leaves `nlines` at the sum of the counts of the documents written |
| `Pipeline.Run` | b64filter.go:227-268 | a run of the whole program without a fault read its input to `io.EOF` and wrote exactly one output line per document |
| `Pipeline.RunFilter` | b64filter.go:227-268 | decoding, feeding and reassembling in sequence produce exactly the output, document count and fault that `Run` gives |
| `Pipeline.NoCRInLines` | b64filter.go:235 | when no document ends a line in `'\r'`, no line fed to the filter does |
| `Pipeline.RecordOf` | b64filter.go:157-171 | a count equal to the number of lines the output starts with writes the encoding of those lines joined, and one `'\n'` |
| `Pipeline.FirstRecord` | b64filter.go:136-178 | the first count takes the first document's output lines and writes their record, and the loop goes on with the rest |
| `Pipeline.ReassembleDocuments` | b64filter.go:136-178 | when the output holds one line per fed line, each count takes exactly its own document's output lines, never a line of the next, and each record is those lines joined, encoded and terminated |
| `Pipeline.ReadBackLines` | b64filter.go:105 | reading back what a line filter writes drops a final `'\r'` from each of its lines |
| `Pipeline.FilteredStream` | b64filter.go:229 | when a line filter writes one line with no `'\n'` inside it for each fed line, `ReadLine` on its output returns one line per fed line, with a final `'\r'` dropped |
| `Pipeline.LineFilterRun` | b64filter.go:39-41 | for any input that `readDocs` decodes without a fault, when the filter writes exactly one line with no `'\n'` inside it per line it reads, the run has no fault and counts every document. Output record k is the encoding of document k with the filter applied to each of its lines and a final `'\r'` of each result dropped |
| `Pipeline.IdentityPerLine` | b64filter.go:34-37 | `cat` is the line filter that leaves every line as it is |
| `Pipeline.IdentityFiltered` | b64filter.go:165 | leaving every line as it is leaves every document as it is |
| `Pipeline.ReadBackLinesKept` | b64filter.go:105 | the lines of a document that ends no line in `'\r'` are read back unchanged |
| `Pipeline.IdentityReadBack` | b64filter.go:105 | documents that end no line in `'\r'` are read back unchanged |
| `Pipeline.IdentityRoundTrip` | b64filter.go:34-37 | for documents that do not end a line in `'\r'`, an input of one encoded line per document, each followed by `'\n'`, comes back through `cat` byte for byte, with every document counted and no fault |
| `Pipeline.UnterminatedDecodes` | b64filter.go:52-85 | an encoded line with no `'\n'` after it is decoded into its document at `io.EOF` |
| `Pipeline.UnterminatedInputGainsNewline` | b64filter.go:63-71 | an input that is one encoded document without its `'\n'` runs without a fault, and its output is that line with a `'\n'` added, so it differs from the input |
| `Pipeline.OutputDecodes` | b64filter.go:158-171 | for any input that `readDocs` decodes without a fault and a filter that writes one line with no `'\n'` inside it per line read, the output decodes to the documents with the filter applied to each line and a final `'\r'` of each result dropped |
| `Pipeline.CarriageReturnLost` | b64filter.go:105 | a document that is a single `'\r'` comes back empty, so the round trip needs the documents not to end a line in `'\r'` |

## Left out

- Concurrency: the goroutines of `readDocs` and `writeDocs`, the document channel, and the `done` handshake. The model runs the stages one after the other, each finishing before the next starts. This is a sequentialisation, not an interleaving the program can take, since the unbuffered channel keeps `readDocs` from finishing before the feeding loop has received every document. A run without a fault has the program's outcome.
- The go-datastructures queue: its blocking `Get`, `Disposed` and `Dispose`, and the sleep-poll loop that drains it. Only its FIFO content is modelled. An empty ledger stands for a disposed one, since all counts are pushed before any are popped. The `len(ns) != 1` check and the type assertion on the popped item cannot fail with `Get(1)` on a queue of ints, so they are not modelled.
- Process plumbing: `exec.Command`, the pipes, `cmd.Start`, `cmd.Wait` and its exit status, closing the filter's input, and the copy of the filter's standard error.
- Flag parsing, usage text, `debug` logging, and the timed progress report. `nlines` is kept, but it is only ever logged.
- Base64 internals, `DecodedLen` and `EncodedLen`. The encoder and decoder are parameters with the `IsBase64Like` properties.
- `bufio.Reader` buffering. `ReadLine` is an abstract source of results. For a byte stream, `Delivered` gives the lines `ReadLine` returns: the `'\r'` before a `'\n'` is dropped, and a non-empty unterminated tail is kept. `Chunks` cuts a line into fixed-size prefix chunks, which only approximates where bufio really cuts.
- The filter is a function of everything fed to it. How it interleaves with the feeder, and the hang when a filter buffers its output, are not modelled.
- `Streams.Sink.Write`: a write either writes all of its bytes or fails with nothing written. A pipe's broken state is fixed for the whole run, so partial writes and a pipe that breaks midway are not modelled.
- `Feeder.Feed`: when a write fails it reports `i` as 0. The program exits at that point and never reports `i`.
- `Pipeline.RunFilter`: on a decode or read fault in `readDocs` it stops before feeding anything. In the program, documents decoded before the bad line may already have been fed and written when the process exits.
- `Pipeline.Run` and `Pipeline.RunFilter` read the filter's output through `StreamResults`, the results of reading a complete byte stream. These results never carry a read error other than `io.EOF`. So in a whole run, the read-error exits of `readNLines` and `writeDocs` at b64filter.go:113-114 and 159-161 never fire. `Reassembler.ReadErrorFatal` states them on arbitrary reader results.
- `Pipeline.LineFilterRun` and `Pipeline.OutputDecodes` cover only filters that write exactly one line, with no `'\n'` inside it, for each line they read. A filter that adds or removes lines breaks the framing, and the model states nothing about its output.
- `log.Fatalf` is modelled as the `Fault` value that ends a run, not as a process exit.
