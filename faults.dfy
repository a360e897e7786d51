/** The fatal conditions of the program: every `log.Fatalf` of the modelled
    code becomes one of these values instead of a process exit. */
module Faults {
  datatype Fault =
    | InputReadFailed(code: nat)        // readDocs: a read error other than io.EOF
    | DecodeFailed                      // readDocs: a line that is not valid base64
    | FilterWriteFailed                 // main: writing a document or its '\n' to the filter
    | OutputReadFailed(code: nat)       // writeDocs: readNLines reported a read error
    | LineCountMismatch(expected: nat, got: nat)  // writeDocs: len(lines) != n
    | OutputWriteFailed                 // writeDocs: writing a record to standard output
}
