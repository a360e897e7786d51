/** Base64 as the program uses it: `base64.StdEncoding`, the padded
    encoding of section 4 of RFC 4648. The model does not implement the
    encoding; the protocol is proved for any encoder and decoder that have
    the two properties below. */
module Codec {
  import opened Wrappers
  import opened Bytes

  type Encoder = Bytes -> Bytes
  type Decoder = Bytes -> Option<Bytes>  // None: not a valid encoding

  /** Decoding an encoding gives the bytes back, and an encoding is drawn
      from the base64 alphabet and '=', so it holds neither '\n' nor '\r'. */
  ghost predicate IsBase64Like(enc: Encoder, dec: Decoder)
  {
    forall x :: dec(enc(x)) == Some(x) && NL !in enc(x) && CR !in enc(x)
  }

  /** No encoding holds a '\n', so every record is one line. */
  ghost predicate OneLine(enc: Encoder)
  {
    forall x :: NL !in enc(x)
  }
}
