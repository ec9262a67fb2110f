/** Text decoding. The parser turns byte strings into text with bytes.decode(),
    that is UTF-8 with errors raised; the validity test itself is a parameter here. */
module Utf8 {
  import opened Results
  import opened Bytes

  /** UTF-8 decoding: the text the bytes spell, or None when they are not valid UTF-8. */
  type Decoder = seq<byte> -> Option<string>

  /** bytes.decode(), which raises UnicodeDecodeError on invalid input. */
  function DecodeText(decode: Decoder, bytes: seq<byte>): Result<string>
  {
    match decode(bytes)
    case None => Err(InvalidUtf8)
    case Some(text) => Ok(text)
  }
}
