/** JSON-RPC 2.0, as far as both servers share it; JSON itself is left as text. */
module JsonRpc {
  import opened Utf8

  type Json = seq<byte>

  /** "null" */
  const NULL: Json := [0x6E, 0x75, 0x6C, 0x6C]

  function Ascii(s: string): Json {
    seq(|s|, i requires 0 <= i < |s| => if s[i] as int < 0x80 then s[i] as int as byte else 0x3F)
  }

  lemma NullInBytes()
    ensures NULL == Ascii("null")
  {
  }

  // the error codes of section 5.1 of the JSON-RPC 2.0 specification
  const PARSE_ERROR := -32700
  const INVALID_REQUEST := -32600
  const METHOD_NOT_FOUND := -32601
  const INVALID_PARAMS := -32602
  const INTERNAL_ERROR := -32603
}
