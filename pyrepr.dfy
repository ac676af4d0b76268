/**
 * What `str()` of a `bytes` value gives in Python: its repr, `b'...'`.
 * pyshark/manifest.py records an input's lineage from the `user.shark`
 * attribute with `str(xattr_info['user.shark'])`, and the attribute holds
 * the UTF-8 bytes of the document, so the text recorded is that repr rather
 * than the document the attribute was written from.
 */
module PyRepr {
  import opened Codec

  /** The UTF-8 encoding of one Unicode scalar value. */
  function Utf8Char(c: char): (b: seq<byte>)
    ensures 1 <= |b| <= 4
  {
    var n := c as int;
    if n < 0x80 then [n]
    else if n < 0x800 then [0xC0 + n / 0x40, 0x80 + n % 0x40]
    else if n < 0x1_0000 then [0xE0 + n / 0x1000, 0x80 + (n / 0x40) % 0x40, 0x80 + n % 0x40]
    else [0xF0 + n / 0x4_0000, 0x80 + (n / 0x1000) % 0x40, 0x80 + (n / 0x40) % 0x40, 0x80 + n % 0x40]
  }

  /** `s.encode('utf-8')`. */
  function Utf8(s: string): (b: seq<byte>)
    ensures |b| >= |s|
  {
    if s == [] then [] else Utf8Char(s[0]) + Utf8(s[1..])
  }

  function HexDigit(d: nat): char
    requires d < 16
  {
    "0123456789abcdef"[d]
  }

  const SQUOTE: byte := 39
  const DQUOTE: byte := 34

  /** The quote `repr` puts around the bytes: `"` only when they hold `'` and no `"`. */
  function QuoteFor(b: seq<byte>): char {
    if SQUOTE in b && DQUOTE !in b then '"' else '\''
  }

  /** How `repr` writes one byte between quotes `q`. */
  function EscapeByte(x: byte, q: char): (r: string)
    ensures 1 <= |r| <= 4
  {
    if x == 92 then "\\\\"
    else if x == q as int then ['\\', q]
    else if x == 9 then "\\t"
    else if x == 10 then "\\n"
    else if x == 13 then "\\r"
    else if x < 32 || x >= 127 then ['\\', 'x', HexDigit(x / 16), HexDigit(x % 16)]
    else [x as char]
  }

  function EscapeBytes(b: seq<byte>, q: char): (r: string)
    ensures |r| >= |b|
  {
    if b == [] then "" else EscapeByte(b[0], q) + EscapeBytes(b[1..], q)
  }

  /** `str(b)` for a `bytes` value `b`. */
  function BytesRepr(b: seq<byte>): string {
    var q := QuoteFor(b);
    "b" + [q] + EscapeBytes(b, q) + [q]
  }

  /**
   * The history `append_input` records for an input whose attribute was
   * written from the document `m` (line 84 of pyshark/manifest.py as written).
   */
  function AttributeHistoryAsWritten(m: string): string {
    BytesRepr(Utf8(m))
  }

  /** What is recorded is never the document itself: it is at least three characters longer. */
  lemma AttributeHistoryIsNotTheDocument(m: string)
    ensures |AttributeHistoryAsWritten(m)| >= |m| + 3
    ensures AttributeHistoryAsWritten(m) != m
  {
  }

  lemma EmptyDocumentExample()
    ensures AttributeHistoryAsWritten("{}") == "b'{}'"
  {
    assert Utf8("{}") == [123, 125];
  }
}
