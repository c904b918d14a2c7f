/** The UTF-8 encoding GLib strings use. The rest of the model works on
    characters; bytes are needed only where the C code handles a single
    byte of a multi-byte character. */
module Utf8 {
  import opened Base

  newtype Byte = b: int | 0 <= b < 0x100

  /** The UTF-8 encoding of one Unicode scalar value (RFC 3629, section 3). */
  function EncodeChar(c: char): (bs: seq<Byte>)
    ensures 1 <= |bs| <= 4
    ensures |bs| == 1 <==> (c as int) < 0x80
    ensures |bs| == 1 ==> bs[0] as int == c as int
  {
    var n := c as int;
    if n < 0x80 then [n as Byte]
    else if n < 0x800 then [(0xC0 + n / 0x40) as Byte, (0x80 + n % 0x40) as Byte]
    else if n < 0x10000 then
      [(0xE0 + n / 0x1000) as Byte, (0x80 + n / 0x40 % 0x40) as Byte, (0x80 + n % 0x40) as Byte]
    else
      [(0xF0 + n / 0x40000) as Byte, (0x80 + n / 0x1000 % 0x40) as Byte,
       (0x80 + n / 0x40 % 0x40) as Byte, (0x80 + n % 0x40) as Byte]
  }

  /** The UTF-8 encoding of a string. */
  function Encode(s: String): seq<Byte> {
    if |s| == 0 then [] else EncodeChar(s[0]) + Encode(s[1..])
  }

  /** Encoding distributes over concatenation. */
  lemma {:induction false} EncodeAppend(a: String, b: String)
    ensures Encode(a + b) == Encode(a) + Encode(b)
  {
    if |a| == 0 {
      assert a + b == b;
    } else {
      assert (a + b)[1..] == a[1..] + b;
      EncodeAppend(a[1..], b);
    }
  }

  /** The byte C code sees as `s[0]`: the first byte of the first character. */
  function LeadByte(c: char): Byte {
    EncodeChar(c)[0]
  }
}
