/** The one facet of a text encoding the markup stream relies on: turning a
    string into bytes, character by character. */
module TextEncoding {

  newtype byte = b: int | 0 <= b < 256

  /** The bytes an encoding produces for one character (a Unicode scalar
      value); an encoding without a preamble, as `GetBytes` never emits one. */
  type Encoder = char -> seq<byte>

  /** The bytes of a whole string: the characters' bytes, in order. */
  function GetBytes(encoder: Encoder, s: string): seq<byte>
    decreases |s|
  {
    if s == [] then [] else encoder(s[0]) + GetBytes(encoder, s[1..])
  }

  /** Encoding distributes over concatenation, so a text may be encoded in
      pieces. */
  lemma {:induction false} GetBytesConcat(encoder: Encoder, a: string, b: string)
    ensures GetBytes(encoder, a + b) == GetBytes(encoder, a) + GetBytes(encoder, b)
    decreases |a|
  {
    if a == [] {
      assert a + b == b;
    } else {
      assert (a + b)[0] == a[0];
      assert (a + b)[1..] == a[1..] + b;
      GetBytesConcat(encoder, a[1..], b);
    }
  }

  /** UTF-8 as section 3 of RFC 3629 defines it: one to four bytes per code point. */
  function Utf8(c: char): (r: seq<byte>)
    ensures 1 <= |r| <= 4
    ensures (c as int) < 0x80 ==> r == [c as int as byte]
    ensures |r| > 1 ==> r[0] >= 0xC0 && forall i :: 1 <= i < |r| ==> 0x80 <= r[i] < 0xC0
    ensures |r| == 2 ==> 0xC0 <= r[0] < 0xE0
    ensures |r| == 3 ==> 0xE0 <= r[0] < 0xF0
    ensures |r| == 4 ==> 0xF0 <= r[0] < 0xF8
  {
    var cp := c as int;
    if cp < 0x80 then [cp as byte]
    else if cp < 0x800 then [(0xC0 + cp / 0x40) as byte, (0x80 + cp % 0x40) as byte]
    else if cp < 0x10000 then
      [(0xE0 + cp / 0x1000) as byte, (0x80 + cp / 0x40 % 0x40) as byte, (0x80 + cp % 0x40) as byte]
    else
      [(0xF0 + cp / 0x40000) as byte, (0x80 + cp / 0x1000 % 0x40) as byte,
       (0x80 + cp / 0x40 % 0x40) as byte, (0x80 + cp % 0x40) as byte]
  }

  /** Known encodings of a two-, a three- and a four-byte character: U+00E9, U+20AC and U+1F600. */
  lemma {:induction false} Utf8KnownCharacters()
    ensures Utf8(0xE9 as char) == [0xC3, 0xA9]
    ensures Utf8(0x20AC as char) == [0xE2, 0x82, 0xAC]
    ensures Utf8(0x1F600 as char) == [0xF0, 0x9F, 0x98, 0x80]
  {
  }
}
