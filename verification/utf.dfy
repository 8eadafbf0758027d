/** How a JavaScript string is measured and how Node writes it to a socket.
    A Dafny `char` is one Unicode scalar value. JavaScript's `length` counts
    UTF-16 code units, and a request body written from a string is sent as
    its UTF-8 bytes. */
module Utf {

  newtype byte = x: int | 0 <= x < 256

  /** Code units one scalar value takes in UTF-16: two above the Basic
      Multilingual Plane (a surrogate pair), one otherwise. */
  function Utf16Units(c: char): (n: nat)
    ensures n == 1 <==> (c as int) < 0x1_0000
    ensures 1 <= n <= 2
  {
    if (c as int) < 0x1_0000 then 1 else 2
  }

  /** The value JavaScript's `length` reports for the string. */
  function Utf16Length(s: string): (n: nat)
    ensures |s| <= n <= 2 * |s|
  {
    if s == [] then 0 else Utf16Units(s[0]) + Utf16Length(s[1..])
  }

  /** The UTF-8 encoding of one scalar value (section 3 of RFC 3629). */
  function EncodeChar(c: char): (bs: seq<byte>)
    ensures 1 <= |bs| <= 4
    ensures |bs| == 1 <==> (c as int) < 0x80
    ensures |bs| == 1 ==> bs[0] as int == c as int
    ensures |bs| > 1 ==> 0xC0 <= bs[0] as int
    ensures forall k :: 1 <= k < |bs| ==> 0x80 <= bs[k] as int < 0xC0
  {
    var cp := c as int;
    if cp < 0x80 then
      [cp as byte]
    else if cp < 0x800 then
      [(0xC0 + cp / 0x40) as byte, (0x80 + cp % 0x40) as byte]
    else if cp < 0x1_0000 then
      [(0xE0 + cp / 0x1000) as byte, (0x80 + cp / 0x40 % 0x40) as byte, (0x80 + cp % 0x40) as byte]
    else
      [(0xF0 + cp / 0x4_0000) as byte, (0x80 + cp / 0x1000 % 0x40) as byte,
       (0x80 + cp / 0x40 % 0x40) as byte, (0x80 + cp % 0x40) as byte]
  }

  /** The bytes Node sends for a string written with the default encoding. */
  function Utf8Encode(s: string): (bs: seq<byte>)
    ensures |s| <= |bs| <= 4 * |s|
  {
    if s == [] then [] else EncodeChar(s[0]) + Utf8Encode(s[1..])
  }

  predicate IsAscii(s: string) {
    forall k :: 0 <= k < |s| ==> (s[k] as int) < 0x80
  }

  /** For an ASCII string the UTF-16 length, the UTF-8 byte count and the
      number of characters all agree. */
  lemma {:induction false} AsciiLengthsAgree(s: string)
    requires IsAscii(s)
    ensures Utf16Length(s) == |Utf8Encode(s)| == |s|
    decreases |s|
  {
    if s != [] {
      assert IsAscii(s[1..]) by {
        forall k | 0 <= k < |s[1..]| ensures (s[1..][k] as int) < 0x80 {
          assert s[1..][k] == s[k + 1];
        }
      }
      AsciiLengthsAgree(s[1..]);
    }
  }
}
