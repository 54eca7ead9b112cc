/** UTF-8 encoding of strings, as `Encoding.UTF8.GetBytes` turns the configured
    Jwt:Key into signing-key bytes. Characters are Unicode scalar values. */
module Utf8 {

  type Byte = b: int | 0 <= b < 256

  /** The number of bytes a UTF-8 sequence occupies, read from its lead byte. */
  function SequenceLength(lead: Byte): nat {
    if lead < 0x80 then 1 else if lead < 0xE0 then 2 else if lead < 0xF0 then 3 else 4
  }

  /** The one- to four-byte encoding of a single scalar value. */
  function EncodeScalar(c: char): (bs: seq<Byte>)
    ensures 1 <= |bs| <= 4 && |bs| == SequenceLength(bs[0])
  {
    var cp := c as int;
    var q1 := cp / 64;
    var q2 := q1 / 64;
    var q3 := q2 / 64;
    if cp < 0x80 then [cp]
    else if cp < 0x800 then [0xC0 + q1, 0x80 + cp % 64]
    else if cp < 0x10000 then [0xE0 + q2, 0x80 + q1 % 64, 0x80 + cp % 64]
    else [0xF0 + q3, 0x80 + q2 % 64, 0x80 + q1 % 64, 0x80 + cp % 64]
  }

  /** The scalar value a well-formed sequence of the right length stands for. */
  function ScalarValue(bs: seq<Byte>): int
    requires 1 <= |bs| <= 4
  {
    var b: seq<int> := bs;
    if |b| == 1 then b[0]
    else if |b| == 2 then (b[0] - 0xC0) * 64 + (b[1] - 0x80)
    else if |b| == 3 then ((b[0] - 0xE0) * 64 + (b[1] - 0x80)) * 64 + (b[2] - 0x80)
    else (((b[0] - 0xF0) * 64 + (b[1] - 0x80)) * 64 + (b[2] - 0x80)) * 64 + (b[3] - 0x80)
  }

  lemma DecodeEncodeScalar(c: char)
    ensures ScalarValue(EncodeScalar(c)) == c as int
  {
  }

  function Encode(s: string): (bs: seq<Byte>)
    ensures |s| <= |bs| <= 4 * |s|
    decreases |s|
  {
    if |s| == 0 then [] else EncodeScalar(s[0]) + Encode(s[1..])
  }

  /** Different strings give different key bytes. */
  lemma {:induction false} EncodeInjective(s: string, t: string)
    requires Encode(s) == Encode(t)
    ensures s == t
    decreases |s|
  {
    if |s| > 0 && |t| > 0 {
      var a, b := EncodeScalar(s[0]), EncodeScalar(t[0]);
      assert Encode(s)[0] == a[0] && Encode(t)[0] == b[0];
      assert |a| == |b|;
      assert a == Encode(s)[..|a|];
      assert b == Encode(t)[..|b|];
      DecodeEncodeScalar(s[0]);
      DecodeEncodeScalar(t[0]);
      assert s[0] == t[0];
      assert Encode(s[1..]) == Encode(s)[|a|..];
      assert Encode(t[1..]) == Encode(t)[|b|..];
      EncodeInjective(s[1..], t[1..]);
      assert s == [s[0]] + s[1..];
      assert t == [t[0]] + t[1..];
    }
  }

  /** Encoding distributes over concatenation: a key's bytes are its characters' bytes in order. */
  lemma {:induction false} EncodeAppend(s: string, t: string)
    ensures Encode(s + t) == Encode(s) + Encode(t)
    decreases |s|
  {
    if |s| > 0 {
      assert (s + t)[0] == s[0];
      assert (s + t)[1..] == s[1..] + t;
      EncodeAppend(s[1..], t);
    } else {
      assert s + t == t;
    }
  }

  /** A key string is empty exactly when its bytes are. */
  lemma EncodeEmpty(s: string)
    ensures Encode(s) == [] <==> s == ""
  {
  }
}
