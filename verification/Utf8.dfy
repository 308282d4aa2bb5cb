/** UTF-8 bytes of a string, the reference for the byte positions that `str` uses. */
module Utf8 {
  import opened Text

  type Byte = n: int | 0 <= n < 0x100

  function EncodeChar(c: char): (bytes: seq<Byte>)
    ensures |bytes| == Utf8Width(c)
  {
    var n := c as int;
    if n < 0x80 then [n]
    else if n < 0x800 then [0xC0 + n / 0x40, 0x80 + n % 0x40]
    else if n < 0x10000 then [0xE0 + n / 0x1000, 0x80 + n / 0x40 % 0x40, 0x80 + n % 0x40]
    else [0xF0 + n / 0x40000, 0x80 + n / 0x1000 % 0x40, 0x80 + n / 0x40 % 0x40, 0x80 + n % 0x40]
  }

  function Encode(s: string): (bytes: seq<Byte>)
    ensures |bytes| == ByteLen(s)
  {
    if s == [] then [] else EncodeChar(s[0]) + Encode(s[1..])
  }

  /** Bytes of the form 10xxxxxx. */
  predicate IsContinuation(b: Byte) {
    0x80 <= b < 0xC0
  }

  /** A position is a character boundary exactly when the byte there does not continue a
      character, which is how Rust decides it. */
  lemma {:induction false} BoundaryIsLeadByte(s: string, i: nat)
    ensures IsCharBoundary(s, i) <==>
            i == |Encode(s)| || (i < |Encode(s)| && !IsContinuation(Encode(s)[i]))
  {
    if s != [] && i > 0 {
      var w := Utf8Width(s[0]);
      if i >= w {
        BoundaryIsLeadByte(s[1..], i - w);
        assert i < |Encode(s)| ==> Encode(s)[i] == Encode(s[1..])[i - w];
      } else {
        assert Encode(s)[i] == EncodeChar(s[0])[i];
      }
    }
  }

  lemma CutBehind(head: seq<Byte>, rest: seq<Byte>, n: nat)
    requires n <= |rest|
    ensures (head + rest)[..|head| + n] == head + rest[..n]
    ensures (head + rest)[|head| + n..] == rest[n..]
  {
  }

  /** Cutting at a character boundary cuts the bytes there and never inside a code point. */
  lemma {:induction false} PrefixBytes(s: string, k: nat)
    requires k <= |s|
    ensures ByteLen(s[..k]) <= ByteLen(s)
    ensures Encode(s[..k]) == Encode(s)[..ByteLen(s[..k])]
    ensures Encode(s[k..]) == Encode(s)[ByteLen(s[..k])..]
  {
    if k > 0 {
      var head, rest := EncodeChar(s[0]), s[1..];
      PrefixBytes(rest, k - 1);
      assert s[..k][1..] == rest[..k - 1] && s[..k][0] == s[0];
      assert s[k..] == rest[k - 1..];
      assert Encode(s[..k]) == head + Encode(rest[..k - 1]);
      CutBehind(head, Encode(rest), ByteLen(rest[..k - 1]));
    }
  }
}
