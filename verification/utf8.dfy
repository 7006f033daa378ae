/**
 UTF-8, the encoding a text string is turned into before it is percent-encoded
 or base64-encoded: the encoder and a strict decoder that inverts it.
 */
module Utf8 {
  import opened Common

  /** The UTF-8 bytes of one Unicode scalar value. */
  function EncodeChar(c: char): (r: seq<byte>)
    ensures 1 <= |r| <= 4
    ensures |r| == 1 <==> (c as int) < 0x80
    ensures |r| == 1 ==> r[0] == c as int
    ensures |r| > 1 ==> forall i :: 0 <= i < |r| ==> r[i] >= 0x80
  {
    var n := c as int;
    if n < 0x80 then [n]
    else if n < 0x800 then [0xC0 + n / 64, 0x80 + n % 64]
    else if n < 0x10000 then [0xE0 + n / 4096, 0x80 + (n / 64) % 64, 0x80 + n % 64]
    else [0xF0 + n / 262144, 0x80 + (n / 4096) % 64, 0x80 + (n / 64) % 64, 0x80 + n % 64]
  }

  /** The UTF-8 bytes of a string: the characters' encodings, concatenated in order. */
  function Encode(s: string): (r: seq<byte>)
    ensures |r| >= |s|
  {
    if |s| == 0 then [] else EncodeChar(s[0]) + Encode(s[1..])
  }

  /** Encoding distributes over concatenation. */
  lemma {:induction false} EncodeAppend(s: string, t: string)
    ensures Encode(s + t) == Encode(s) + Encode(t)
    decreases |s|
  {
    if |s| == 0 {
      assert s + t == t;
    } else {
      assert (s + t)[0] == s[0];
      assert (s + t)[1..] == s[1..] + t;
      EncodeAppend(s[1..], t);
    }
  }

  /** Whether `n` is a Unicode scalar value (a code point that is not a surrogate). */
  predicate IsScalar(n: int)
  {
    (0 <= n < 0xD800) || (0xE000 <= n < 0x11_0000)
  }

  predicate IsContinuation(b: byte)
  {
    0x80 <= b < 0xC0
  }

  /**
   The length and scalar value of the well-formed sequence at the start of `bs`,
   or `None`: rejects stray continuation bytes, truncated and overlong forms,
   surrogates and values beyond the Unicode range.
   */
  function DecodeFirst(bs: seq<byte>): (r: Option<(nat, int)>)
    ensures r.Some? ==> 1 <= r.value.0 <= |bs| && r.value.0 <= 4 && IsScalar(r.value.1)
  {
    if |bs| == 0 then None
    else
      var b0 := bs[0] as int;
      if b0 < 0x80 then Some((1, b0))
      else if 0xC0 <= b0 < 0xE0 && |bs| >= 2 && IsContinuation(bs[1]) then
        var n := (b0 - 0xC0) * 64 + (bs[1] as int - 0x80);
        if n >= 0x80 then Some((2, n)) else None
      else if 0xE0 <= b0 < 0xF0 && |bs| >= 3 && IsContinuation(bs[1]) && IsContinuation(bs[2]) then
        var n := (b0 - 0xE0) * 4096 + (bs[1] as int - 0x80) * 64 + (bs[2] as int - 0x80);
        if n >= 0x800 && IsScalar(n) then Some((3, n)) else None
      else if 0xF0 <= b0 < 0xF8 && |bs| >= 4 && IsContinuation(bs[1]) && IsContinuation(bs[2])
              && IsContinuation(bs[3]) then
        var n := (b0 - 0xF0) * 262144 + (bs[1] as int - 0x80) * 4096 + (bs[2] as int - 0x80) * 64 + (bs[3] as int - 0x80);
        if 0x10000 <= n && IsScalar(n) then Some((4, n)) else None
      else None
  }

  /** Decodes a whole byte sequence, or `None` if it is not well-formed UTF-8. */
  function Decode(bs: seq<byte>): (r: Option<string>)
    decreases |bs|
  {
    if |bs| == 0 then Some("")
    else match DecodeFirst(bs)
      case None => None
      case Some((len, n)) =>
        match Decode(bs[len..])
        case None => None
        case Some(rest) => Some([n as char] + rest)
  }

  /** Splitting off six bits and putting them back gives the number back. */
  lemma SixBits(n: int)
    requires n >= 0
    ensures n == (n / 64) * 64 + n % 64 && 0 <= n % 64 < 64
  {
  }

  /** The two-byte form decodes to its code point. */
  lemma DecodeFirstTwo(n: int, rest: seq<byte>)
    requires 0x80 <= n < 0x800
    ensures DecodeFirst([0xC0 + n / 64, 0x80 + n % 64] + rest) == Some((2, n))
  {
    SixBits(n);
  }

  /** The three-byte form decodes to its code point. */
  lemma DecodeFirstThree(n: int, rest: seq<byte>)
    requires 0x800 <= n < 0x10000 && IsScalar(n)
    ensures DecodeFirst([0xE0 + n / 4096, 0x80 + (n / 64) % 64, 0x80 + n % 64] + rest) == Some((3, n))
  {
    var m := n / 64;
    SixBits(n);
    SixBits(m);
    assert n / 4096 == m / 64;
  }

  /** The four-byte form decodes to its code point. */
  lemma DecodeFirstFour(n: int, rest: seq<byte>)
    requires 0x10000 <= n && IsScalar(n)
    ensures DecodeFirst([0xF0 + n / 262144, 0x80 + (n / 4096) % 64, 0x80 + (n / 64) % 64, 0x80 + n % 64] + rest)
         == Some((4, n))
  {
    var m := n / 64;
    var k := m / 64;
    SixBits(n);
    SixBits(m);
    SixBits(k);
    assert n / 4096 == k;
    assert n / 262144 == k / 64;
  }

  /** Decoding the front of one character's encoding gives back that character. */
  lemma DecodeFirstOfEncodeChar(c: char, rest: seq<byte>)
    ensures DecodeFirst(EncodeChar(c) + rest) == Some((|EncodeChar(c)|, c as int))
  {
    var n := c as int;
    if n < 0x80 {
    } else if n < 0x800 {
      DecodeFirstTwo(n, rest);
    } else if n < 0x10000 {
      DecodeFirstThree(n, rest);
    } else {
      DecodeFirstFour(n, rest);
    }
  }

  /** The decoder inverts the encoder on every string. */
  lemma {:induction false} DecodeEncode(s: string)
    ensures Decode(Encode(s)) == Some(s)
    decreases |s|
  {
    if |s| > 0 {
      var e := EncodeChar(s[0]);
      var bs := Encode(s);
      assert bs == e + Encode(s[1..]);
      DecodeFirstOfEncodeChar(s[0], Encode(s[1..]));
      assert bs[|e|..] == Encode(s[1..]);
      DecodeEncode(s[1..]);
      assert [s[0]] + s[1..] == s;
    }
  }
}
