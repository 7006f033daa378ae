/**
 Base64 with the standard alphabet and `=` padding (section 4 of RFC 4648),
 used for the Basic credentials of the authorize-account call.
 */
module Base64 {
  import opened Common

  /** The alphabet of section 4 of RFC 4648: `A`-`Z`, `a`-`z`, `0`-`9`, `+`, `/`. */
  predicate IsBase64Char(c: char)
  {
    ('A' <= c <= 'Z') || ('a' <= c <= 'z') || ('0' <= c <= '9') || c == '+' || c == '/'
  }

  /** The character encoding a 6-bit value. */
  function CharOf(v: int): (c: char)
    requires 0 <= v < 64
    ensures IsBase64Char(c)
  {
    if v < 26 then ('A' as int + v) as char
    else if v < 52 then ('a' as int + v - 26) as char
    else if v < 62 then ('0' as int + v - 52) as char
    else if v == 62 then '+'
    else '/'
  }

  /** The 6-bit value of an alphabet character. */
  function ValueOf(c: char): (v: int)
    requires IsBase64Char(c)
    ensures 0 <= v < 64 && CharOf(v) == c
  {
    if 'A' <= c <= 'Z' then c as int - 'A' as int
    else if 'a' <= c <= 'z' then c as int - 'a' as int + 26
    else if '0' <= c <= '9' then c as int - '0' as int + 52
    else if c == '+' then 62
    else 63
  }

  /** Reading back the character of a 6-bit value gives that value. */
  lemma ValueOfCharOf(v: int)
    requires 0 <= v < 64
    ensures ValueOf(CharOf(v)) == v
  {
  }

  /** The four 6-bit values spelling out three bytes, most significant bits first. */
  function Sextet0(b0: byte): (v: int) ensures 0 <= v < 64 { b0 / 4 }
  function Sextet1(b0: byte, b1: byte): (v: int) ensures 0 <= v < 64 { (b0 % 4) * 16 + b1 / 16 }
  function Sextet2(b1: byte, b2: byte): (v: int) ensures 0 <= v < 64 { (b1 % 16) * 4 + b2 / 64 }
  function Sextet3(b2: byte): (v: int) ensures 0 <= v < 64 { b2 % 64 }

  /** The three bytes spelt out by four 6-bit values. */
  function Octet0(v0: int, v1: int): byte requires 0 <= v0 < 64 && 0 <= v1 < 64 { v0 * 4 + v1 / 16 }
  function Octet1(v1: int, v2: int): byte requires 0 <= v1 < 64 && 0 <= v2 < 64 { (v1 % 16) * 16 + v2 / 4 }
  function Octet2(v2: int, v3: int): byte requires 0 <= v2 < 64 && 0 <= v3 < 64 { (v2 % 4) * 64 + v3 }

  /** Regrouping 8-bit values into 6-bit values and back loses nothing. */
  lemma RegroupBits(b0: byte, b1: byte, b2: byte)
    ensures Octet0(Sextet0(b0), Sextet1(b0, b1)) == b0
    ensures Octet1(Sextet1(b0, b1), Sextet2(b1, b2)) == b1
    ensures Octet2(Sextet2(b1, b2), Sextet3(b2)) == b2
  {
    assert ((b0 % 4) * 16 + b1 / 16) / 16 == b0 % 4;
    assert ((b0 % 4) * 16 + b1 / 16) % 16 == b1 / 16;
    assert ((b1 % 16) * 4 + b2 / 64) / 4 == b1 % 16;
    assert ((b1 % 16) * 4 + b2 / 64) % 4 == b2 / 64;
  }

  /** Encodes three bytes at a time; a final one or two bytes are padded with `=`. */
  function Encode(bs: seq<byte>): (r: string)
    ensures forall i :: 0 <= i < |r| ==> IsBase64Char(r[i]) || r[i] == '='
    decreases |bs|
  {
    if |bs| == 0 then ""
    else if |bs| == 1 then
      [CharOf(Sextet0(bs[0])), CharOf(Sextet1(bs[0], 0)), '=', '=']
    else if |bs| == 2 then
      [CharOf(Sextet0(bs[0])), CharOf(Sextet1(bs[0], bs[1])), CharOf(Sextet2(bs[1], 0)), '=']
    else
      var rest := Encode(bs[3..]);
      var r := [CharOf(Sextet0(bs[0])), CharOf(Sextet1(bs[0], bs[1])),
                CharOf(Sextet2(bs[1], bs[2])), CharOf(Sextet3(bs[2]))] + rest;
      assert forall i :: 4 <= i < |r| ==> r[i] == rest[i - 4];
      r
  }

  /** Every started group of three bytes becomes four characters. */
  lemma {:induction false} EncodeLength(bs: seq<byte>)
    ensures |Encode(bs)| == 4 * ((|bs| + 2) / 3)
    decreases |bs|
  {
    if |bs| >= 3 {
      EncodeLength(bs[3..]);
      assert (|bs| + 2) / 3 == (|bs[3..]| + 2) / 3 + 1;
    }
  }

  /** Decodes padded base64; `None` when the text is not of that shape. */
  function Decode(s: string): (r: Option<seq<byte>>)
    decreases |s|
  {
    if |s| == 0 then Some([])
    else if |s| < 4 || !IsBase64Char(s[0]) || !IsBase64Char(s[1]) then None
    else
      var v0 := ValueOf(s[0]);
      var v1 := ValueOf(s[1]);
      if |s| == 4 && s[2] == '=' && s[3] == '=' then
        Some([Octet0(v0, v1)])
      else if !IsBase64Char(s[2]) then None
      else
        var v2 := ValueOf(s[2]);
        if |s| == 4 && s[3] == '=' then
          Some([Octet0(v0, v1), Octet1(v1, v2)])
        else if !IsBase64Char(s[3]) then None
        else
          var v3 := ValueOf(s[3]);
          match Decode(s[4..])
          case None => None
          case Some(rest) => Some([Octet0(v0, v1), Octet1(v1, v2), Octet2(v2, v3)] + rest)
  }

  /** The shapes the decoder reads: a group padded with `==`, one padded with `=`, and a full group. */
  lemma DecodePaddedTwo(c0: char, c1: char)
    requires IsBase64Char(c0) && IsBase64Char(c1)
    ensures Decode([c0, c1, '=', '=']) == Some([Octet0(ValueOf(c0), ValueOf(c1))])
  {
  }

  lemma DecodePaddedOne(c0: char, c1: char, c2: char)
    requires IsBase64Char(c0) && IsBase64Char(c1) && IsBase64Char(c2)
    ensures Decode([c0, c1, c2, '=']) == Some([Octet0(ValueOf(c0), ValueOf(c1)), Octet1(ValueOf(c1), ValueOf(c2))])
  {
  }

  lemma DecodeGroup(c0: char, c1: char, c2: char, c3: char, rest: string)
    requires IsBase64Char(c0) && IsBase64Char(c1) && IsBase64Char(c2) && IsBase64Char(c3)
    ensures Decode([c0, c1, c2, c3] + rest)
         == match Decode(rest)
            case None => None
            case Some(tail) =>
              Some([Octet0(ValueOf(c0), ValueOf(c1)), Octet1(ValueOf(c1), ValueOf(c2)),
                    Octet2(ValueOf(c2), ValueOf(c3))] + tail)
  {
    var s := [c0, c1, c2, c3] + rest;
    assert s[4..] == rest;
  }

  /** A final single byte, padded with `==`, decodes back to itself. */
  lemma DecodeEncodeOne(b0: byte)
    ensures Decode(Encode([b0])) == Some([b0])
  {
    var v0, v1 := Sextet0(b0), Sextet1(b0, 0);
    DecodePaddedTwo(CharOf(v0), CharOf(v1));
    ValueOfCharOf(v0);
    ValueOfCharOf(v1);
    RegroupBits(b0, 0, 0);
  }

  /** A final pair of bytes, padded with `=`, decodes back to itself. */
  lemma DecodeEncodeTwo(b0: byte, b1: byte)
    ensures Decode(Encode([b0, b1])) == Some([b0, b1])
  {
    var v0, v1, v2 := Sextet0(b0), Sextet1(b0, b1), Sextet2(b1, 0);
    DecodePaddedOne(CharOf(v0), CharOf(v1), CharOf(v2));
    ValueOfCharOf(v0);
    ValueOfCharOf(v1);
    ValueOfCharOf(v2);
    RegroupBits(b0, b1, 0);
  }

  /** A full group decodes to its three bytes, followed by whatever the rest decodes to. */
  lemma DecodeEncodeThree(b0: byte, b1: byte, b2: byte, rest: seq<byte>)
    requires Decode(Encode(rest)) == Some(rest)
    ensures Decode(Encode([b0, b1, b2] + rest)) == Some([b0, b1, b2] + rest)
  {
    var bs := [b0, b1, b2] + rest;
    assert bs[0] == b0 && bs[1] == b1 && bs[2] == b2 && bs[3..] == rest;
    var v0, v1, v2, v3 := Sextet0(b0), Sextet1(b0, b1), Sextet2(b1, b2), Sextet3(b2);
    DecodeGroup(CharOf(v0), CharOf(v1), CharOf(v2), CharOf(v3), Encode(rest));
    ValueOfCharOf(v0);
    ValueOfCharOf(v1);
    ValueOfCharOf(v2);
    ValueOfCharOf(v3);
    RegroupBits(b0, b1, b2);
  }

  /** Decoding inverts encoding on every byte sequence. */
  lemma {:induction false} DecodeEncode(bs: seq<byte>)
    ensures Decode(Encode(bs)) == Some(bs)
    decreases |bs|
  {
    if |bs| == 1 {
      assert bs == [bs[0]];
      DecodeEncodeOne(bs[0]);
    } else if |bs| == 2 {
      assert bs == [bs[0], bs[1]];
      DecodeEncodeTwo(bs[0], bs[1]);
    } else if |bs| >= 3 {
      assert bs == [bs[0], bs[1], bs[2]] + bs[3..];
      DecodeEncode(bs[3..]);
      DecodeEncodeThree(bs[0], bs[1], bs[2], bs[3..]);
    }
  }
}
