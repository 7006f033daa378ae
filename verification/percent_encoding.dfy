/**
 Percent-encoding with an empty safe set, as applied to the upload's
 destination name (sections 2.1 and 2.3 of RFC 3986): the name's UTF-8 bytes
 are kept when they are unreserved characters and written as `%` plus two
 upper-case hex digits otherwise.
 */
module PercentEncoding {
  import opened Common
  import Utf8

  /** The unreserved characters of section 2.3 of RFC 3986. */
  predicate IsUnreserved(c: char)
  {
    || ('A' <= c <= 'Z') || ('a' <= c <= 'z') || ('0' <= c <= '9')
    || c == '-' || c == '.' || c == '_' || c == '~'
  }

  predicate IsUpperHex(c: char)
  {
    ('0' <= c <= '9') || ('A' <= c <= 'F')
  }

  /** The upper-case hex digit of a value below 16. */
  function HexDigit(v: int): (c: char)
    requires 0 <= v < 16
    ensures IsUpperHex(c)
  {
    if v < 10 then ('0' as int + v) as char else ('A' as int + v - 10) as char
  }

  /** The value of an upper-case hex digit. */
  function HexValue(c: char): (v: int)
    requires IsUpperHex(c)
    ensures 0 <= v < 16 && HexDigit(v) == c
  {
    if c <= '9' then c as int - '0' as int else c as int - 'A' as int + 10
  }

  /** One byte: itself when it is an unreserved character, else its `%XX` triple. */
  function EncodeByte(b: byte): (r: string)
  {
    if IsUnreserved(b as char) then [b as char] else ['%', HexDigit(b / 16), HexDigit(b % 16)]
  }

  /** Percent-encodes a byte sequence, byte by byte, in order. */
  function EncodeBytes(bs: seq<byte>): (r: string)
    ensures |r| >= |bs|
  {
    if |bs| == 0 then "" else EncodeByte(bs[0]) + EncodeBytes(bs[1..])
  }

  /** The percent-encoding of a name with nothing treated as safe. */
  function Quote(s: string): (r: string)
  {
    EncodeBytes(Utf8.Encode(s))
  }

  /**
   Well-formed output: a sequence of unreserved characters and `%` triples
   whose two digits are upper-case hex.
   */
  ghost predicate WellFormed(t: string)
    decreases |t|
  {
    || t == ""
    || (IsUnreserved(t[0]) && WellFormed(t[1..]))
    || (|t| >= 3 && t[0] == '%' && IsUpperHex(t[1]) && IsUpperHex(t[2]) && WellFormed(t[3..]))
  }

  /** Decodes well-formed output back to bytes; `None` on anything else. */
  function DecodeBytes(t: string): (r: Option<seq<byte>>)
    decreases |t|
  {
    if |t| == 0 then Some([])
    else if t[0] == '%' then
      if |t| >= 3 && IsUpperHex(t[1]) && IsUpperHex(t[2]) then
        match DecodeBytes(t[3..])
        case None => None
        case Some(rest) => Some([HexValue(t[1]) * 16 + HexValue(t[2])] + rest)
      else None
    else if IsUnreserved(t[0]) then
      match DecodeBytes(t[1..])
      case None => None
      case Some(rest) => Some([t[0] as int] + rest)
    else None
  }

  /** Encoding a byte sequence gives well-formed output that decodes back to it. */
  lemma {:induction false} EncodeBytesRoundTrip(bs: seq<byte>)
    ensures WellFormed(EncodeBytes(bs))
    ensures DecodeBytes(EncodeBytes(bs)) == Some(bs)
    decreases |bs|
  {
    if |bs| > 0 {
      var b := bs[0];
      var t := EncodeBytes(bs);
      var rest := EncodeBytes(bs[1..]);
      EncodeBytesRoundTrip(bs[1..]);
      assert t == EncodeByte(b) + rest;
      if IsUnreserved(b as char) {
        assert t[0] == b as char && t[1..] == rest;
      } else {
        assert t[0] == '%' && t[1] == HexDigit(b / 16) && t[2] == HexDigit(b % 16);
        assert t[3..] == rest;
        assert HexValue(t[1]) == b / 16 && HexValue(t[2]) == b % 16;
      }
      assert [b] + bs[1..] == bs;
    }
  }

  /** Every character of well-formed output is unreserved, `%`, or a hex digit; so no slash or space survives. */
  lemma {:induction false} WellFormedAlphabet(t: string)
    requires WellFormed(t)
    ensures forall i :: 0 <= i < |t| ==> IsUnreserved(t[i]) || t[i] == '%'
    ensures '/' !in t && ' ' !in t
    decreases |t|
  {
    if t != "" {
      if IsUnreserved(t[0]) && WellFormed(t[1..]) {
        WellFormedAlphabet(t[1..]);
        assert forall i :: 1 <= i < |t| ==> t[i] == t[1..][i - 1];
      } else {
        WellFormedAlphabet(t[3..]);
        assert forall i :: 3 <= i < |t| ==> t[i] == t[3..][i - 3];
      }
    }
  }

  /**
   The encoded destination name is well-formed, contains neither `/` nor a space,
   and percent-decoding it restores exactly the UTF-8 bytes of the name.
   */
  lemma QuoteRoundTrip(s: string)
    ensures WellFormed(Quote(s))
    ensures '/' !in Quote(s) && ' ' !in Quote(s)
    ensures DecodeBytes(Quote(s)) == Some(Utf8.Encode(s))
    ensures Utf8.Decode(DecodeBytes(Quote(s)).value) == Some(s)
  {
    EncodeBytesRoundTrip(Utf8.Encode(s));
    WellFormedAlphabet(Quote(s));
    Utf8.DecodeEncode(s);
  }

  /** Encoding distributes over concatenation. */
  lemma {:induction false} EncodeBytesAppend(a: seq<byte>, b: seq<byte>)
    ensures EncodeBytes(a + b) == EncodeBytes(a) + EncodeBytes(b)
    decreases |a|
  {
    if |a| == 0 {
      assert a + b == b;
    } else {
      assert (a + b)[0] == a[0] && (a + b)[1..] == a[1..] + b;
      EncodeBytesAppend(a[1..], b);
    }
  }

  /** One character's encoding is the character itself exactly when it is unreserved, else at least three characters. */
  lemma QuoteChar(c: char)
    ensures IsUnreserved(c) ==> Quote([c]) == [c]
    ensures !IsUnreserved(c) ==> |Quote([c])| >= 3
  {
    var e := Utf8.EncodeChar(c);
    assert Utf8.Encode([c]) == e + Utf8.Encode([]);
    assert e + [] == e;
    if |e| == 1 {
      assert EncodeBytes(e) == EncodeByte(e[0]) + EncodeBytes([]);
    } else {
      assert EncodeBytes(e) == EncodeByte(e[0]) + EncodeBytes(e[1..]);
      assert !IsUnreserved(e[0] as char);
    }
  }

  /** A name comes through the encoding unchanged exactly when all its characters are unreserved. */
  lemma {:induction false} QuoteIdentity(s: string)
    ensures Quote(s) == s <==> forall i :: 0 <= i < |s| ==> IsUnreserved(s[i])
    ensures |Quote(s)| >= |s|
    decreases |s|
  {
    if |s| > 0 {
      QuoteIdentity(s[1..]);
      QuoteChar(s[0]);
      assert [s[0]] + s[1..] == s;
      Utf8.EncodeAppend([s[0]], s[1..]);
      EncodeBytesAppend(Utf8.Encode([s[0]]), Utf8.Encode(s[1..]));
      assert Quote(s) == Quote([s[0]]) + Quote(s[1..]);
      if IsUnreserved(s[0]) {
        assert forall i :: 1 <= i < |s| ==> s[i] == s[1..][i - 1];
        if Quote(s) == s {
          assert Quote(s[1..]) == Quote(s)[1..] == s[1..];
        }
      } else {
        assert Quote(s) != s;
      }
    }
  }
}
