/**
 * Bytes and base16 text (section 8 of RFC 4648) as Node.js writes and reads
 * them: `Buffer#toString('hex')` emits two lower-case digits per byte, and
 * `Buffer.from(text, 'hex')` reads two digits at a time in either case and
 * stops quietly at the first pair that is not two hex digits.
 */
module Hex {

  type Byte = b: int | 0 <= b < 256

  predicate IsHexDigit(c: char)
  {
    '0' <= c <= '9' || 'a' <= c <= 'f' || 'A' <= c <= 'F'
  }

  predicate IsLowerHexDigit(c: char)
    ensures IsLowerHexDigit(c) ==> IsHexDigit(c)
  {
    '0' <= c <= '9' || 'a' <= c <= 'f'
  }

  /** A hex digit that is not a lower-case letter: what upper-casing leaves of any hex digit. */
  predicate IsUpperHexDigit(c: char)
  {
    IsHexDigit(c) && !('a' <= c <= 'f')
  }

  /** The value of one hex digit, in either case. */
  function DigitValue(c: char): (v: nat)
    requires IsHexDigit(c)
    ensures v < 16
  {
    if '0' <= c <= '9' then c as int - '0' as int
    else if 'a' <= c <= 'f' then c as int - 'a' as int + 10
    else c as int - 'A' as int + 10
  }

  /** The lower-case digit for a value below 16, as `Number#toString(16)` writes it. */
  function LowerDigit(v: nat): (c: char)
    requires v < 16
    ensures IsLowerHexDigit(c) && DigitValue(c) == v
  {
    if v < 10 then ('0' as int + v) as char else ('a' as int + v - 10) as char
  }

  /** The two lower-case digits of one byte, high nibble first. */
  function ByteToHex(b: Byte): (s: string)
    ensures |s| == 2 && IsLowerHexDigit(s[0]) && IsLowerHexDigit(s[1])
    ensures DigitValue(s[0]) * 16 + DigitValue(s[1]) == b
  {
    [LowerDigit(b / 16), LowerDigit(b % 16)]
  }

  /** `Buffer#toString('hex')`. */
  function Encode(bs: seq<Byte>): (s: string)
    ensures |s| == 2 * |bs|
    ensures forall i :: 0 <= i < |s| ==> IsLowerHexDigit(s[i])
  {
    if bs == [] then "" else ByteToHex(bs[0]) + Encode(bs[1..])
  }

  /** `Buffer.from(s, 'hex')`: decoding stops at the first pair that is not two hex digits. */
  function Decode(s: string): (bs: seq<Byte>)
    ensures 2 * |bs| <= |s|
  {
    if |s| < 2 || !IsHexDigit(s[0]) || !IsHexDigit(s[1]) then []
    else [DigitValue(s[0]) * 16 + DigitValue(s[1])] + Decode(s[2..])
  }

  /** Reading back what `Encode` wrote gives the original bytes. */
  lemma {:induction false} DecodeEncode(bs: seq<Byte>)
    ensures Decode(Encode(bs)) == bs
  {
    if bs != [] {
      var s := Encode(bs);
      assert s[2..] == Encode(bs[1..]);
      DecodeEncode(bs[1..]);
      assert bs == [bs[0]] + bs[1..];
    }
  }

  /** Encoding is piecewise: the hex of a concatenation is the concatenation of the hex. */
  lemma {:induction false} EncodeAppend(a: seq<Byte>, b: seq<Byte>)
    ensures Encode(a + b) == Encode(a) + Encode(b)
  {
    if a == [] {
      assert a + b == b;
    } else {
      assert (a + b)[1..] == a[1..] + b;
      EncodeAppend(a[1..], b);
    }
  }

  /** `String#toUpperCase` on text made of ASCII characters. */
  function UpperAscii(s: string): (r: string)
    ensures |r| == |s|
  {
    if s == [] then ""
    else [if 'a' <= s[0] <= 'z' then (s[0] as int - 32) as char else s[0]] + UpperAscii(s[1..])
  }

  /** Upper-casing lower-case hex gives upper-case hex digits of the same values. */
  lemma {:induction false} UpperAsciiHex(s: string)
    requires forall i :: 0 <= i < |s| ==> IsLowerHexDigit(s[i])
    ensures forall i :: 0 <= i < |s| ==>
              var c, u := s[i], UpperAscii(s)[i];
              IsHexDigit(c) && IsUpperHexDigit(u) && DigitValue(u) == DigitValue(c)
  {
    if s != [] {
      UpperAsciiHex(s[1..]);
      var r := UpperAscii(s);
      forall i | 1 <= i < |s|
        ensures IsHexDigit(s[i]) && IsUpperHexDigit(r[i]) && DigitValue(r[i]) == DigitValue(s[i])
      {
        assert r[i] == UpperAscii(s[1..])[i - 1];
      }
    }
  }
}
