/**
 * Lowercase base16 encoding of bytes, as `encoding/hex` produces it
 * (section 8 of RFC 4648), and its inverse.
 */
module Hex {
  import opened Wrappers
  import opened GoTypes

  predicate IsLowerHexDigit(ch: char) {
    '0' <= ch <= '9' || 'a' <= ch <= 'f'
  }

  predicate IsLowerHex(s: string) {
    forall i :: 0 <= i < |s| ==> IsLowerHexDigit(s[i])
  }

  /** The character for a 4-bit value: `0`-`9`, then `a`-`f`. */
  function Nibble(v: nat): (ch: char)
    requires v < 16
    ensures IsLowerHexDigit(ch)
  {
    if v < 10 then ('0' as int + v) as char else ('a' as int + v - 10) as char
  }

  function NibbleValue(ch: char): (v: nat)
    requires IsLowerHexDigit(ch)
    ensures v < 16 && Nibble(v) == ch
  {
    if ch <= '9' then ch as int - '0' as int else ch as int - 'a' as int + 10
  }

  /** Two characters per byte, high nibble first, no separators. */
  function HexEncode(bs: seq<byte>): (r: string)
    ensures |r| == 2 * |bs|
    ensures IsLowerHex(r)
  {
    if bs == [] then "" else [Nibble(bs[0] / 16), Nibble(bs[0] % 16)] + HexEncode(bs[1..])
  }

  /** The bytes a lowercase hex string stands for; `None` for an odd length or any other character. */
  function HexDecode(s: string): Option<seq<byte>>
    decreases |s|
  {
    if s == [] then Some([])
    else if |s| == 1 || !IsLowerHexDigit(s[0]) || !IsLowerHexDigit(s[1]) then None
    else
      match HexDecode(s[2..])
      case None => None
      case Some(rest) => Some([NibbleValue(s[0]) * 16 + NibbleValue(s[1])] + rest)
  }

  lemma ByteNibbles(b: byte)
    ensures b == (b / 16) * 16 + b % 16
  {
  }

  lemma NibblesByte(hi: nat, lo: nat)
    requires hi < 16 && lo < 16
    ensures (hi * 16 + lo) / 16 == hi && (hi * 16 + lo) % 16 == lo
  {
  }

  lemma {:induction false} HexRoundTrip(bs: seq<byte>)
    ensures HexDecode(HexEncode(bs)) == Some(bs)
  {
    if bs != [] {
      var r := HexEncode(bs);
      assert r[2..] == HexEncode(bs[1..]);
      assert NibbleValue(Nibble(bs[0] / 16)) == bs[0] / 16;
      assert NibbleValue(Nibble(bs[0] % 16)) == bs[0] % 16;
      ByteNibbles(bs[0]);
      HexRoundTrip(bs[1..]);
      assert r[0] == Nibble(bs[0] / 16) && r[1] == Nibble(bs[0] % 16);
      assert NibbleValue(r[0]) * 16 + NibbleValue(r[1]) == bs[0];
      assert [bs[0]] + bs[1..] == bs;
    }
  }

  /** A string that decodes is the encoding of what it decodes to, so no two strings decode to the same bytes. */
  lemma {:induction false} HexDecodeCanonical(s: string, bs: seq<byte>)
    requires HexDecode(s) == Some(bs)
    ensures HexEncode(bs) == s
  {
    if s != [] {
      var rest := HexDecode(s[2..]).value;
      HexDecodeCanonical(s[2..], rest);
      NibblesByte(NibbleValue(s[0]), NibbleValue(s[1]));
      assert s == [s[0], s[1]] + s[2..];
    }
  }

  /**
   * The strings that decode are exactly the even-length lowercase hex
   * strings; with `HexRoundTrip` and `HexDecodeCanonical`, the encoding is a
   * bijection onto them.
   */
  lemma {:induction false} HexDecodeTotal(s: string)
    ensures HexDecode(s).Some? <==> IsLowerHex(s) && |s| % 2 == 0
    decreases |s|
  {
    if |s| >= 2 {
      HexDecodeTotal(s[2..]);
      LowerHexPair(s);
    }
  }

  /** A string of two or more characters is lowercase hex when its first two characters and the rest are. */
  lemma LowerHexPair(s: string)
    requires |s| >= 2
    ensures IsLowerHex(s) <==> IsLowerHexDigit(s[0]) && IsLowerHexDigit(s[1]) && IsLowerHex(s[2..])
  {
    if IsLowerHexDigit(s[0]) && IsLowerHexDigit(s[1]) && IsLowerHex(s[2..]) {
      forall i | 0 <= i < |s| ensures IsLowerHexDigit(s[i]) {
        if i >= 2 {
          assert s[i] == s[2..][i - 2];
        }
      }
    }
  }
}
