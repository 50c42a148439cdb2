/**
 * Base 64 as PHP's `base64_encode` and `base64_decode` implement it: the
 * alphabet and padding of section 4 of RFC 4648 on the encoding side, and on
 * the decoding side PHP's lenient (non-strict) decoder, which skips every
 * byte outside the alphabet (the pad character '=' included) and drops a
 * final lone 6-bit group.
 */
module Base64 {
  import opened PhpStrings

  /** A 6-bit group of the input. */
  type sextet = x: int | 0 <= x < 64

  /** '=' */
  const PadChar: byte := 61

  /** The character for a 6-bit value in the alphabet of table 1 of RFC 4648. */
  function StdChar(v: sextet): byte {
    if v < 26 then 65 + v            // 'A' .. 'Z'
    else if v < 52 then 71 + v       // 'a' .. 'z'
    else if v < 62 then v - 4        // '0' .. '9'
    else if v == 62 then 43          // '+'
    else 47                          // '/'
  }

  /** The value of an alphabet character, -1 for any other byte (PHP's reverse table). */
  function StdValue(c: byte): (v: int)
    ensures -1 <= v < 64
    ensures 0 <= v ==> StdChar(v) == c
  {
    if 65 <= c <= 90 then c - 65
    else if 97 <= c <= 122 then c - 71
    else if 48 <= c <= 57 then c + 4
    else if c == 43 then 62
    else if c == 47 then 63
    else -1
  }

  /**
   * The 6-bit groups of `m`, most significant bits first, without padding:
   * every 3 bytes give 4 groups, a final 1 or 2 bytes give 2 or 3 groups
   * whose unused low bits are zero.
   */
  function Sextets(m: seq<byte>): (v: seq<sextet>)
    ensures |v| == (4 * |m| + 2) / 3
  {
    if |m| == 0 then []
    else if |m| == 1 then [m[0] / 4, (m[0] % 4) * 16]
    else if |m| == 2 then [m[0] / 4, (m[0] % 4) * 16 + m[1] / 16, (m[1] % 16) * 4]
    else [m[0] / 4, (m[0] % 4) * 16 + m[1] / 16, (m[1] % 16) * 4 + m[2] / 64, m[2] % 64] + Sextets(m[3..])
  }

  /** The '=' characters that complete the last 4-character quantum. */
  function Padding(n: nat): seq<byte> {
    if n % 3 == 1 then [PadChar, PadChar] else if n % 3 == 2 then [PadChar] else []
  }

  /** `base64_encode($m)`. */
  function Base64Encode(m: seq<byte>): (r: seq<byte>)
    ensures |r| == 4 * ((|m| + 2) / 3)
  {
    MapSeq(StdChar, Sextets(m)) + Padding(|m|)
  }

  /** The values of the alphabet characters of `s`, in order; other bytes are skipped. */
  function DecodeValues(s: seq<byte>): (v: seq<sextet>)
    ensures |v| <= |s|
  {
    if |s| == 0 then []
    else
      var v := StdValue(s[0]);
      (if 0 <= v then [v] else []) + DecodeValues(s[1..])
  }

  /**
   * Reassemble bytes from 6-bit groups: 4 groups give 3 bytes; a final 3 or 2
   * groups give 2 or 1 bytes, and a final single group gives none.
   */
  function DecodeSextets(v: seq<sextet>): (r: seq<byte>)
    ensures |r| == 3 * |v| / 4
  {
    if |v| < 2 then []
    else
      var a, b: int := v[0], v[1];
      var c: int := if |v| >= 3 then v[2] else 0;
      var d: int := if |v| >= 4 then v[3] else 0;
      var out: seq<byte> := [a * 4 + b / 16, (b % 16) * 16 + c / 4, (c % 4) * 64 + d];
      if |v| >= 4 then out + DecodeSextets(v[4..])
      else out[..|v| - 1]
  }

  /** `base64_decode($s)` (non-strict). */
  function Base64Decode(s: seq<byte>): seq<byte> {
    DecodeSextets(DecodeValues(s))
  }

  lemma {:induction false} DecodeValuesAppend(a: seq<byte>, b: seq<byte>)
    ensures DecodeValues(a + b) == DecodeValues(a) + DecodeValues(b)
  {
    if |a| > 0 {
      assert (a + b)[1..] == a[1..] + b;
      DecodeValuesAppend(a[1..], b);
    } else {
      assert a + b == b;
    }
  }

  /** Decoding the alphabet characters of a sequence of groups gives the groups back. */
  lemma {:induction false} DecodeValuesOfChars(v: seq<sextet>)
    ensures DecodeValues(MapSeq(StdChar, v)) == v
  {
    if |v| > 0 {
      var cs := MapSeq(StdChar, v);
      assert cs[1..] == MapSeq(StdChar, v[1..]);
      DecodeValuesOfChars(v[1..]);
      assert v == [v[0]] + v[1..];
    }
  }

  /** The groups of one 3-byte quantum reassemble to its bytes. */
  lemma QuantumRoundTrip(b0: byte, b1: byte, b2: byte)
    ensures ((b0 % 4) * 16 + b1 / 16) / 16 == b0 % 4
    ensures (((b0 % 4) * 16 + b1 / 16) % 16) == b1 / 16
    ensures ((b1 % 16) * 4 + b2 / 64) / 4 == b1 % 16
    ensures ((b1 % 16) * 4 + b2 / 64) % 4 == b2 / 64
  {
  }

  /** Reassembling the groups of `m` gives `m`. */
  lemma {:induction false} DecodeSextetsInverse(m: seq<byte>)
    ensures DecodeSextets(Sextets(m)) == m
  {
    if |m| >= 3 {
      QuantumRoundTrip(m[0], m[1], m[2]);
      var q: seq<sextet> := [m[0] / 4, (m[0] % 4) * 16 + m[1] / 16, (m[1] % 16) * 4 + m[2] / 64, m[2] % 64];
      var rest := Sextets(m[3..]);
      assert Sextets(m) == q + rest;
      assert (q + rest)[4..] == rest;
      DecodeSextetsInverse(m[3..]);
      assert m == m[..3] + m[3..];
    } else if |m| == 2 {
      QuantumRoundTrip(m[0], m[1], 0);
    } else if |m| == 1 {
      QuantumRoundTrip(m[0], 0, 0);
    }
  }

  /** The decoder skips the padding and recovers the groups the encoder wrote. */
  lemma DecodeValuesOfEncoding(m: seq<byte>)
    ensures DecodeValues(Base64Encode(m)) == Sextets(m)
  {
    DecodeValuesAppend(MapSeq(StdChar, Sextets(m)), Padding(|m|));
    DecodeValuesOfChars(Sextets(m));
    var p := Padding(|m|);
    assert DecodeValues(p) == [] by {
      assert StdValue(PadChar) == -1;
      assert DecodeValues([]) == [];
      assert DecodeValues([PadChar]) == [] by { assert [PadChar][1..] == []; }
      if |p| == 2 { assert p[1..] == [PadChar]; }
    }
  }

  /** `base64_decode(base64_encode($m)) === $m`. */
  lemma Base64RoundTrip(m: seq<byte>)
    ensures Base64Decode(Base64Encode(m)) == m
  {
    DecodeValuesOfEncoding(m);
    DecodeSextetsInverse(m);
  }
}
