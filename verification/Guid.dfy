/** GUIDs as registry text and as the 16 mixed-endian bytes of appendix A of UEFI 2.10. */
module Guid {
  import opened Bytes
  import opened Text

  const DASH: byte := 45

  predicate IsHex(c: byte) {
    ZERO <= c < ZERO + 10 || 97 <= c < 103 || 65 <= c < 71
  }

  lemma HexDigits(c: byte)
    ensures IsHex(c) <==> c as char in "0123456789abcdefABCDEF"
  {
    if IsHex(c) {
      var i := if c < 58 then c - 48 else if c >= 97 then c - 87 else c - 49;
      assert "0123456789abcdefABCDEF"[i] == c as char;
    }
  }

  function HexValue(c: byte): (v: nat)
    requires IsHex(c)
    ensures v < 16
  {
    if c < ZERO + 10 then c - ZERO else if c >= 97 then c - 87 else c - 55
  }

  function LowerDigit(c: byte): byte { if 65 <= c < 91 then c + 32 else c }

  function Lower(s: seq<byte>): (l: seq<byte>)
    ensures |l| == |s|
  {
    seq(|s|, i requires 0 <= i < |s| => LowerDigit(s[i]))
  }

  predicate AllHex(s: seq<byte>) { forall i :: 0 <= i < |s| ==> IsHex(s[i]) }

  /** `hex.DecodeString` on an even number of hexadecimal digits. */
  function Unhex(h: seq<byte>): (s: seq<byte>)
    requires AllHex(h) && |h| % 2 == 0
    ensures |s| == |h| / 2
  {
    if |h| == 0 then [] else [16 * HexValue(h[0]) + HexValue(h[1])] + Unhex(h[2..])
  }

  lemma {:induction false} UnhexHex(s: seq<byte>)
    ensures AllHex(Hex(s)) && Unhex(Hex(s)) == s
  {
    if |s| > 0 {
      UnhexHex(s[1..]);
      assert Hex(s)[2..] == Hex(s[1..]);
      assert AllHex(Hex(s)) by {
        forall i | 0 <= i < |Hex(s)| ensures IsHex(Hex(s)[i]) {
          if i >= 2 {
            assert Hex(s)[i] == Hex(s)[2..][i - 2];
          }
        }
      }
    }
  }

  /** A digit's value prints as the digit in lower case. */
  lemma DigitOfValue(c: byte, d: byte)
    requires IsHex(c) && IsHex(d)
    ensures var v := 16 * HexValue(c) + HexValue(d);
            HexDigit(v / 16) == LowerDigit(c) && HexDigit(v % 16) == LowerDigit(d)
  {
    var v := 16 * HexValue(c) + HexValue(d);
    assert v / 16 == HexValue(c) && v % 16 == HexValue(d);
  }

  lemma {:induction false} HexUnhex(h: seq<byte>)
    requires AllHex(h) && |h| % 2 == 0
    ensures Hex(Unhex(h)) == Lower(h)
  {
    if |h| > 0 {
      HexUnhex(h[2..]);
      assert Unhex(h)[1..] == Unhex(h[2..]);
      assert Lower(h) == [LowerDigit(h[0]), LowerDigit(h[1])] + Lower(h[2..]);
      DigitOfValue(h[0], h[1]);
    }
  }

  // ----- the text -----

  /** The pattern the text must match: groups of 8, 4, 4, 4 and 12 hexadecimal digits with dashes between them. */
  predicate Matches(g: seq<byte>) {
    && |g| == 36
    && g[8] == DASH && g[13] == DASH && g[18] == DASH && g[23] == DASH
    && AllHex(Groups(g)[0]) && AllHex(Groups(g)[1]) && AllHex(Groups(g)[2]) && AllHex(Groups(g)[3]) && AllHex(Groups(g)[4])
  }

  function Groups(g: seq<byte>): (m: seq<seq<byte>>)
    requires |g| == 36
    ensures |m| == 5
  {
    [g[0..8], g[9..13], g[14..18], g[19..23], g[24..36]]
  }

  function Dashed(h: seq<byte>): (g: seq<byte>)
    requires |h| == 32
    ensures |g| == 36
  {
    h[0..8] + [DASH] + h[8..12] + [DASH] + h[12..16] + [DASH] + h[16..20] + [DASH] + h[20..32]
  }

  function Plain(g: seq<byte>): (h: seq<byte>)
    requires |g| == 36
    ensures |h| == 32
  {
    g[0..8] + g[9..13] + g[14..18] + g[19..23] + g[24..36]
  }

  lemma PlainIsHex(g: seq<byte>)
    requires Matches(g)
    ensures AllHex(Plain(g))
  {
    assert AllHex(g[0..8]) && AllHex(g[9..13]) && AllHex(g[14..18]) && AllHex(g[19..23]) && AllHex(g[24..36]);
  }

  lemma PlainDashed(h: seq<byte>)
    requires |h| == 32
    ensures Plain(Dashed(h)) == h
    ensures AllHex(h) ==> Matches(Dashed(h))
  {
    var g := Dashed(h);
    assert g[0..8] == h[0..8] && g[9..13] == h[8..12] && g[14..18] == h[12..16];
    assert g[19..23] == h[16..20] && g[24..36] == h[20..32];
  }

  lemma DashedPlain(g: seq<byte>)
    requires |g| == 36 && g[8] == DASH && g[13] == DASH && g[18] == DASH && g[23] == DASH
    ensures Dashed(Plain(g)) == g
  {
    var h := Plain(g);
    assert h[0..8] == g[0..8] && h[8..12] == g[9..13] && h[12..16] == g[14..18];
    assert h[16..20] == g[19..23] && h[20..32] == g[24..36];
  }

  // ----- the byte order -----

  /** The first three fields are stored with their bytes reversed. */
  function Mixed(b: seq<byte>): (m: seq<byte>)
    requires |b| == 16
    ensures |m| == 16
  {
    [b[3], b[2], b[1], b[0], b[5], b[4], b[7], b[6]] + b[8..]
  }

  lemma MixedTwice(b: seq<byte>)
    requires |b| == 16
    ensures Mixed(Mixed(b)) == b
  {
  }

  /** What the bytes of a GUID text are, without the loop. */
  function BytesOf(g: seq<byte>): (b: seq<byte>)
    ensures |b| == 16
  {
    if Matches(g) then PlainIsHex(g); Mixed(Unhex(Plain(g))) else seq(16, _ => 0)
  }

  lemma {:induction false} UnhexConcat(a: seq<byte>, b: seq<byte>)
    requires AllHex(a) && AllHex(b) && |a| % 2 == 0 && |b| % 2 == 0
    ensures AllHex(a + b) && Unhex(a + b) == Unhex(a) + Unhex(b)
  {
    if |a| == 0 {
      assert a + b == b;
    } else {
      assert (a + b)[2..] == a[2..] + b;
      UnhexConcat(a[2..], b);
    }
  }

  /** `GUID.Bytes`: each group is decoded and appended, the first three with their bytes reversed. */
  method GuidBytes(g: seq<byte>) returns (guid: seq<byte>)
    ensures guid == BytesOf(g)
  {
    if !Matches(g) {
      return seq(16, _ => 0);
    }
    var m := Groups(g);
    guid := [];
    for i := 0 to 5
      invariant guid == Appended(m, i)
    {
      var buf := Unhex(m[i]);
      if i == 0 {
        guid := guid + [buf[3]];
        guid := guid + [buf[2]];
        guid := guid + [buf[1]];
        guid := guid + [buf[0]];
      } else if i == 1 || i == 2 {
        guid := guid + [buf[1]];
        guid := guid + [buf[0]];
      } else {
        guid := guid + buf;
      }
    }
    AppendedAll(g);
  }

  /** What has been appended after `n` groups. */
  function Appended(m: seq<seq<byte>>, n: nat): seq<byte>
    requires n <= 5 && |m| == 5
    requires forall i :: 0 <= i < 5 ==> AllHex(m[i])
    requires |m[0]| == 8 && |m[1]| == 4 && |m[2]| == 4 && |m[3]| == 4 && |m[4]| == 12
  {
    if n == 0 then []
    else
      var buf := Unhex(m[n - 1]);
      Appended(m, n - 1)
      + (if n == 1 then [buf[3], buf[2], buf[1], buf[0]] else if n <= 3 then [buf[1], buf[0]] else buf)
  }

  lemma AppendedAll(g: seq<byte>)
    requires Matches(g)
    ensures Appended(Groups(g), 5) == BytesOf(g)
  {
    var m := Groups(g);
    PlainIsHex(g);
    UnhexConcat(m[0], m[1]);
    UnhexConcat(m[0] + m[1], m[2]);
    UnhexConcat(m[0] + m[1] + m[2], m[3]);
    UnhexConcat(m[0] + m[1] + m[2] + m[3], m[4]);
    assert Plain(g) == m[0] + m[1] + m[2] + m[3] + m[4];
    assert Appended(m, 2) == Appended(m, 1) + [Unhex(m[1])[1], Unhex(m[1])[0]];
    assert Appended(m, 4) == Appended(m, 3) + Unhex(m[3]);
  }

  // ----- the printer -----

  /** `%0nx`: `width` hexadecimal digits of `n`, most significant first. */
  function PaddedHex(n: nat, width: nat): (s: seq<byte>)
    ensures |s| == width
  {
    if width == 0 then [] else PaddedHex(n / 16, width - 1) + [HexDigit(n % 16)]
  }

  function Reversed(s: seq<byte>): (r: seq<byte>)
    ensures |r| == |s|
  {
    if |s| == 0 then [] else Reversed(s[1..]) + [s[0]]
  }

  lemma {:induction false} HexConcat(a: seq<byte>, b: seq<byte>)
    ensures Hex(a + b) == Hex(a) + Hex(b)
  {
    if |a| == 0 {
      assert a + b == b;
    } else {
      assert (a + b)[1..] == a[1..] + b;
      HexConcat(a[1..], b);
    }
  }

  /** Printing the little-endian value prints the bytes in reverse. */
  lemma {:induction false} PaddedIsReversed(s: seq<byte>)
    ensures PaddedHex(FromLe(s), 2 * |s|) == Hex(Reversed(s))
  {
    if |s| > 0 {
      var v := FromLe(s);
      PaddedIsReversed(s[1..]);
      HexConcat(Reversed(s[1..]), [s[0]]);
      assert v / 16 / 16 == FromLe(s[1..]) && v % 16 == s[0] % 16 && v / 16 % 16 == s[0] / 16;
      assert [s[0]][1..] == [];
      assert Hex([s[0]]) == [HexDigit(s[0] / 16), HexDigit(s[0] % 16)];
      assert PaddedHex(v, 2 * |s|) == PaddedHex(v / 16 / 16, 2 * |s| - 2) + [HexDigit(v / 16 % 16)] + [HexDigit(v % 16)];
    }
  }

  /** `ConfigurationTable.RegistryFormat`. */
  function RegistryFormat(b: seq<byte>): (g: seq<byte>)
    requires |b| == 16
  {
    PaddedHex(FromLe(b[0..4]), 8) + [DASH] + PaddedHex(FromLe(b[4..6]), 4) + [DASH]
    + PaddedHex(FromLe(b[6..8]), 4) + [DASH] + Hex(b[8..10]) + [DASH] + Hex(b[10..])
  }

  lemma FormatIsDashed(b: seq<byte>)
    requires |b| == 16
    ensures RegistryFormat(b) == Dashed(Hex(Mixed(b)))
  {
    PaddedIsReversed(b[0..4]);
    PaddedIsReversed(b[4..6]);
    PaddedIsReversed(b[6..8]);
    Reversals(b);
    var p, q, r, s, t := [b[3], b[2], b[1], b[0]], [b[5], b[4]], [b[7], b[6]], b[8..10], b[10..];
    assert Mixed(b) == p + q + r + s + t;
    HexOfFive(p, q, r, s, t);
    DashedFive(Hex(p), Hex(q), Hex(r), Hex(s), Hex(t));
  }

  lemma HexOfFive(p: seq<byte>, q: seq<byte>, r: seq<byte>, s: seq<byte>, t: seq<byte>)
    ensures Hex(p + q + r + s + t) == Hex(p) + Hex(q) + Hex(r) + Hex(s) + Hex(t)
  {
    HexConcat(p, q);
    HexConcat(p + q, r);
    HexConcat(p + q + r, s);
    HexConcat(p + q + r + s, t);
  }

  lemma DashedFive(p: seq<byte>, q: seq<byte>, r: seq<byte>, s: seq<byte>, t: seq<byte>)
    requires |p| == 8 && |q| == 4 && |r| == 4 && |s| == 4 && |t| == 12
    ensures Dashed(p + q + r + s + t) == p + [DASH] + q + [DASH] + r + [DASH] + s + [DASH] + t
  {
    var h := p + q + r + s + t;
    assert h[0..8] == p && h[8..12] == q && h[12..16] == r && h[16..20] == s && h[20..32] == t;
  }

  lemma Reversals(b: seq<byte>)
    requires |b| == 16
    ensures Reversed(b[0..4]) == [b[3], b[2], b[1], b[0]]
    ensures Reversed(b[4..6]) == [b[5], b[4]] && Reversed(b[6..8]) == [b[7], b[6]]
  {
    ReversedAt(b[0..4]);
    ReversedAt(b[4..6]);
    ReversedAt(b[6..8]);
  }

  lemma {:induction false} ReversedAt(s: seq<byte>)
    ensures forall i :: 0 <= i < |s| ==> Reversed(s)[i] == s[|s| - 1 - i]
  {
    if |s| > 0 {
      ReversedAt(s[1..]);
    }
  }

  // ----- inverse of each other -----

  /** Printing and reading gives the bytes back, for all 2^128 of them. */
  lemma BytesOfFormat(b: seq<byte>)
    requires |b| == 16
    ensures Matches(RegistryFormat(b)) && BytesOf(RegistryFormat(b)) == b
    ensures var text := Chars(RegistryFormat(b));
            |text| == 36 && text[8] == '-' && text[13] == '-' && text[18] == '-' && text[23] == '-'
  {
    FormatIsDashed(b);
    UnhexHex(Mixed(b));
    PlainDashed(Hex(Mixed(b)));
    MixedTwice(b);
  }

  /** Reading and printing gives the text back in lower case, exactly for the texts that match. */
  lemma FormatOfBytes(g: seq<byte>)
    ensures RegistryFormat(BytesOf(g)) == Lower(g) <==> Matches(g)
  {
    if Matches(g) {
      FormatOfMatching(g);
    } else {
      BytesOfFormat(seq(16, _ => 0));
      if RegistryFormat(BytesOf(g)) == Lower(g) {
        LowerMatches(g);
      }
    }
  }

  lemma FormatOfMatching(g: seq<byte>)
    requires Matches(g)
    ensures RegistryFormat(BytesOf(g)) == Lower(g)
  {
    PlainIsHex(g);
    var h := Plain(g);
    FormatIsDashed(BytesOf(g));
    MixedTwice(Unhex(h));
    HexUnhex(h);
    DashedPlain(g);
    LowerDashed(h);
  }

  lemma LowerConcat(a: seq<byte>, b: seq<byte>)
    ensures Lower(a + b) == Lower(a) + Lower(b)
  {
  }

  lemma LowerSlice(h: seq<byte>, i: nat, j: nat)
    requires i <= j <= |h|
    ensures Lower(h)[i..j] == Lower(h[i..j])
  {
  }

  lemma LowerDashed(h: seq<byte>)
    requires |h| == 32
    ensures Dashed(Lower(h)) == Lower(Dashed(h))
  {
    var p, q, r, s, t := h[0..8], h[8..12], h[12..16], h[16..20], h[20..32];
    LowerSlice(h, 0, 8);
    LowerSlice(h, 8, 12);
    LowerSlice(h, 12, 16);
    LowerSlice(h, 16, 20);
    LowerSlice(h, 20, 32);
    assert Lower([DASH]) == [DASH];
    LowerConcat(p, [DASH]);
    LowerConcat(p + [DASH], q);
    LowerConcat(p + [DASH] + q, [DASH]);
    LowerConcat(p + [DASH] + q + [DASH], r);
    LowerConcat(p + [DASH] + q + [DASH] + r, [DASH]);
    LowerConcat(p + [DASH] + q + [DASH] + r + [DASH], s);
    LowerConcat(p + [DASH] + q + [DASH] + r + [DASH] + s, [DASH]);
    LowerConcat(p + [DASH] + q + [DASH] + r + [DASH] + s + [DASH], t);
  }

  /** Lower case does not change what matches. */
  lemma LowerMatches(g: seq<byte>)
    requires Matches(Lower(g))
    ensures Matches(g)
  {
    var l := Lower(g);
    LowerHex(g, 0, 8);
    LowerHex(g, 9, 13);
    LowerHex(g, 14, 18);
    LowerHex(g, 19, 23);
    LowerHex(g, 24, 36);
    assert l[8] == LowerDigit(g[8]) && l[13] == LowerDigit(g[13]) && l[18] == LowerDigit(g[18]) && l[23] == LowerDigit(g[23]);
  }

  lemma LowerHex(g: seq<byte>, i: nat, j: nat)
    requires i <= j <= |g| && AllHex(Lower(g)[i..j])
    ensures AllHex(g[i..j])
  {
    forall k | 0 <= k < j - i ensures IsHex(g[i..j][k]) {
      assert IsHex(Lower(g)[i..j][k]);
      assert Lower(g)[i..j][k] == LowerDigit(g[i + k]);
    }
  }
}
