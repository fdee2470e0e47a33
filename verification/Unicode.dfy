/** UTF-16 as the Go and Zig libraries encode it, and the loops of the repository around it. */
module Unicode {
  import opened Bytes

  /** A Unicode scalar value: what a valid Go rune of a decoded string is. */
  type scalar = x: int | 0 <= x <= 0x10FFFF && !(0xD800 <= x <= 0xDFFF)

  const REPLACEMENT: scalar := 0xFFFD

  /** Section 2.1 of RFC 2781. */
  function EncodeRune(r: scalar): (u: seq<uint16>)
    ensures |u| == if r < 0x1_0000 then 1 else 2
    ensures |u| == 2 ==> 0xD800 <= u[0] < 0xDC00 <= u[1] < 0xE000 && r == 0x1_0000 + 0x400 * (u[0] as int - 0xD800) + (u[1] as int - 0xDC00)
  {
    if r < 0x1_0000 then [r]
    else [0xD800 + (r - 0x1_0000) / 0x400, 0xDC00 + (r - 0x1_0000) % 0x400]
  }

  function Encode(rs: seq<scalar>): (us: seq<uint16>)
    ensures |us| >= |rs|
  {
    if |rs| == 0 then [] else EncodeRune(rs[0]) + Encode(rs[1..])
  }

  /** Section 2.2 of RFC 2781; a surrogate without its partner becomes U+FFFD. */
  function Decode(us: seq<uint16>): (rs: seq<scalar>)
    ensures |rs| <= |us|
  {
    if |us| == 0 then []
    else if !(0xD800 <= us[0] <= 0xDFFF) then [us[0]] + Decode(us[1..])
    else if us[0] < 0xDC00 && |us| > 1 && 0xDC00 <= us[1] <= 0xDFFF then
      [0x1_0000 + (us[0] - 0xD800) * 0x400 + (us[1] - 0xDC00)] + Decode(us[2..])
    else [REPLACEMENT] + Decode(us[1..])
  }

  lemma {:induction false} DecodeEncoded(rs: seq<scalar>)
    ensures Decode(Encode(rs)) == rs
  {
    if |rs| > 0 {
      DecodeEncoded(rs[1..]);
      var e := Encode(rs);
      if rs[0] < 0x1_0000 {
        assert e[1..] == Encode(rs[1..]);
      } else {
        assert e[2..] == Encode(rs[1..]);
        var v := rs[0] as int - 0x1_0000;
        assert v == (v / 0x400) * 0x400 + v % 0x400;
      }
      assert rs == [rs[0]] + rs[1..];
    }
  }

  lemma {:induction false} EncodeConcat(a: seq<scalar>, b: seq<scalar>)
    ensures Encode(a + b) == Encode(a) + Encode(b)
  {
    if |a| == 0 {
      assert a + b == b;
    } else {
      assert (a + b)[1..] == a[1..] + b;
      EncodeConcat(a[1..], b);
    }
  }

  /** A zero unit comes only from the rune U+0000. */
  lemma {:induction false} ZeroUnits(rs: seq<scalar>)
    ensures 0 in Encode(rs) <==> 0 in rs
  {
    if |rs| > 0 {
      ZeroUnits(rs[1..]);
      assert rs == [rs[0]] + rs[1..];
      assert 0 in rs <==> rs[0] == 0 || 0 in rs[1..];
      assert 0 in Encode(rs) <==> 0 in EncodeRune(rs[0]) || 0 in Encode(rs[1..]);
    }
  }

  // ----- little-endian units -----

  function UnitBytes(us: seq<uint16>): (s: seq<byte>)
    ensures |s| == 2 * |us|
  {
    if |us| == 0 then [] else UnitBytes(us[..|us| - 1]) + [us[|us| - 1] % 0x100, us[|us| - 1] / 0x100]
  }

  /** The units stored in `s`, as a reader of the buffer sees them. */
  function UnitsAt(s: seq<byte>): (us: seq<uint16>)
    ensures |us| == |s| / 2
  {
    seq(|s| / 2, i requires 0 <= i < |s| / 2 => s[2 * i] as int + 0x100 * s[2 * i + 1] as int)
  }

  lemma {:induction false} UnitsStored(us: seq<uint16>)
    ensures UnitsAt(UnitBytes(us)) == us
  {
    if |us| > 0 {
      var n := |us| - 1;
      UnitsStored(us[..n]);
      forall i | 0 <= i < |us| ensures UnitsAt(UnitBytes(us))[i] == us[i] {
        if i < n {
          assert UnitsAt(UnitBytes(us))[i] == UnitsAt(UnitBytes(us[..n]))[i];
        }
      }
    }
  }

  /** `toUTF16`: the little-endian units of the name, then a zero unit. */
  method ToUTF16(s: seq<scalar>) returns (buf: seq<byte>)
    ensures buf == UnitBytes(Encode(s) + [0])
  {
    var units := Encode(s);
    buf := [];
    for i := 0 to |units|
      invariant buf == UnitBytes(units[..i])
    {
      buf := buf + [units[i] % 0x100];
      buf := buf + [units[i] / 0x100];
      assert units[..i + 1][..i] == units[..i];
    }
    assert units[..|units|] == units;
    assert (units + [0])[..|units|] == units;
    buf := buf + [0x00, 0x00];
  }

  // ----- NUL-terminated units -----

  /** The units before the first zero unit. */
  function Terminated(us: seq<uint16>): (p: seq<uint16>)
    ensures p <= us && 0 !in p
    ensures 0 in us ==> |p| < |us| && us[|p|] == 0
  {
    if |us| == 0 || us[0] == 0 then [] else [us[0]] + Terminated(us[1..])
  }

  lemma {:induction false} TerminatedAt(a: seq<uint16>, b: seq<uint16>)
    requires 0 !in a
    ensures Terminated(a + [0] + b) == a
  {
    if |a| == 0 {
    } else {
      assert (a + [0] + b)[1..] == a[1..] + [0] + b;
      TerminatedAt(a[1..], b);
    }
  }

  /**
   * `UTF16PtrToString`: a pointer walks the units to the first zero, then the units passed are
   * decoded. `memory` is what follows the pointer; the source reads until a zero is there.
   */
  method UTF16PtrToString(memory: seq<uint16>) returns (s: seq<scalar>)
    requires 0 in memory
    ensures s == Decode(Terminated(memory))
  {
    var pointer := 0;
    var length := 0;
    while memory[pointer] != 0
      invariant 0 <= length == pointer < |memory|
      invariant length <= |Terminated(memory)|
      invariant forall i :: 0 <= i < length ==> memory[i] != 0
      decreases |memory| - pointer
    {
      length := length + 1;
      pointer := pointer + 1;
    }
    assert memory[..length] == Terminated(memory);
    s := Decode(memory[..length]);
  }

  /** Writing a name with `toUTF16` and scanning it back gives the name exactly when it has no NUL. */
  lemma NameRoundTrip(s: seq<scalar>, rest: seq<uint16>)
    ensures Decode(Terminated(UnitsAt(UnitBytes(Encode(s) + [0])) + rest)) == s <==> 0 !in s
  {
    UnitsStored(Encode(s) + [0]);
    ZeroUnits(s);
    if 0 in s {
      var i :| 0 <= i < |s| && s[i] == 0;
      CutAtNul(s, i, rest);
    } else {
      TerminatedAt(Encode(s), rest);
      DecodeEncoded(s);
    }
  }

  lemma CutAtNul(s: seq<scalar>, i: nat, rest: seq<uint16>)
    requires i < |s| && s[i] == 0
    ensures Decode(Terminated(Encode(s) + [0] + rest)) != s
    decreases i
  {
    if j :| 0 <= j < i && s[j] == 0 {
      CutAtNul(s, j, rest);
    } else {
      var a, b := s[..i], s[i + 1..];
      assert s == a + ([0] + b);
      EncodeConcat(a, [0] + b);
      assert ([0] + b)[1..] == b;
      assert EncodeRune(0) == [0];
      assert Encode([0] + b) == EncodeRune(0) + Encode(b);
      assert Encode(s) + [0] + rest == Encode(a) + [0] + (Encode(b) + [0] + rest);
      ZeroUnits(a);
      TerminatedAt(Encode(a), Encode(b) + [0] + rest);
      DecodeEncoded(a);
    }
  }

  /** `StringToUTF16`: one unit a rune, the high bits dropped, then a zero unit. */
  method StringToUTF16(s: seq<scalar>) returns (c16: array<uint16>)
    ensures fresh(c16)
    ensures c16[..] == Truncated(s) + [0]
  {
    var units := new uint16[|s|];
    for i := 0 to |s|
      invariant forall k :: 0 <= k < i ==> units[k] == s[k] as int % 0x1_0000
    {
      units[i] := s[i] as int % 0x1_0000;
    }
    assert units[..] == Truncated(s);
    c16 := new uint16[|s| + 1];
    forall i | 0 <= i < units.Length {
      c16[i] := units[i];
    }
    c16[|s|] := 0;
  }

  function Truncated(s: seq<scalar>): (us: seq<uint16>)
    ensures |us| == |s|
  {
    seq(|s|, i requires 0 <= i < |s| => s[i] as int % 0x1_0000)
  }

  /** The two encoders of the repository agree exactly on strings of the basic plane. */
  lemma {:induction false} EncodersAgree(s: seq<scalar>)
    ensures Truncated(s) == Encode(s) <==> forall i :: 0 <= i < |s| ==> s[i] < 0x1_0000
  {
    EncodedLength(s);
    if forall i :: 0 <= i < |s| ==> s[i] < 0x1_0000 {
      BasicPlane(s);
    }
  }

  lemma {:induction false} EncodedLength(s: seq<scalar>)
    ensures |Encode(s)| == |s| <==> forall i :: 0 <= i < |s| ==> s[i] < 0x1_0000
  {
    if |s| > 0 {
      EncodedLength(s[1..]);
      assert s == [s[0]] + s[1..];
      if i :| 0 <= i < |s| && s[i] >= 0x1_0000 {
        assert i > 0 ==> s[1..][i - 1] == s[i];
      } else {
        assert forall i :: 0 <= i < |s[1..]| ==> s[1..][i] == s[i + 1];
      }
    }
  }

  lemma {:induction false} BasicPlane(s: seq<scalar>)
    requires forall i :: 0 <= i < |s| ==> s[i] < 0x1_0000
    ensures Encode(s) == Truncated(s)
  {
    if |s| > 0 {
      BasicPlane(s[1..]);
      assert Truncated(s) == [s[0]] + Truncated(s[1..]);
    }
  }

  // ----- UTF-8, as far as the stub needs it -----

  predicate Continuation(b: byte) { 0x80 <= b < 0xC0 }

  /** The length of the well-formed UTF-8 sequence at the front of `s` (section 4 of RFC 3629), or 0. */
  function SequenceLength(s: seq<byte>): (n: nat)
    ensures n <= |s| && n <= 4
  {
    if |s| == 0 then 0
    else if s[0] < 0x80 then 1
    else if |s| >= 2 && 0xC2 <= s[0] <= 0xDF && Continuation(s[1]) then 2
    else if |s| >= 3 && 0xE0 <= s[0] <= 0xEF && Continuation(s[1]) && Continuation(s[2])
            && (s[0] == 0xE0 ==> s[1] >= 0xA0) && (s[0] == 0xED ==> s[1] < 0xA0) then 3
    else if |s| >= 4 && 0xF0 <= s[0] <= 0xF4 && Continuation(s[1]) && Continuation(s[2]) && Continuation(s[3])
            && (s[0] == 0xF0 ==> s[1] >= 0x90) && (s[0] == 0xF4 ==> s[1] < 0x90) then 4
    else 0
  }

  /** How many UTF-16 units the UTF-8 text `s` takes; None when it is not well formed. */
  function UnitCount(s: seq<byte>): Option<nat> {
    if |s| == 0 then Some(0)
    else
      var n := SequenceLength(s);
      if n == 0 then None
      else match UnitCount(s[n..])
        case None => None
        case Some(k) => Some(k + if n == 4 then 2 else 1)
  }

  /** One character in UTF-8: section 3 of RFC 3629. */
  function Utf8Rune(r: scalar): (s: seq<byte>)
    ensures 1 <= |s| <= 4
  {
    if r < 0x80 then [r]
    else if r < 0x800 then [0xC0 + r / 0x40, 0x80 + r % 0x40]
    else if r < 0x1_0000 then [0xE0 + r / 0x1000, 0x80 + r / 0x40 % 0x40, 0x80 + r % 0x40]
    else [0xF0 + r / 0x4_0000, 0x80 + r / 0x1000 % 0x40, 0x80 + r / 0x40 % 0x40, 0x80 + r % 0x40]
  }

  function Utf8(rs: seq<scalar>): seq<byte> {
    if |rs| == 0 then [] else Utf8Rune(rs[0]) + Utf8(rs[1..])
  }

  /** The sequence of a character is recognised, whatever follows, and takes four bytes exactly when it takes two units. */
  lemma SequenceOfRune(r: scalar, rest: seq<byte>)
    ensures SequenceLength(Utf8Rune(r) + rest) == |Utf8Rune(r)|
    ensures |Utf8Rune(r)| == 4 <==> |EncodeRune(r)| == 2
  {
    var s := Utf8Rune(r);
    assert forall i :: 0 <= i < |s| ==> (s + rest)[i] == s[i];
  }

  /** Every sequence that is recognised is that of a character. */
  lemma RuneOfSequence(s: seq<byte>) returns (r: scalar)
    requires SequenceLength(s) > 0
    ensures Utf8Rune(r) == s[..SequenceLength(s)]
  {
    var n := SequenceLength(s);
    if n == 1 {
      r := s[0];
    } else if n == 2 {
      r := TwoBytes(s[0], s[1]);
    } else if n == 3 {
      r := ThreeBytes(s[0], s[1], s[2]);
    } else {
      r := FourBytes(s[0], s[1], s[2], s[3]);
    }
  }

  lemma TwoBytes(a: byte, b: byte) returns (r: scalar)
    requires 0xC2 <= a <= 0xDF && Continuation(b)
    ensures Utf8Rune(r) == [a, b]
  {
    r := (a - 0xC0) * 0x40 + (b - 0x80);
  }

  lemma ThreeBytes(a: byte, b: byte, c: byte) returns (r: scalar)
    requires 0xE0 <= a <= 0xEF && Continuation(b) && Continuation(c)
    requires (a == 0xE0 ==> b >= 0xA0) && (a == 0xED ==> b < 0xA0)
    ensures Utf8Rune(r) == [a, b, c]
  {
    var q := 0x40 * (a as int - 0xE0) + (b as int - 0x80);
    SixBits(q, c as int - 0x80);
    SixBits(a as int - 0xE0, b as int - 0x80);
    TwelveBits(a as int - 0xE0, 0x40 * (b as int - 0x80) + (c as int - 0x80));
    r := 0x40 * q + (c as int - 0x80);
  }

  lemma FourBytes(a: byte, b: byte, c: byte, d: byte) returns (r: scalar)
    requires 0xF0 <= a <= 0xF4 && Continuation(b) && Continuation(c) && Continuation(d)
    requires (a == 0xF0 ==> b >= 0x90) && (a == 0xF4 ==> b < 0x90)
    ensures Utf8Rune(r) == [a, b, c, d]
  {
    var p := 0x40 * (a as int - 0xF0) + (b as int - 0x80);
    var q := 0x40 * p + (c as int - 0x80);
    SixBits(a as int - 0xF0, b as int - 0x80);
    SixBits(p, c as int - 0x80);
    SixBits(q, d as int - 0x80);
    TwelveBits(p, 0x40 * (c as int - 0x80) + (d as int - 0x80));
    r := 0x40 * q + (d as int - 0x80);
    EighteenBits(a as int - 0xF0, r as int - 0x4_0000 * (a as int - 0xF0));
  }

  lemma SixBits(q: nat, d: nat)
    requires d < 0x40
    ensures (0x40 * q + d) / 0x40 == q && (0x40 * q + d) % 0x40 == d
  {
  }

  lemma TwelveBits(q: nat, d: nat)
    requires d < 0x1000
    ensures (0x1000 * q + d) / 0x1000 == q
  {
  }

  lemma EighteenBits(q: nat, d: nat)
    requires d < 0x4_0000
    ensures (0x4_0000 * q + d) / 0x4_0000 == q
  {
  }

  /** The count is that of the UTF-16 encoding of the text. */
  lemma {:induction false} UnitsOfUtf8(rs: seq<scalar>)
    ensures UnitCount(Utf8(rs)) == Some(|Encode(rs)|)
  {
    if |rs| > 0 {
      var rest := Utf8(rs[1..]);
      SequenceOfRune(rs[0], rest);
      assert Utf8(rs)[|Utf8Rune(rs[0])|..] == rest;
      UnitsOfUtf8(rs[1..]);
    }
  }

  /** Bytes that are counted are the UTF-8 of some text. */
  lemma {:induction false} Utf8Text(s: seq<byte>) returns (rs: seq<scalar>)
    requires UnitCount(s).Some?
    ensures Utf8(rs) == s
  {
    if |s| == 0 {
      rs := [];
    } else {
      var n := SequenceLength(s);
      var r := RuneOfSequence(s);
      var rest := Utf8Text(s[n..]);
      rs := [r] + rest;
      assert rs[1..] == rest;
      assert s == s[..n] + s[n..];
    }
  }

  /** The text is well formed and takes at most `limit` units. */
  ghost predicate FitsUnits(s: seq<byte>, limit: nat) {
    exists rs :: Utf8(rs) == s && |Encode(rs)| <= limit
  }

  /** Counting units decides exactly whether bytes are the UTF-8 of a text, and of one that fits. */
  lemma UnitCountExact(s: seq<byte>, limit: nat)
    ensures UnitCount(s).Some? <==> exists rs :: Utf8(rs) == s
    ensures UnitCount(s).Some? && UnitCount(s).value <= limit <==> FitsUnits(s, limit)
  {
    if UnitCount(s).Some? {
      var rs := Utf8Text(s);
      UnitsOfUtf8(rs);
    }
    forall rs | Utf8(rs) == s ensures UnitCount(s) == Some(|Encode(rs)|) {
      UnitsOfUtf8(rs);
    }
  }
}
