/** Decimal and hexadecimal text, and text split into lines. */
module Text {
  import opened Bytes

  const NUL: byte := 0
  const LF: byte := 10
  const PLUS: byte := 43
  const MINUS: byte := 45
  const UNDERSCORE: byte := 95
  const ZERO: byte := 48

  /** The bytes as characters. */
  function Chars(s: seq<byte>): (t: string)
    ensures |t| == |s|
  {
    seq(|s|, i requires 0 <= i < |s| => s[i] as char)
  }

  lemma CharsConcat(a: seq<byte>, b: seq<byte>)
    ensures Chars(a + b) == Chars(a) + Chars(b)
  {
  }

  // ----- decimal -----

  /** What `wc -c` prints for a count. */
  function Decimal(n: nat): (s: seq<byte>)
    ensures |s| > 0
    ensures forall i :: 0 <= i < |s| ==> ZERO <= s[i] < ZERO + 10
  {
    if n < 10 then [ZERO + n] else Decimal(n / 10) + [ZERO + n % 10]
  }

  /** The digits of `s` read after the value `acc`; underscores are skipped. */
  function Digits(s: seq<byte>, acc: nat): Option<nat> {
    if |s| == 0 then Some(acc)
    else if s[0] == UNDERSCORE then Digits(s[1..], acc)
    else if ZERO <= s[0] < ZERO + 10 then Digits(s[1..], 10 * acc + (s[0] - ZERO))
    else None
  }

  function ParseMagnitude(s: seq<byte>, sign: int, low: int, high: int): Option<int> {
    if |s| == 0 || s[0] == UNDERSCORE || s[|s| - 1] == UNDERSCORE then None
    else match Digits(s, 0)
      case None => None
      case Some(v) => if low <= sign * v <= high then Some(sign * v) else None
  }

  /** Zig's `std.fmt.parseInt` in base 10 for an integer type holding `low..high`. */
  function ParseInt(s: seq<byte>, low: int, high: int): (r: Option<int>)
    ensures r.Some? ==> low <= r.value <= high
  {
    if |s| == 0 then None
    else if s[0] == PLUS then ParseMagnitude(s[1..], 1, low, high)
    else if s[0] == MINUS then ParseMagnitude(s[1..], -1, low, high)
    else ParseMagnitude(s, 1, low, high)
  }

  lemma {:induction false} DigitsSnoc(s: seq<byte>, d: byte, acc: nat)
    requires forall i :: 0 <= i < |s| ==> ZERO <= s[i] < ZERO + 10
    requires ZERO <= d < ZERO + 10
    ensures Digits(s, acc).Some?
    ensures Digits(s + [d], acc) == Some(10 * Digits(s, acc).value + (d - ZERO))
  {
    if |s| == 0 {
      assert s + [d] == [d];
      assert Digits([], 10 * acc + (d - ZERO)) == Some(10 * acc + (d - ZERO));
    } else {
      assert (s + [d])[1..] == s[1..] + [d];
      DigitsSnoc(s[1..], d, 10 * acc + (s[0] - ZERO));
    }
  }

  lemma {:induction false} DigitsOfDecimal(n: nat)
    ensures Digits(Decimal(n), 0) == Some(n)
  {
    if n < 10 {
      assert Decimal(n)[1..] == [];
    } else {
      DigitsOfDecimal(n / 10);
      DigitsSnoc(Decimal(n / 10), ZERO + n % 10, 0);
    }
  }

  /** A printed count is read back exactly when the integer type can hold it. */
  lemma ParsePrinted(n: nat, low: int, high: int)
    requires low <= 0
    ensures ParseInt(Decimal(n), low, high) == if n <= high then Some(n) else None
  {
    DigitsOfDecimal(n);
  }

  /** The digits of a count are its remainders by ten, in positional notation. */
  lemma DecimalInChars(n: nat)
    ensures Chars(Decimal(n)) == (if n < 10 then "" else Chars(Decimal(n / 10))) + ["0123456789"[n % 10]]
  {
    DigitChar(n % 10);
    assert Chars([ZERO + n % 10]) == [(ZERO + n % 10) as char];
    if n >= 10 {
      CharsConcat(Decimal(n / 10), [ZERO + n % 10]);
    }
  }

  lemma DigitChar(d: nat)
    requires d < 10
    ensures (ZERO + d) as char == "0123456789"[d]
  {
  }

  /** A sign in front of a count, and underscores: what `parseInt` makes of them. */
  lemma ParseSigned(n: nat, low: int, high: int)
    requires low <= 0 <= high
    ensures ParseInt([43] + Decimal(n), low, high) == if n <= high then Some(n) else None
    ensures ParseInt([45] + Decimal(n), low, high) == if low <= -(n as int) then Some(-(n as int)) else None
    ensures ParseInt([95] + Decimal(n), low, high) == None == ParseInt(Decimal(n) + [95], low, high)
  {
    DigitsOfDecimal(n);
    assert ([43] + Decimal(n))[1..] == Decimal(n) && ([45] + Decimal(n))[1..] == Decimal(n);
  }

  // ----- hexadecimal -----

  function HexDigit(n: nat): byte
    requires n < 16
  {
    if n < 10 then ZERO + n else 97 + (n - 10)
  }

  /** Lower-case hexadecimal, two digits a byte, in order. */
  function Hex(s: seq<byte>): (h: seq<byte>)
    ensures |h| == 2 * |s|
    ensures forall i :: 0 <= i < |h| ==> h[i] != LF && h[i] != NUL
  {
    if |s| == 0 then [] else [HexDigit(s[0] / 16), HexDigit(s[0] % 16)] + Hex(s[1..])
  }

  /** A byte is printed as its two hexadecimal digits in lower case, the high one first. */
  lemma HexInChars(b: byte)
    ensures Chars(Hex([b])) == ["0123456789abcdef"[b / 16], "0123456789abcdef"[b % 16]]
  {
    HexDigitChar(b / 16);
    HexDigitChar(b % 16);
    assert [b][1..] == [] && Hex([]) == [];
    assert Hex([b]) == [HexDigit(b / 16), HexDigit(b % 16)];
  }

  lemma HexDigitChar(n: nat)
    requires n < 16
    ensures HexDigit(n) as char == "0123456789abcdef"[n]
  {
  }

  /** Equal hexadecimal text means equal bytes, so comparing text compares digests. */
  lemma {:induction false} HexInjective(a: seq<byte>, b: seq<byte>)
    requires Hex(a) == Hex(b)
    ensures a == b
  {
    assert |a| == |b|;
    if |a| > 0 {
      assert Hex(a)[0] == Hex(b)[0] && Hex(a)[1] == Hex(b)[1];
      assert Hex(a)[2..] == Hex(a[1..]) && Hex(b)[2..] == Hex(b[1..]);
      HexInjective(a[1..], b[1..]);
      assert a == [a[0]] + a[1..] && b == [b[0]] + b[1..];
    }
  }

  // ----- lines and C strings -----

  predicate Free(s: seq<byte>, c: byte) {
    forall i :: 0 <= i < |s| ==> s[i] != c
  }

  /** `s` up to, and without, its first `c`. */
  function Until(s: seq<byte>, c: byte): (p: seq<byte>)
    ensures p <= s && Free(p, c)
    ensures |p| == |s| || s[|p|] == c
  {
    if |s| == 0 || s[0] == c then [] else [s[0]] + Until(s[1..], c)
  }

  /** The pieces between line feeds: one more than there are line feeds. */
  function Lines(s: seq<byte>): (ls: seq<seq<byte>>)
    ensures |ls| > 0
    decreases |s|
  {
    var p := Until(s, LF);
    if |p| == |s| then [p] else [p] + Lines(s[|p| + 1..])
  }

  lemma {:induction false} UntilStop(a: seq<byte>, c: byte, b: seq<byte>)
    requires Free(a, c)
    ensures Until(a + [c] + b, c) == a
  {
    if |a| > 0 {
      assert (a + [c] + b)[1..] == a[1..] + [c] + b;
      UntilStop(a[1..], c, b);
    }
  }

  lemma {:induction false} UntilFree(a: seq<byte>, c: byte, b: seq<byte>)
    requires Free(a, c)
    ensures Until(a + b, c) == a + Until(b, c)
  {
    if |a| == 0 {
      assert a + b == b;
    } else {
      assert (a + b)[1..] == a[1..] + b;
      UntilFree(a[1..], c, b);
    }
  }

  /** The lines of `ls`, each followed by a line feed. */
  function Joined(ls: seq<seq<byte>>): seq<byte> {
    if |ls| == 0 then [] else ls[0] + [LF] + Joined(ls[1..])
  }

  lemma {:induction false} JoinedSnoc(ls: seq<seq<byte>>, l: seq<byte>)
    ensures Joined(ls + [l]) == Joined(ls) + (l + [LF])
  {
    if |ls| == 0 {
      assert (ls + [l])[1..] == [];
      assert Joined([]) == [];
    } else {
      assert (ls + [l])[1..] == ls[1..] + [l];
      JoinedSnoc(ls[1..], l);
      assert ls[0] + [LF] + (Joined(ls[1..]) + (l + [LF])) == (ls[0] + [LF] + Joined(ls[1..])) + (l + [LF]);
    }
  }

  lemma {:induction false} JoinedFree(ls: seq<seq<byte>>, c: byte)
    requires c != LF
    requires forall i :: 0 <= i < |ls| ==> Free(ls[i], c)
    ensures Free(Joined(ls), c)
  {
    if |ls| > 0 {
      assert Free(ls[0], c);
      JoinedFree(ls[1..], c);
    }
  }

  lemma FirstLine(a: seq<byte>, b: seq<byte>)
    requires Free(a, LF)
    ensures Lines(a + [LF] + b) == [a] + Lines(b)
  {
    UntilStop(a, LF, b);
    assert (a + [LF] + b)[|a| + 1..] == b;
  }

  /** Splitting undoes joining. */
  lemma {:induction false} LinesOfJoined(ls: seq<seq<byte>>, tail: seq<byte>)
    requires forall i :: 0 <= i < |ls| ==> Free(ls[i], LF)
    ensures Lines(Joined(ls) + tail) == ls + Lines(tail)
  {
    if |ls| == 0 {
      assert Joined(ls) + tail == tail;
    } else {
      LinesOfJoined(ls[1..], tail);
      assert Joined(ls) + tail == ls[0] + [LF] + (Joined(ls[1..]) + tail);
      assert Free(ls[0], LF);
      FirstLine(ls[0], Joined(ls[1..]) + tail);
      assert [ls[0]] + (ls[1..] + Lines(tail)) == ls + Lines(tail);
    }
  }
}
