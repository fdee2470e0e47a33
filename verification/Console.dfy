/** `Console.Write`: from text to the UTF-16 buffer handed to the firmware's `OutputString`. */
module Console {
  import opened Bytes
  import opened Unicode
  import Text

  const BS: uint16 := 0x08
  const TAB: uint16 := 0x09
  const CR: uint16 := 0x0d
  const SPACE: uint16 := 0x20

  /** The cursor-back sequence: ESC [ D, a space, ESC [ D. */
  const CUB: seq<scalar> := [0x1b, 0x5b, 0x44, 0x20, 0x1b, 0x5b, 0x44]

  function Spaces(n: nat): (s: seq<uint16>)
    ensures |s| == n
  {
    if n == 0 then [] else Spaces(n - 1) + [SPACE]
  }

  /** What one unit becomes. */
  function Unit(u: uint16, forceLine: bool, replaceTabs: int): (s: seq<uint16>)
    ensures |s| > 0
  {
    if u == TAB && replaceTabs > 0 then Spaces(replaceTabs)
    else if u == Text.LF && forceLine then [Text.LF, CR]
    else [u]
  }

  function Transform(us: seq<uint16>, forceLine: bool, replaceTabs: int): (s: seq<uint16>)
    ensures |s| >= |us|
  {
    if |us| == 0 then []
    else Transform(us[..|us| - 1], forceLine, replaceTabs) + Unit(us[|us| - 1], forceLine, replaceTabs)
  }

  /** The units that are output for the text: the cursor-back sequence is one backspace. */
  function UnitsOf(p: seq<scalar>): (us: seq<uint16>)
    ensures |us| >= |p| || |us| == 2
  {
    if p == CUB then [BS, 0] else Encode(p)
  }

  /** The check of `Output`: a zero byte is appended unless the last byte is one already. */
  function Closed(s: seq<byte>): (t: seq<byte>)
    ensures |s| > 0 ==> s <= t && |t| == (if s[|s| - 1] == 0 then |s| else |s| + 1) && t[|t| - 1] == 0
  {
    if |s| > 0 && s[|s| - 1] != 0 then s + [0] else s
  }

  lemma UnitBytesConcat(a: seq<uint16>, b: seq<uint16>)
    ensures UnitBytes(a + b) == UnitBytes(a) + UnitBytes(b)
  {
    if |b| == 0 {
      assert a + b == a;
    } else {
      assert (a + b)[..|a + b| - 1] == a + b[..|b| - 1];
      UnitBytesConcat(a, b[..|b| - 1]);
    }
  }

  class Console {
    const forceLine: bool
    const replaceTabs: int
    const out: uint64
    /** The buffers passed to the firmware, in order. */
    var sent: seq<seq<byte>>

    constructor (forceLine: bool, replaceTabs: int, out: uint64)
      ensures this.forceLine == forceLine && this.replaceTabs == replaceTabs && this.out == out && sent == []
    {
      this.forceLine, this.replaceTabs, this.out, sent := forceLine, replaceTabs, out, [];
    }

    method Output(p: seq<byte>)
      requires |p| > 0
      modifies this
      ensures sent == if out == 0 then old(sent) else old(sent) + [Closed(p)]
    {
      var q := p;
      if q[|q| - 1] != 0 {
        q := q + [0];
      }
      if out == 0 {
        return;
      }
      sent := sent + [q];
    }

    method Write(p: seq<scalar>)
      modifies this
      ensures sent == if |p| == 0 || out == 0 then old(sent)
                      else old(sent) + [Closed(UnitBytes(Transform(UnitsOf(p), forceLine, replaceTabs)))]
    {
      if |p| == 0 {
        return;
      }
      var text := p;
      if p == CUB {
        text := [0x08, 0x00];
        BackspaceUnits();
      }
      var b := Encode(text);
      assert b == UnitsOf(p);
      var s := Convert(b);
      Output(s);
    }

    /** The loop over the units. */
    method Convert(b: seq<uint16>) returns (s: seq<byte>)
      ensures s == UnitBytes(Transform(b, forceLine, replaceTabs))
    {
      s := [];
      for k := 0 to |b|
        invariant s == UnitBytes(Transform(b[..k], forceLine, replaceTabs))
      {
        s := AppendUnit(s, b[k]);
        TransformSnoc(b, k, forceLine, replaceTabs);
      }
      assert b[..|b|] == b;
    }

    /** The body of the loop over the units. */
    method AppendUnit(s: seq<byte>, r: uint16) returns (t: seq<byte>)
      ensures t == s + UnitBytes(Unit(r, forceLine, replaceTabs))
    {
      if r == TAB && replaceTabs > 0 {
        t := AppendSpaces(s, replaceTabs);
        return;
      }
      OneUnit(r);
      TwoUnits(Text.LF, CR);
      t := s + [r % 0x100];
      t := t + [r / 0x100];
      if r == Text.LF && forceLine {
        t := t + [CR, 0x00];
      }
    }
  }

  lemma TransformSnoc(us: seq<uint16>, k: nat, forceLine: bool, replaceTabs: int)
    requires k < |us|
    ensures UnitBytes(Transform(us[..k + 1], forceLine, replaceTabs))
         == UnitBytes(Transform(us[..k], forceLine, replaceTabs)) + UnitBytes(Unit(us[k], forceLine, replaceTabs))
  {
    assert us[..k + 1][..k] == us[..k];
    UnitBytesConcat(Transform(us[..k], forceLine, replaceTabs), Unit(us[k], forceLine, replaceTabs));
  }

  lemma BackspaceUnits()
    ensures Encode([0x08, 0x00]) == [BS, 0]
  {
    assert [0x08, 0x00][1..] == [0x00];
    assert [0x00][1..] == [];
    assert Encode([0x00]) == EncodeRune(0x00) + Encode([0x00][1..]);
  }

  lemma OneUnit(u: uint16)
    ensures UnitBytes([u]) == [u % 0x100, u / 0x100]
  {
    assert [u][..0] == [];
  }

  lemma TwoUnits(u: uint16, v: uint16)
    ensures UnitBytes([u, v]) == [u % 0x100, u / 0x100, v % 0x100, v / 0x100]
  {
    assert [u, v][..1] == [u];
    OneUnit(u);
  }

  lemma SpacesSnoc(n: nat)
    ensures UnitBytes(Spaces(n + 1)) == UnitBytes(Spaces(n)) + [SPACE, 0x00]
  {
    UnitBytesConcat(Spaces(n), [SPACE]);
    OneUnit(SPACE);
  }

  method AppendSpaces(s: seq<byte>, n: int) returns (r: seq<byte>)
    requires n > 0
    ensures r == s + UnitBytes(Spaces(n))
  {
    r := s;
    for i := 0 to n
      invariant r == s + UnitBytes(Spaces(i))
    {
      SpacesSnoc(i);
      ghost var before := UnitBytes(Spaces(i));
      assert r + [SPACE, 0x00] == s + (before + [SPACE, 0x00]);
      r := r + [SPACE, 0x00];
    }
  }

  // ----- what the transform does -----

  /** The transform acts on every unit alone. */
  lemma {:induction false} TransformConcat(a: seq<uint16>, b: seq<uint16>, forceLine: bool, replaceTabs: int)
    ensures Transform(a + b, forceLine, replaceTabs) == Transform(a, forceLine, replaceTabs) + Transform(b, forceLine, replaceTabs)
  {
    if |b| == 0 {
      assert a + b == a;
    } else {
      var n := |b| - 1;
      TransformConcat(a, b[..n], forceLine, replaceTabs);
      LastUnit(a, b, forceLine, replaceTabs);
      Reassociate(Transform(a, forceLine, replaceTabs), Transform(b[..n], forceLine, replaceTabs), Unit(b[n], forceLine, replaceTabs));
    }
  }

  lemma LastUnit(a: seq<uint16>, b: seq<uint16>, forceLine: bool, replaceTabs: int)
    requires |b| > 0
    ensures Transform(a + b, forceLine, replaceTabs)
         == Transform(a + b[..|b| - 1], forceLine, replaceTabs) + Unit(b[|b| - 1], forceLine, replaceTabs)
  {
    assert (a + b)[..|a| + |b| - 1] == a + b[..|b| - 1];
  }

  lemma Reassociate(a: seq<uint16>, b: seq<uint16>, c: seq<uint16>)
    ensures a + b + c == a + (b + c)
  {
  }

  /** A tab becomes spaces, a line feed gets its return, everything else stays, each as the settings say. */
  lemma TransformOne(u: uint16, forceLine: bool, replaceTabs: int)
    ensures Transform([u], forceLine, replaceTabs)
         == if u == 9 && replaceTabs > 0 then seq(replaceTabs, _ => 0x20)
            else if u == 10 && forceLine then [10, 13]
            else [u]
  {
    assert [u][..0] == [] && Transform([], forceLine, replaceTabs) == [];
    if replaceTabs > 0 {
      NoTabsInSpaces(replaceTabs);
      assert Spaces(replaceTabs) == seq(replaceTabs, _ => 0x20);
    }
  }

  /** The cursor-back sequence sends a backspace and a NUL, with any setting. */
  lemma CursorBack(forceLine: bool, replaceTabs: int)
    ensures Closed(UnitBytes(Transform(UnitsOf([0x1b, 0x5b, 0x44, 0x20, 0x1b, 0x5b, 0x44]), forceLine, replaceTabs))) == [8, 0, 0, 0]
  {
    CursorUnits();
    BackspaceKept(forceLine, replaceTabs);
    BackspaceBytes();
  }

  lemma CursorUnits()
    ensures UnitsOf([0x1b, 0x5b, 0x44, 0x20, 0x1b, 0x5b, 0x44]) == [BS, 0]
  {
  }

  lemma BackspaceBytes()
    ensures Closed(UnitBytes([BS, 0])) == [8, 0, 0, 0]
  {
    TwoUnits(BS, 0);
  }

  lemma BackspaceKept(forceLine: bool, replaceTabs: int)
    ensures Transform([BS, 0], forceLine, replaceTabs) == [BS, 0]
  {
    TransformConcat([BS], [0], forceLine, replaceTabs);
    TransformOne(BS, forceLine, replaceTabs);
    TransformOne(0, forceLine, replaceTabs);
    assert [BS] + [0] == [BS, 0];
  }

  lemma {:induction false} NoTabsInSpaces(n: nat)
    ensures forall i :: 0 <= i < n ==> Spaces(n)[i] == SPACE
  {
    if n > 0 {
      NoTabsInSpaces(n - 1);
    }
  }

  /** Tabs are gone, and every line feed that is output has its carriage return. */
  lemma {:induction false} NoTabs(us: seq<uint16>, forceLine: bool, replaceTabs: int)
    requires replaceTabs > 0
    ensures 9 !in Transform(us, forceLine, replaceTabs)
  {
    if |us| > 0 {
      NoTabs(us[..|us| - 1], forceLine, replaceTabs);
      NoTabsInSpaces(replaceTabs);
    }
  }

  predicate LinesClosed(s: seq<uint16>) {
    forall i :: 0 <= i < |s| && s[i] == 10 ==> i + 1 < |s| && s[i + 1] == 13
  }

  lemma {:induction false} LineFeedsGetReturns(us: seq<uint16>, replaceTabs: int)
    ensures LinesClosed(Transform(us, true, replaceTabs))
  {
    if |us| > 0 {
      var n := |us| - 1;
      LineFeedsGetReturns(us[..n], replaceTabs);
      if replaceTabs > 0 {
        NoTabsInSpaces(replaceTabs);
      }
      var a, b := Transform(us[..n], true, replaceTabs), Unit(us[n], true, replaceTabs);
      assert forall i :: 0 <= i < |b| && b[i] == Text.LF ==> i + 1 < |b| && b[i + 1] == CR;
      assert forall i :: 0 <= i < |a| && (a + b)[i] == Text.LF ==> a[i] == Text.LF;
    }
  }

  function CountOf(us: seq<uint16>, u: uint16): nat {
    if |us| == 0 then 0 else CountOf(us[..|us| - 1], u) + if us[|us| - 1] == u then 1 else 0
  }

  /** The number of units output. */
  lemma {:induction false} OutputLength(us: seq<uint16>, forceLine: bool, replaceTabs: int)
    ensures |Transform(us, forceLine, replaceTabs)|
         == |us| + (if replaceTabs > 0 then CountOf(us, 9) * (replaceTabs - 1) else 0) + (if forceLine then CountOf(us, 10) else 0)
  {
    if |us| > 0 {
      OutputLength(us[..|us| - 1], forceLine, replaceTabs);
      if replaceTabs > 0 && us[|us| - 1] == TAB {
        OneMore(CountOf(us[..|us| - 1], TAB), replaceTabs - 1);
      }
    }
  }

  lemma OneMore(n: nat, k: int)
    ensures (n + 1) * k == n * k + k
  {
  }

  /** `s` without the carriage return behind each line feed. */
  function Stripped(s: seq<uint16>): seq<uint16>
    decreases |s|
  {
    if |s| == 0 then []
    else if s[0] == Text.LF && |s| > 1 && s[1] == CR then [Text.LF] + Stripped(s[2..])
    else [s[0]] + Stripped(s[1..])
  }

  /** How many units of `s` the next unit of its stripped form stands for. */
  function Head(s: seq<uint16>): (n: nat)
    requires |s| > 0
    ensures 1 <= n <= |s|
  {
    if s[0] == Text.LF && |s| > 1 && s[1] == CR then 2 else 1
  }

  lemma StrippedStep(s: seq<uint16>)
    requires |s| > 0
    ensures Stripped(s) == [s[0]] + Stripped(s[Head(s)..])
  {
  }

  lemma {:induction false} StrippedConcat(a: seq<uint16>, b: seq<uint16>)
    requires LinesClosed(a)
    ensures Stripped(a + b) == Stripped(a) + Stripped(b)
    decreases |a|
  {
    if |a| == 0 {
      assert a + b == b;
      assert Stripped(a) == [];
    } else {
      var n := Head(a);
      assert Head(a + b) == n && (a + b)[n..] == a[n..] + b;
      ClosedTail(a, n);
      StrippedConcat(a[n..], b);
      StrippedStep(a);
      StrippedStep(a + b);
      assert Stripped(a + b) == [a[0]] + (Stripped(a[n..]) + Stripped(b));
    }
  }

  lemma ClosedTail(a: seq<uint16>, k: nat)
    requires k <= |a| && LinesClosed(a)
    ensures LinesClosed(a[k..])
  {
    forall i | 0 <= i < |a[k..]| && a[k..][i] == Text.LF ensures i + 1 < |a[k..]| && a[k..][i + 1] == CR {
      assert a[i + k] == Text.LF;
    }
  }

  /** Nothing else is changed: without tabs, taking the added returns out again gives the text back. */
  lemma {:induction false} TextRecovered(us: seq<uint16>, replaceTabs: int)
    requires TAB !in us
    ensures Stripped(Transform(us, true, replaceTabs)) == us
  {
    if |us| > 0 {
      var n := |us| - 1;
      TextRecovered(us[..n], replaceTabs);
      LineFeedsGetReturns(us[..n], replaceTabs);
      StrippedConcat(Transform(us[..n], true, replaceTabs), Unit(us[n], true, replaceTabs));
      assert us[n] in us;
      assert Stripped([]) == [];
      assert [Text.LF, CR][2..] == [] && [us[n]][1..] == [];
      assert Stripped(Unit(us[n], true, replaceTabs)) == [us[n]];
      assert us == us[..n] + [us[n]];
    }
  }

  // ----- the terminator -----

  lemma {:induction false} ZeroTransformed(us: seq<uint16>, forceLine: bool, replaceTabs: int)
    ensures 0 in Transform(us, forceLine, replaceTabs) <==> 0 in us
  {
    if |us| > 0 {
      var n := |us| - 1;
      ZeroTransformed(us[..n], forceLine, replaceTabs);
      if replaceTabs > 0 {
        NoTabsInSpaces(replaceTabs);
      }
      assert us == us[..n] + [us[n]];
      assert 0 in us <==> 0 in us[..n] || us[n] == 0;
      assert 0 in Unit(us[n], forceLine, replaceTabs) <==> us[n] == 0;
    }
  }

  /** A byte appended to whole units is not a unit. */
  lemma ClosedUnits(us: seq<uint16>)
    ensures UnitsAt(Closed(UnitBytes(us))) == us
  {
    UnitsStored(us);
    var s, t := UnitBytes(us), Closed(UnitBytes(us));
    forall i | 0 <= i < |us| ensures UnitsAt(t)[i] == UnitsAt(s)[i] {
      assert t[2 * i] == s[2 * i] && t[2 * i + 1] == s[2 * i + 1];
    }
  }

  /**
   * `OutputString` reads up to a NUL unit, while the check of `Output` looks at one byte: the buffer that
   * is sent holds a NUL unit exactly when the text has U+0000 in it or is the cursor-back sequence.
   */
  lemma TerminatedOnlyByText(p: seq<scalar>, forceLine: bool, replaceTabs: int)
    ensures 0 in UnitsAt(Closed(UnitBytes(Transform(UnitsOf(p), forceLine, replaceTabs)))) <==> p == CUB || 0 in p
  {
    ClosedUnits(Transform(UnitsOf(p), forceLine, replaceTabs));
    ZeroTransformed(UnitsOf(p), forceLine, replaceTabs);
    ZeroUnits(p);
    assert [BS, 0][1] == 0;
  }
}
