/**
 * `callFn`: from Go's argument slice to the UEFI calling convention, one instruction at a time
 * (section 2.3.4.2 of the UEFI specification, version 2.10).
 */
module CallFn {
  import opened Bytes

  /** Memory as the 8-byte word at each address the code touches. */
  type Words = int -> uint64

  /** What the service finds when it is called. */
  datatype Frame = Frame(target: uint64, cx: uint64, dx: uint64, r8: uint64, r9: uint64, sp: int, mem: Words)

  /**
   * What the service does. It may change the volatile registers and all memory below the caller's frame,
   * including the shadow space and the argument slots, which belong to the callee.
   */
  datatype Callee = Callee(ax: uint64, cx: uint64, dx: uint64, r8: uint64, r9: uint64, scribble: Words)

  const SHADOW: nat := 32

  /** SP after rounding down, as `ANDQ $~15, SP` leaves it. */
  function Aligned(sp: int): int { sp - sp % 16 }

  /** How many arguments go on the stack. */
  function StackArgs(n: nat): nat { if n > 4 then n - 4 else 0 }

  /** The padding: one word, and only when there is exactly one stack argument. */
  function Padding(n: nat): nat { if n == 5 then 8 else 0 }

  /** SP at the CALL instruction. */
  function CallSp(sp: int, n: nat): int {
    Aligned(sp) - Padding(n) - 8 * StackArgs(n) - SHADOW
  }

  /** The stack pointer is aligned at the call, as the convention demands, except for 7, 9, 11, ... arguments. */
  lemma AlignedAtCall(sp: int, n: nat)
    ensures CallSp(sp, n) % 16 == if n % 2 == 1 && n >= 7 then 8 else 0
  {
    assert Aligned(sp) == 16 * (sp / 16);
    if n > 4 {
      var k := n - 4;
      assert k == 2 * (k / 2) + k % 2;
      var m := sp / 16 - k / 2 - 2;
      assert CallSp(sp, n) == 16 * m - 8 * (k % 2) - Padding(n);
    } else {
      assert CallSp(sp, n) == 16 * (sp / 16 - 2);
    }
  }

  /** Word `a` lies outside the stack words from `low` up to `high`. */
  predicate Outside(a: int, low: int, high: int) {
    a >= high || a + 8 <= low
  }

  /** The lowest word `callFn` itself may write: the return address of the call. */
  function Lowest(sp: int, n: nat): int { CallSp(sp, n) - 8 }

  /** The address of word `i` of an array of words. */
  function Slot(base: int, i: int): int { base + 8 * i }

  /** One more word below `top` keeps the array and the words already pushed. */
  lemma Pushed(before: Words, after: Words, args: int, argv: seq<uint64>, top: int, low: int, high: int, from: nat)
    requires from < |argv|
    requires low <= top - 8 < high
    requires forall a :: after(a) == if a == top - 8 then argv[from] else before(a)
    requires forall i :: 0 <= i < |argv| ==> Outside(Slot(args, i), low, high) && before(Slot(args, i)) == argv[i]
    requires forall i :: from + 1 <= i < |argv| ==> before(Slot(top, i - (from + 1))) == argv[i]
    ensures forall i :: 0 <= i < |argv| ==> Outside(Slot(args, i), low, high) && after(Slot(args, i)) == argv[i]
    ensures forall i :: from <= i < |argv| ==> after(Slot(top - 8, i - from)) == argv[i]
    ensures forall a :: Outside(a, low, high) ==> after(a) == before(a)
  {
    assert !Outside(top - 8, low, high);
    forall i | from <= i < |argv| ensures after(Slot(top - 8, i - from)) == argv[i] {
      if i > from {
        assert Slot(top - 8, i - from) == Slot(top, i - (from + 1));
      }
    }
  }

  ghost predicate OnStackOf(mem: Words, low: int, argv: seq<uint64>, from: nat) {
    forall i :: from <= i < |argv| ==> mem(Slot(low, i - from)) == argv[i]
  }

  lemma StackRoom(sp: int, high: int, n: nat)
    requires n > 4 && sp == Aligned(high) - Padding(n)
    ensures Lowest(high, n) <= sp - 8 * (n - 4) && sp <= high
  {
  }

  lemma StackAtCall(sp: int, high: int, n: nat)
    requires n > 4 && sp == Aligned(high) - Padding(n) - 8 * (n - 4)
    ensures sp - SHADOW == CallSp(high, n) && sp + 8 * (n - 4) <= high
  {
  }

  class Cpu {
    var ax: uint64
    var bx: int
    var cx: uint64
    var dx: uint64
    var di: int
    var r8: uint64
    var r9: uint64
    var r12: int
    var r13: int
    var r14: int
    var r15: int
    var sp: int
    var mem: Words
    var frame: Option<Frame>

    method Push(v: uint64)
      modifies this`sp, this`mem
      ensures sp == old(sp) - 8
      ensures forall a :: mem(a) == if a == sp then v else old(mem)(a)
    {
      sp := sp - 8;
      var m, at := mem, sp;
      mem := a => if a == at then v else m(a);
    }

    /** `CALL (DI)` and the return from it; `slots` stack arguments lie above the shadow space. */
    method Call(callee: Callee, slots: nat)
      modifies this`ax, this`cx, this`dx, this`r8, this`r9, this`mem, this`frame
      ensures frame == Some(Frame(old(mem)(di), old(cx), old(dx), old(r8), old(r9), sp, old(mem)))
      ensures ax == callee.ax
      ensures forall a :: a >= sp + SHADOW + 8 * slots ==> mem(a) == old(mem)(a)
    {
      frame := Some(Frame(mem(di), cx, dx, r8, r9, sp, mem));
      ax, cx, dx, r8, r9 := callee.ax, callee.cx, callee.dx, callee.r8, callee.r9;
      var m, limit := mem, sp + SHADOW + 8 * slots;
      mem := a => if a < limit then callee.scribble(a) else m(a);
    }

    /** The arguments as the caller stores them, out of the way of the stack. */
    ghost predicate Stored(args: int, argv: seq<uint64>, low: int, high: int)
      reads this
    {
      forall i :: 0 <= i < |argv| ==>
        Outside(Slot(args, i), low, high) && mem(Slot(args, i)) == argv[i]
    }

    /** The fifth argument and those behind it are on the stack from `low` up. */
    ghost predicate OnStack(low: int, argv: seq<uint64>, from: nat)
      reads this
    {
      OnStackOf(mem, low, argv, from)
    }

    /** `ANDQ` to the label `align`: round SP down, leave R12 behind the last argument, pad. */
    method AlignStack(ghost args: int, n: nat)
      requires n > 4 && r13 == n - 4 && r12 == args + 24
      modifies this`sp, this`mem, this`r12, this`r14, this`r15
      ensures r12 == Slot(args, n) && r14 == n - 4
      ensures sp == Aligned(old(sp)) - Padding(n)
      ensures forall a :: Outside(a, sp, old(sp)) ==> mem(a) == old(mem)(a)
    {
      sp := Aligned(sp);
      r15 := r13;
      r15 := r15 + 1;
      r15 := r15 * 8;
      r12 := r12 + r15;
      r14 := r13;
      r14 := r14 % 2;
      if r13 == r14 {
        Push(0);
      }
      r14 := r13;
    }

    /** The loop at `push`: R12 is behind the last argument, R13 counts the arguments to push. */
    method PushArguments(ghost args: int, ghost argv: seq<uint64>, ghost low: int, ghost high: int)
      requires |argv| > 4 && r13 == |argv| - 4 && r12 == Slot(args, |argv|)
      requires low <= sp - 8 * r13 && sp <= high
      requires Stored(args, argv, low, high)
      modifies this`sp, this`mem, this`r12, this`r13
      ensures sp == old(sp) - 8 * (|argv| - 4) && r13 == 0
      ensures OnStack(sp, argv, 4)
      ensures forall a :: Outside(a, low, high) ==> mem(a) == old(mem)(a)
    {
      ghost var n, top := |argv|, sp;
      while r13 != 0
        invariant 0 <= r13 <= n - 4
        invariant r12 == Slot(args, 4 + r13)
        invariant sp == top - 8 * (n - 4 - r13)
        invariant Stored(args, argv, low, high)
        invariant OnStack(sp, argv, 4 + r13)
        invariant forall a :: Outside(a, low, high) ==> mem(a) == old(mem)(a)
      {
        PushOne(args, argv, low, high, 3 + r13);
      }
    }

    /** One round of that loop: the argument at `from` joins those behind it. */
    method PushOne(ghost args: int, ghost argv: seq<uint64>, ghost low: int, ghost high: int, ghost from: nat)
      requires from < |argv| && r12 == Slot(args, from + 1)
      requires low <= sp - 8 < high
      requires Stored(args, argv, low, high) && OnStack(sp, argv, from + 1)
      modifies this`sp, this`mem, this`r12, this`r13
      ensures r12 == Slot(args, from) && r13 == old(r13) - 1 && sp == old(sp) - 8
      ensures Stored(args, argv, low, high) && OnStack(sp, argv, from)
      ensures forall a :: Outside(a, low, high) ==> mem(a) == old(mem)(a)
    {
      r12 := r12 - 8;
      assert r12 == Slot(args, from) && mem(r12) == argv[from];
      Push(mem(r12));
      r13 := r13 - 1;
      Pushed(old(mem), mem, args, argv, old(sp), low, high, from);
    }

    /** The loop at `pop`: CX is overwritten, SP goes back over the stack arguments. */
    method PopArguments()
      requires r14 > 0
      modifies this`sp, this`cx, this`r14
      ensures sp == old(sp) + 8 * old(r14) && r14 == 0
    {
      ghost var top := sp + 8 * r14;
      while r14 != 0
        invariant 0 <= r14 && sp + 8 * r14 == top
      {
        cx := mem(sp);
        sp := sp + 8;
        r14 := r14 - 1;
      }
    }

    /** The loads of CX, DX, R8 and R9; R13 is left with the number of arguments that are not loaded. */
    method LoadRegisters(ghost args: int, ghost argv: seq<uint64>)
      requires |argv| > 0 && r12 == args && r13 == |argv|
      requires forall i :: 0 <= i < |argv| ==> mem(Slot(args, i)) == argv[i]
      modifies this`cx, this`dx, this`r8, this`r9, this`r12, this`r13
      ensures r13 == StackArgs(|argv|) && (|argv| > 4 ==> r12 == args + 24)
      ensures cx == argv[0]
      ensures dx == if |argv| > 1 then argv[1] else old(dx)
      ensures r8 == if |argv| > 2 then argv[2] else old(r8)
      ensures r9 == if |argv| > 3 then argv[3] else old(r9)
    {
      assert mem(Slot(args, 0)) == argv[0];
      cx := mem(r12);
      r13 := r13 - 1;
      if r13 == 0 {
        return;
      }
      r12 := r12 + 8;
      assert mem(Slot(args, 1)) == argv[1];
      dx := mem(r12);
      r13 := r13 - 1;
      if r13 == 0 {
        return;
      }
      r12 := r12 + 8;
      assert mem(Slot(args, 2)) == argv[2];
      r8 := mem(r12);
      r13 := r13 - 1;
      if r13 == 0 {
        return;
      }
      r12 := r12 + 8;
      assert mem(Slot(args, 3)) == argv[3];
      r9 := mem(r12);
      r13 := r13 - 1;
    }

    /** The path with more than four arguments. */
    method CallOnStack(callee: Callee, ghost args: int, ghost argv: seq<uint64>)
      requires |argv| > 4 && r13 == |argv| - 4 && r12 == args + 24
      requires Stored(args, argv, Lowest(sp, |argv|), sp) && Outside(di, Lowest(sp, |argv|), sp)
      requires cx == argv[0] && dx == argv[1] && r8 == argv[2] && r9 == argv[3]
      modifies this`ax, this`cx, this`dx, this`r8, this`r9, this`r12, this`r13, this`r14, this`r15, this`sp, this`mem, this`frame
      ensures ax == callee.ax
      ensures frame.Some? && Delivered(frame.value, argv, old(sp), old(mem)(di))
      ensures forall a :: a >= old(sp) ==> mem(a) == old(mem)(a)
    {
      ghost var high := sp;
      StackArguments(args, argv);
      StackAtCall(sp, high, |argv|);
      CallWith(callee);
      LaidOut(frame.value, argv, high);
      PopArguments();
    }

    /** Up to the shadow space: the alignment and the loop at `push`. */
    method StackArguments(ghost args: int, ghost argv: seq<uint64>)
      requires |argv| > 4 && r13 == |argv| - 4 && r12 == args + 24
      requires Stored(args, argv, Lowest(sp, |argv|), sp)
      modifies this`r12, this`r13, this`r14, this`r15, this`sp, this`mem
      ensures sp == Aligned(old(sp)) - Padding(|argv|) - 8 * (|argv| - 4) && r14 == |argv| - 4
      ensures OnStack(sp, argv, 4)
      ensures forall a :: Outside(a, Lowest(old(sp), |argv|), old(sp)) ==> mem(a) == old(mem)(a)
    {
      ghost var low, high := Lowest(sp, |argv|), sp;
      AlignStack(args, r13 + 4);
      StackRoom(sp, high, |argv|);
      assert forall a :: Outside(a, low, high) ==> Outside(a, sp, high);
      PushArguments(args, argv, low, high);
    }

    /** The shadow space and the call in it. */
    method CallWith(callee: Callee)
      requires r14 > 0
      modifies this`ax, this`cx, this`dx, this`r8, this`r9, this`sp, this`mem, this`frame
      ensures frame == Some(Frame(old(mem)(di), old(cx), old(dx), old(r8), old(r9), old(sp) - SHADOW, old(mem)))
      ensures ax == callee.ax && sp == old(sp)
      ensures forall a :: a >= sp + 8 * r14 ==> mem(a) == old(mem)(a)
    {
      sp := sp - SHADOW;
      Call(callee, r14);
      sp := sp + SHADOW;
    }

    /** `callFn(fn, n, args)`; the result is None when the status slot is left as it was. */
    method CallFn(fn: int, n: nat, args: int, callee: Callee, ghost argv: seq<uint64>) returns (status: Option<uint64>)
      requires |argv| == n && Stored(args, argv, Lowest(sp, n), sp)
      requires Outside(fn, Lowest(sp, n), sp)
      modifies this
      // Without arguments, or without an array, nothing is called and nothing is written.
      ensures n == 0 || args == 0 ==> status == None && frame == old(frame) && mem == old(mem) && sp == old(sp)
      ensures n > 0 && args != 0 ==>
        && status == Some(callee.ax)
        && frame.Some? && Delivered(frame.value, argv, old(sp), old(mem)(fn))
      // The stack pointer is back, low bits included, and nothing at or above it was written.
      ensures sp == old(sp)
      ensures forall a :: a >= old(sp) ==> mem(a) == old(mem)(a)
    {
      di, r13, r12 := fn, n, args;
      if r13 == 0 || r12 == 0 {
        return None;
      }
      bx := sp;
      LoadRegisters(args, argv);
      if r13 == 0 {
        sp := Aligned(sp);
        sp := sp - SHADOW;
        Call(callee, 0);
        LaidOut(frame.value, argv, bx);
        sp := sp + SHADOW;
      } else {
        CallOnStack(callee, args, argv);
      }
      sp := bx;
      status := Some(ax);
    }
  }

  /** The calling convention, as far as `callFn` keeps it, at the call. */
  ghost predicate Delivered(f: Frame, argv: seq<uint64>, sp: int, target: uint64)
    requires |argv| > 0
  {
    var n := |argv|;
    && f.target == target
    && f.cx == argv[0]
    && (n > 1 ==> f.dx == argv[1])
    && (n > 2 ==> f.r8 == argv[2])
    && (n > 3 ==> f.r9 == argv[3])
    // The fifth argument and those behind it lie above 32 bytes that belong to the callee.
    && (forall i :: 0 <= i < n - 4 ==> f.mem(f.sp + 32 + 8 * i) == argv[4 + i])
    // All of this is below the caller's SP, with no more than a word and the rounding wasted.
    && var top := f.sp + 32 + (if n > 4 then 8 * (n - 4) else 0);
    && top <= sp < top + (if n == 5 then 24 else 16)
    && (n == 5 ==> top + 8 <= sp)
    && f.sp % 16 == (if n >= 7 && n % 2 == 1 then 8 else 0)
  }

  /** What the steps leave, in terms of the literal layout. */
  lemma LaidOut(f: Frame, argv: seq<uint64>, sp: int)
    requires |argv| > 0 && f.sp == CallSp(sp, |argv|) && OnStackOf(f.mem, f.sp + SHADOW, argv, 4)
    requires f.cx == argv[0]
    requires |argv| > 1 ==> f.dx == argv[1]
    requires |argv| > 2 ==> f.r8 == argv[2]
    requires |argv| > 3 ==> f.r9 == argv[3]
    ensures Delivered(f, argv, sp, f.target)
  {
    AlignedAtCall(sp, |argv|);
    forall i | 0 <= i < |argv| - 4 ensures f.mem(f.sp + 32 + 8 * i) == argv[4 + i] {
      assert Slot(f.sp + SHADOW, 4 + i - 4) == f.sp + 32 + 8 * i;
    }
  }
}
