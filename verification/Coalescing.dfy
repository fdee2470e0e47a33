/** What coalescing the memory map preserves, and what it guarantees about the runtime's own region. */
module Coalescing {
  import opened Bytes
  import opened MemoryMap

  predicate AllFit(es: seq<Entry>) {
    forall i :: 0 <= i < |es| ==> es[i].Fits()
  }

  predicate Run(es: seq<Entry>, ramStart: uint64, ramEnd: uint64) {
    forall i :: 0 < i < |es| ==> !Cut(es, i, ramStart, ramEnd)
  }

  // ----- meaning -----

  /** How many entries of the given type cover the address. */
  function Count(es: seq<Entry>, memType: MemType, x: nat): nat {
    if |es| == 0 then 0
    else (if es[0].memType == memType && es[0].Covers(x) then 1 else 0) + Count(es[1..], memType, x)
  }

  lemma {:induction false} CountConcat(a: seq<Entry>, b: seq<Entry>, memType: MemType, x: nat)
    ensures Count(a + b, memType, x) == Count(a, memType, x) + Count(b, memType, x)
  {
    if |a| == 0 {
      assert a + b == b;
    } else {
      assert (a + b)[1..] == a[1..] + b;
      CountConcat(a[1..], b, memType, x);
    }
  }

  lemma RunTail(run: seq<Entry>, ramStart: uint64, ramEnd: uint64)
    requires |run| > 1 && Run(run, ramStart, ramEnd) && AllFit(run)
    ensures Run(run[1..], ramStart, ramEnd) && AllFit(run[1..])
    ensures run[1].addr == run[0].addr + run[0].size && run[1].memType == run[0].memType
  {
    assert !Cut(run, 1, ramStart, ramEnd);
    forall i | 0 < i < |run[1..]| ensures !Cut(run[1..], i, ramStart, ramEnd) {
      assert !Cut(run, i + 1, ramStart, ramEnd);
    }
  }

  /** The sizes of a run add up to the distance from its start to its end. */
  lemma {:induction false} RunSpan(run: seq<Entry>, ramStart: uint64, ramEnd: uint64)
    requires |run| > 0 && Run(run, ramStart, ramEnd) && AllFit(run)
    ensures run[0].addr + TotalSize(run) == run[|run| - 1].addr + run[|run| - 1].size < TWO_64
    ensures Join(run).size == TotalSize(run)
  {
    assert run[|run| - 1].Fits();
    if |run| == 1 {
      assert run[1..] == [];
    } else {
      RunTail(run, ramStart, ramEnd);
      RunSpan(run[1..], ramStart, ramEnd);
    }
  }

  // ----- one run -----

  /** 1 if an entry of that type over [addr, addr + size) covers the address. */
  function Covered(first: Entry, size: nat, memType: MemType, x: nat): nat {
    if first.memType == memType && first.addr <= x < first.addr + size then 1 else 0
  }

  /** Every entry that has anything behind it in its run ends below 2^64. */
  predicate Ascending(run: seq<Entry>) {
    forall i :: 0 <= i < |run| ==> run[i].Fits() || TotalSize(run[i + 1..]) == 0
  }

  /** The size of the joined entry does not wrap, and neither does an address inside it. */
  predicate RunFits(run: seq<Entry>) {
    TotalSize(run) < TWO_64 && Ascending(run)
  }

  lemma NextInRun(run: seq<Entry>, ramStart: uint64, ramEnd: uint64)
    requires |run| > 1 && Run(run, ramStart, ramEnd)
    ensures Run(run[1..], ramStart, ramEnd)
    ensures run[1].addr == run[0].End() && run[1].memType == run[0].memType
  {
    assert !Cut(run, 1, ramStart, ramEnd);
    forall i | 0 < i < |run[1..]| ensures !Cut(run[1..], i, ramStart, ramEnd) {
      assert !Cut(run, i + 1, ramStart, ramEnd);
    }
  }

  lemma AscendingTail(run: seq<Entry>)
    requires |run| > 0
    ensures Ascending(run) <==> (run[0].Fits() || TotalSize(run[1..]) == 0) && Ascending(run[1..])
  {
    if Ascending(run) {
      forall i | 0 <= i < |run[1..]| ensures run[1..][i].Fits() || TotalSize(run[1..][i + 1..]) == 0 {
        assert run[1..][i + 1..] == run[i + 2..];
        assert run[i + 1].Fits() || TotalSize(run[i + 2..]) == 0;
      }
    }
    if (run[0].Fits() || TotalSize(run[1..]) == 0) && Ascending(run[1..]) {
      forall i | 0 <= i < |run| ensures run[i].Fits() || TotalSize(run[i + 1..]) == 0 {
        if i > 0 {
          assert run[1..][i..] == run[i + 1..];
          assert run[1..][i - 1].Fits() || TotalSize(run[1..][i - 1 + 1..]) == 0;
        }
      }
    }
  }

  lemma {:induction false} EmptyCount(es: seq<Entry>, memType: MemType, x: nat)
    requires TotalSize(es) == 0
    ensures Count(es, memType, x) == 0 && Ascending(es)
  {
    if |es| > 0 {
      EmptyCount(es[1..], memType, x);
      AscendingTail(es);
    }
  }

  /** A run covers at least what its sizes reach, below 2^64. */
  lemma {:induction false} RunReaches(run: seq<Entry>, memType: MemType, x: uint64, ramStart: uint64, ramEnd: uint64)
    requires |run| > 0 && Run(run, ramStart, ramEnd)
    ensures Count(run, memType, x) >= Covered(run[0], TotalSize(run), memType, x)
  {
    if |run| == 1 {
      assert run[1..] == [];
    } else {
      NextInRun(run, ramStart, ramEnd);
      RunReaches(run[1..], memType, x, ramStart, ramEnd);
    }
  }

  /** When no address wraps it covers exactly that. */
  lemma {:induction false} RunCount(run: seq<Entry>, memType: MemType, x: uint64, ramStart: uint64, ramEnd: uint64)
    requires |run| > 0 && Run(run, ramStart, ramEnd) && Ascending(run)
    ensures Count(run, memType, x) == Covered(run[0], TotalSize(run), memType, x)
    ensures run[0].addr + TotalSize(run) < 2 * TWO_64
  {
    AscendingTail(run);
    if TotalSize(run[1..]) == 0 {
      EmptyCount(run[1..], memType, x);
    } else {
      NextInRun(run, ramStart, ramEnd);
      RunCount(run[1..], memType, x, ramStart, ramEnd);
    }
  }

  /** When one does, an address is covered once more. */
  lemma {:induction false} WrappedAddress(run: seq<Entry>, ramStart: uint64, ramEnd: uint64) returns (x: uint64)
    requires |run| > 0 && Run(run, ramStart, ramEnd) && !Ascending(run)
    ensures Count(run, run[0].memType, x) > Covered(run[0], TotalSize(run), run[0].memType, x)
  {
    AscendingTail(run);
    if TotalSize(run[1..]) == 0 {
      EmptyCount(run[1..], run[0].memType, 0);
      assert false;
    }
    NextInRun(run, ramStart, ramEnd);
    if run[0].Fits() {
      x := WrappedAddress(run[1..], ramStart, ramEnd);
    } else {
      // The next entry starts below the first one.
      x := run[1].addr;
      RunReaches(run[1..], run[0].memType, x, ramStart, ramEnd);
    }
  }

  /** A run that does not fit loses an address. */
  lemma RunLoses(run: seq<Entry>, ramStart: uint64, ramEnd: uint64) returns (x: uint64)
    requires |run| > 0 && Run(run, ramStart, ramEnd) && !RunFits(run)
    ensures Count(run, run[0].memType, x) > Covered(run[0], Wrap(TotalSize(run)), run[0].memType, x)
  {
    if Ascending(run) {
      RunCount(run, run[0].memType, 0, ramStart, ramEnd);
      x := run[0].addr + TotalSize(run) - TWO_64;
      RunCount(run, run[0].memType, x, ramStart, ramEnd);
    } else {
      x := WrappedAddress(run, ramStart, ramEnd);
    }
  }

  // ----- all runs -----

  /** Every run between two cuts fits. */
  predicate RunsFit(es: seq<Entry>, ramStart: uint64, ramEnd: uint64)
    decreases |es|
  {
    |es| > 0 ==>
      var n := RunLength(es, 1, ramStart, ramEnd);
      RunFits(es[..n]) && RunsFit(es[n..], ramStart, ramEnd)
  }

  /** The first run and the entry it is joined to, in the counts before and after. */
  lemma CountFirstRun(es: seq<Entry>, n: nat, memType: MemType, x: nat, ramStart: uint64, ramEnd: uint64)
    requires |es| > 0 && n == RunLength(es, 1, ramStart, ramEnd)
    ensures Run(es[..n], ramStart, ramEnd)
    ensures Count(es, memType, x) == Count(es[..n], memType, x) + Count(es[n..], memType, x)
    ensures Count(Coalesced(es, ramStart, ramEnd), memType, x)
         == Covered(es[0], Wrap(TotalSize(es[..n])), memType, x) + Count(Coalesced(es[n..], ramStart, ramEnd), memType, x)
  {
    FirstRunIsRun(es, n, ramStart, ramEnd);
    assert es == es[..n] + es[n..];
    CountConcat(es[..n], es[n..], memType, x);
    FirstRunOf(es, n, ramStart, ramEnd);
    var out := Coalesced(es, ramStart, ramEnd);
    assert out[1..] == Coalesced(es[n..], ramStart, ramEnd);
  }

  lemma FirstRunIsRun(es: seq<Entry>, n: nat, ramStart: uint64, ramEnd: uint64)
    requires |es| > 0 && n == RunLength(es, 1, ramStart, ramEnd)
    ensures Run(es[..n], ramStart, ramEnd)
  {
    forall i | 0 < i < n ensures !Cut(es[..n], i, ramStart, ramEnd) {
      assert !Cut(es, i, ramStart, ramEnd);
    }
  }

  /** No address is covered more often than before; none less often if every run fits. */
  lemma {:induction false} CoalescingNeverAdds(es: seq<Entry>, memType: MemType, x: uint64, ramStart: uint64, ramEnd: uint64)
    ensures Count(Coalesced(es, ramStart, ramEnd), memType, x) <= Count(es, memType, x)
    ensures RunsFit(es, ramStart, ramEnd) ==> Count(Coalesced(es, ramStart, ramEnd), memType, x) == Count(es, memType, x)
    decreases |es|
  {
    if |es| > 0 {
      var n := RunLength(es, 1, ramStart, ramEnd);
      CountFirstRun(es, n, memType, x, ramStart, ramEnd);
      RunReaches(es[..n], memType, x, ramStart, ramEnd);
      if RunFits(es[..n]) {
        RunCount(es[..n], memType, x, ramStart, ramEnd);
      }
      CoalescingNeverAdds(es[n..], memType, x, ramStart, ramEnd);
    }
  }

  lemma {:induction false} CoalescingLoses(es: seq<Entry>, ramStart: uint64, ramEnd: uint64) returns (memType: MemType, x: uint64)
    requires !RunsFit(es, ramStart, ramEnd)
    ensures Count(Coalesced(es, ramStart, ramEnd), memType, x) < Count(es, memType, x)
    decreases |es|
  {
    var n := RunLength(es, 1, ramStart, ramEnd);
    FirstRunIsRun(es, n, ramStart, ramEnd);
    if RunFits(es[..n]) {
      memType, x := CoalescingLoses(es[n..], ramStart, ramEnd);
      RunReaches(es[..n], memType, x, ramStart, ramEnd);
    } else {
      memType := es[0].memType;
      x := RunLoses(es[..n], ramStart, ramEnd);
      CoalescingNeverAdds(es[n..], memType, x, ramStart, ramEnd);
    }
    CountFirstRun(es, n, memType, x, ramStart, ramEnd);
  }

  /** For every type and address, as many entries cover the address after coalescing as before. */
  ghost predicate SameMeaning(out: seq<Entry>, es: seq<Entry>) {
    forall memType, x: uint64 :: Count(out, memType, x) == Count(es, memType, x)
  }

  /** Coalescing keeps the meaning of a map exactly when every run fits. */
  lemma CoalescingKeepsMeaning(es: seq<Entry>, ramStart: uint64, ramEnd: uint64)
    ensures SameMeaning(Coalesced(es, ramStart, ramEnd), es) <==> RunsFit(es, ramStart, ramEnd)
  {
    if RunsFit(es, ramStart, ramEnd) {
      forall memType, x: uint64 ensures Count(Coalesced(es, ramStart, ramEnd), memType, x) == Count(es, memType, x) {
        CoalescingNeverAdds(es, memType, x, ramStart, ramEnd);
      }
    } else {
      var memType, x := CoalescingLoses(es, ramStart, ramEnd);
    }
  }

  /** Entries that end below 2^64 are in runs that fit, whatever the boundaries. */
  lemma {:induction false} FittingRuns(es: seq<Entry>, ramStart: uint64, ramEnd: uint64)
    requires AllFit(es)
    ensures RunsFit(es, ramStart, ramEnd)
    decreases |es|
  {
    if |es| > 0 {
      var n := RunLength(es, 1, ramStart, ramEnd);
      FirstRunIsRun(es, n, ramStart, ramEnd);
      RunSpan(es[..n], ramStart, ramEnd);
      FittingRuns(es[n..], ramStart, ramEnd);
    }
  }

  // ----- descriptors -----

  /** How many descriptors of a kind that the type stands for have the address in their 4 KiB pages. */
  function CountDescriptors(ds: seq<Descriptor>, memType: MemType, x: nat): nat {
    if |ds| == 0 then 0
    else (if Means(ds[0].kind, memType) && ds[0].physicalStart <= x < ds[0].physicalStart + ds[0].numberOfPages * 4096
          then 1 else 0) + CountDescriptors(ds[1..], memType, x)
  }

  /** The 64-bit size covers the pages of the descriptor, as far as there are addresses. */
  predicate Sized(d: Descriptor) {
    d.numberOfPages * PAGE_SIZE < TWO_64 || d.physicalStart + d.Size() >= TWO_64
  }

  predicate AllSized(ds: seq<Descriptor>) {
    forall i :: 0 <= i < |ds| ==> Sized(ds[i])
  }

  lemma EntriesTail(ds: seq<Descriptor>)
    requires |ds| > 0
    ensures Entries(ds)[0] == E820Of(ds[0]) && Entries(ds)[1..] == Entries(ds[1..])
  {
  }

  lemma {:induction false} EntriesNeverAdd(ds: seq<Descriptor>, memType: MemType, x: uint64)
    ensures Count(Entries(ds), memType, x) <= CountDescriptors(ds, memType, x)
    ensures AllSized(ds) ==> Count(Entries(ds), memType, x) == CountDescriptors(ds, memType, x)
  {
    if |ds| > 0 {
      EntriesTail(ds);
      TypeOfKind(ds[0].kind, memType);
      SizeWraps(ds[0]);
      EntriesNeverAdd(ds[1..], memType, x);
    }
  }

  lemma SizeWraps(d: Descriptor)
    ensures d.Size() <= d.numberOfPages * PAGE_SIZE
    ensures d.numberOfPages * PAGE_SIZE < TWO_64 ==> d.Size() == d.numberOfPages * PAGE_SIZE
  {
  }

  lemma {:induction false} EntriesLose(ds: seq<Descriptor>) returns (memType: MemType, x: uint64)
    requires !AllSized(ds)
    ensures Count(Entries(ds), memType, x) < CountDescriptors(ds, memType, x)
  {
    EntriesTail(ds);
    SizeWraps(ds[0]);
    if Sized(ds[0]) {
      assert !AllSized(ds[1..]) by {
        var i :| 0 <= i < |ds| && !Sized(ds[i]);
        assert ds[1..][i - 1] == ds[i];
      }
      memType, x := EntriesLose(ds[1..]);
      TypeOfKind(ds[0].kind, memType);
    } else {
      memType, x := TypeOf(ds[0].kind), ds[0].physicalStart + ds[0].Size();
      TypeOfKind(ds[0].kind, memType);
      EntriesNeverAdd(ds[1..], memType, x);
    }
  }

  /** For every type and address, as many entries cover the address as descriptors of that type do. */
  ghost predicate MeansTheMap(out: seq<Entry>, ds: seq<Descriptor>) {
    forall memType, x: uint64 :: Count(out, memType, x) == CountDescriptors(ds, memType, x)
  }

  /**
   * The E820 map means what the EFI memory map means exactly when every size covers its pages and every
   * run fits: for every list of descriptors and whatever the two boundaries are.
   */
  lemma E820KeepsMeaning(ds: seq<Descriptor>, ramStart: uint64, ramEnd: uint64)
    ensures MeansTheMap(Coalesced(Entries(ds), ramStart, ramEnd), ds) <==> AllSized(ds) && RunsFit(Entries(ds), ramStart, ramEnd)
  {
    var es := Entries(ds);
    if !AllSized(ds) {
      var memType, x := EntriesLose(ds);
      CoalescingNeverAdds(es, memType, x, ramStart, ramEnd);
    } else if RunsFit(es, ramStart, ramEnd) {
      forall memType, x: uint64 ensures Count(Coalesced(es, ramStart, ramEnd), memType, x) == CountDescriptors(ds, memType, x) {
        EntriesNeverAdd(ds, memType, x);
        CoalescingNeverAdds(es, memType, x, ramStart, ramEnd);
      }
    } else {
      var memType, x := CoalescingLoses(es, ramStart, ramEnd);
      EntriesNeverAdd(ds, memType, x);
    }
  }

  /** In particular when every descriptor ends below 2^64. */
  lemma MapsBelowTheTop(ds: seq<Descriptor>, ramStart: uint64, ramEnd: uint64)
    requires forall i :: 0 <= i < |ds| ==> ds[i].Fits()
    ensures AllSized(ds) && RunsFit(Entries(ds), ramStart, ramEnd)
  {
    forall i | 0 <= i < |ds| ensures Sized(ds[i]) && Entries(ds)[i].Fits() {
      assert ds[i].Fits();
    }
    FittingRuns(Entries(ds), ramStart, ramEnd);
  }

  /** A map of which the condition fails: the last page below 2^64 is joined to the page at 0, which is lost. */
  lemma WrappedEndLosesMeaning()
    ensures var top := Entry(0xFFFF_FFFF_FFFF_F000, 0x1000, RAM);
            var bottom := Entry(0, 0x1000, RAM);
            && !RunsFit([top, bottom], 1, 1)
            && Count(Coalesced([top, bottom], 1, 1), RAM, 0) == 0 && Count([top, bottom], RAM, 0) == 1
  {
    var top := Entry(0xFFFF_FFFF_FFFF_F000, 0x1000, RAM);
    var bottom := Entry(0, 0x1000, RAM);
    SingleEntry(top, 1, 1);
    CoalescedSnoc([top], bottom, 1, 1);
    assert [top] + [bottom] == [top, bottom];
    var joined := Entry(0xFFFF_FFFF_FFFF_F000, 0x2000, RAM);
    assert Step([top], bottom, 1, 1) == [joined];
    assert Count([joined][1..], RAM, 0) == 0;
    assert [top, bottom][1..] == [bottom];
    assert Count([bottom][1..], RAM, 0) == 0;
    CoalescingKeepsMeaning([top, bottom], 1, 1);
  }

  /** The same last page alone keeps its meaning. */
  lemma LastPageAlone()
    ensures RunsFit([Entry(0xFFFF_FFFF_FFFF_F000, 0x1000, RAM)], 1, 1)
  {
    var top := Entry(0xFFFF_FFFF_FFFF_F000, 0x1000, RAM);
    assert [top][..1] == [top] && [top][1..] == [];
  }

  // ----- conservation and maximality -----

  lemma {:induction false} TotalConcat(a: seq<Entry>, b: seq<Entry>)
    ensures TotalSize(a + b) == TotalSize(a) + TotalSize(b)
  {
    if |a| == 0 {
      assert a + b == b;
    } else {
      assert (a + b)[1..] == a[1..] + b;
      TotalConcat(a[1..], b);
    }
  }

  /** The sizes of every run between two cuts add up to less than 2^64. */
  predicate RunsSmall(es: seq<Entry>, ramStart: uint64, ramEnd: uint64)
    decreases |es|
  {
    |es| > 0 ==>
      var n := RunLength(es, 1, ramStart, ramEnd);
      TotalSize(es[..n]) < TWO_64 && RunsSmall(es[n..], ramStart, ramEnd)
  }

  /** The total size never grows, and is conserved exactly when no sum wraps. */
  lemma {:induction false} SizeConserved(es: seq<Entry>, ramStart: uint64, ramEnd: uint64)
    ensures TotalSize(Coalesced(es, ramStart, ramEnd)) <= TotalSize(es)
    ensures TotalSize(Coalesced(es, ramStart, ramEnd)) == TotalSize(es) <==> RunsSmall(es, ramStart, ramEnd)
    decreases |es|
  {
    if |es| > 0 {
      var n := RunLength(es, 1, ramStart, ramEnd);
      SizeFirstRun(es, n, ramStart, ramEnd);
      WrapShrinks(TotalSize(es[..n]));
      SizeConserved(es[n..], ramStart, ramEnd);
    }
  }

  lemma WrapShrinks(n: nat)
    ensures Wrap(n) <= n && (Wrap(n) == n <==> n < TWO_64)
  {
  }

  lemma SizeFirstRun(es: seq<Entry>, n: nat, ramStart: uint64, ramEnd: uint64)
    requires |es| > 0 && n == RunLength(es, 1, ramStart, ramEnd)
    ensures TotalSize(es) == TotalSize(es[..n]) + TotalSize(es[n..])
    ensures TotalSize(Coalesced(es, ramStart, ramEnd)) == Wrap(TotalSize(es[..n])) + TotalSize(Coalesced(es[n..], ramStart, ramEnd))
  {
    assert es == es[..n] + es[n..];
    TotalConcat(es[..n], es[n..]);
    FirstRunOf(es, n, ramStart, ramEnd);
    TotalCons(Join(es[..n]), Coalesced(es[n..], ramStart, ramEnd));
  }

  lemma TotalCons(e: Entry, es: seq<Entry>)
    ensures TotalSize([e] + es) == e.size + TotalSize(es)
  {
    assert ([e] + es)[1..] == es;
  }

  /** `a` is `b` with entries left out, as far as starts and types go. */
  predicate Thinned(a: seq<Entry>, b: seq<Entry>)
    decreases |b|
  {
    if |a| == 0 then true
    else if |b| == 0 then false
    else (a[0].addr == b[0].addr && a[0].memType == b[0].memType && Thinned(a[1..], b[1..])) || Thinned(a, b[1..])
  }

  lemma {:induction false} ThinnedBehind(a: seq<Entry>, front: seq<Entry>, b: seq<Entry>)
    requires Thinned(a, b)
    ensures Thinned(a, front + b)
    decreases |front|
  {
    if |front| == 0 {
      assert front + b == b;
    } else {
      assert (front + b)[1..] == front[1..] + b;
      ThinnedBehind(a, front[1..], b);
    }
  }

  /** The output keeps starts and their order: it has the starts of some of the entries, each with its type. */
  lemma {:induction false} StartsKept(es: seq<Entry>, ramStart: uint64, ramEnd: uint64)
    ensures Thinned(Coalesced(es, ramStart, ramEnd), es)
    decreases |es|
  {
    if |es| > 0 {
      var n := RunLength(es, 1, ramStart, ramEnd);
      FirstRunOf(es, n, ramStart, ramEnd);
      StartsKept(es[n..], ramStart, ramEnd);
      ThinnedRun(Join(es[..n]), Coalesced(es[n..], ramStart, ramEnd), es, n);
    }
  }

  lemma ThinnedRun(first: Entry, tail: seq<Entry>, es: seq<Entry>, n: nat)
    requires 0 < n <= |es| && first.addr == es[0].addr && first.memType == es[0].memType
    requires Thinned(tail, es[n..])
    ensures Thinned([first] + tail, es)
  {
    ThinnedBehind(tail, es[1..n], es[n..]);
    assert es[1..] == es[1..n] + es[n..];
    ThinnedCons(first, tail, es[0], es[1..]);
    assert es == [es[0]] + es[1..];
  }

  lemma ThinnedCons(e: Entry, a: seq<Entry>, f: Entry, b: seq<Entry>)
    requires e.addr == f.addr && e.memType == f.memType && Thinned(a, b)
    ensures Thinned([e] + a, [f] + b)
  {
    assert ([e] + a)[1..] == a && ([f] + b)[1..] == b;
  }

  /** The output is maximal: every two neighbours are kept apart for one of the four reasons. */
  lemma {:induction false} OutputIsCut(es: seq<Entry>, ramStart: uint64, ramEnd: uint64)
    ensures var out := Coalesced(es, ramStart, ramEnd);
            forall j :: 0 < j < |out| ==> Cut(out, j, ramStart, ramEnd)
    decreases |es|
  {
    if |es| > 0 {
      var n := RunLength(es, 1, ramStart, ramEnd);
      var tail := Coalesced(es[n..], ramStart, ramEnd);
      OutputIsCut(es[n..], ramStart, ramEnd);
      FirstRunOf(es, n, ramStart, ramEnd);
      if n < |es| {
        CutAfterRun(es, n, tail, ramStart, ramEnd);
      }
      CutBehind(Join(es[..n]), tail, ramStart, ramEnd);
    }
  }

  /** A cut depends on the end and type before it and on the start and type behind it, which joining keeps. */
  lemma CutAfterRun(es: seq<Entry>, n: nat, tail: seq<Entry>, ramStart: uint64, ramEnd: uint64)
    requires 0 < n < |es| && Cut(es, n, ramStart, ramEnd)
    requires forall i :: 0 < i < n ==> !Cut(es, i, ramStart, ramEnd)
    requires |tail| > 0 && tail[0].addr == es[n].addr && tail[0].memType == es[n].memType
    ensures Cut([Join(es[..n])] + tail, 1, ramStart, ramEnd)
  {
    assert forall i :: 0 < i < n ==> Cut(es[..n], i, ramStart, ramEnd) == Cut(es, i, ramStart, ramEnd);
    JoinedEnd(es[..n], ramStart, ramEnd);
  }

  lemma CutBehind(first: Entry, tail: seq<Entry>, ramStart: uint64, ramEnd: uint64)
    requires |tail| > 0 ==> Cut([first] + tail, 1, ramStart, ramEnd)
    requires forall j :: 0 < j < |tail| ==> Cut(tail, j, ramStart, ramEnd)
    ensures forall j :: 0 < j < |[first] + tail| ==> Cut([first] + tail, j, ramStart, ramEnd)
  {
    var out := [first] + tail;
    forall j | 0 < j < |out| ensures Cut(out, j, ramStart, ramEnd) {
      if j > 1 {
        assert Cut(tail, j - 1, ramStart, ramEnd);
      }
    }
  }

  /** Neighbours that touch and have the same type meet only at the edge of the runtime's region. */
  lemma TouchingNeighbours(es: seq<Entry>, j: nat, ramStart: uint64, ramEnd: uint64)
    requires 0 < j < |Coalesced(es, ramStart, ramEnd)|
    ensures var out := Coalesced(es, ramStart, ramEnd);
            out[j - 1].End() == out[j].addr && out[j - 1].memType == out[j].memType
            ==> out[j].addr == ramStart || out[j].addr == ramEnd
  {
    OutputIsCut(es, ramStart, ramEnd);
    assert Cut(Coalesced(es, ramStart, ramEnd), j, ramStart, ramEnd);
  }

  lemma {:induction false} AllCut(es: seq<Entry>, ramStart: uint64, ramEnd: uint64)
    requires forall i :: 0 < i < |es| ==> Cut(es, i, ramStart, ramEnd)
    ensures Coalesced(es, ramStart, ramEnd) == es
    decreases |es|
  {
    if |es| > 0 {
      assert RunLength(es, 1, ramStart, ramEnd) == 1;
      JoinOne(es[0]);
      assert es[..1] == [es[0]];
      forall i | 0 < i < |es[1..]| ensures Cut(es[1..], i, ramStart, ramEnd) {
        assert Cut(es, i + 1, ramStart, ramEnd);
      }
      AllCut(es[1..], ramStart, ramEnd);
    }
  }

  /** Running the merge on its own output changes nothing. */
  lemma CoalescingIsIdempotent(es: seq<Entry>, ramStart: uint64, ramEnd: uint64)
    ensures Coalesced(Coalesced(es, ramStart, ramEnd), ramStart, ramEnd) == Coalesced(es, ramStart, ramEnd)
  {
    OutputIsCut(es, ramStart, ramEnd);
    AllCut(Coalesced(es, ramStart, ramEnd), ramStart, ramEnd);
  }

  // ----- isolation -----

  /** Coalescing never reaches across a cut. */
  lemma {:induction false} SplitAtCut(es: seq<Entry>, k: nat, ramStart: uint64, ramEnd: uint64)
    requires k <= |es|
    requires 0 < k < |es| ==> Cut(es, k, ramStart, ramEnd)
    ensures Coalesced(es, ramStart, ramEnd) == Coalesced(es[..k], ramStart, ramEnd) + Coalesced(es[k..], ramStart, ramEnd)
    decreases |es|
  {
    if 0 < k < |es| {
      var n := RunBeforeCut(es, k, ramStart, ramEnd);
      SplitAtCut(es[n..], k - n, ramStart, ramEnd);
      SplitBehindRun(es, n, k, ramStart, ramEnd);
    } else {
      SplitAtEnd(es, k, ramStart, ramEnd);
    }
  }

  lemma RunBeforeCut(es: seq<Entry>, k: nat, ramStart: uint64, ramEnd: uint64) returns (n: nat)
    requires 0 < k < |es| && Cut(es, k, ramStart, ramEnd)
    ensures 0 < n <= k && n == RunLength(es, 1, ramStart, ramEnd) == RunLength(es[..k], 1, ramStart, ramEnd)
    ensures n < k ==> Cut(es[n..], k - n, ramStart, ramEnd)
  {
    n := RunLength(es, 1, ramStart, ramEnd);
    RunLengthPrefix(es, k, 1, ramStart, ramEnd);
  }

  lemma SplitAtEnd(es: seq<Entry>, k: nat, ramStart: uint64, ramEnd: uint64)
    requires k == 0 || k == |es|
    ensures Coalesced(es, ramStart, ramEnd) == Coalesced(es[..k], ramStart, ramEnd) + Coalesced(es[k..], ramStart, ramEnd)
  {
    if k == 0 {
      assert es[..0] == [] && es[0..] == es;
    } else {
      assert es[..k] == es && es[k..] == [];
    }
  }

  lemma SplitBehindRun(es: seq<Entry>, n: nat, k: nat, ramStart: uint64, ramEnd: uint64)
    requires 0 < n <= k < |es|
    requires n == RunLength(es, 1, ramStart, ramEnd) == RunLength(es[..k], 1, ramStart, ramEnd)
    requires Coalesced(es[n..], ramStart, ramEnd)
          == Coalesced(es[n..][..k - n], ramStart, ramEnd) + Coalesced(es[n..][k - n..], ramStart, ramEnd)
    ensures Coalesced(es, ramStart, ramEnd) == Coalesced(es[..k], ramStart, ramEnd) + Coalesced(es[k..], ramStart, ramEnd)
  {
    FirstRunOf(es[..k], n, ramStart, ramEnd);
    FirstRunOf(es, n, ramStart, ramEnd);
    Slices(es, n, k);
    Associate([Join(es[..n])], Coalesced(es[n..k], ramStart, ramEnd), Coalesced(es[k..], ramStart, ramEnd));
  }

  lemma Associate(a: seq<Entry>, b: seq<Entry>, c: seq<Entry>)
    ensures a + (b + c) == a + b + c
  {
  }

  lemma Slices(es: seq<Entry>, n: nat, k: nat)
    requires n <= k <= |es|
    ensures es[..k][..n] == es[..n] && es[..k][n..] == es[n..][..k - n] == es[n..k] && es[n..][k - n..] == es[k..]
  {
  }

  lemma FirstRunOf(es: seq<Entry>, n: nat, ramStart: uint64, ramEnd: uint64)
    requires |es| > 0 && n == RunLength(es, 1, ramStart, ramEnd)
    ensures Coalesced(es, ramStart, ramEnd) == [Join(es[..n])] + Coalesced(es[n..], ramStart, ramEnd)
  {
  }

  lemma {:induction false} RunLengthPrefix(es: seq<Entry>, k: nat, from: nat, ramStart: uint64, ramEnd: uint64)
    requires 0 < from <= k < |es| && Cut(es, k, ramStart, ramEnd)
    requires forall i :: 0 < i < from ==> !Cut(es, i, ramStart, ramEnd)
    ensures RunLength(es, from, ramStart, ramEnd) <= k
    ensures RunLength(es[..k], from, ramStart, ramEnd) == RunLength(es, from, ramStart, ramEnd)
    decreases k - from
  {
    if from < k {
      assert Cut(es[..k], from, ramStart, ramEnd) == Cut(es, from, ramStart, ramEnd);
      if !Cut(es, from, ramStart, ramEnd) {
        RunLengthPrefix(es, k, from + 1, ramStart, ramEnd);
      }
    }
  }

  lemma OneRun(run: seq<Entry>, ramStart: uint64, ramEnd: uint64)
    requires |run| > 0 && Run(run, ramStart, ramEnd)
    ensures Coalesced(run, ramStart, ramEnd) == [Join(run)]
  {
    var n := RunLength(run, 1, ramStart, ramEnd);
    assert n == |run|;
    assert run[..n] == run && run[n..] == [];
  }

  /** Entries `lo..hi` are RAM, not empty, and tile [ramStart, ramEnd) without a gap. */
  predicate Tiles(es: seq<Entry>, lo: nat, hi: nat, ramStart: uint64, ramEnd: uint64) {
    && lo < hi <= |es|
    && es[lo].addr == ramStart && es[hi - 1].addr + es[hi - 1].size == ramEnd
    && (forall i :: lo <= i < hi ==> es[i].memType == RAM && es[i].size > 0)
    && (forall i :: lo < i < hi ==> es[i - 1].addr + es[i - 1].size == es[i].addr)
  }

  /** The entries of the region ascend strictly. */
  lemma {:induction false} TilesAscend(es: seq<Entry>, lo: nat, hi: nat, i: nat, j: nat, ramStart: uint64, ramEnd: uint64)
    requires Tiles(es, lo, hi, ramStart, ramEnd) && lo <= i <= j < hi
    ensures es[i].addr <= es[j].addr && (i < j ==> es[i].addr + es[i].size <= es[j].addr)
    decreases j - i
  {
    if i < j {
      TilesAscend(es, lo, hi, i, j - 1, ramStart, ramEnd);
      assert es[j - 1].addr + es[j - 1].size == es[j].addr;
    }
  }

  lemma TilesAreOneRun(es: seq<Entry>, lo: nat, hi: nat, ramStart: uint64, ramEnd: uint64)
    requires Tiles(es, lo, hi, ramStart, ramEnd)
    ensures ramStart < ramEnd
    ensures Coalesced(es[lo..hi], ramStart, ramEnd) == [Entry(ramStart, ramEnd - ramStart, RAM)]
  {
    var mid := es[lo..hi];
    TilesAreARun(es, lo, hi, ramStart, ramEnd);
    OneRun(mid, ramStart, ramEnd);
    RunSpan(mid, ramStart, ramEnd);
    TilesAscend(es, lo, hi, lo, hi - 1, ramStart, ramEnd);
    assert mid[0] == es[lo] && mid[|mid| - 1] == es[hi - 1];
  }

  lemma TilesAreARun(es: seq<Entry>, lo: nat, hi: nat, ramStart: uint64, ramEnd: uint64)
    requires Tiles(es, lo, hi, ramStart, ramEnd)
    ensures Run(es[lo..hi], ramStart, ramEnd) && AllFit(es[lo..hi])
  {
    var mid := es[lo..hi];
    forall i | 0 < i < hi - lo ensures !Cut(mid, i, ramStart, ramEnd) {
      TileJoins(es, lo, hi, lo + i, ramStart, ramEnd);
      assert mid[i] == es[lo + i] && mid[i - 1] == es[lo + i - 1];
    }
    forall i | 0 <= i < hi - lo ensures mid[i].Fits() {
      TilesAscend(es, lo, hi, lo + i, hi - 1, ramStart, ramEnd);
      assert mid[i] == es[lo + i];
    }
  }

  /** No entry inside the region starts where it starts, and none but the last ends where it ends. */
  lemma TileJoins(es: seq<Entry>, lo: nat, hi: nat, i: nat, ramStart: uint64, ramEnd: uint64)
    requires Tiles(es, lo, hi, ramStart, ramEnd) && lo < i < hi
    ensures !Cut(es, i, ramStart, ramEnd)
  {
    TilesAscend(es, lo, hi, lo, i, ramStart, ramEnd);
    TilesAscend(es, lo, hi, i, hi - 1, ramStart, ramEnd);
    assert es[i - 1].addr + es[i - 1].size == es[i].addr;
    assert es[i - 1].memType == es[i].memType == RAM;
  }

  lemma ThreeParts(es: seq<Entry>, lo: nat, hi: nat, ramStart: uint64, ramEnd: uint64)
    requires Tiles(es, lo, hi, ramStart, ramEnd)
    ensures Coalesced(es, ramStart, ramEnd)
         == Coalesced(es[..lo], ramStart, ramEnd) + Coalesced(es[lo..hi], ramStart, ramEnd) + Coalesced(es[hi..], ramStart, ramEnd)
  {
    SplitAtCut(es, hi, ramStart, ramEnd);
    assert lo > 0 ==> Cut(es[..hi], lo, ramStart, ramEnd);
    SplitAtCut(es[..hi], lo, ramStart, ramEnd);
    Slices(es, lo, hi);
  }

  /**
   * The runtime's region comes out as one entry of its own, whatever lies before and behind it in the
   * list: sorted or not, overlapping or not, empty or wrapped.
   */
  lemma RuntimeRegionIsIsolated(es: seq<Entry>, lo: nat, hi: nat, ramStart: uint64, ramEnd: uint64)
    requires Tiles(es, lo, hi, ramStart, ramEnd)
    ensures ramStart < ramEnd
    ensures Coalesced(es, ramStart, ramEnd)
         == Coalesced(es[..lo], ramStart, ramEnd) + [Entry(ramStart, ramEnd - ramStart, RAM)] + Coalesced(es[hi..], ramStart, ramEnd)
  {
    ThreeParts(es, lo, hi, ramStart, ramEnd);
    TilesAreOneRun(es, lo, hi, ramStart, ramEnd);
  }

  // ----- the neighbours of the region -----

  predicate EndBy(es: seq<Entry>, limit: nat) {
    forall i :: 0 <= i < |es| ==> es[i].addr + es[i].size <= limit
  }

  predicate StartFrom(es: seq<Entry>, limit: nat) {
    forall i :: 0 <= i < |es| ==> limit <= es[i].addr
  }

  /** Joining entries that end by some address does not reach beyond it. */
  lemma {:induction false} OutputEndsBy(es: seq<Entry>, limit: uint64, ramStart: uint64, ramEnd: uint64)
    requires EndBy(es, limit)
    ensures EndBy(Coalesced(es, ramStart, ramEnd), limit)
    decreases |es|
  {
    if |es| > 0 {
      var n := RunLength(es, 1, ramStart, ramEnd);
      FirstRunOf(es, n, ramStart, ramEnd);
      FirstRunSpan(es, n, ramStart, ramEnd);
      OutputEndsBy(es[n..], limit, ramStart, ramEnd);
    }
  }

  lemma FirstRunSpan(es: seq<Entry>, n: nat, ramStart: uint64, ramEnd: uint64)
    requires |es| > 0 && AllFit(es) && n == RunLength(es, 1, ramStart, ramEnd)
    ensures var first := Join(es[..n]);
            first.addr == es[0].addr && first.addr + first.size == es[n - 1].addr + es[n - 1].size
  {
    FirstRunIsRun(es, n, ramStart, ramEnd);
    RunSpan(es[..n], ramStart, ramEnd);
  }

  lemma {:induction false} OutputStartsFrom(es: seq<Entry>, limit: nat, ramStart: uint64, ramEnd: uint64)
    requires StartFrom(es, limit)
    ensures StartFrom(Coalesced(es, ramStart, ramEnd), limit)
    decreases |es|
  {
    if |es| > 0 {
      var n := RunLength(es, 1, ramStart, ramEnd);
      FirstRunOf(es, n, ramStart, ramEnd);
      OutputStartsFrom(es[n..], limit, ramStart, ramEnd);
    }
  }

  /** When the entries before the region end by its start and those behind it start from its end, so do the joined ones. */
  lemma NothingReachesIn(es: seq<Entry>, lo: nat, hi: nat, ramStart: uint64, ramEnd: uint64)
    requires lo <= hi <= |es|
    requires EndBy(es[..lo], ramStart) && StartFrom(es[hi..], ramEnd)
    ensures EndBy(Coalesced(es[..lo], ramStart, ramEnd), ramStart)
    ensures StartFrom(Coalesced(es[hi..], ramStart, ramEnd), ramEnd)
  {
    OutputEndsBy(es[..lo], ramStart, ramStart, ramEnd);
    OutputStartsFrom(es[hi..], ramEnd, ramStart, ramEnd);
  }
}
