/** The EFI memory map: descriptors, their E820 form, and the coalescing of `MemoryMap.E820`. */
module MemoryMap {
  import opened Bytes

  // EFI memory types, in their order of declaration
  const LOADER_CODE: uint32 := 1
  const LOADER_DATA: uint32 := 2
  const BOOT_SERVICES_CODE: uint32 := 3
  const BOOT_SERVICES_DATA: uint32 := 4
  const CONVENTIONAL_MEMORY: uint32 := 7
  const ACPI_RECLAIM_MEMORY: uint32 := 9
  const ACPI_MEMORY_NVS: uint32 := 10
  const PERSISTENT_MEMORY: uint32 := 14

  /** The two padding words carry nothing and are left out here; the decoder skips them. */
  datatype Descriptor = Descriptor(
    kind: uint32,
    physicalStart: uint64,
    virtualStart: uint64,
    numberOfPages: uint64,
    attribute: uint64)
  {
    function PhysicalEnd(): uint64 { Wrap(physicalStart + numberOfPages * PAGE_SIZE) }

    function Size(): uint64 { Wrap(numberOfPages * PAGE_SIZE) }

    /** The descriptor ends below 2^64, so nothing wraps. */
    predicate Fits() { physicalStart + numberOfPages * PAGE_SIZE < TWO_64 }
  }

  datatype MemType = RAM | Reserved | ACPI | NVS | Persistent

  datatype Entry = Entry(addr: uint64, size: uint64, memType: MemType) {
    function End(): uint64 { Wrap(addr + size) }

    predicate Covers(x: nat) { addr <= x < addr + size }

    /** The entry ends below 2^64. */
    predicate Fits() { addr + size < TWO_64 }
  }

  function TypeOf(kind: uint32): MemType {
    if kind == LOADER_CODE || kind == LOADER_DATA || kind == BOOT_SERVICES_CODE
       || kind == BOOT_SERVICES_DATA || kind == CONVENTIONAL_MEMORY then RAM
    else if kind == PERSISTENT_MEMORY then Persistent
    else if kind == ACPI_RECLAIM_MEMORY then ACPI
    else if kind == ACPI_MEMORY_NVS then NVS
    else Reserved
  }

  /** The kinds each E820 type stands for: table 7.10 of the UEFI specification, version 2.10. */
  predicate Means(kind: uint32, memType: MemType) {
    match memType
    case RAM => kind in {1, 2, 3, 4, 7}
    case ACPI => kind == 9
    case NVS => kind == 10
    case Persistent => kind == 14
    case Reserved => kind !in {1, 2, 3, 4, 7, 9, 10, 14}
  }

  /** Every kind gets the one type that stands for it. */
  lemma TypeOfKind(kind: uint32, memType: MemType)
    ensures TypeOf(kind) == memType <==> Means(kind, memType)
  {
  }

  function E820Of(d: Descriptor): Entry {
    Entry(d.physicalStart, d.Size(), TypeOf(d.kind))
  }

  function Entries(ds: seq<Descriptor>): (es: seq<Entry>)
    ensures |es| == |ds|
  {
    seq(|ds|, i requires 0 <= i < |ds| => E820Of(ds[i]))
  }

  // ----- what the coalesced map is, without the loop -----

  /** Whether entry `i` cannot be joined to the entry before it. It depends on these two entries only. */
  predicate Cut(es: seq<Entry>, i: nat, ramStart: uint64, ramEnd: uint64)
    requires 0 < i < |es|
  {
    || es[i].addr == ramStart
    || es[i - 1].End() == ramEnd
    || es[i - 1].memType != es[i].memType
    || es[i - 1].End() != es[i].addr
  }

  /** The length of the run at the front: up to the first cut. */
  function RunLength(es: seq<Entry>, from: nat, ramStart: uint64, ramEnd: uint64): (n: nat)
    requires 0 < from <= |es|
    ensures from <= n <= |es|
    ensures forall i :: from <= i < n ==> !Cut(es, i, ramStart, ramEnd)
    ensures n < |es| ==> Cut(es, n, ramStart, ramEnd)
    decreases |es| - from
  {
    if from == |es| || Cut(es, from, ramStart, ramEnd) then from else RunLength(es, from + 1, ramStart, ramEnd)
  }

  function TotalSize(es: seq<Entry>): nat {
    if |es| == 0 then 0 else es[0].size + TotalSize(es[1..])
  }

  /** One entry for a run: the start and type of its first entry, the size of all. */
  function Join(run: seq<Entry>): Entry
    requires |run| > 0
  {
    Entry(run[0].addr, Wrap(TotalSize(run)), run[0].memType)
  }

  /** The map with every run between two cuts joined. */
  function Coalesced(es: seq<Entry>, ramStart: uint64, ramEnd: uint64): (out: seq<Entry>)
    ensures |out| <= |es|
    ensures |es| > 0 ==> |out| > 0 && out[0].addr == es[0].addr && out[0].memType == es[0].memType
    decreases |es|
  {
    if |es| == 0 then []
    else
      var n := RunLength(es, 1, ramStart, ramEnd);
      [Join(es[..n])] + Coalesced(es[n..], ramStart, ramEnd)
  }

  // ----- the loop -----

  /**
   * The variable `prev`: nil, the address of the copy that was appended, or the address of an element
   * of the output. A copy is never written to; an element is written to when an entry is joined.
   */
  datatype Pointer = Nil | Copy(entry: Entry) | Slot(index: nat)

  function Deref(p: Pointer, e820: seq<Entry>): Entry
    requires p.Copy? || (p.Slot? && p.index < |e820|)
  {
    match p case Copy(e) => e case Slot(i) => e820[i]
  }

  /** The test the loop makes against the last entry of its output. */
  predicate Joins(last: Entry, e: Entry, ramStart: uint64, ramEnd: uint64) {
    (e.addr != ramStart && last.End() != ramEnd) && (last.memType == e.memType && last.End() == e.addr)
  }

  function Grown(last: Entry, e: Entry): Entry {
    last.(size := Wrap(last.size + e.size))
  }

  /** The output after one more entry. */
  function Step(out: seq<Entry>, e: Entry, ramStart: uint64, ramEnd: uint64): seq<Entry> {
    if |out| > 0 && Joins(out[|out| - 1], e, ramStart, ramEnd)
    then out[|out| - 1 := Grown(out[|out| - 1], e)]
    else out + [e]
  }

  function Folded(es: seq<Entry>, ramStart: uint64, ramEnd: uint64): (out: seq<Entry>)
    ensures |es| > 0 ==> |out| > 0
  {
    if |es| == 0 then [] else Step(Folded(es[..|es| - 1], ramStart, ramEnd), es[|es| - 1], ramStart, ramEnd)
  }

  lemma FoldedSnoc(es: seq<Entry>, i: nat, ramStart: uint64, ramEnd: uint64)
    requires i < |es|
    ensures Folded(es[..i + 1], ramStart, ramEnd) == Step(Folded(es[..i], ramStart, ramEnd), es[i], ramStart, ramEnd)
  {
    assert es[..i + 1][..i] == es[..i];
  }

  method E820(descriptors: seq<Descriptor>, ramStart: uint64, ramEnd: uint64) returns (e820: seq<Entry>)
    ensures e820 == Coalesced(Entries(descriptors), ramStart, ramEnd)
  {
    e820 := [];
    var prev := Nil;
    ghost var es := Entries(descriptors);
    for i := 0 to |descriptors|
      invariant i == 0 <==> |e820| == 0
      invariant i == 0 <==> prev.Nil?
      // What prev points to is always the last entry of the output.
      invariant prev.Slot? ==> prev.index < |e820|
      invariant i > 0 ==> Deref(prev, e820) == e820[|e820| - 1]
      invariant e820 == Folded(es[..i], ramStart, ramEnd)
    {
      var entry := E820Of(descriptors[i]);
      FoldedSnoc(es, i, ramStart, ramEnd);
      if !prev.Nil? {
        var p := Deref(prev, e820);
        if (entry.addr != ramStart && p.End() != ramEnd) && (p.memType == entry.memType && p.End() == entry.addr) {
          var last := |e820| - 1;
          e820 := e820[last := e820[last].(size := Wrap(e820[last].size + entry.size))];
          prev := Slot(last);
          continue;
        }
      }
      prev := Copy(entry);
      e820 := e820 + [entry];
    }
    assert es[..|descriptors|] == es;
    FoldedIsCoalesced(es, ramStart, ramEnd);
  }

  // ----- one more entry -----

  lemma {:induction false} TotalSnoc(es: seq<Entry>, e: Entry)
    ensures TotalSize(es + [e]) == TotalSize(es) + e.size
  {
    if |es| > 0 {
      assert (es + [e])[1..] == es[1..] + [e];
      TotalSnoc(es[1..], e);
    }
  }

  /** Without its last entry a run is a run, and the last entry starts where that ends. */
  lemma UncutPrefix(run: seq<Entry>, n: nat, ramStart: uint64, ramEnd: uint64)
    requires 0 < n == |run| - 1 && forall i :: 0 < i < |run| ==> !Cut(run, i, ramStart, ramEnd)
    ensures forall i :: 0 < i < n ==> !Cut(run[..n], i, ramStart, ramEnd)
    ensures run[..n][n - 1].End() == run[n].addr && run[..n][n - 1].memType == run[n].memType
  {
    forall i | 0 < i < n ensures !Cut(run[..n], i, ramStart, ramEnd) {
      assert !Cut(run, i, ramStart, ramEnd);
    }
    assert !Cut(run, n, ramStart, ramEnd);
  }

  /** A run without cuts ends where its last entry ends and has its type. */
  lemma {:induction false} JoinedEnd(run: seq<Entry>, ramStart: uint64, ramEnd: uint64)
    requires |run| > 0
    requires forall i :: 0 < i < |run| ==> !Cut(run, i, ramStart, ramEnd)
    ensures Join(run).End() == run[|run| - 1].End() && Join(run).memType == run[|run| - 1].memType
  {
    var n := |run| - 1;
    if n == 0 {
      JoinOne(run[0]);
      assert run == [run[0]];
    } else {
      UncutPrefix(run, n, ramStart, ramEnd);
      JoinedEnd(run[..n], ramStart, ramEnd);
      assert run == run[..n] + [run[n]];
      JoinedSnoc(run[..n], run[n]);
    }
  }

  /** Joining an entry that starts where the run so far ends. */
  lemma JoinedSnoc(run: seq<Entry>, e: Entry)
    requires |run| > 0 && Join(run).End() == e.addr
    ensures Join(run + [e]).End() == e.End() && Join(run + [e]).memType == Join(run).memType
  {
    TotalSnoc(run, e);
    JoinedSum(run[0].addr, TotalSize(run), e.addr, e.size);
  }

  /** Growing a wrapped size by one entry moves the end to the end of that entry. */
  lemma JoinedSum(start: nat, total: nat, addr: uint64, size: uint64)
    requires Wrap(start + Wrap(total)) == addr
    ensures Wrap(start + Wrap(total + size)) == Wrap(addr + size)
  {
    WrapSum(start, total);
    WrapSum(start, total + size);
    WrapSum(size, start + total);
  }

  lemma {:induction false} RunLengthSnoc(es: seq<Entry>, e: Entry, from: nat, ramStart: uint64, ramEnd: uint64)
    requires 0 < from <= |es|
    ensures var n := RunLength(es, from, ramStart, ramEnd);
            RunLength(es + [e], from, ramStart, ramEnd)
            == if n < |es| || Cut(es + [e], |es|, ramStart, ramEnd) then n else n + 1
    decreases |es| - from
  {
    var all := es + [e];
    if from < |es| {
      assert Cut(all, from, ramStart, ramEnd) == Cut(es, from, ramStart, ramEnd);
      if !Cut(es, from, ramStart, ramEnd) {
        RunLengthSnoc(es, e, from + 1, ramStart, ramEnd);
      }
    } else if !Cut(all, from, ramStart, ramEnd) {
      assert RunLength(all, |all|, ramStart, ramEnd) == |all|;
    }
  }

  lemma JoinOne(e: Entry)
    ensures Join([e]) == e
  {
    assert TotalSize([]) == 0 && [e][1..] == [];
  }

  lemma {:induction false} FoldedIsCoalesced(es: seq<Entry>, ramStart: uint64, ramEnd: uint64)
    ensures Folded(es, ramStart, ramEnd) == Coalesced(es, ramStart, ramEnd)
  {
    if |es| > 0 {
      var n := |es| - 1;
      FoldedIsCoalesced(es[..n], ramStart, ramEnd);
      CoalescedSnoc(es[..n], es[n], ramStart, ramEnd);
      assert es == es[..n] + [es[n]];
    }
  }

  /** Coalescing one entry more changes only the last entry of the output, or appends. */
  lemma {:induction false} CoalescedSnoc(es: seq<Entry>, e: Entry, ramStart: uint64, ramEnd: uint64)
    ensures Coalesced(es + [e], ramStart, ramEnd) == Step(Coalesced(es, ramStart, ramEnd), e, ramStart, ramEnd)
    decreases |es|
  {
    if |es| == 0 {
      SingleEntry(e, ramStart, ramEnd);
      assert es + [e] == [e];
    } else {
      var n := RunLength(es, 1, ramStart, ramEnd);
      if n < |es| {
        CoalescedSnoc(es[n..], e, ramStart, ramEnd);
        FirstRun(es, e, ramStart, ramEnd);
        StepCons(Join(es[..n]), Coalesced(es[n..], ramStart, ramEnd), e, ramStart, ramEnd);
      } else {
        SingleRunSnoc(es, e, ramStart, ramEnd);
      }
    }
  }

  lemma SingleEntry(e: Entry, ramStart: uint64, ramEnd: uint64)
    ensures Coalesced([e], ramStart, ramEnd) == [e]
  {
    JoinOne(e);
    assert [e][..1] == [e] && [e][1..] == [];
  }

  lemma StepCons(first: Entry, rest: seq<Entry>, e: Entry, ramStart: uint64, ramEnd: uint64)
    requires |rest| > 0
    ensures Step([first] + rest, e, ramStart, ramEnd) == [first] + Step(rest, e, ramStart, ramEnd)
  {
  }

  /** An entry appended behind a cut leaves the first run alone. */
  lemma FirstRun(es: seq<Entry>, e: Entry, ramStart: uint64, ramEnd: uint64)
    requires |es| > 0 && RunLength(es, 1, ramStart, ramEnd) < |es|
    ensures var n := RunLength(es, 1, ramStart, ramEnd);
            && Coalesced(es, ramStart, ramEnd) == [Join(es[..n])] + Coalesced(es[n..], ramStart, ramEnd)
            && Coalesced(es + [e], ramStart, ramEnd) == [Join(es[..n])] + Coalesced(es[n..] + [e], ramStart, ramEnd)
  {
    var n := RunLength(es, 1, ramStart, ramEnd);
    RunLengthSnoc(es, e, 1, ramStart, ramEnd);
    assert (es + [e])[..n] == es[..n] && (es + [e])[n..] == es[n..] + [e];
  }

  /** The same when all entries so far are one run. */
  lemma SingleRunSnoc(es: seq<Entry>, e: Entry, ramStart: uint64, ramEnd: uint64)
    requires |es| > 0 && RunLength(es, 1, ramStart, ramEnd) == |es|
    ensures Coalesced(es, ramStart, ramEnd) == [Join(es)]
    ensures Coalesced(es + [e], ramStart, ramEnd)
         == if Joins(Join(es), e, ramStart, ramEnd) then [Grown(Join(es), e)] else [Join(es), e]
  {
    var n := |es|;
    RunLengthSnoc(es, e, 1, ramStart, ramEnd);
    assert es[..n] == es && es[n..] == [];
    JoinsUnlessCut(es, e, ramStart, ramEnd);
    if Cut(es + [e], n, ramStart, ramEnd) {
      RunThenEntry(es, e, ramStart, ramEnd);
    } else {
      RunWithEntry(es, e, ramStart, ramEnd);
    }
  }

  /** The loop's test against the joined entry is the test against the last entry of the run. */
  lemma JoinsUnlessCut(es: seq<Entry>, e: Entry, ramStart: uint64, ramEnd: uint64)
    requires |es| > 0 && RunLength(es, 1, ramStart, ramEnd) == |es|
    ensures Cut(es + [e], |es|, ramStart, ramEnd) <==> !Joins(Join(es), e, ramStart, ramEnd)
  {
    JoinedEnd(es, ramStart, ramEnd);
  }

  lemma RunThenEntry(es: seq<Entry>, e: Entry, ramStart: uint64, ramEnd: uint64)
    requires |es| > 0 && RunLength(es + [e], 1, ramStart, ramEnd) == |es|
    ensures Coalesced(es + [e], ramStart, ramEnd) == [Join(es), e]
  {
    var all, n := es + [e], |es|;
    assert all[..n] == es && all[n..] == [e];
    SingleEntry(e, ramStart, ramEnd);
  }

  lemma RunWithEntry(es: seq<Entry>, e: Entry, ramStart: uint64, ramEnd: uint64)
    requires |es| > 0 && RunLength(es + [e], 1, ramStart, ramEnd) == |es| + 1
    ensures Coalesced(es + [e], ramStart, ramEnd) == [Grown(Join(es), e)]
  {
    var all, n := es + [e], |es|;
    assert all[..n + 1] == all && all[n + 1..] == [];
    TotalSnoc(es, e);
    WrapSum(e.size, TotalSize(es));
    assert Join(all) == Grown(Join(es), e);
  }
}
