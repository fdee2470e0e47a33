/** `allocateHeap`: find the runtime's heap in the memory map and claim it. */
module Heap {
  import opened Bytes
  import opened MemoryMap
  import opened Coalescing

  /** A call of `AllocatePages` at a fixed address. */
  datatype Request = Request(addr: uint64, pages: uint64)

  predicate Matches(d: Descriptor, ramStart: uint64) {
    d.kind == LOADER_CODE && d.physicalStart == ramStart && d.PhysicalEnd() > 0
  }

  /** Loader code at the start of the runtime's memory, with an end that is not 0 in 64 bits. */
  predicate IsCode(d: Descriptor, ramStart: uint64) {
    d.kind == 1 && d.physicalStart == ramStart && (d.physicalStart + d.numberOfPages * 4096) % 0x1_0000_0000_0000_0000 > 0
  }

  /** The first descriptor that fixes the start of the heap, or the length of the map. */
  function FirstMatch(ds: seq<Descriptor>, ramStart: uint64): (k: nat)
    ensures k <= |ds|
    ensures k < |ds| ==> IsCode(ds[k], ramStart)
    ensures forall i :: 0 <= i < k ==> !IsCode(ds[i], ramStart)
  {
    if |ds| == 0 || Matches(ds[0], ramStart) then 0 else 1 + FirstMatch(ds[1..], ramStart)
  }

  class Runtime {
    const ramStart: uint64
    var ramSize: uint64
    var request: Option<Request>

    constructor (ramStart: uint64, ramSize: uint64)
      ensures this.ramStart == ramStart && this.ramSize == ramSize && request == None
    {
      this.ramStart, this.ramSize, request := ramStart, ramSize, None;
    }

    /** `runtime.MemRegion`. */
    function RamEnd(): uint64
      reads this
    {
      Wrap(ramStart + ramSize)
    }

    method AllocateHeap(ds: seq<Descriptor>)
      modifies this
      ensures var k := FirstMatch(ds, ramStart);
              if k == |ds| then
                // No match: the size stays, and everything below the end is asked for, at address 0.
                && ramSize == old(ramSize)
                && request == Some(Request(0, old(RamEnd()) / PAGE_SIZE))
              else if k + 1 == |ds| then
                // A match at the end of the map: the size stays.
                && ramSize == old(ramSize)
                && request == Some(Request(ds[k].PhysicalEnd(), Wrap(old(RamEnd()) - ds[k].PhysicalEnd()) / PAGE_SIZE))
              else
                // A match with a successor: the region is extended by the successor's size.
                && ramSize == Wrap(Wrap(ds[k].PhysicalEnd() + ds[k + 1].Size()) - ramStart)
                && request == Some(Request(ds[k].PhysicalEnd(), ds[k + 1].Size() / PAGE_SIZE))
    {
      var heapStart: uint64 := 0;
      var ramEnd := RamEnd();
      var i := 0;
      while i < |ds|
        invariant 0 <= i <= |ds|
        invariant ramSize == old(ramSize) && ramEnd == old(RamEnd())
        invariant heapStart == 0 ==> forall j :: 0 <= j < i ==> !IsCode(ds[j], ramStart)
        invariant heapStart > 0 ==>
          && i > 0 && IsCode(ds[i - 1], ramStart) && heapStart == ds[i - 1].PhysicalEnd()
          && forall j :: 0 <= j < i - 1 ==> !IsCode(ds[j], ramStart)
      {
        if heapStart > 0 {
          ramEnd := Wrap(heapStart + ds[i].Size());
          ramSize := Wrap(ramEnd - ramStart);
          WrapDifference(heapStart, ds[i].Size());
          break;
        }
        if ds[i].kind == LOADER_CODE && ds[i].physicalStart == ramStart {
          heapStart := ds[i].PhysicalEnd();
        }
        i := i + 1;
      }
      request := Some(Request(heapStart, Wrap(ramEnd - heapStart) / PAGE_SIZE));
    }
  }

  lemma WrapDifference(a: uint64, b: uint64)
    ensures Wrap(Wrap(a + b) - a) == b
  {
  }

  /** The map once the request is granted: the successor is the loader's data now. */
  function Granted(ds: seq<Descriptor>, k: nat): (gs: seq<Descriptor>)
    requires k + 1 < |ds|
    ensures |gs| == |ds|
  {
    ds[k + 1 := ds[k + 1].(kind := LOADER_DATA)]
  }

  /** The runtime's code is the first match, and memory that is not empty follows it without a gap. */
  predicate CodeBeforeHeap(ds: seq<Descriptor>, k: nat, ramStart: uint64) {
    && k + 1 < |ds| && IsCode(ds[k], ramStart) && (forall i :: 0 <= i < k ==> !IsCode(ds[i], ramStart))
    && ds[k].Fits() && ds[k + 1].Fits()
    && ds[k].numberOfPages > 0 && ds[k + 1].numberOfPages > 0
    && ds[k].PhysicalEnd() == ds[k + 1].physicalStart
  }

  /** The E820 map with the region between what the map has before it and what it has behind it. */
  function AroundRegion(es: seq<Entry>, k: nat, ramStart: uint64, ramEnd: uint64): seq<Entry>
    requires k + 2 <= |es| && ramStart < ramEnd
  {
    Coalesced(es[..k], ramStart, ramEnd) + [Entry(ramStart, ramEnd - ramStart, RAM)] + Coalesced(es[k + 2..], ramStart, ramEnd)
  }

  /**
   * With the runtime's code directly before free memory: the region is extended over that memory, exactly
   * its pages are asked for, and in the E820 map made afterwards the region is one entry of its own. The
   * rest of the map is arbitrary.
   */
  method HeapIsIsolated(runtime: Runtime, ds: seq<Descriptor>, k: nat) returns (e820: seq<Entry>)
    requires CodeBeforeHeap(ds, k, runtime.ramStart)
    modifies runtime
    ensures runtime.RamEnd() == ds[k + 1].PhysicalEnd()
    ensures runtime.request == Some(Request(ds[k + 1].physicalStart, ds[k + 1].numberOfPages))
    ensures runtime.ramStart < runtime.RamEnd()
    ensures e820 == AroundRegion(Entries(ds), k, runtime.ramStart, runtime.RamEnd())
  {
    ExtendRegion(runtime, ds, k);
    RegionInE820(ds, k, runtime.ramStart);
    e820 := E820(Granted(ds, k), runtime.ramStart, runtime.RamEnd());
  }

  method ExtendRegion(runtime: Runtime, ds: seq<Descriptor>, k: nat)
    requires CodeBeforeHeap(ds, k, runtime.ramStart)
    modifies runtime
    ensures runtime.RamEnd() == ds[k + 1].PhysicalEnd() > runtime.ramStart
    ensures runtime.request == Some(Request(ds[k + 1].physicalStart, ds[k + 1].numberOfPages))
  {
    assert FirstMatch(ds, runtime.ramStart) == k;
    runtime.AllocateHeap(ds);
    RegionEnd(ds, k, runtime.ramStart);
  }

  lemma RegionInE820(ds: seq<Descriptor>, k: nat, ramStart: uint64)
    requires CodeBeforeHeap(ds, k, ramStart)
    ensures var ramEnd := ds[k + 1].PhysicalEnd();
            && ramStart < ramEnd
            && Coalesced(Entries(Granted(ds, k)), ramStart, ramEnd) == AroundRegion(Entries(ds), k, ramStart, ramEnd)
  {
    GrantedTiles(ds, k, ramStart);
    GrantedKeepsOthers(ds, k);
    RegionAmong(Entries(Granted(ds, k)), Entries(ds), k, ramStart, ds[k + 1].PhysicalEnd());
  }

  lemma RegionAmong(es: seq<Entry>, others: seq<Entry>, k: nat, ramStart: uint64, ramEnd: uint64)
    requires Tiles(es, k, k + 2, ramStart, ramEnd) && |others| == |es|
    requires es[..k] == others[..k] && es[k + 2..] == others[k + 2..]
    ensures ramStart < ramEnd && Coalesced(es, ramStart, ramEnd) == AroundRegion(others, k, ramStart, ramEnd)
  {
    RuntimeRegionIsIsolated(es, k, k + 2, ramStart, ramEnd);
  }

  lemma GrantedTiles(ds: seq<Descriptor>, k: nat, ramStart: uint64)
    requires CodeBeforeHeap(ds, k, ramStart)
    ensures Tiles(Entries(Granted(ds, k)), k, k + 2, ramStart, ds[k + 1].PhysicalEnd())
  {
    var es := Entries(Granted(ds, k));
    assert es[k] == E820Of(ds[k]) && es[k + 1] == E820Of(ds[k + 1].(kind := LOADER_DATA));
    SizeOfFitting(ds[k]);
    SizeOfFitting(ds[k + 1]);
  }

  lemma SizeOfFitting(d: Descriptor)
    requires d.Fits() && d.numberOfPages > 0
    ensures d.Size() == d.numberOfPages * PAGE_SIZE > 0
    ensures d.PhysicalEnd() == d.physicalStart + d.Size()
  {
  }

  lemma GrantedKeepsOthers(ds: seq<Descriptor>, k: nat)
    requires k + 1 < |ds|
    ensures var es := Entries(Granted(ds, k));
            es[..k] == Entries(ds)[..k] && es[k + 2..] == Entries(ds)[k + 2..]
  {
    var es := Entries(Granted(ds, k));
    forall i | 0 <= i < |es| && i != k + 1 ensures es[i] == Entries(ds)[i] {
    }
  }

  lemma RegionEnd(ds: seq<Descriptor>, k: nat, ramStart: uint64)
    requires CodeBeforeHeap(ds, k, ramStart)
    ensures var end := Wrap(ds[k].PhysicalEnd() + ds[k + 1].Size());
            && end == ds[k + 1].PhysicalEnd() && end > ramStart
            && Wrap(ramStart + Wrap(end - ramStart)) == end
            && ds[k + 1].Size() / PAGE_SIZE == ds[k + 1].numberOfPages
  {
    SizeOfFitting(ds[k]);
    SizeOfFitting(ds[k + 1]);
    WrapSum(ramStart, ds[k + 1].PhysicalEnd() - ramStart);
  }
}
