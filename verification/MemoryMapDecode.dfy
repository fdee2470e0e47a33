/** The descriptor loop of `GetMemoryMap`: fixed 48-byte records, little-endian. */
module MemoryMapDecode {
  import opened Bytes
  import opened MemoryMap

  const RECORD: nat := 48
  const MAX_ENTRIES: nat := 1000

  /** A record as the decoder reads it; bytes 4..8 and 40..48 are padding. */
  function Decoded(s: seq<byte>): Descriptor
    requires |s| >= RECORD
  {
    Capacities();
    Descriptor(FromLe(s[0..4]), FromLe(s[8..16]), FromLe(s[16..24]), FromLe(s[24..32]), FromLe(s[32..40]))
  }

  /** A record as firmware lays it out, with any padding. */
  function Record(d: Descriptor, pad: seq<byte>, tail: seq<byte>): (s: seq<byte>)
    requires |pad| == 4 && |tail| == 8
    ensures |s| == RECORD
  {
    ToLe(4, d.kind) + pad + ToLe(8, d.physicalStart) + ToLe(8, d.virtualStart)
    + ToLe(8, d.numberOfPages) + ToLe(8, d.attribute) + tail
  }

  lemma DecodeRecord(d: Descriptor, pad: seq<byte>, tail: seq<byte>)
    requires |pad| == 4 && |tail| == 8
    ensures Decoded(Record(d, pad, tail)) == d
    ensures var s := Record(d, pad, tail);
            && |s| == 48 && s[4..8] == pad && s[40..48] == tail
            && FromLe(s[0..4]) == d.kind && FromLe(s[8..16]) == d.physicalStart && FromLe(s[16..24]) == d.virtualStart
            && FromLe(s[24..32]) == d.numberOfPages && FromLe(s[32..40]) == d.attribute
  {
    var s := Record(d, pad, tail);
    assert s[4..8] == pad && s[40..48] == tail;
    assert s[0..4] == ToLe(4, d.kind);
    assert s[8..16] == ToLe(8, d.physicalStart);
    assert s[16..24] == ToLe(8, d.virtualStart);
    assert s[24..32] == ToLe(8, d.numberOfPages);
    assert s[32..40] == ToLe(8, d.attribute);
    Capacities();
    DecodeEncoded(4, d.kind);
    DecodeEncoded(8, d.physicalStart);
    DecodeEncoded(8, d.virtualStart);
    DecodeEncoded(8, d.numberOfPages);
    DecodeEncoded(8, d.attribute);
  }

  /** How many records start below `mapSize`, once it is taken for a signed integer. */
  function Wanted(mapSize: uint64): nat {
    if mapSize >= TWO_63 then 0 else (mapSize + RECORD - 1) / RECORD
  }

  /** `buf` has the size `GetMemoryMap` allocates; `mapSize` is what the firmware reported. */
  method DecodeMap(buf: seq<byte>, mapSize: uint64) returns (descriptors: seq<Descriptor>, ok: bool)
    requires |buf| == RECORD * MAX_ENTRIES
    ensures ok <==> Wanted(mapSize) <= MAX_ENTRIES
    ensures |descriptors| == if ok then Wanted(mapSize) else MAX_ENTRIES
    ensures forall k :: 0 <= k < |descriptors| ==> descriptors[k] == Decoded(buf[RECORD * k..])
  {
    descriptors, ok := [], true;
    var size: int := if mapSize >= TWO_63 then mapSize - TWO_64 else mapSize;
    var i := 0;
    while i < size
      invariant ok && i == RECORD * |descriptors|
      invariant |descriptors| <= MAX_ENTRIES && |descriptors| <= Wanted(mapSize)
      invariant forall k :: 0 <= k < |descriptors| ==> descriptors[k] == Decoded(buf[RECORD * k..])
      decreases size - i
    {
      var rest := buf[i..];
      if |rest| < RECORD {
        ok := false;
        break;
      }
      descriptors := descriptors + [Decoded(rest)];
      i := i + RECORD;
    }
  }

  /** The padding of one record: whatever the firmware left there. */
  datatype Padding = Padding(pad: seq<byte>, tail: seq<byte>) {
    predicate Valid() { |pad| == 4 && |tail| == 8 }
  }

  predicate PaddingFor(ps: seq<Padding>, n: nat) {
    |ps| == n && forall i :: 0 <= i < |ps| ==> ps[i].Valid()
  }

  /** The records of `ds` one behind the other. */
  function Laid(ds: seq<Descriptor>, ps: seq<Padding>): (s: seq<byte>)
    requires PaddingFor(ps, |ds|)
    ensures |s| == RECORD * |ds|
  {
    if |ds| == 0 then [] else
      assert ps[0].Valid();
      Record(ds[0], ps[0].pad, ps[0].tail) + Laid(ds[1..], ps[1..])
  }

  lemma {:induction false} RecordAt(ds: seq<Descriptor>, ps: seq<Padding>, rest: seq<byte>, k: nat)
    requires PaddingFor(ps, |ds|) && k < |ds|
    ensures Decoded((Laid(ds, ps) + rest)[RECORD * k..]) == ds[k]
  {
    assert ps[0].Valid();
    var first, behind := Record(ds[0], ps[0].pad, ps[0].tail), Laid(ds[1..], ps[1..]) + rest;
    var buf := Laid(ds, ps) + rest;
    assert buf == first + behind;
    if k == 0 {
      DecodeRecord(ds[0], ps[0].pad, ps[0].tail);
      DecodedPrefix(first, behind);
      assert buf[0..] == buf;
    } else {
      RecordAt(ds[1..], ps[1..], rest, k - 1);
      assert buf[RECORD * k..] == behind[RECORD * (k - 1)..];
    }
  }

  lemma DecodedPrefix(s: seq<byte>, rest: seq<byte>)
    requires |s| >= RECORD
    ensures Decoded(s + rest) == Decoded(s)
  {
    var t := s + rest;
    assert t[0..4] == s[0..4] && t[8..16] == s[8..16] && t[16..24] == s[16..24];
    assert t[24..32] == s[24..32] && t[32..40] == s[32..40];
  }

  /** A map the firmware lays out in 48-byte records comes back as it was. */
  method GetMemoryMap(ds: seq<Descriptor>, ps: seq<Padding>, rest: seq<byte>)
      returns (descriptors: seq<Descriptor>, ok: bool)
    requires PaddingFor(ps, |ds|) && |ds| <= MAX_ENTRIES
    requires |rest| == RECORD * (MAX_ENTRIES - |ds|)
    ensures ok && descriptors == ds
  {
    var buf := Laid(ds, ps) + rest;
    descriptors, ok := DecodeMap(buf, RECORD * |ds|);
    forall k | 0 <= k < |ds| ensures descriptors[k] == ds[k] {
      RecordAt(ds, ps, rest, k);
    }
  }
}
