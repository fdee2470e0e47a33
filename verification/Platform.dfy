/**
 * The physical memory, the allocator and the file reads of the firmware, as far as the stub uses them.
 *
 * The firmware is unknown: a `Firmware` value holds an arbitrary answer for every call, and each call may
 * also rewrite all memory the stub does not own. An answer that would break the contract of the call
 * (an allocation that overlaps one still held, or lies above the limit asked for) counts as an error, so
 * the values of `Firmware` are exactly the behaviours that keep the contract.
 */
module Platform {
  import opened Bytes

  datatype Status = Success | LoadError | InvalidParameter | Other(code: nat)

  const OUT_OF_RESOURCES: Status := Other(9)

  type Memory = nat -> byte

  datatype Region = Region(start: nat, len: nat) {
    predicate Has(a: nat) { start <= a < start + len }

    /** No address in common; an empty region is apart from everything. */
    predicate Apart(r: Region) {
      len == 0 || r.len == 0 || start + len <= r.start || r.start + r.len <= start
    }
  }

  predicate Owns(regions: set<Region>, a: nat) {
    exists r :: r in regions && r.Has(a)
  }

  /** An answer of the allocator. */
  datatype Grant = Grant(status: Status, addr: nat) {
    predicate Holds(limit: nat, len: nat, regions: set<Region>) {
      && status == Success
      && addr + len <= limit
      && forall r :: r in regions ==> Region(addr, len).Apart(r)
    }

    /** The status the call returns; an answer that breaks the contract counts as an error. */
    function Answer(limit: nat, len: nat, regions: set<Region>): (s: Status)
      ensures s == Success <==> Holds(limit, len, regions)
    {
      if Holds(limit, len, regions) then Success else if status == Success then OUT_OF_RESOURCES else status
    }
  }

  /** What opening and reading one file does; `count` bounds the bytes one read returns. */
  datatype File = File(open: Status, read: Status, contents: seq<byte>, count: nat) {
    predicate Readable() { open == Success && read == Success }

    function Delivered(size: nat): (s: seq<byte>)
      ensures |s| <= size
    {
      contents[..Min(size, Min(count, |contents|))]
    }
  }

  function Min(a: nat, b: nat): nat { if a < b then a else b }

  datatype Firmware = Firmware(
    loadedImage: Status,
    fileSystem: Status,
    devicePath: Status,
    volume: Status,
    imageBase: nat,
    initrdLimit: nat,          // the value `initrdBuf` happens to have before it is set
    initrdPages: Grant,
    kernelPages: Grant,
    setupPages: Grant,
    cmdlinePool: Grant,
    initrd: File,
    kernel: File,
    scribble: nat -> Memory)   // what the n-th call leaves in memory the stub does not own

  /** `len` bytes from `start`. */
  function Peek(m: Memory, start: nat, len: nat): (s: seq<byte>)
    ensures |s| == len
  {
    seq(len, i requires 0 <= i < len => m(start + i))
  }

  /** What the memory looked like, and where everything was, when the kernel was entered. */
  datatype Handover = Handover(
    entry: nat,
    setup: nat,
    linux: nat,
    cmdline: nat,
    initrd: nat,
    initrdSize: nat,
    mem: Memory)

  class Machine {
    const fw: Firmware
    var mem: Memory
    var owned: set<Region>
    var calls: nat
    var handover: Option<Handover>

    constructor (fw: Firmware, mem: Memory)
      ensures this.fw == fw && this.mem == mem && owned == {} && handover == None
    {
      this.fw := fw;
      this.mem := mem;
      owned, calls, handover := {}, 0, None;
    }

    /** Any call into the firmware: what the stub owns stays, the rest is the firmware's. */
    method Call()
      modifies this`mem, this`calls
      ensures forall a: nat :: Owns(owned, a) ==> mem(a) == old(mem)(a)
    {
      var before, regions, after := mem, owned, fw.scribble(calls);
      mem := (a: nat) => if Owns(regions, a) then before(a) else after(a);
      calls := calls + 1;
    }

    /** `AllocatePages` and `AllocatePool`: on success the region is new, below the limit, and the stub's. */
    method Allocate(grant: Grant, limit: nat, len: nat) returns (status: Status, addr: nat)
      modifies this`mem, this`calls, this`owned
      ensures forall a: nat :: Owns(old(owned), a) ==> mem(a) == old(mem)(a)
      ensures status == grant.Answer(limit, len, old(owned))
      ensures addr == grant.addr
      ensures owned == if status == Success then old(owned) + {Region(addr, len)} else old(owned)
    {
      Call();
      addr := grant.addr;
      if grant.Holds(limit, len, owned) {
        status := Success;
        owned := owned + {Region(addr, len)};
      } else {
        status := if grant.status == Success then OUT_OF_RESOURCES else grant.status;
      }
    }

    /** A store by the stub itself. */
    method Poke(addr: nat, bytes: seq<byte>)
      modifies this`mem
      ensures forall a: nat :: mem(a) == if addr <= a < addr + |bytes| then bytes[a - addr] else old(mem)(a)
    {
      var before, n := mem, |bytes|;
      mem := (a: nat) => if addr <= a < addr + n then bytes[a - addr] else before(a);
    }

    /** `File.Read`: at most `size` bytes; after an error the buffer holds anything. */
    method Read(file: File, size: nat, buffer: nat) returns (status: Status, count: nat)
      modifies this`mem, this`calls
      ensures status == file.read && count == |file.Delivered(size)|
      ensures forall a: nat :: Owns(owned, a) && !Region(buffer, size).Has(a) ==> mem(a) == old(mem)(a)
      ensures status == Success ==> Peek(mem, buffer, count) == file.Delivered(size)
      ensures status == Success ==>
        forall a: nat :: Owns(owned, a) && !Region(buffer, count).Has(a) ==> mem(a) == old(mem)(a)
    {
      var garbage := fw.scribble(calls);
      Call();
      status, count := file.read, |file.Delivered(size)|;
      if status == Success {
        Poke(buffer, file.Delivered(size));
      } else {
        Poke(buffer, Peek(garbage, buffer, size));
      }
    }
  }
}
