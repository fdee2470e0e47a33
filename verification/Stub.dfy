/**
 * The verified-boot stub: read the bound configuration, load, check, and enter the Linux kernel.
 * Line numbers in comments are those of src/stub2/main.zig.
 */
module Stub {
  import opened Bytes
  import opened BootConfig
  import opened Text
  import opened LinuxHeader
  import opened Platform

  /** `Trapped` is a run stopped by one of Zig's safety checks. */
  datatype Exit = Returned(status: Status) | Trapped

  const SETUP_LIMIT: nat := 0x4000_0001     // one past the maximum address 0x40000000
  const KERNEL_OFFSET: nat := 0x2000_0000

  /** Zig's `@divTrunc` for a positive divisor. */
  function DivTrunc(a: int, b: int): int
    requires b > 0
  {
    if a >= 0 then a / b else -(-a / b)
  }

  function PagesFor(length: int): int {
    1 + DivTrunc(length + 0xfff, PAGE_SIZE)
  }

  /** The pages asked for: as many as the length takes in whole pages of 4 KiB, and one more. */
  lemma PagesExactly(length: nat)
    ensures (PagesFor(length) - 2) * 4096 < length <= (PagesFor(length) - 1) * 4096
    ensures PagesFor(length) * PAGE_SIZE == Rounded(length)
  {
  }

  /** The length in whole pages of 4 KiB, and one page more. */
  function Rounded(length: nat): nat { (length + 4095) / 4096 * 4096 + 4096 }

  lemma EnoughPages(length: nat)
    ensures PagesFor(length) * PAGE_SIZE >= length
    ensures PagesFor(length) >= 1
  {
  }

  // ----- checkSha and loadFile -----

  method CheckSha(m: Machine, sha: Sha, src: nat, size: nat, expected: seq<byte>) returns (status: Status)
    ensures status == if Hex(sha(Peek(m.mem, src, size))) == expected then Success else LoadError
  {
    var hash := sha(Peek(m.mem, src, size));
    if expected != Hex(hash) {
      return LoadError;
    }
    return Success;
  }

  method LoadFile(m: Machine, file: File, destination: nat, size: nat) returns (status: Status, loaded: nat)
    modifies m`mem, m`calls
    ensures status == if file.Readable() then Success else LoadError
    ensures loaded <= size
    ensures forall a: nat :: Owns(m.owned, a) && !Region(destination, size).Has(a) ==> m.mem(a) == old(m.mem)(a)
    ensures status == Success ==>
      && loaded == |file.Delivered(size)|
      && Peek(m.mem, destination, loaded) == file.Delivered(size)
      && forall a: nat :: Owns(m.owned, a) && !Region(destination, loaded).Has(a) ==> m.mem(a) == old(m.mem)(a)
  {
    loaded := size;
    m.Call();
    if file.open != Success {
      return LoadError, loaded;
    }
    status, loaded := m.Read(file, size, destination);
    if status != Success {
      status := LoadError;
    }
  }

  // ----- linuxExec -----

  /** When the header is accepted, the page is granted and the kernel's start fits its field. */
  predicate Opens(fw: Firmware, header: seq<byte>, held: set<Region>, linux: nat)
    requires |header| >= SIZE
  {
    && Accepted(header)
    && fw.setupPages.Holds(SETUP_LIMIT, PAGE, held)
    && KernelStart(header, linux) < TWO_32
  }

  /** When the command line gets its pool and every address fits its field. */
  predicate Fills(fw: Firmware, held: set<Region>, cmdline: seq<byte>, initrd: nat, initrdSize: nat) {
    && fw.cmdlinePool.Holds(TWO_64, 2 * |cmdline|, held)
    && fw.cmdlinePool.addr < TWO_32
    && (initrdSize > 0 ==> initrd < TWO_32 && initrdSize < TWO_32)
  }

  /** When everything up to the entry itself goes through. */
  predicate Builds(fw: Firmware, header: seq<byte>, held: set<Region>, cmdline: seq<byte>,
                   linux: nat, initrd: nat, initrdSize: nat)
    requires |header| >= SIZE
  {
    && Opens(fw, header, held, linux)
    && Fills(fw, held + {Region(fw.setupPages.addr, PAGE)}, cmdline, initrd, initrdSize)
  }

  /** When `linuxExec` reaches the kernel's entry point, in terms of what it is given. */
  predicate Launches(fw: Firmware, header: seq<byte>, held: set<Region>, cmdline: seq<byte>,
                     linux: nat, initrd: nat, initrdSize: nat)
    requires |header| >= SIZE
  {
    && Builds(fw, header, held, cmdline, linux, initrd, initrdSize)
    && Entry(header, linux) < TWO_32
  }

  /**
   * The command line is copied with a NUL into a pool of twice its length, so the NUL of an empty
   * command line lands outside the pool. This says that it does not land in the boot-params page.
   */
  predicate NulClear(fw: Firmware, cmdline: seq<byte>) {
    |cmdline| > 0 || !Region(fw.setupPages.addr, PAGE).Has(fw.cmdlinePool.addr)
  }

  function RamdiskOf(initrd: nat, initrdSize: nat): Ramdisk {
    if initrdSize > 0 then Ramdisk(initrd, initrdSize) else NoRamdisk
  }

  lemma PeekSame(m1: Memory, m2: Memory, start: nat, len: nat)
    requires forall a: nat :: start <= a < start + len ==> m1(a) == m2(a)
    ensures Peek(m1, start, len) == Peek(m2, start, len)
  {
  }

  /** The 32-bit value stored at `a`. */
  function Word(m: Memory, a: nat): nat {
    m(a) as nat + 0x100 * m(a + 1) as nat + 0x1_0000 * m(a + 2) as nat + 0x100_0000 * m(a + 3) as nat
  }

  /** A store of a 32-bit field. */
  method Store32(m: Machine, addr: nat, v: nat)
    requires v < TWO_32
    modifies m`mem
    ensures forall a: nat :: !(addr <= a < addr + 4) ==> m.mem(a) == old(m.mem)(a)
    ensures Word(m.mem, addr) == v
  {
    var bytes := Split32(v);
    m.Poke(addr, bytes);
    assert m.mem(addr) == bytes[0] && m.mem(addr + 1) == bytes[1];
    assert m.mem(addr + 2) == bytes[2] && m.mem(addr + 3) == bytes[3];
  }

  /** The little-endian bytes of a 32-bit value. */
  function Split32(v: nat): (s: seq<byte>)
    requires v < TWO_32
    ensures |s| == 4 && v == s[0] as nat + 0x100 * s[1] as nat + 0x1_0000 * s[2] as nat + 0x100_0000 * s[3] as nat
  {
    var q := v / 0x100;
    var r := q / 0x100;
    [v % 0x100, q % 0x100, r % 0x100, r / 0x100]
  }

  method LinuxEfiHandover(m: Machine, setup: nat, cmdline: nat, linux: nat, initrd: nat, initrdSize: nat)
      returns (trapped: bool)
    modifies m`handover
    ensures var entry := Word(m.mem, setup + CODE32_START) + 512 + Word(m.mem, setup + HANDOVER_OFFSET);
            && (trapped <==> entry >= TWO_32)
            && (trapped ==> m.handover == old(m.handover))
            && (!trapped ==> m.handover == Some(Handover(entry, setup, linux, cmdline, initrd, initrdSize, m.mem)))
  {
    var entry := Word(m.mem, setup + CODE32_START) + 512 + Word(m.mem, setup + HANDOVER_OFFSET);
    if entry >= TWO_32 {
      return true;
    }
    m.handover := Some(Handover(entry, setup, linux, cmdline, initrd, initrdSize, m.mem));
    return false;
  }

  /** The boot-params page as it stands before the command line and the ramdisk are filled in. */
  ghost predicate Prepared(mem: Memory, setup: nat, header: seq<byte>, linux: nat, ramdisk: bool)
    requires |header| == SIZE
  {
    && (forall a: nat :: setup <= a < setup + PAGE && !Filled(a - setup, ramdisk) ==>
          mem(a) == if a < setup + SIZE then header[a - setup] else 0)
    && mem(setup + LOADER_ID) == 0xff
    && Word(mem, setup + CODE32_START) == KernelStart(header, linux)
  }

  /** A store outside the page, or to a field filled in later, keeps it prepared. */
  lemma StaysPrepared(m1: Memory, m2: Memory, setup: nat, header: seq<byte>, linux: nat, before: bool, after: bool)
    requires |header| == SIZE
    requires Prepared(m1, setup, header, linux, before)
    requires before ==> after
    requires forall a: nat :: setup <= a < setup + PAGE && m1(a) != m2(a) ==>
      CMD_LINE_PTR <= a - setup < CMD_LINE_PTR + 4 || (after && RAMDISK_START <= a - setup < RAMDISK_LEN + 4)
    ensures Prepared(m2, setup, header, linux, after)
  {
  }

  /** What is at `a` once the page at `setup` is zeroed and the header at `linux` copied into it. */
  function HeaderByte(before: Memory, setup: nat, linux: nat, a: nat): byte {
    if setup <= a < setup + SIZE then before(linux + (a - setup))
    else if setup <= a < setup + PAGE then 0
    else before(a)
  }

  /** Lines 247 to 249: zero the page and copy the header into it. */
  method CopyHeader(m: Machine, setup: nat, linux: nat)
    requires Region(setup, PAGE).Apart(Region(linux, SIZE))
    modifies m`mem
    ensures forall a: nat :: m.mem(a) == HeaderByte(old(m.mem), setup, linux, a)
  {
    m.Poke(setup, seq(PAGE, _ => 0));
    m.Poke(setup, Peek(m.mem, linux, SIZE));
  }

  /** Lines 247 to 255: the page with the header, the loader id and the kernel start. */
  method PrepareSetup(m: Machine, setup: nat, linux: nat, start: nat)
    requires Region(setup, PAGE).Apart(Region(linux, SIZE))
    requires start == KernelStart(Peek(m.mem, linux, SIZE), linux) < TWO_32
    modifies m`mem
    ensures Prepared(m.mem, setup, old(Peek(m.mem, linux, SIZE)), linux, false)
    ensures forall a: nat :: !Region(setup, PAGE).Has(a) ==> m.mem(a) == old(m.mem)(a)
  {
    ghost var before := m.mem;
    CopyHeader(m, setup, linux);
    ghost var copied := m.mem;
    MarkSetup(m, setup, start);
    HeaderCopied(before, copied, m.mem, setup, linux);
  }

  /** Lines 252 to 255: the loader id and the kernel start. */
  method MarkSetup(m: Machine, setup: nat, start: nat)
    requires start < TWO_32
    modifies m`mem
    ensures m.mem(setup + LOADER_ID) == 0xff && Word(m.mem, setup + CODE32_START) == start
    ensures forall a: nat :: !Filled(a - setup, false) ==> m.mem(a) == old(m.mem)(a)
  {
    m.Poke(setup + LOADER_ID, [0xff]);
    Store32(m, setup + CODE32_START, start);
  }

  lemma HeaderCopied(before: Memory, copied: Memory, final: Memory, setup: nat, linux: nat)
    requires forall a: nat :: copied(a) == HeaderByte(before, setup, linux, a)
    requires forall a: nat :: !Filled(a - setup, false) ==> final(a) == copied(a)
    requires final(setup + LOADER_ID) == 0xff
    requires Word(final, setup + CODE32_START) == KernelStart(Peek(before, linux, SIZE), linux)
    ensures Prepared(final, setup, Peek(before, linux, SIZE), linux, false)
    ensures forall a: nat :: !Region(setup, PAGE).Has(a) ==> final(a) == before(a)
  {
    var header := Peek(before, linux, SIZE);
    forall a: nat | setup <= a < setup + PAGE && !Filled(a - setup, false)
      ensures final(a) == if a < setup + SIZE then header[a - setup] else 0
    {
      assert final(a) == copied(a) == HeaderByte(before, setup, linux, a);
      if a < setup + SIZE {
        assert header[a - setup] == before(linux + (a - setup));
      }
    }
  }

  /** Lines 226 to 234. */
  method CheckHeader(m: Machine, linux: nat) returns (ok: bool)
    ensures ok <==> Accepted(Peek(m.mem, linux, SIZE))
  {
    var image := Peek(m.mem, linux, SIZE);
    if U16(image, SIGNATURE) != 0xAA55 || U32(image, HEADER) != SETUP_MAGIC {
      return false;
    }
    if U16(image, VERSION) < 0x20b || image[RELOCATABLE_KERNEL] == 0 {
      return false;
    }
    return true;
  }

  /** The page is still prepared, unless the NUL of an empty command line fell into it. */
  ghost predicate PageKept(m: Machine, setup: nat, cmdline: seq<byte>, header: seq<byte>, linux: nat, ramdisk: bool)
    requires |header| == SIZE
    reads m
  {
    NulClear(m.fw, cmdline) ==> Prepared(m.mem, setup, header, linux, ramdisk)
  }

  /** Lines 266 to 268: the copy with its NUL, and the pointer to it. */
  method CopyCmdline(m: Machine, setup: nat, pool: nat, cmdline: seq<byte>)
    requires pool < TWO_32
    requires Region(pool, 2 * |cmdline|).Apart(Region(setup, PAGE))
    modifies m`mem
    ensures Word(m.mem, setup + CMD_LINE_PTR) == pool
    ensures |cmdline| > 0 ==> Peek(m.mem, pool, |cmdline| + 1) == cmdline + [NUL]
    ensures forall a: nat :: !(setup + CMD_LINE_PTR <= a < setup + CMD_LINE_PTR + 4) && !(pool <= a < pool + |cmdline|) ==>
      m.mem(a) == if a == pool + |cmdline| then NUL else old(m.mem)(a)
  {
    m.Poke(pool, cmdline);
    m.Poke(pool + |cmdline|, [NUL]);
    ghost var copied := m.mem;
    assert Peek(copied, pool, |cmdline| + 1) == cmdline + [NUL];
    Store32(m, setup + CMD_LINE_PTR, pool);
    if |cmdline| > 0 {
      PeekSame(copied, m.mem, pool, |cmdline| + 1);
    }
  }

  /**
   * Lines 257 to 268: a pool for the command line, then the copy. The cast of the pool's address traps
   * only after the copy; a trapped run is over, so what was copied before it is not observed.
   */
  method PlaceCmdline(m: Machine, setup: nat, cmdline: seq<byte>, ghost header: seq<byte>, ghost linux: nat)
      returns (stop: Option<Exit>, pool: nat)
    requires Region(setup, PAGE) in m.owned && setup == m.fw.setupPages.addr
    requires |header| == SIZE && Prepared(m.mem, setup, header, linux, false)
    modifies m`mem, m`calls, m`owned
    ensures pool == m.fw.cmdlinePool.addr
    ensures stop.None? <==> Fills(m.fw, old(m.owned), cmdline, 0, 0)
    ensures stop.Some? ==>
      stop.value == if m.fw.cmdlinePool.Holds(TWO_64, 2 * |cmdline|, old(m.owned)) then Trapped else Returned(LoadError)
    ensures stop.None? ==> m.owned == old(m.owned) + {Region(pool, 2 * |cmdline|)}
    ensures stop.None? ==> PageKept(m, setup, cmdline, header, linux, false)
    ensures stop.None? ==> Word(m.mem, setup + CMD_LINE_PTR) == pool
    ensures stop.None? && |cmdline| > 0 ==> Peek(m.mem, pool, |cmdline| + 1) == cmdline + [NUL]
    ensures stop.None? ==>
      forall a: nat :: Owns(old(m.owned), a) && !Region(setup, PAGE).Has(a) ==>
        m.mem(a) == if a == pool + |cmdline| then NUL else old(m.mem)(a)
  {
    var status;
    status, pool := m.Allocate(m.fw.cmdlinePool, TWO_64, 2 * |cmdline|);
    if status != Success {
      stop := Some(Returned(LoadError));
    } else if pool >= TWO_32 {
      stop := Some(Trapped);
    } else {
      stop := None;
      ghost var before := m.mem;
      PageIsOwned(old(m.mem), before, old(m.owned), setup, header, linux, false);
      StoreCmdline(m, setup, pool, cmdline, header, linux, old(m.mem), old(m.owned));
    }
  }

  /** Lines 266 to 268, with what is kept. */
  method StoreCmdline(m: Machine, setup: nat, pool: nat, cmdline: seq<byte>, ghost header: seq<byte>, ghost linux: nat,
                      ghost before: Memory, ghost held: set<Region>)
    requires Region(setup, PAGE) in held && setup == m.fw.setupPages.addr && pool == m.fw.cmdlinePool.addr < TWO_32
    requires forall r :: r in held ==> Region(pool, 2 * |cmdline|).Apart(r)
    requires |header| == SIZE && Prepared(m.mem, setup, header, linux, false)
    requires forall a: nat :: Owns(held, a) ==> m.mem(a) == before(a)
    modifies m`mem
    ensures PageKept(m, setup, cmdline, header, linux, false)
    ensures Word(m.mem, setup + CMD_LINE_PTR) == pool
    ensures |cmdline| > 0 ==> Peek(m.mem, pool, |cmdline| + 1) == cmdline + [NUL]
    ensures forall a: nat :: Owns(held, a) && !Region(setup, PAGE).Has(a) ==>
      m.mem(a) == if a == pool + |cmdline| then NUL else before(a)
  {
    ghost var granted := m.mem;
    assert Region(pool, 2 * |cmdline|).Apart(Region(setup, PAGE));
    CopyCmdline(m, setup, pool, cmdline);
    if NulClear(m.fw, cmdline) {
      StaysPrepared(granted, m.mem, setup, header, linux, false, false);
    }
    OnlyNul(before, granted, m.mem, held, setup, pool, cmdline);
  }

  lemma OnlyNul(m0: Memory, m1: Memory, m2: Memory, held: set<Region>, setup: nat, pool: nat, cmdline: seq<byte>)
    requires forall r :: r in held ==> Region(pool, 2 * |cmdline|).Apart(r)
    requires forall a: nat :: Owns(held, a) ==> m1(a) == m0(a)
    requires forall a: nat :: !(setup + CMD_LINE_PTR <= a < setup + CMD_LINE_PTR + 4) && !(pool <= a < pool + |cmdline|) ==>
      m2(a) == if a == pool + |cmdline| then NUL else m1(a)
    ensures forall a: nat :: Owns(held, a) && !Region(setup, PAGE).Has(a) ==>
      m2(a) == if a == pool + |cmdline| then NUL else m0(a)
  {
    forall a: nat | Owns(held, a) && !Region(setup, PAGE).Has(a)
      ensures m2(a) == if a == pool + |cmdline| then NUL else m0(a)
    {
      ApartFromGrant(held, Region(pool, 2 * |cmdline|), a);
    }
  }

  /** The page is the stub's, so a firmware call keeps it. */
  lemma PageIsOwned(m1: Memory, m2: Memory, held: set<Region>, setup: nat, header: seq<byte>, linux: nat, ramdisk: bool)
    requires Region(setup, PAGE) in held
    requires forall a: nat :: Owns(held, a) ==> m2(a) == m1(a)
    ensures forall a: nat :: Region(setup, PAGE).Has(a) ==> m2(a) == m1(a)
    ensures |header| == SIZE && Prepared(m1, setup, header, linux, ramdisk) ==> Prepared(m2, setup, header, linux, ramdisk)
  {
    assert forall a: nat :: Region(setup, PAGE).Has(a) ==> Owns(held, a);
    if |header| == SIZE && Prepared(m1, setup, header, linux, ramdisk) {
      StaysPrepared(m1, m2, setup, header, linux, ramdisk, ramdisk);
    }
  }

  lemma ApartFromGrant(held: set<Region>, r: Region, a: nat)
    requires forall h :: h in held ==> r.Apart(h)
    requires Owns(held, a)
    ensures !r.Has(a)
  {
  }

  /** Lines 271 to 274. */
  method PlaceRamdisk(m: Machine, setup: nat, initrd: nat, initrdSize: nat) returns (trapped: bool)
    modifies m`mem
    ensures trapped <==> initrdSize > 0 && (initrd >= TWO_32 || initrdSize >= TWO_32)
    ensures initrdSize == 0 ==> m.mem == old(m.mem)
    ensures forall a: nat :: !(setup + RAMDISK_START <= a < setup + RAMDISK_LEN + 4) ==> m.mem(a) == old(m.mem)(a)
    ensures initrdSize > 0 && !trapped ==>
      && Word(m.mem, setup + RAMDISK_START) == initrd
      && Word(m.mem, setup + RAMDISK_LEN) == initrdSize
  {
    if initrdSize > 0 {
      if initrd >= TWO_32 {
        return true;
      }
      Store32(m, setup + RAMDISK_START, initrd);
      if initrdSize >= TWO_32 {
        return true;
      }
      Store32(m, setup + RAMDISK_LEN, initrdSize);
    }
    return false;
  }

  /** A page that stays prepared, with the pointer and the ramdisk fields in place, is the boot-params page. */
  lemma PageComplete(mem: Memory, setup: nat, header: seq<byte>, linux: nat, cmdline: nat, ramdisk: Ramdisk)
    requires |header| == SIZE
    requires Prepared(mem, setup, header, linux, ramdisk.Ramdisk?)
    requires Word(mem, setup + CMD_LINE_PTR) == cmdline
    requires ramdisk.Ramdisk? ==>
      && Word(mem, setup + RAMDISK_START) == ramdisk.start
      && Word(mem, setup + RAMDISK_LEN) == ramdisk.len
    ensures BootParams(Peek(mem, setup, PAGE), header, linux, cmdline, ramdisk)
  {
    WordOfPage(mem, setup, CODE32_START);
    WordOfPage(mem, setup, CMD_LINE_PTR);
    WordOfPage(mem, setup, RAMDISK_START);
    WordOfPage(mem, setup, RAMDISK_LEN);
  }

  lemma WordOfPage(mem: Memory, setup: nat, offset: nat)
    requires offset + 4 <= PAGE
    ensures U32(Peek(mem, setup, PAGE), offset) == Word(mem, setup + offset)
  {
  }

  lemma OwnedStays(m1: Memory, m2: Memory, held: set<Region>, region: Region, start: nat, len: nat)
    requires forall a: nat :: Owns(held, a) ==> m2(a) == m1(a)
    requires region in held && region.start <= start && start + len <= region.start + region.len
    ensures Peek(m2, start, len) == Peek(m1, start, len)
  {
    assert forall a: nat :: region.Has(a) ==> Owns(held, a);
    PeekSame(m1, m2, start, len);
  }

  /** Lines 271 to 275: the ramdisk fields and the log call, on a page whose command line is placed. */
  method PlaceRamdiskAndLog(m: Machine, setup: nat, pool: nat, cmdline: seq<byte>, initrd: nat, initrdSize: nat,
                            ghost header: seq<byte>, ghost linux: nat)
      returns (trapped: bool)
    requires Region(setup, PAGE) in m.owned && Region(pool, 2 * |cmdline|) in m.owned
    requires Region(pool, 2 * |cmdline|).Apart(Region(setup, PAGE))
    requires |header| == SIZE && PageKept(m, setup, cmdline, header, linux, false)
    requires Word(m.mem, setup + CMD_LINE_PTR) == pool
    requires |cmdline| > 0 ==> Peek(m.mem, pool, |cmdline| + 1) == cmdline + [NUL]
    modifies m`mem, m`calls
    ensures trapped <==> initrdSize > 0 && (initrd >= TWO_32 || initrdSize >= TWO_32)
    ensures !trapped && NulClear(m.fw, cmdline) ==>
      BootParams(Peek(m.mem, setup, PAGE), header, linux, pool, RamdiskOf(initrd, initrdSize))
    ensures !trapped && |cmdline| > 0 ==> Peek(m.mem, pool, |cmdline| + 1) == cmdline + [NUL]
    ensures !trapped ==>
      forall a: nat :: Owns(m.owned, a) && !Region(setup, PAGE).Has(a) ==> m.mem(a) == old(m.mem)(a)
  {
    ghost var placed, clear := m.mem, NulClear(m.fw, cmdline);
    trapped := PlaceRamdisk(m, setup, initrd, initrdSize);
    if !trapped {
      ghost var filled := m.mem;
      m.Call(); // log
      if |cmdline| > 0 {
        PeekSame(placed, filled, pool, |cmdline| + 1);
        OwnedStays(filled, m.mem, m.owned, Region(pool, 2 * |cmdline|), pool, |cmdline| + 1);
      }
      if clear {
        PageFilled(placed, filled, m.mem, m.owned, setup, header, linux, pool, RamdiskOf(initrd, initrdSize));
      }
    }
  }

  lemma PageFilled(placed: Memory, filled: Memory, final: Memory, held: set<Region>, setup: nat, header: seq<byte>,
                   linux: nat, pool: nat, ramdisk: Ramdisk)
    requires Region(setup, PAGE) in held
    requires |header| == SIZE && Prepared(placed, setup, header, linux, false)
    requires Word(placed, setup + CMD_LINE_PTR) == pool
    requires ramdisk.NoRamdisk? ==> filled == placed
    requires forall a: nat :: !(setup + RAMDISK_START <= a < setup + RAMDISK_LEN + 4) ==> filled(a) == placed(a)
    requires ramdisk.Ramdisk? ==>
      && Word(filled, setup + RAMDISK_START) == ramdisk.start
      && Word(filled, setup + RAMDISK_LEN) == ramdisk.len
    requires forall a: nat :: Owns(held, a) ==> final(a) == filled(a)
    ensures BootParams(Peek(final, setup, PAGE), header, linux, pool, ramdisk)
  {
    StaysPrepared(placed, filled, setup, header, linux, false, ramdisk.Ramdisk?);
    PageIsOwned(filled, final, held, setup, header, linux, ramdisk.Ramdisk?);
    PageComplete(final, setup, header, linux, pool, ramdisk);
  }

  /** The memory in which the kernel is entered, given the memory `before` and regions `held` at the call. */
  ghost predicate Built(mem: Memory, fw: Firmware, before: Memory, held: set<Region>, cmdline: seq<byte>,
                        linux: nat, initrd: nat, initrdSize: nat) {
    var pool := fw.cmdlinePool.addr;
    // Nothing the caller held has changed, except for the NUL of an empty command line.
    && (forall a: nat :: Owns(held, a) ==> mem(a) == if a == pool + |cmdline| then NUL else before(a))
    && (NulClear(fw, cmdline) ==>
        BootParams(Peek(mem, fw.setupPages.addr, PAGE), Peek(before, linux, SIZE), linux, pool, RamdiskOf(initrd, initrdSize)))
    && (|cmdline| > 0 ==> Peek(mem, pool, |cmdline| + 1) == cmdline + [NUL])
  }

  /** Some region held includes all of [start, start + len). */
  predicate Covers(regions: set<Region>, start: nat, len: nat) {
    exists r :: r in regions && r.start <= start && start + len <= r.start + r.len
  }

  lemma CoveredIsOwned(regions: set<Region>, start: nat, len: nat)
    requires Covers(regions, start, len)
    ensures forall a: nat :: start <= a < start + len ==> Owns(regions, a)
  {
    var r :| r in regions && r.start <= start && start + len <= r.start + r.len;
    assert forall a: nat :: start <= a < start + len ==> r.Has(a);
  }

  lemma CoveredIsApart(regions: set<Region>, start: nat, len: nat, grant: Region)
    requires Covers(regions, start, len)
    requires forall r :: r in regions ==> grant.Apart(r)
    ensures grant.Apart(Region(start, len))
  {
  }

  /** How the run ends without a page: a bad header, a refused allocation, or a start above 4 GiB. */
  function SetupRefusal(fw: Firmware, header: seq<byte>, held: set<Region>): (e: Exit)
    requires |header| >= SIZE
    ensures e != Returned(Success)
  {
    if !Accepted(header) then Returned(LoadError)
    else if !fw.setupPages.Holds(SETUP_LIMIT, PAGE, held) then Returned(fw.setupPages.Answer(SETUP_LIMIT, PAGE, held))
    else Trapped
  }

  /** Lines 222 to 243: check the header and get the page. */
  method GrantSetup(m: Machine, linux: nat) returns (stop: Option<Exit>, setup: nat)
    modifies m`mem, m`calls, m`owned
    ensures setup == m.fw.setupPages.addr
    ensures var header := old(Peek(m.mem, linux, SIZE));
            && (stop.None? <==> Accepted(header) && m.fw.setupPages.Holds(SETUP_LIMIT, PAGE, old(m.owned)))
            && (stop.Some? ==> stop.value == SetupRefusal(m.fw, header, old(m.owned)))
    ensures stop.None? ==>
      m.owned == old(m.owned) + {Region(setup, PAGE)} && forall a: nat :: Owns(old(m.owned), a) ==> m.mem(a) == old(m.mem)(a)
  {
    setup := m.fw.setupPages.addr;
    var ok := CheckHeader(m, linux);
    if !ok {
      return Some(Returned(LoadError)), setup;
    }
    var status;
    status, setup := m.Allocate(m.fw.setupPages, SETUP_LIMIT, PAGE);
    stop := if status != Success then Some(Returned(status)) else None;
  }

  /** Lines 222 to 255: check the header, get the page, and copy the header into it. */
  method OpenSetup(m: Machine, linux: nat) returns (stop: Option<Exit>, setup: nat)
    requires Covers(m.owned, linux, SIZE)
    modifies m`mem, m`calls, m`owned
    ensures setup == m.fw.setupPages.addr
    ensures stop.Some? ==> stop.value == SetupRefusal(m.fw, old(Peek(m.mem, linux, SIZE)), old(m.owned))
    ensures var header := old(Peek(m.mem, linux, SIZE));
            && (stop.None? <==> Opens(m.fw, header, old(m.owned), linux))
            && (stop.None? ==>
                && m.owned == old(m.owned) + {Region(setup, PAGE)}
                && Prepared(m.mem, setup, header, linux, false)
                && forall a: nat :: Owns(old(m.owned), a) ==> m.mem(a) == old(m.mem)(a))
  {
    ghost var before, held := m.mem, m.owned;
    stop, setup := GrantSetup(m, linux);
    if stop.None? {
      CoveredIsOwned(held, linux, SIZE);
      PeekSame(before, m.mem, linux, SIZE);
      var start := linux + (m.mem(linux + SETUP_SECS) as nat + 1) * 512;
      if start >= TWO_32 {
        stop := Some(Trapped);
      } else {
        CoveredIsApart(held, linux, SIZE, Region(setup, PAGE));
        PrepareSetup(m, setup, linux, start);
        forall a: nat | Owns(held, a) ensures m.mem(a) == before(a) {
          ApartFromGrant(held, Region(setup, PAGE), a);
        }
      }
    }
  }

  /** Lines 257 to 275, on a page that is prepared. */
  method FillSetup(m: Machine, setup: nat, cmdline: seq<byte>, linux: nat, initrd: nat, initrdSize: nat,
                   ghost before: Memory, ghost held: set<Region>)
      returns (stop: Option<Exit>, pool: nat)
    requires m.owned == held + {Region(setup, PAGE)} && setup == m.fw.setupPages.addr
    requires m.fw.setupPages.Holds(SETUP_LIMIT, PAGE, held)
    requires Prepared(m.mem, setup, Peek(before, linux, SIZE), linux, false)
    requires forall a: nat :: Owns(held, a) ==> m.mem(a) == before(a)
    modifies m`mem, m`calls, m`owned
    ensures pool == m.fw.cmdlinePool.addr
    ensures stop.None? <==> Fills(m.fw, held + {Region(setup, PAGE)}, cmdline, initrd, initrdSize)
    ensures stop.Some? ==> stop.value != Returned(Success)
    ensures stop.None? ==> Built(m.mem, m.fw, before, held, cmdline, linux, initrd, initrdSize)
  {
    ghost var header := Peek(before, linux, SIZE);
    stop, pool := PlaceCmdline(m, setup, cmdline, header, linux);
    if stop.None? {
      var trapped := PlaceRamdiskAndLog(m, setup, pool, cmdline, initrd, initrdSize, header, linux);
      if trapped {
        stop := Some(Trapped);
      } else {
        forall a: nat | Owns(held, a)
          ensures m.mem(a) == if a == pool + |cmdline| then NUL else before(a)
        {
          ApartFromGrant(held, Region(setup, PAGE), a);
          assert Owns(old(m.owned), a) && Owns(m.owned, a);
        }
      }
    }
  }

  /** Lines 222 to 275: everything `linuxExec` does before it enters the kernel. */
  method BuildSetup(m: Machine, cmdline: seq<byte>, linux: nat, initrd: nat, initrdSize: nat)
      returns (stop: Option<Exit>, setup: nat, pool: nat)
    requires Covers(m.owned, linux, SIZE)
    modifies m`mem, m`calls, m`owned
    ensures stop.Some? ==> stop.value != Returned(Success)
    ensures stop.None? <==>
      Builds(m.fw, old(Peek(m.mem, linux, SIZE)), old(m.owned), cmdline, linux, initrd, initrdSize)
    ensures stop.None? ==>
      && setup == m.fw.setupPages.addr && pool == m.fw.cmdlinePool.addr
      && Built(m.mem, m.fw, old(m.mem), old(m.owned), cmdline, linux, initrd, initrdSize)
  {
    pool := m.fw.cmdlinePool.addr;
    ghost var before, held := m.mem, m.owned;
    stop, setup := OpenSetup(m, linux);
    if stop.None? {
      stop, pool := FillSetup(m, setup, cmdline, linux, initrd, initrdSize, before, held);
    }
  }

  /** What is true when the kernel is entered. */
  ghost predicate HandedOver(h: Handover, fw: Firmware, before: Memory, held: set<Region>, cmdline: seq<byte>,
                             linux: nat, initrd: nat, initrdSize: nat) {
    && h.linux == linux && h.setup == fw.setupPages.addr && h.cmdline == fw.cmdlinePool.addr
    && h.initrd == initrd && h.initrdSize == initrdSize
    && Accepted(Peek(before, linux, SIZE))
    && (NulClear(fw, cmdline) ==> h.entry == Entry(Peek(before, linux, SIZE), linux))
    && Built(h.mem, fw, before, held, cmdline, linux, initrd, initrdSize)
  }

  /** The fields the entry point is computed from, as the page holds them. */
  lemma EntryFields(mem: Memory, setup: nat, header: seq<byte>, linux: nat, cmdline: nat, ramdisk: Ramdisk)
    requires |header| == SIZE
    requires BootParams(Peek(mem, setup, PAGE), header, linux, cmdline, ramdisk)
    ensures Word(mem, setup + CODE32_START) + 512 + Word(mem, setup + HANDOVER_OFFSET) == Entry(header, linux)
  {
    var page := Peek(mem, setup, PAGE);
    WordOfPage(mem, setup, CODE32_START);
    WordOfPage(mem, setup, HANDOVER_OFFSET);
    assert forall i :: HANDOVER_OFFSET <= i < HANDOVER_OFFSET + 4 ==> page[i] == header[i];
  }

  method LinuxExec(m: Machine, cmdline: seq<byte>, linux: nat, initrd: nat, initrdSize: nat) returns (exit: Exit)
    requires m.handover == None
    requires Covers(m.owned, linux, SIZE)
    modifies m
    // The call never reports success: either the kernel was entered, or there was an error.
    ensures exit != Returned(Success)
    ensures m.handover.Some? ==> exit == Returned(LoadError)
    ensures NulClear(m.fw, cmdline) ==>
      (m.handover.Some? <==> Launches(m.fw, old(Peek(m.mem, linux, SIZE)), old(m.owned), cmdline, linux, initrd, initrdSize))
    ensures m.handover.Some? ==> HandedOver(m.handover.value, m.fw, old(m.mem), old(m.owned), cmdline, linux, initrd, initrdSize)
    // Whatever kernel is there at the call, its code is what is run.
    ensures m.handover.Some? && |cmdline| > 0 ==>
      forall image :: Stored(old(m.mem), old(m.owned), linux, image) ==> RunsImage(m.handover.value, image)
  {
    var stop, setup, pool := BuildSetup(m, cmdline, linux, initrd, initrdSize);
    if stop.Some? {
      exit := stop.value;
    } else {
      exit := EnterKernel(m, setup, pool, cmdline, linux, initrd, initrdSize, old(m.mem), old(m.owned));
      if m.handover.Some? && |cmdline| > 0 {
        forall image | Stored(old(m.mem), old(m.owned), linux, image) ensures RunsImage(m.handover.value, image) {
          StoredRuns(m.handover.value, m.fw, old(m.mem), old(m.owned), cmdline, linux, initrd, initrdSize, image);
        }
      }
    }
  }

  /** A kernel with at least its header is in held memory. */
  ghost predicate Stored(mem: Memory, held: set<Region>, linux: nat, image: seq<byte>) {
    |image| >= 0x268 && Covers(held, linux, |image|) && Peek(mem, linux, |image|) == image
  }

  lemma StoredRuns(h: Handover, fw: Firmware, before: Memory, held: set<Region>, cmdline: seq<byte>,
                   linux: nat, initrd: nat, initrdSize: nat, image: seq<byte>)
    requires HandedOver(h, fw, before, held, cmdline, linux, initrd, initrdSize) && |cmdline| > 0
    requires Fills(fw, held + {Region(fw.setupPages.addr, PAGE)}, cmdline, initrd, initrdSize)
    requires Stored(before, held, linux, image)
    ensures RunsImage(h, image)
  {
    var region :| region in held && region.start <= linux && linux + |image| <= region.start + region.len;
    HeldUnchanged(h, fw, before, held, cmdline, linux, initrd, initrdSize, region, linux, |image|);
    HeaderOfFile(before, linux, image);
    ImageRuns(h, image, RamdiskOf(initrd, initrdSize));
  }

  /** Lines 277 to 279. */
  method EnterKernel(m: Machine, setup: nat, pool: nat, ghost cmdline: seq<byte>, linux: nat, initrd: nat, initrdSize: nat,
                     ghost before: Memory, ghost held: set<Region>)
      returns (exit: Exit)
    requires m.handover == None && setup == m.fw.setupPages.addr && pool == m.fw.cmdlinePool.addr
    requires Accepted(Peek(before, linux, SIZE))
    requires Built(m.mem, m.fw, before, held, cmdline, linux, initrd, initrdSize)
    modifies m`handover
    ensures exit != Returned(Success)
    ensures m.handover.Some? ==> exit == Returned(LoadError)
    ensures NulClear(m.fw, cmdline) ==> (m.handover.Some? <==> Entry(Peek(before, linux, SIZE), linux) < TWO_32)
    ensures m.handover.Some? ==> HandedOver(m.handover.value, m.fw, before, held, cmdline, linux, initrd, initrdSize)
  {
    if NulClear(m.fw, cmdline) {
      EntryFields(m.mem, setup, Peek(before, linux, SIZE), linux, pool, RamdiskOf(initrd, initrdSize));
    }
    var trapped := LinuxEfiHandover(m, setup, pool, linux, initrd, initrdSize);
    exit := if trapped then Trapped else Returned(LoadError); // the kernel should never return
  }

  // ----- what the entry point means -----

  /** A kernel file: the boot sector, the setup sectors it counts, and the code behind them. */
  predicate Sections(image: seq<byte>, boot: seq<byte>, setup: seq<byte>, code: seq<byte>) {
    image == boot + setup + code && |boot| == 512 && |setup| == 512 * boot[0x1f1] as nat
  }

  /**
   * The page points to the code of the kernel in memory, and the kernel is entered there, at its 64-bit
   * entry, 512 bytes and the hand-over offset of its header further.
   */
  ghost predicate RunsImage(h: Handover, image: seq<byte>)
    requires |image| >= 0x268
  {
    forall boot, setup, code :: Sections(image, boot, setup, code) ==>
      var start := FromLe(Peek(h.mem, h.setup + 0x214, 4));
      && Peek(h.mem, start, |code|) == code
      && h.entry == start + 512 + FromLe(image[0x264..0x268])
  }

  lemma ImageRuns(h: Handover, image: seq<byte>, ramdisk: Ramdisk)
    requires |image| >= SIZE && Peek(h.mem, h.linux, |image|) == image
    requires BootParams(Peek(h.mem, h.setup, PAGE), image[..SIZE], h.linux, h.cmdline, ramdisk)
    requires h.entry == Entry(image[..SIZE], h.linux)
    ensures RunsImage(h, image)
  {
    var start := FromLe(Peek(h.mem, h.setup + 0x214, 4));
    StartField(h.mem, h.setup, KernelStart(image[..SIZE], h.linux));
    EntryInBytes(image, h.linux);
    forall boot, setup, code | Sections(image, boot, setup, code)
      ensures Peek(h.mem, start, |code|) == code && h.entry == start + 512 + FromLe(image[0x264..0x268])
    {
      assert image[0x1f1] == boot[0x1f1] == image[..SIZE][0x1f1];
      SuffixInMemory(h.mem, h.linux, image, |boot| + |setup|, code);
    }
  }

  lemma StartField(mem: Memory, setup: nat, start: nat)
    requires U32(Peek(mem, setup, PAGE), CODE32_START) == start
    ensures FromLe(Peek(mem, setup + 0x214, 4)) == start
  {
    FieldIsLe(Peek(mem, setup, PAGE), CODE32_START);
    assert Peek(mem, setup, PAGE)[CODE32_START..CODE32_START + 4] == Peek(mem, setup + 0x214, 4);
  }

  lemma SuffixInMemory(mem: Memory, at: nat, image: seq<byte>, k: nat, code: seq<byte>)
    requires k <= |image| && image[k..] == code && Peek(mem, at, |image|) == image
    ensures Peek(mem, at + k, |code|) == code
  {
    forall i | 0 <= i < |code| ensures Peek(mem, at + k, |code|)[i] == code[i] {
      assert Peek(mem, at, |image|)[k + i] == mem(at + k + i);
    }
  }

  // ----- main -----

  predicate ProtocolsOpen(fw: Firmware) {
    fw.loadedImage == Success && fw.fileSystem == Success && fw.devicePath == Success && fw.volume == Success
  }

  /** The status of the first of the four protocol calls that fails. */
  function FirstFailure(fw: Firmware): Status {
    if fw.loadedImage != Success then fw.loadedImage
    else if fw.fileSystem != Success then fw.fileSystem
    else if fw.devicePath != Success then fw.devicePath
    else fw.volume
  }

  /** What is held once the initrd has its pages. */
  function HeldInitrd(fw: Firmware, c: Config): set<Region> {
    if c.initrdLength > 0 then {Region(fw.initrdPages.addr, PagesFor(c.initrdLength) * PAGE_SIZE)} else {}
  }

  function HeldBoth(fw: Firmware, c: Config): set<Region>
    requires c.kernelLength >= 0
  {
    HeldInitrd(fw, c) + {Region(fw.kernelPages.addr, PagesFor(c.kernelLength) * PAGE_SIZE)}
  }

  /** The initrd is granted its pages, and what the file delivers has the digest of the configuration. */
  predicate InitrdVerifies(fw: Firmware, sha: Sha, c: Config) {
    && c.initrdLength + 0xfff < TWO_64
    && fw.initrdPages.Holds(fw.initrdLimit + 1, PagesFor(c.initrdLength) * PAGE_SIZE, {})
    && Hex(sha(fw.initrd.Delivered(c.initrdLength))) == c.initrdSha
  }

  predicate KernelVerifies(fw: Firmware, sha: Sha, c: Config) {
    && 0 <= c.kernelLength <= MAX_I32 - 0xfff
    && fw.kernelPages.Holds(fw.imageBase + KERNEL_OFFSET + 1, PagesFor(c.kernelLength) * PAGE_SIZE, HeldInitrd(fw, c))
    && fw.kernel.Readable()
    && Hex(sha(fw.kernel.Delivered(c.kernelLength))) == c.kernelSha
  }

  /** The address and size of the initrd that `linuxExec` is given. */
  function InitrdGiven(fw: Firmware, c: Config): (nat, nat) {
    if c.initrdLength > 0 then (fw.initrdPages.addr, |fw.initrd.Delivered(c.initrdLength)|) else (fw.initrdLimit, 0)
  }

  /** When a bound stub reaches the kernel, for a kernel file at least as long as its header. */
  predicate Boots(fw: Firmware, sha: Sha, c: Config) {
    && (c.initrdLength > 0 ==> InitrdVerifies(fw, sha, c))
    && KernelVerifies(fw, sha, c)
    && |fw.kernel.Delivered(c.kernelLength)| >= SIZE
    && Launches(fw, fw.kernel.Delivered(c.kernelLength)[..SIZE], HeldBoth(fw, c), c.cmdline,
                fw.kernelPages.addr, InitrdGiven(fw, c).0, InitrdGiven(fw, c).1)
  }

  /** `image` has the digest of the configuration, and is what the file delivers unless reading it failed. */
  predicate InitrdChecked(fw: Firmware, sha: Sha, c: Config, image: seq<byte>) {
    && Hex(sha(image)) == c.initrdSha
    && (fw.initrd.Readable() ==> image == fw.initrd.Delivered(c.initrdLength))
  }

  /** The kernel and the initrd in memory are the bytes whose digests the configuration holds. */
  predicate Verified(h: Handover, fw: Firmware, sha: Sha, c: Config) {
    && c.kernelLength >= 0
    && Peek(h.mem, h.linux, |fw.kernel.Delivered(c.kernelLength)|) == fw.kernel.Delivered(c.kernelLength)
    && Hex(sha(fw.kernel.Delivered(c.kernelLength))) == c.kernelSha
    && h.initrdSize <= c.initrdLength
    && (c.initrdLength > 0 ==> InitrdChecked(fw, sha, c, Peek(h.mem, h.initrd, h.initrdSize)))
    && Peek(h.mem, h.cmdline, |c.cmdline| + 1) == c.cmdline + [NUL]
  }

  /** The page and the entry point follow from the header, which is the kernel file's when that is long enough. */
  ghost predicate Described(h: Handover, fw: Firmware, c: Config, header: seq<byte>) {
    && |header| == SIZE
    && Accepted(header)
    && c.kernelLength >= 0
    && (|fw.kernel.Delivered(c.kernelLength)| >= SIZE ==> header == fw.kernel.Delivered(c.kernelLength)[..SIZE])
    && BootParams(Peek(h.mem, h.setup, PAGE), header, h.linux, h.cmdline, RamdiskOf(h.initrd, h.initrdSize))
    && h.entry == Entry(header, h.linux)
  }

  /** A command line with at least one byte keeps its NUL inside its pool, away from everything held. */
  lemma HeldUnchanged(h: Handover, fw: Firmware, before: Memory, held: set<Region>, cmdline: seq<byte>,
                      linux: nat, initrd: nat, initrdSize: nat, region: Region, start: nat, len: nat)
    requires HandedOver(h, fw, before, held, cmdline, linux, initrd, initrdSize)
    requires Fills(fw, held + {Region(fw.setupPages.addr, PAGE)}, cmdline, initrd, initrdSize)
    requires |cmdline| > 0
    requires region in held && region.start <= start && start + len <= region.start + region.len
    ensures Peek(h.mem, start, len) == Peek(before, start, len)
  {
    assert Region(fw.cmdlinePool.addr, 2 * |cmdline|).Apart(region);
    assert forall a: nat :: region.Has(a) ==> Owns(held, a);
    PeekSame(before, h.mem, start, len);
  }

  /** How the run ends without an initrd: whatever is wrong with a granted one is a load error. */
  function InitrdRefusal(fw: Firmware, c: Config): (e: Exit)
    requires c.initrdLength > 0
    ensures e != Returned(Success)
  {
    var len := PagesFor(c.initrdLength) * PAGE_SIZE;
    if c.initrdLength + 0xfff >= TWO_64 then Trapped
    else if !fw.initrdPages.Holds(fw.initrdLimit + 1, len, {}) then Returned(fw.initrdPages.Answer(fw.initrdLimit + 1, len, {}))
    else Returned(LoadError)
  }

  /** How the run ends without a kernel: a length out of range traps, before or after the allocation. */
  function KernelRefusal(fw: Firmware, c: Config): (e: Exit)
    ensures e != Returned(Success)
  {
    if c.kernelLength + 0xfff > MAX_I32 || PagesFor(c.kernelLength) < 0 then Trapped
    else
      var answer := fw.kernelPages.Answer(fw.imageBase + KERNEL_OFFSET + 1, PagesFor(c.kernelLength) * PAGE_SIZE, HeldInitrd(fw, c));
      if answer != Success then Returned(answer)
      else if c.kernelLength < 0 then Trapped
      else Returned(LoadError)
  }

  /** Lines 96 to 111. */
  method LoadInitrd(m: Machine, sha: Sha, c: Config) returns (stop: Option<Exit>, buffer: nat, size: nat)
    requires m.owned == {}
    modifies m`mem, m`calls, m`owned
    ensures stop.Some? ==> c.initrdLength > 0 && stop.value == InitrdRefusal(m.fw, c)
    ensures stop.None? ==> m.owned == HeldInitrd(m.fw, c) && size <= c.initrdLength
    ensures stop.None? && c.initrdLength > 0 ==>
      buffer == m.fw.initrdPages.addr && InitrdChecked(m.fw, sha, c, Peek(m.mem, buffer, size))
    ensures c.initrdLength > 0 && m.fw.initrd.Readable() ==> (stop.None? <==> InitrdVerifies(m.fw, sha, c))
    ensures stop.None? && (c.initrdLength > 0 ==> m.fw.initrd.Readable()) ==> (buffer, size) == InitrdGiven(m.fw, c)
    ensures c.initrdLength == 0 ==> stop.None?
  {
    stop, buffer, size := None, m.fw.initrdLimit, c.initrdLength;
    if c.initrdLength > 0 {
      if c.initrdLength + 0xfff >= TWO_64 {
        return Some(Trapped), buffer, size;
      }
      EnoughPages(c.initrdLength);
      var pages := PagesFor(c.initrdLength);
      var status;
      status, buffer := m.Allocate(m.fw.initrdPages, m.fw.initrdLimit + 1, pages * PAGE_SIZE);
      if status != Success {
        return Some(Returned(status)), buffer, size;
      }
      status, size := LoadFile(m, m.fw.initrd, buffer, c.initrdLength);
      status := CheckSha(m, sha, buffer, size, c.initrdSha); // the status of the load is overwritten
      if status != Success {
        return Some(Returned(status)), buffer, size;
      }
    }
  }

  /** Lines 113 to 133. */
  method LoadKernel(m: Machine, sha: Sha, c: Config) returns (stop: Option<Exit>, buffer: nat, size: nat)
    requires m.owned == HeldInitrd(m.fw, c)
    modifies m`mem, m`calls, m`owned
    ensures stop.Some? ==> stop.value == KernelRefusal(m.fw, c)
    ensures stop.None? <==> KernelVerifies(m.fw, sha, c)
    ensures stop.None? ==>
      && m.owned == HeldBoth(m.fw, c)
      && buffer == m.fw.kernelPages.addr && size == |m.fw.kernel.Delivered(c.kernelLength)|
      && Peek(m.mem, buffer, size) == m.fw.kernel.Delivered(c.kernelLength)
      && forall a: nat :: Owns(old(m.owned), a) ==> m.mem(a) == old(m.mem)(a)
  {
    buffer, size := 0, 0;
    if c.kernelLength + 0xfff > MAX_I32 {
      return Some(Trapped), buffer, size;
    }
    var pages := PagesFor(c.kernelLength);
    if pages < 0 {
      return Some(Trapped), buffer, size;
    }
    var status;
    ghost var held := m.owned;
    status, buffer := m.Allocate(m.fw.kernelPages, m.fw.imageBase + KERNEL_OFFSET + 1, pages * PAGE_SIZE);
    if status != Success {
      return Some(Returned(status)), buffer, size;
    }
    if c.kernelLength < 0 {
      return Some(Trapped), buffer, size;
    }
    EnoughPages(c.kernelLength);
    ghost var granted := m.mem;
    status, size := LoadFile(m, m.fw.kernel, buffer, c.kernelLength);
    if status != Success {
      return Some(Returned(status)), buffer, size;
    }
    forall a: nat | Owns(held, a) ensures m.mem(a) == granted(a) {
      ApartFromGrant(held, Region(buffer, pages * PAGE_SIZE), a);
      assert Owns(m.owned, a);
    }
    status := CheckSha(m, sha, buffer, size, c.kernelSha);
    if status != Success {
      return Some(Returned(status)), buffer, size;
    }
    ghost var loaded := m.mem;
    m.Call(); // log
    OwnedStays(loaded, m.mem, m.owned, Region(buffer, pages * PAGE_SIZE), buffer, size);
    stop := None;
    assert forall a: nat :: Owns(held, a) ==> Owns(m.owned, a);
  }

  predicate FilesVerify(fw: Firmware, sha: Sha, c: Config) {
    (c.initrdLength > 0 ==> InitrdVerifies(fw, sha, c)) && KernelVerifies(fw, sha, c)
  }

  function FilesRefusal(fw: Firmware, sha: Sha, c: Config): (e: Exit)
    requires !FilesVerify(fw, sha, c)
    ensures e != Returned(Success)
  {
    if c.initrdLength > 0 && !InitrdVerifies(fw, sha, c) then InitrdRefusal(fw, c) else KernelRefusal(fw, c)
  }

  /** `main` from the parsed configuration on: lines 93 to 192. */
  method Boot(m: Machine, sha: Sha, c: Config) returns (exit: Exit)
    requires m.owned == {} && m.handover == None
    modifies m
    ensures exit != Returned(Success)
    ensures m.handover.Some? ==> exit == Returned(LoadError)
    ensures m.handover.Some? && |c.cmdline| > 0 ==> Verified(m.handover.value, m.fw, sha, c)
    ensures m.handover.Some? && NulClear(m.fw, c.cmdline) ==>
      exists header :: Described(m.handover.value, m.fw, c, header)
    ensures m.handover.Some? ==>
      && KernelVerifies(m.fw, sha, c) && KernelButForNul(m.handover.value, m.fw, c)
      && KernelUnlessHit(m.handover.value, m.fw, c) && InitrdButForNul(m.handover.value, m.fw, sha, c)
    // An initrd or a kernel that does not verify ends the run with its own status.
    ensures (c.initrdLength > 0 ==> m.fw.initrd.Readable()) && !FilesVerify(m.fw, sha, c) ==> exit == FilesRefusal(m.fw, sha, c)
    ensures NulClear(m.fw, c.cmdline)
         && (c.initrdLength > 0 ==> m.fw.initrd.Readable())
         && (c.kernelLength >= 0 ==> |m.fw.kernel.Delivered(c.kernelLength)| >= SIZE)
         ==> (m.handover.Some? <==> Boots(m.fw, sha, c))
  {
    var stop, initrd, initrdSize := LoadInitrd(m, sha, c);
    if stop.Some? {
      return stop.value;
    }
    ghost var m1, held1 := m.mem, m.owned;
    var kernel, kernelSize;
    stop, kernel, kernelSize := LoadKernel(m, sha, c);
    if stop.Some? {
      return stop.value;
    }
    if c.initrdLength > 0 {
      EnoughPages(c.initrdLength);
      OwnedStays(m1, m.mem, held1, Region(initrd, PagesFor(c.initrdLength) * PAGE_SIZE), initrd, initrdSize);
    }
    exit := Enter(m, sha, c, kernel, initrd, initrdSize);
    if exit == Returned(Success) {
      assert false; // lines 142 to 191, which load and start the kernel as an EFI image
    }
  }

  /** Line 136: the call of `linuxExec` on a kernel and an initrd that are loaded and checked. */
  method Enter(m: Machine, sha: Sha, c: Config, kernel: nat, initrd: nat, initrdSize: nat) returns (exit: Exit)
    requires m.handover == None
    requires KernelVerifies(m.fw, sha, c) && m.owned == HeldBoth(m.fw, c) && kernel == m.fw.kernelPages.addr
    requires var file := m.fw.kernel.Delivered(c.kernelLength); Peek(m.mem, kernel, |file|) == file
    requires initrdSize <= c.initrdLength
    requires c.initrdLength > 0 ==>
      initrd == m.fw.initrdPages.addr && InitrdChecked(m.fw, sha, c, Peek(m.mem, initrd, initrdSize))
    modifies m
    ensures exit != Returned(Success)
    ensures m.handover.Some? ==> exit == Returned(LoadError)
    ensures m.handover.Some? && |c.cmdline| > 0 ==> Verified(m.handover.value, m.fw, sha, c)
    ensures m.handover.Some? && NulClear(m.fw, c.cmdline) ==>
      exists header :: Described(m.handover.value, m.fw, c, header)
    ensures m.handover.Some? ==>
      && KernelButForNul(m.handover.value, m.fw, c) && KernelUnlessHit(m.handover.value, m.fw, c)
      && InitrdButForNul(m.handover.value, m.fw, sha, c)
    ensures var file := m.fw.kernel.Delivered(c.kernelLength);
            NulClear(m.fw, c.cmdline) && |file| >= SIZE ==>
              (m.handover.Some? <==> Launches(m.fw, file[..SIZE], HeldBoth(m.fw, c), c.cmdline, kernel, initrd, initrdSize))
  {
    ghost var before, held := m.mem, m.owned;
    EnoughPages(c.kernelLength);
    assert Region(kernel, PagesFor(c.kernelLength) * PAGE_SIZE) in held;
    HeaderOfFile(before, kernel, m.fw.kernel.Delivered(c.kernelLength));
    exit := LinuxExec(m, c.cmdline, kernel, initrd, initrdSize);
    if m.handover.Some? {
      ghost var h := m.handover.value;
      LoadedBytes(h, m.fw, sha, c, before, held);
      if NulClear(m.fw, c.cmdline) {
        DescribedAtEntry(h, m.fw, c, before, held, initrd, initrdSize);
      }
      if |c.cmdline| > 0 {
        InitrdAtEntry(h, m.fw, sha, c, before, initrd, initrdSize);
        VerifiedAtEntry(h, m.fw, sha, c, before, held, initrd, initrdSize);
      }
    }
  }

  lemma InitrdAtEntry(h: Handover, fw: Firmware, sha: Sha, c: Config, before: Memory,
                      initrd: nat, initrdSize: nat)
    requires c.kernelLength >= 0 && |c.cmdline| > 0 && initrdSize <= c.initrdLength
    requires HandedOver(h, fw, before, HeldBoth(fw, c), c.cmdline, fw.kernelPages.addr, initrd, initrdSize)
    requires Fills(fw, HeldBoth(fw, c) + {Region(fw.setupPages.addr, PAGE)}, c.cmdline, initrd, initrdSize)
    requires c.initrdLength > 0 ==> initrd == fw.initrdPages.addr && InitrdChecked(fw, sha, c, Peek(before, initrd, initrdSize))
    ensures c.initrdLength > 0 ==> InitrdChecked(fw, sha, c, Peek(h.mem, initrd, initrdSize))
  {
    if c.initrdLength > 0 {
      var region := Region(initrd, PagesFor(c.initrdLength) * PAGE_SIZE);
      EnoughPages(c.initrdLength);
      HeldUnchanged(h, fw, before, HeldBoth(fw, c), c.cmdline, fw.kernelPages.addr, initrd, initrdSize, region, initrd, initrdSize);
    }
  }

  lemma VerifiedAtEntry(h: Handover, fw: Firmware, sha: Sha, c: Config, before: Memory, held: set<Region>,
                        initrd: nat, initrdSize: nat)
    requires KernelVerifies(fw, sha, c) && |c.cmdline| > 0 && held == HeldBoth(fw, c) && initrdSize <= c.initrdLength
    requires HandedOver(h, fw, before, held, c.cmdline, fw.kernelPages.addr, initrd, initrdSize)
    requires Fills(fw, held + {Region(fw.setupPages.addr, PAGE)}, c.cmdline, initrd, initrdSize)
    requires var kernel := fw.kernel.Delivered(c.kernelLength); Peek(before, fw.kernelPages.addr, |kernel|) == kernel
    requires c.initrdLength > 0 ==> InitrdChecked(fw, sha, c, Peek(h.mem, initrd, initrdSize))
    ensures Verified(h, fw, sha, c)
  {
    var size := |fw.kernel.Delivered(c.kernelLength)|;
    EnoughPages(c.kernelLength);
    HeldUnchanged(h, fw, before, held, c.cmdline, fw.kernelPages.addr, initrd, initrdSize,
                  Region(fw.kernelPages.addr, PagesFor(c.kernelLength) * PAGE_SIZE), fw.kernelPages.addr, size);
  }

  /** `image` is in memory at `start`, except where the NUL of the command line fell into it. */
  ghost predicate ButForNul(h: Handover, start: nat, image: seq<byte>, cmdline: seq<byte>) {
    forall i :: 0 <= i < |image| ==> h.mem(start + i) == if start + i == h.cmdline + |cmdline| then NUL else image[i]
  }

  /** Whatever the command line is, the kernel in memory differs from the file at most where its NUL went. */
  ghost predicate KernelButForNul(h: Handover, fw: Firmware, c: Config)
    requires c.kernelLength >= 0
  {
    && h.linux == fw.kernelPages.addr && h.cmdline == fw.cmdlinePool.addr
    && ButForNul(h, h.linux, fw.kernel.Delivered(c.kernelLength), c.cmdline)
  }

  /** The same for the initrd and bytes that have the digest of the configuration. */
  ghost predicate InitrdButForNul(h: Handover, fw: Firmware, sha: Sha, c: Config) {
    c.initrdLength > 0 ==>
      && h.initrd == fw.initrdPages.addr && h.initrdSize <= c.initrdLength
      && exists image :: |image| == h.initrdSize && InitrdChecked(fw, sha, c, image) && ButForNul(h, h.initrd, image, c.cmdline)
  }

  /** A NUL stored at `a` leaves `image` at `start` as it is. */
  predicate NulSpares(start: nat, image: seq<byte>, a: nat) {
    start <= a < start + |image| ==> image[a - start] == NUL
  }

  /** The kernel entered is the one checked exactly when the NUL of the command line does not change it. */
  ghost predicate KernelUnlessHit(h: Handover, fw: Firmware, c: Config)
    requires c.kernelLength >= 0
  {
    var kernel := fw.kernel.Delivered(c.kernelLength);
    Peek(h.mem, h.linux, |kernel|) == kernel
    <==> NulSpares(fw.kernelPages.addr, kernel, fw.cmdlinePool.addr + |c.cmdline|)
  }

  lemma NulDecides(h: Handover, fw: Firmware, c: Config)
    requires c.kernelLength >= 0 && KernelButForNul(h, fw, c)
    ensures KernelUnlessHit(h, fw, c)
  {
    var kernel, a := fw.kernel.Delivered(c.kernelLength), h.cmdline + |c.cmdline|;
    var image := Peek(h.mem, h.linux, |kernel|);
    forall i | 0 <= i < |kernel| ensures image[i] == if h.linux + i == a then NUL else kernel[i] {
      assert kernel[i] == fw.kernel.Delivered(c.kernelLength)[i];
      assert image[i] == h.mem(h.linux + i);
    }
    if Region(h.linux, |kernel|).Has(a) {
      assert image[a - h.linux] == NUL;
    }
  }

  /** What is held at the call is in memory at entry but for the NUL. */
  lemma HeldButForNul(h: Handover, before: Memory, held: set<Region>, cmdline: seq<byte>, region: Region, image: seq<byte>)
    requires forall a: nat :: Owns(held, a) ==> h.mem(a) == if a == h.cmdline + |cmdline| then NUL else before(a)
    requires region in held && |image| <= region.len
    requires Peek(before, region.start, |image|) == image
    ensures ButForNul(h, region.start, image, cmdline)
  {
    forall i | 0 <= i < |image|
      ensures h.mem(region.start + i) == if region.start + i == h.cmdline + |cmdline| then NUL else image[i]
    {
      assert region.Has(region.start + i);
      assert Owns(held, region.start + i);
      assert before(region.start + i) == Peek(before, region.start, |image|)[i];
    }
  }

  lemma LoadedBytes(h: Handover, fw: Firmware, sha: Sha, c: Config, before: Memory, held: set<Region>)
    requires c.kernelLength >= 0 && held == HeldBoth(fw, c)
    requires h.linux == fw.kernelPages.addr && h.cmdline == fw.cmdlinePool.addr
    requires forall a: nat :: Owns(held, a) ==> h.mem(a) == if a == h.cmdline + |c.cmdline| then NUL else before(a)
    requires var kernel := fw.kernel.Delivered(c.kernelLength); Peek(before, h.linux, |kernel|) == kernel
    requires c.initrdLength > 0 ==>
      && h.initrd == fw.initrdPages.addr && h.initrdSize <= c.initrdLength
      && InitrdChecked(fw, sha, c, Peek(before, h.initrd, h.initrdSize))
    ensures KernelButForNul(h, fw, c) && KernelUnlessHit(h, fw, c) && InitrdButForNul(h, fw, sha, c)
  {
    EnoughPages(c.kernelLength);
    HeldButForNul(h, before, held, c.cmdline, Region(h.linux, PagesFor(c.kernelLength) * PAGE_SIZE),
                  fw.kernel.Delivered(c.kernelLength));
    NulDecides(h, fw, c);
    if c.initrdLength > 0 {
      EnoughPages(c.initrdLength);
      HeldButForNul(h, before, held, c.cmdline, Region(h.initrd, PagesFor(c.initrdLength) * PAGE_SIZE),
                    Peek(before, h.initrd, h.initrdSize));
    }
  }

  lemma HeaderOfFile(before: Memory, addr: nat, kernel: seq<byte>)
    requires Peek(before, addr, |kernel|) == kernel
    ensures |kernel| >= SIZE ==> Peek(before, addr, SIZE) == kernel[..SIZE]
  {
    if |kernel| >= SIZE {
      forall i | 0 <= i < SIZE ensures Peek(before, addr, SIZE)[i] == kernel[i] {
        assert before(addr + i) == Peek(before, addr, |kernel|)[i];
      }
    }
  }

  lemma DescribedAtEntry(h: Handover, fw: Firmware, c: Config, before: Memory, held: set<Region>, initrd: nat, initrdSize: nat)
    requires c.kernelLength >= 0 && NulClear(fw, c.cmdline)
    requires HandedOver(h, fw, before, held, c.cmdline, fw.kernelPages.addr, initrd, initrdSize)
    requires var kernel := fw.kernel.Delivered(c.kernelLength); Peek(before, fw.kernelPages.addr, |kernel|) == kernel
    ensures Described(h, fw, c, Peek(before, fw.kernelPages.addr, SIZE))
  {
    HeaderOfFile(before, fw.kernelPages.addr, fw.kernel.Delivered(c.kernelLength));
  }

  /** `main`. `section` is the memory at the configuration address, which holds a NUL. */
  method Run(m: Machine, sha: Sha, section: seq<byte>) returns (exit: Exit)
    requires m.owned == {} && m.handover == None
    modifies m
    // Success is reported exactly by a stub that was never bound to a configuration.
    ensures exit == Returned(Success) <==> ProtocolsOpen(m.fw) && Parse(section) == Unbound
    // A protocol that is not there ends the run with its status, a bad configuration with its own.
    ensures !ProtocolsOpen(m.fw) ==> exit == Returned(FirstFailure(m.fw))
    ensures ProtocolsOpen(m.fw) && Parse(section) == BadParameter ==> exit == Returned(InvalidParameter)
    ensures ProtocolsOpen(m.fw) && Parse(section) == Trap ==> exit == Trapped
    // If the kernel ever returns, the caller is told so.
    ensures m.handover.Some? ==> exit == Returned(LoadError)
    ensures m.handover.Some? ==> ProtocolsOpen(m.fw) && Parse(section).Bound?
    ensures m.handover.Some? ==>
      var c := Parse(section).config;
      && KernelVerifies(m.fw, sha, c) && KernelButForNul(m.handover.value, m.fw, c)
      && KernelUnlessHit(m.handover.value, m.fw, c) && InitrdButForNul(m.handover.value, m.fw, sha, c)
      && (|c.cmdline| > 0 ==> Verified(m.handover.value, m.fw, sha, c))
      && (|c.cmdline| > 0 && |m.fw.kernel.Delivered(c.kernelLength)| >= 0x268 ==>
            RunsImage(m.handover.value, m.fw.kernel.Delivered(c.kernelLength)))
      && (NulClear(m.fw, c.cmdline) ==> exists header :: Described(m.handover.value, m.fw, c, header))
    ensures ProtocolsOpen(m.fw) && Parse(section).Bound? ==>
      var c := Parse(section).config;
      (c.initrdLength > 0 ==> m.fw.initrd.Readable()) && !FilesVerify(m.fw, sha, c) ==> exit == FilesRefusal(m.fw, sha, c)
    ensures ProtocolsOpen(m.fw) && Parse(section).Bound? ==>
      var c := Parse(section).config;
      && NulClear(m.fw, c.cmdline)
      && (c.initrdLength > 0 ==> m.fw.initrd.Readable())
      && (c.kernelLength >= 0 ==> |m.fw.kernel.Delivered(c.kernelLength)| >= SIZE)
      ==> (m.handover.Some? <==> Boots(m.fw, sha, c))
  {
    if m.fw.loadedImage != Success {
      return Returned(m.fw.loadedImage);
    }
    if m.fw.fileSystem != Success {
      return Returned(m.fw.fileSystem);
    }
    if m.fw.devicePath != Success {
      return Returned(m.fw.devicePath);
    }
    if m.fw.volume != Success {
      return Returned(m.fw.volume);
    }
    var status := m.fw.volume;
    match Parse(section) {
      case Unbound => exit := Returned(status); // the status of the last call, a success
      case BadParameter => exit := Returned(InvalidParameter);
      case Trap => exit := Trapped;
      case Bound(c) =>
        exit := Boot(m, sha, c);
        if m.handover.Some? && |c.cmdline| > 0 {
          VerifiedRuns(m.handover.value, m.fw, sha, c);
        }
    }
  }

  /** The code that runs is that of the kernel that was checked. */
  lemma VerifiedRuns(h: Handover, fw: Firmware, sha: Sha, c: Config)
    requires c.kernelLength >= 0 && Verified(h, fw, sha, c) && exists header :: Described(h, fw, c, header)
    ensures var kernel := fw.kernel.Delivered(c.kernelLength);
            |kernel| >= 0x268 ==> RunsImage(h, kernel)
  {
    var header :| Described(h, fw, c, header);
    if |fw.kernel.Delivered(c.kernelLength)| >= SIZE {
      ImageRuns(h, fw.kernel.Delivered(c.kernelLength), RamdiskOf(h.initrd, h.initrdSize));
    }
  }

  // ----- an empty command line -----

  /** The firmware that puts the pool on the signature of the kernel's header. */
  function PoolInKernel(fw: Firmware): Firmware {
    fw.(cmdlinePool := Grant(Success, fw.kernelPages.addr + SIGNATURE))
  }

  /** With an empty command line it still boots, and the NUL does not spare the kernel. */
  lemma BootsWithPoolInKernel(fw: Firmware, sha: Sha, c: Config)
    requires Boots(fw, sha, c) && c.cmdline == []
    ensures Boots(PoolInKernel(fw), sha, c) && NulClear(PoolInKernel(fw), c.cmdline)
    ensures !NulSpares(fw.kernelPages.addr, fw.kernel.Delivered(c.kernelLength), PoolInKernel(fw).cmdlinePool.addr)
  {
    var region := Region(fw.kernelPages.addr, PagesFor(c.kernelLength) * PAGE_SIZE);
    EnoughPages(c.kernelLength);
    assert region in HeldBoth(fw, c);
    assert Region(fw.setupPages.addr, PAGE).Apart(region);
    SignatureIsNotNul(fw.kernel.Delivered(c.kernelLength));
  }

  lemma SignatureIsNotNul(kernel: seq<byte>)
    requires |kernel| >= SIZE && Accepted(kernel[..SIZE])
    ensures kernel[SIGNATURE] != NUL
  {
    assert U16(kernel[..SIZE], SIGNATURE) == 0xAA55;
    assert kernel[..SIZE][SIGNATURE] == kernel[SIGNATURE];
  }

  /**
   * Whatever configuration with an empty command line can boot at all, some firmware that keeps its
   * contract makes the stub enter a kernel that is not the one it checked: the pool it asks for has no
   * bytes, so it may lie inside the kernel, and the NUL is stored there.
   */
  method EmptyCommandLine(sha: Sha, section: seq<byte>, fw: Firmware, mem: Memory) returns (m: Machine, exit: Exit)
    requires ProtocolsOpen(fw) && Parse(section).Bound? && Parse(section).config.cmdline == []
    requires Parse(section).config.initrdLength > 0 ==> fw.initrd.Readable()
    requires Boots(fw, sha, Parse(section).config)
    ensures m.fw == PoolInKernel(fw) && exit == Returned(LoadError) && m.handover.Some?
    ensures EntersAnother(m.handover.value, m.fw, sha, Parse(section).config)
  {
    BootsWithPoolInKernel(fw, sha, Parse(section).config);
    m := new Machine(PoolInKernel(fw), mem);
    exit := Run(m, sha, section);
    HitKernelDiffers(m.handover.value, m.fw, Parse(section).config);
  }

  lemma HitKernelDiffers(h: Handover, fw: Firmware, c: Config)
    requires c.kernelLength >= 0 && c.cmdline == [] && KernelUnlessHit(h, fw, c)
    requires !NulSpares(fw.kernelPages.addr, fw.kernel.Delivered(c.kernelLength), fw.cmdlinePool.addr)
    ensures Peek(h.mem, h.linux, |fw.kernel.Delivered(c.kernelLength)|) != fw.kernel.Delivered(c.kernelLength)
  {
  }

  /** Page and entry point are those of the kernel that was checked, but the bytes in memory are not. */
  ghost predicate EntersAnother(h: Handover, fw: Firmware, sha: Sha, c: Config) {
    && KernelVerifies(fw, sha, c) && KernelButForNul(h, fw, c) && InitrdButForNul(h, fw, sha, c)
    && (exists header :: Described(h, fw, c, header))
    && Peek(h.mem, h.linux, |fw.kernel.Delivered(c.kernelLength)|) != fw.kernel.Delivered(c.kernelLength)
  }

  // ----- signer and stub together -----

  /** The files the signer saw are on the disk, and one read delivers each of them whole. */
  predicate OnDisk(fw: Firmware, kernel: seq<byte>, initrd: Option<seq<byte>>) {
    && fw.kernel.Readable() && fw.kernel.contents == kernel && fw.kernel.count >= |kernel|
    && (initrd.Some? ==> fw.initrd.Readable() && fw.initrd.contents == initrd.value && fw.initrd.count >= |initrd.value|)
  }

  /**
   * The firmware grants what a signed boot makes the stub ask for, each region apart from the ones before:
   * pages for the initrd, pages for the kernel below 512 MiB behind the stub, the 16 KiB page below 1 GiB,
   * and a pool of twice the command line. What the header points to lies below 4 GiB.
   */
  predicate Grants(fw: Firmware, kernel: seq<byte>, initrd: Option<seq<byte>>, cmdline: seq<byte>) {
    var image := InitrdBytes(initrd);
    var initrdHeld := if |image| > 0 then {Region(fw.initrdPages.addr, Rounded(|image|))} else {};
    var bothHeld := initrdHeld + {Region(fw.kernelPages.addr, Rounded(|kernel|))};
    && (|image| > 0 ==>
        && fw.initrdPages.Holds(fw.initrdLimit + 1, Rounded(|image|), {})
        && fw.initrdPages.addr < 0x1_0000_0000 && |image| < 0x1_0000_0000)
    && fw.kernelPages.Holds(fw.imageBase + 0x2000_0000 + 1, Rounded(|kernel|), initrdHeld)
    && fw.setupPages.Holds(0x4000_0000 + 1, 0x4000, bothHeld)
    && fw.cmdlinePool.Holds(0x1_0000_0000_0000_0000, 2 * |cmdline|, bothHeld + {Region(fw.setupPages.addr, 0x4000)})
    && fw.cmdlinePool.addr < 0x1_0000_0000
  }

  /**
   * What a signed boot needs besides the files: a length that can be rounded up to pages in 32 bits, a
   * header Linux has, grants, and an entry point that fits 32 bits.
   */
  predicate CanBoot(fw: Firmware, kernel: seq<byte>, initrd: Option<seq<byte>>, cmdline: seq<byte>)
    requires |kernel| >= 0x268
  {
    && |kernel| + 0xfff < 0x8000_0000
    && |InitrdBytes(initrd)| + 0xfff < 0x1_0000_0000_0000_0000
    && LinuxImage(kernel)
    && fw.kernelPages.addr + 1024 + 512 * kernel[0x1f1] as nat + FromLe(kernel[0x264..0x268]) < 0x1_0000_0000
    && Grants(fw, kernel, initrd, cmdline)
  }

  /** The files as signed boot exactly when that is given. */
  lemma SignedBoots(sha: Sha, fw: Firmware, kernel: seq<byte>, initrd: Option<seq<byte>>, cmdline: seq<byte>)
    requires OnDisk(fw, kernel, initrd) && |kernel| >= 0x268
    ensures Boots(fw, sha, Intended(sha, kernel, initrd, cmdline)) <==> CanBoot(fw, kernel, initrd, cmdline)
  {
    var c := Intended(sha, kernel, initrd, cmdline);
    WholeFiles(fw, kernel, initrd);
    AcceptedBytes(kernel);
    EntryInBytes(kernel, fw.kernelPages.addr);
    PagesExactly(|kernel|);
    PagesExactly(|InitrdBytes(initrd)|);
    assert KernelStart(kernel[..SIZE], fw.kernelPages.addr) <= Entry(kernel[..SIZE], fw.kernelPages.addr);
  }

  lemma WholeFiles(fw: Firmware, kernel: seq<byte>, initrd: Option<seq<byte>>)
    requires OnDisk(fw, kernel, initrd)
    ensures fw.kernel.Delivered(|kernel|) == kernel
    ensures initrd.Some? ==> fw.initrd.Delivered(|initrd.value|) == initrd.value
  {
  }

  /** The kernel is entered with exactly what was signed, and its own code is what runs. */
  ghost predicate EntersSigned(h: Handover, kernel: seq<byte>, initrd: Option<seq<byte>>, cmdline: seq<byte>)
    requires |kernel| >= 0x268
  {
    && Peek(h.mem, h.linux, |kernel|) == kernel
    && Peek(h.mem, h.cmdline, |cmdline| + 1) == cmdline + [0]
    && Peek(h.mem, h.initrd, h.initrdSize) == InitrdBytes(initrd)
    && BootPage(Peek(h.mem, h.setup, 0x4000), kernel, h.linux, h.cmdline, h.initrd, h.initrdSize)
    && RunsImage(h, kernel)
    && h.entry == h.linux + 1024 + 512 * kernel[0x1f1] as nat + FromLe(kernel[0x264..0x268])
  }

  lemma SignedAtEntry(h: Handover, fw: Firmware, sha: Sha, kernel: seq<byte>, initrd: Option<seq<byte>>,
                      cmdline: seq<byte>, header: seq<byte>)
    requires OnDisk(fw, kernel, initrd) && |kernel| >= SIZE
    requires Verified(h, fw, sha, Intended(sha, kernel, initrd, cmdline))
    requires Described(h, fw, Intended(sha, kernel, initrd, cmdline), header)
    ensures EntersSigned(h, kernel, initrd, cmdline)
  {
    WholeFiles(fw, kernel, initrd);
    PageInBytes(Peek(h.mem, h.setup, PAGE), kernel, h.linux, h.cmdline, RamdiskOf(h.initrd, h.initrdSize), h.initrd, h.initrdSize);
    ImageRuns(h, kernel, RamdiskOf(h.initrd, h.initrdSize));
    EntryInBytes(kernel, h.linux);
  }

  /** Signing a kernel, an initrd and a command line, and then booting the bound stub. */
  method SignAndBoot(sha: Sha, kernel: seq<byte>, initrd: Option<seq<byte>>, pubKey: seq<byte>, extra: seq<byte>,
                     padding: seq<byte>, fw: Firmware, mem: Memory) returns (m: Machine, exit: Exit)
    requires Signable(kernel, initrd, CommandLine(pubKey, extra))
    requires OnDisk(fw, kernel, initrd) && |kernel| >= SIZE && ProtocolsOpen(fw)
    ensures m.fw == fw && exit != Returned(Success)
    ensures m.handover.Some? <==> CanBoot(fw, kernel, initrd, CommandLine(pubKey, extra))
    ensures m.handover.Some? ==> EntersSigned(m.handover.value, kernel, initrd, CommandLine(pubKey, extra))
  {
    var signer := new Signer();
    signer.Efi(sha, kernel, initrd, pubKey, extra);
    ghost var cmdline := CommandLine(pubKey, extra);
    SignerAndStubAgree(sha, kernel, initrd, cmdline, padding);
    SignedBoots(sha, fw, kernel, initrd, cmdline);
    WholeFiles(fw, kernel, initrd);
    m := new Machine(fw, mem);
    exit := Run(m, sha, signer.ukicfg + [NUL] + padding);
    ghost var c := Intended(sha, kernel, initrd, cmdline);
    if m.handover.Some? {
      ghost var header :| Described(m.handover.value, fw, c, header);
      SignedAtEntry(m.handover.value, fw, sha, kernel, initrd, cmdline, header);
    }
  }
}
