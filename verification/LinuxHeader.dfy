/** The packed `SetupHeader` of the Linux boot protocol: layout, field reads, and the page built from it. */
module LinuxHeader {
  import opened Bytes

  // The structure is packed: each field starts where the one before it ends.
  const BOOT_SECTOR: nat := 0
  const SETUP_SECS: nat := BOOT_SECTOR + 0x1f1
  const ROOT_FLAGS: nat := SETUP_SECS + 1
  const SYS_SIZE: nat := ROOT_FLAGS + 2
  const RAM_SIZE: nat := SYS_SIZE + 4
  const VIDEO_MODE: nat := RAM_SIZE + 2
  const ROOT_DEV: nat := VIDEO_MODE + 2
  const SIGNATURE: nat := ROOT_DEV + 2
  const JUMP: nat := SIGNATURE + 2
  const HEADER: nat := JUMP + 2
  const VERSION: nat := HEADER + 4
  const SU_SWITCH: nat := VERSION + 2
  const SETUP_SEG: nat := SU_SWITCH + 2
  const START_SYS: nat := SETUP_SEG + 2
  const KERNEL_VER: nat := START_SYS + 2
  const LOADER_ID: nat := KERNEL_VER + 2
  const LOAD_FLAGS: nat := LOADER_ID + 1
  const MOVESIZE: nat := LOAD_FLAGS + 1
  const CODE32_START: nat := MOVESIZE + 2
  const RAMDISK_START: nat := CODE32_START + 4
  const RAMDISK_LEN: nat := RAMDISK_START + 4
  const BOOTSECT_KLUDGE: nat := RAMDISK_LEN + 4
  const HEAP_END: nat := BOOTSECT_KLUDGE + 4
  const EXT_LOADER_VER: nat := HEAP_END + 2
  const EXT_LOADER_TYPE: nat := EXT_LOADER_VER + 1
  const CMD_LINE_PTR: nat := EXT_LOADER_TYPE + 1
  const RAMDISK_MAX: nat := CMD_LINE_PTR + 4
  const KERNEL_ALIGNMENT: nat := RAMDISK_MAX + 4
  const RELOCATABLE_KERNEL: nat := KERNEL_ALIGNMENT + 4
  const MIN_ALIGNMENT: nat := RELOCATABLE_KERNEL + 1
  const XLOADFLAGS: nat := MIN_ALIGNMENT + 1
  const CMDLINE_SIZE: nat := XLOADFLAGS + 2
  const HARDWARE_SUBARCH: nat := CMDLINE_SIZE + 4
  const HARDWARE_SUBARCH_DATA: nat := HARDWARE_SUBARCH + 4
  const PAYLOAD_OFFSET: nat := HARDWARE_SUBARCH_DATA + 8
  const PAYLOAD_LENGTH: nat := PAYLOAD_OFFSET + 4
  const SETUP_DATA: nat := PAYLOAD_LENGTH + 4
  const PREF_ADDRESS: nat := SETUP_DATA + 8
  const INIT_SIZE: nat := PREF_ADDRESS + 8
  const HANDOVER_OFFSET: nat := INIT_SIZE + 4
  const SIZE: nat := HANDOVER_OFFSET + 4

  const SETUP_MAGIC: nat := 0x53726448 // "HdrS"
  const PAGE: nat := 0x4000

  /** The offsets the Linux boot protocol gives the fields that are used here. */
  lemma LayoutOffsets()
    ensures SETUP_SECS == 0x1f1 && SIGNATURE == 0x1fe && HEADER == 0x202 && VERSION == 0x206
    ensures LOADER_ID == 0x210 && CODE32_START == 0x214 && RAMDISK_START == 0x218 && RAMDISK_LEN == 0x21c
    ensures CMD_LINE_PTR == 0x228 && RELOCATABLE_KERNEL == 0x234 && HANDOVER_OFFSET == 0x264 && SIZE == 0x268
    ensures PAGE == 0x4000
  {
  }

  function U16(image: seq<byte>, offset: nat): nat
    requires offset + 2 <= |image|
  {
    image[offset] as nat + 0x100 * image[offset + 1] as nat
  }

  function U32(image: seq<byte>, offset: nat): nat
    requires offset + 4 <= |image|
  {
    image[offset] as nat + 0x100 * image[offset + 1] as nat + 0x1_0000 * image[offset + 2] as nat
    + 0x100_0000 * image[offset + 3] as nat
  }

  /** The checks `linuxExec` makes before it touches anything. */
  predicate Accepted(header: seq<byte>)
    requires |header| >= SIZE
  {
    && U16(header, SIGNATURE) == 0xAA55
    && U32(header, HEADER) == SETUP_MAGIC
    && U16(header, VERSION) >= 0x20b
    && header[RELOCATABLE_KERNEL] != 0
  }

  /** A Linux kernel, byte by byte: the boot signature, "HdrS", version 2.11 or later, relocatable. */
  predicate LinuxImage(image: seq<byte>)
    requires |image| >= 0x268
  {
    && image[0x1fe] == 0x55 && image[0x1ff] == 0xaa
    && image[0x202..0x206] == [0x48, 0x64, 0x72, 0x53]
    && (image[0x207] > 2 || (image[0x207] == 2 && image[0x206] >= 11))
    && image[0x234] != 0
  }

  lemma AcceptedBytes(image: seq<byte>)
    requires |image| >= SIZE
    ensures Accepted(image[..SIZE]) <==> LinuxImage(image)
  {
    var header := image[..SIZE];
    assert header[0x202] == image[0x202] && header[0x203] == image[0x203] && header[0x204] == image[0x204] && header[0x205] == image[0x205];
    assert LinuxImage(image) <==> LinuxImage(header) by {
      assert image[0x202..0x206] == header[0x202..0x206];
    }
    if Accepted(header) {
      assert image[0x202..0x206] == [0x48, 0x64, 0x72, 0x53];
    }
    if LinuxImage(image) {
      var magic := image[0x202..0x206];
      assert magic[0] == image[0x202] && magic[1] == image[0x203] && magic[2] == image[0x204] && magic[3] == image[0x205];
    }
  }

  lemma FieldIsLe(s: seq<byte>, offset: nat)
    requires offset + 4 <= |s|
    ensures U32(s, offset) == FromLe(s[offset..offset + 4])
  {
    var f := s[offset..offset + 4];
    assert f[1..][1..][1..][1..] == [];
    assert FromLe(f[1..][1..][1..]) == s[offset + 3];
    assert FromLe(f[1..][1..]) == s[offset + 2] as nat + 0x100 * s[offset + 3] as nat;
  }

  /** Where the protected-mode kernel starts: after the boot sector and the setup sectors. */
  function KernelStart(header: seq<byte>, linux: nat): (start: nat)
    requires |header| >= SIZE
    ensures start == linux + 512 + 512 * header[0x1f1] as nat
  {
    linux + (header[SETUP_SECS] as nat + 1) * 512
  }

  /** The 64-bit hand-over entry point. */
  function Entry(header: seq<byte>, linux: nat): nat
    requires |header| >= SIZE
  {
    KernelStart(header, linux) + 512 + U32(header, HANDOVER_OFFSET)
  }

  datatype Ramdisk = NoRamdisk | Ramdisk(start: nat, len: nat)

  /** The fields the loader fills in. */
  predicate Filled(i: int, ramdisk: bool) {
    || i == LOADER_ID
    || CODE32_START <= i < CODE32_START + 4
    || CMD_LINE_PTR <= i < CMD_LINE_PTR + 4
    || (ramdisk && RAMDISK_START <= i < RAMDISK_LEN + 4)
  }

  /** Every byte of the boot-params page: the kernel's header, the loader's fields, zero elsewhere. */
  ghost predicate BootParams(page: seq<byte>, header: seq<byte>, linux: nat, cmdline: nat, ramdisk: Ramdisk) {
    && |page| == PAGE && |header| == SIZE
    && (forall i :: 0 <= i < PAGE && !Filled(i, ramdisk.Ramdisk?) ==> page[i] == if i < SIZE then header[i] else 0)
    && page[LOADER_ID] == 0xff
    && U32(page, CODE32_START) == KernelStart(header, linux)
    && U32(page, CMD_LINE_PTR) == cmdline
    && (ramdisk.Ramdisk? ==>
        U32(page, RAMDISK_START) == ramdisk.start && U32(page, RAMDISK_LEN) == ramdisk.len)
  }

  /** The page in literal offsets, for a kernel image at `linux`. */
  ghost predicate BootPage(page: seq<byte>, image: seq<byte>, linux: nat, cmdline: nat, initrd: nat, initrdSize: nat)
    requires |image| >= 0x268
  {
    && |page| == 0x4000
    && page[0x210] == 0xff
    && FromLe(page[0x214..0x218]) == linux + 512 + 512 * image[0x1f1] as nat
    && FromLe(page[0x228..0x22c]) == cmdline
    && (initrdSize > 0 ==> FromLe(page[0x218..0x21c]) == initrd && FromLe(page[0x21c..0x220]) == initrdSize)
    && forall i :: 0 <= i < 0x4000 && !LoaderField(i, initrdSize) ==> page[i] == if i < 0x268 then image[i] else 0
  }

  predicate LoaderField(i: nat, initrdSize: nat) {
    i == 0x210 || 0x214 <= i < 0x218 || 0x228 <= i < 0x22c || (initrdSize > 0 && 0x218 <= i < 0x220)
  }

  lemma PageInBytes(page: seq<byte>, image: seq<byte>, linux: nat, cmdline: nat, ramdisk: Ramdisk, initrd: nat, initrdSize: nat)
    requires |image| >= SIZE && BootParams(page, image[..SIZE], linux, cmdline, ramdisk)
    requires ramdisk == if initrdSize > 0 then Ramdisk(initrd, initrdSize) else NoRamdisk
    ensures BootPage(page, image, linux, cmdline, initrd, initrdSize)
  {
    FieldIsLe(page, CODE32_START);
    FieldIsLe(page, CMD_LINE_PTR);
    FieldIsLe(page, RAMDISK_START);
    FieldIsLe(page, RAMDISK_LEN);
    forall i | 0 <= i < 0x4000 && !LoaderField(i, initrdSize)
      ensures page[i] == if i < 0x268 then image[i] else 0
    {
      assert !Filled(i, ramdisk.Ramdisk?);
      assert i < SIZE ==> image[..SIZE][i] == image[i];
    }
  }

  /** The hand-over entry point in literal offsets. */
  lemma EntryInBytes(image: seq<byte>, linux: nat)
    requires |image| >= SIZE
    ensures Entry(image[..SIZE], linux) == linux + 1024 + 512 * image[0x1f1] as nat + FromLe(image[0x264..0x268])
  {
    FieldIsLe(image[..SIZE], HANDOVER_OFFSET);
    assert image[..SIZE][0x264..0x268] == image[0x264..0x268];
  }
}
