# Verification of the UKI stub and its Go UEFI library

This project models the parts of the repository that hold logic of their own, and proves what they
promise. Each module follows one component of the repository.

| file | component |
|---|---|
| `Stub.dfy`, `Platform.dfy`, `LinuxHeader.dfy`, `BootConfig.dfy` | the verified-boot stub, the firmware it runs on, the Linux boot header, and the configuration the signer binds |
| `MemoryMap.dfy`, `Coalescing.dfy`, `MemoryMapDecode.dfy`, `Heap.dfy` | the EFI memory map, its E820 form, and the claim of the runtime's heap |
| `CallFn.dfy` | the assembly routine that calls a UEFI service |
| `DevicePath.dfy` | the device path parser and the file path builder |
| `Clock.dfy` | calendar arithmetic |
| `Variables.dfy` | the listing of the UEFI variables |
| `Guid.dfy`, `Unicode.dfy`, `Console.dfy` | GUID text, UTF-16, console output |
| `Bytes.dfy`, `Text.dfy` | little-endian integers, 64-bit wrap-around, decimal and hexadecimal text, lines |

`dafny verify dfyconfig.toml` checks everything.

## How the model is made

**The stub.** `Stub.Run` is `main` of `src/stub2/main.zig`, `Stub.LinuxExec` is `linuxExec`; the helpers
between them are stretches of these two functions, with the line numbers in their comments. Memory is
flat: an address has a byte, and the stub holds regions of addresses. The firmware is a value of type
`Firmware` that fixes every answer it gives and, for every call, what it leaves in all memory the stub
does not hold, so a statement about all `Firmware` values is about all firmware that keeps its contract:
a granted region is apart from the regions held and below the limit asked for; a read returns a prefix
of the file that is no longer than requested, and never reports more than was requested. An answer that
breaks the contract counts as an error. SHA-256 is a parameter: the results hold for every function from
bytes to 32 bytes. `build.zig` leaves the optimisation mode at its default, in which Zig checks integer
overflow, casts and indexing; a failed check is the exit `Trapped`.

**Library routines.** `std.fmt.parseInt`, splitting at line feeds and the check and unit count of
`utf8ToUtf16Le` are small reference functions; the last is proved to agree with the UTF-8 of RFC 3629. A command line that is both malformed and too long counts
as malformed.

**Found on the way.** These are places where the code does something other than what one would expect;
the model follows the code.

- An empty command line gets a pool of zero bytes, and its NUL is stored behind it. Whenever such a
  configuration can boot, some firmware within its contract makes the stub enter a kernel that is not the
  one it checked (`Stub.EmptyCommandLine`). Exactly: the kernel entered is the one checked if and only if
  the NUL does not fall on a byte of it that is not zero (`Stub.KernelUnlessHit`, in `Stub.Run`). A command
  line of one byte or more is always safe. The signer never binds an empty one.
- The page count of the kernel is computed in 32 signed bits, so kernels longer than 2^31 - 1 - 4095 bytes
  trap although their length parses (`Stub.SignAndBoot`).
- The UTF-16 buffer takes 256 units, not 255, on the path to the kernel.
- SP is misaligned at the call of a UEFI service exactly for 7, 9, 11, ... arguments (`CallFn.AlignedAtCall`).
- `GetEpoch` reduces the month by one twice. January indexes out of range, and every other date comes out
  early by the length of the month before it (`Clock.GetEpoch`).
- A device path node of length 1, 2 or 3 makes the parser slice beyond its buffer (`DevicePath.RejectsExactly`).
- `Console.Output` looks at one byte to see whether its text ends with a NUL unit; the firmware gets a
  buffer with a NUL unit in it exactly when the text contains U+0000 or is the cursor-back sequence
  (`Console.TerminatedOnlyByText`).
- Sizes and ends are 64-bit sums that wrap. The E820 map means what the memory map means exactly when the
  64-bit size of every descriptor covers its pages as far as there are addresses and, in every run of
  entries that are joined, the sizes add up to less than 2^64 and only the last entry that is not empty
  reaches 2^64 (`Coalescing.E820KeepsMeaning`). A last page
  below 2^64 is harmless alone and loses the page at 0 when that follows it
  (`Coalescing.LastPageAlone`, `Coalescing.WrappedEndLosesMeaning`).
- `allocateHeap` claims pages at address 0 when it does not find the runtime's code in the map
  (`Heap.Runtime.AllocateHeap`).

## Model

| member | source | states |
|---|---|---|
| Stub.Run | src/stub2/main.zig:15-192 | Over all configurations, files, firmware answers and initial memories: success is returned exactly by an unbound stub; the kernel is entered only with the parsed configuration, with kernel and initrd in memory equal to the bytes whose digests the configuration holds, its own code being what runs (command line not empty), with the boot page and entry point of the kernel's header; for any command line kernel and initrd differ from the checked bytes at most where its NUL fell, and the kernel is intact if and only if the NUL fell outside it or on a zero; a file that does not verify ends the run with its own status; and, for kernels that hold a header, it is entered exactly when every load, digest, grant and 32-bit field works out |
| Stub.Boot | src/stub2/main.zig:93-192 | The same from the parsed configuration on; the code behind `linuxExec`, which would start the image through the firmware, is not reachable |
| Stub.LoadInitrd | src/stub2/main.zig:96-111 | The initrd passes only with the digest of the configuration, although the status of its load is overwritten; an initrd of length 0 is skipped; each way to fail has its status |
| Stub.LoadKernel | src/stub2/main.zig:113-133 | The kernel passes exactly when its length can be rounded up in 32 bits, its pages are granted, the file is read and the digest agrees; each way to fail has its status; the initrd in memory is not disturbed |
| Stub.LinuxExec | src/stub2/main.zig:214-280 | Never reports success; enters the kernel exactly when the header is accepted, both allocations succeed and every address fits its field; everything held before is unchanged in memory at entry; for any kernel made of boot sector, setup sectors and code, the page points to the code and the entry is 512 bytes and the hand-over offset behind that |
| Stub.ImageRuns | src/stub2/main.zig:208-255 | A kernel in memory with its boot page: the page's bytes 0x214 to 0x218 are the address of the code behind the setup sectors, and the entry follows from them and the header's bytes 0x264 to 0x268 |
| Stub.LinuxEfiHandover | src/stub2/main.zig:205-212 | The entry point is read back from the boot page, and the run traps exactly when it exceeds 32 bits |
| Stub.PageComplete | src/stub2/main.zig:247-274 | Every byte of the 16 KiB page: the header, the five fields the loader fills in, zero elsewhere |
| Stub.OpenSetup | src/stub2/main.zig:222-255 | When the header is accepted and the page granted, the page is the kernel's header with loader id and kernel start, and what was held is unchanged; otherwise the status of the check or of the allocation |
| Stub.PlaceCmdline | src/stub2/main.zig:257-268 | The command line and its NUL are in the pool, the page points to it, and nothing else that is held changes but the byte where the NUL of an empty command line lands |
| Stub.CheckSha | src/stub2/main.zig:283-300 | Success exactly when the hexadecimal digest of the bytes is the expected text |
| Stub.LoadFile | src/stub2/main.zig:303-317 | Success exactly when open and read succeed; the buffer then holds what was delivered, other held memory is unchanged |
| Stub.EmptyCommandLine | src/stub2/main.zig:260-267 | For every bootable configuration with an empty command line: under the same firmware, but with the empty pool granted inside the kernel, the run ends in a hand-over with the page and entry point of the kernel checked, and the kernel in memory is not that kernel |
| Stub.NulDecides | src/stub2/main.zig:260-267 | The kernel in memory at entry is the one checked if and only if the byte behind the command line is outside it or already zero in the file |
| Stub.BootsWithPoolInKernel | src/stub2/main.zig:260-267 | That firmware keeps its contract and boots the same configuration, and the NUL falls on a byte of the kernel that is not zero |
| Stub.SignedBoots | src/stub2/main.zig:93-136 | A signed kernel, initrd and command line boot exactly when the kernel length can be rounded up in 32 bits, the header is that of a relocatable Linux kernel and the grants can be pointed to, all in literal bytes, sizes and limits |
| Stub.SignAndBoot | signer/sbin/setup-efi:94-118 | Signer and stub end to end: the bound stub enters exactly the kernel that was signed, with exactly that initrd and command line, running its code, with every byte of the page as given, exactly under the conditions above |
| Stub.PagesExactly | src/stub2/main.zig:100-119 | The length in whole pages of 4 KiB, and one page more |
| BootConfig.SignerAndStubAgree | src/stub2/main.zig:62-92 | Parsing what the signer prints recovers all five fields if and only if the kernel is below 2^31 bytes, the initrd below 2^64, and the command line is the UTF-8 of a text of at most 256 UTF-16 units without NUL and line feed |
| BootConfig.Signer.Efi | signer/sbin/setup-efi:85-118 | The file is the five lines in order, then the command line and an empty line, with the lines for a missing initrd; also in characters |
| BootConfig.SignedInChars | signer/sbin/setup-efi:94-118 | The file in characters, line by line |
| BootConfig.CommandLineText | signer/sbin/setup-efi:85-117 | The command line in characters |
| BootConfig.UnboundExactly | src/stub2/main.zig:62-64 | The stub counts as unbound if and only if the section does not start with "UKI" |
| BootConfig.SignedText | signer/sbin/setup-efi:94-118 | The text the stub reads up to the first NUL |
| Text.ParsePrinted | src/stub2/main.zig:73-84 | A decimal count is read back exactly when the integer type can hold it |
| Text.ParseSigned | src/stub2/main.zig:73-84 | A plus or minus sign is accepted within the range of the type, an underscore at an end is not |
| Text.DecimalInChars | signer/sbin/setup-efi:106-111 | Counts are printed in decimal digits |
| Text.HexInjective | src/stub2/main.zig:290-293 | Comparing hexadecimal digests compares digests |
| Text.HexInChars | src/stub2/main.zig:290-293 | A byte is printed as two lower-case digits, the high one first |
| Text.LinesOfJoined | src/stub2/main.zig:68-71 | Splitting at line feeds undoes joining with them |
| LinuxHeader.LayoutOffsets | src/stub2/linux.h:5-46 | The packed structure puts the fields where the boot protocol has them |
| LinuxHeader.AcceptedBytes | src/stub2/main.zig:225-234 | The header checks, byte by byte |
| LinuxHeader.PageInBytes | src/stub2/main.zig:247-274 | The page in literal offsets |
| LinuxHeader.EntryInBytes | src/stub2/main.zig:208-255 | The entry point in literal offsets |
| MemoryMap.E820 | goefi/pkg/ueficore/mem.go:92-119 | The loop with its `prev` alias computes the map whose runs between cuts are joined, where a cut depends on two neighbouring descriptors only |
| MemoryMap.TypeOfKind | goefi/pkg/ueficore/mem.go:58-70 | Each type stands for exactly its kinds, by number: RAM for 1, 2, 3, 4 and 7, ACPI for 9, NVS for 10, persistent for 14, reserved for all others |
| MemoryMap.FoldedIsCoalesced | goefi/pkg/ueficore/mem.go:99-116 | Growing the last entry step by step equals joining maximal runs |
| MemoryMap.JoinedEnd | goefi/pkg/ueficore/mem.go:104-109 | A joined entry ends where its last part ends, with its type, also when sizes wrap |
| Coalescing.E820KeepsMeaning | goefi/pkg/ueficore/mem.go:50-119 | For every list of descriptors and every pair of boundaries: as many output entries of a type cover each address as descriptors of the kinds it stands for have it in their 4 KiB pages, if and only if every descriptor's 64-bit size covers its pages as far as there are addresses, and every run fits below 2^64 |
| Coalescing.MapsBelowTheTop | goefi/pkg/ueficore/mem.go:50-119 | The condition holds whenever every descriptor ends below 2^64 |
| Coalescing.CoalescingKeepsMeaning | goefi/pkg/ueficore/mem.go:99-116 | The same on arbitrary entries, with the condition on runs alone |
| Coalescing.CoalescingNeverAdds | goefi/pkg/ueficore/mem.go:99-116 | Without any condition no address is covered more often than before |
| Coalescing.WrappedEndLosesMeaning | goefi/pkg/ueficore/mem.go:105-108 | A map of two pages, the last one below 2^64 and the one at 0, for which the condition fails and address 0 is lost |
| Coalescing.SizeConserved | goefi/pkg/ueficore/mem.go:99-116 | The total size never grows, and is conserved if and only if the sizes of every run add up to less than 2^64 |
| Coalescing.StartsKept | goefi/pkg/ueficore/mem.go:99-116 | The output has the starts and types of some of the input entries, in the input's order |
| Coalescing.OutputIsCut | goefi/pkg/ueficore/mem.go:104-106 | Every two neighbours of the output could not have been joined |
| Coalescing.TouchingNeighbours | goefi/pkg/ueficore/mem.go:104-106 | Neighbours that touch and share a type meet at the start or the end of the runtime's region |
| Coalescing.CoalescingIsIdempotent | goefi/pkg/ueficore/mem.go:99-116 | Running the merge on its own output changes nothing |
| Coalescing.RuntimeRegionIsIsolated | goefi/pkg/ueficore/mem.go:95-104 | If non-empty RAM entries tile the region, the output has one entry for exactly the region, between the outputs for what the list has before and behind it, whatever that is |
| Coalescing.NothingReachesIn | goefi/pkg/ueficore/mem.go:99-116 | If the entries before the region end by its start and those behind it start from its end, so do the joined ones |
| MemoryMapDecode.DecodeMap | goefi/pkg/ueficore/mem.go:147-154 | The loop returns the record at every multiple of 48, in order, and fails exactly when more than 1000 are asked for |
| MemoryMapDecode.DecodeRecord | goefi/pkg/ueficore/desc.go:28-37 | A record laid out in little-endian order, with its fields at bytes 0, 8, 16, 24 and 32, decodes to its descriptor, whatever the padding |
| MemoryMapDecode.GetMemoryMap | goefi/pkg/ueficore/mem.go:122-157 | Every list of up to 1000 descriptors laid out in 48-byte records comes back as it was, whatever each record has in its padding |
| Heap.Runtime.AllocateHeap | goefi/pkg/ueficore/x64/mem.go:22-59 | The size and the request in each case: no match, a match at the end of the map, a match with a successor |
| Heap.RegionInE820 | goefi/pkg/ueficore/mem.go:95-104 | Once the request is granted, the region of code and heap is one entry of the E820 map, and the rest of the map is coalesced as if it stood alone |
| Heap.HeapIsIsolated | goefi/pkg/ueficore/x64/mem.go:34-56 | When the first match has memory directly behind it, in an otherwise arbitrary map: the region is extended to that memory's end, exactly its pages are requested, and the E820 map made afterwards isolates the region |
| CallFn.Cpu.CallFn | goefi/pkg/ueficore/uefi.s:9-96 | For every argument list and SP: registers at the call, stack arguments from SP + 32 on, all of it below the caller's SP with at most a word and the rounding between, SP at the call and after it, nothing written at or above SP, the result; without arguments nothing is called |
| CallFn.Cpu.PushArguments | goefi/pkg/ueficore/uefi.s:66-71 | The loop leaves the fifth argument and those behind it on the stack in order, and touches nothing else |
| CallFn.Cpu.AlignStack | goefi/pkg/ueficore/uefi.s:49-65 | SP is rounded down and padded only for exactly one stack argument; R12 ends behind the last argument |
| CallFn.Cpu.PopArguments | goefi/pkg/ueficore/uefi.s:76-81 | The loop takes exactly the stack arguments off again |
| CallFn.Cpu.LoadRegisters | goefi/pkg/ueficore/uefi.s:24-47 | The first four arguments, as far as there are any, and the count of the others |
| CallFn.AlignedAtCall | goefi/pkg/ueficore/uefi.s:49-73 | SP is 16-byte aligned at the call if and only if the count is not an odd number from 7 on; otherwise it is off by 8 |
| CallFn.LaidOut | goefi/pkg/ueficore/uefi.s:20-73 | What the steps leave is that layout: 32 bytes for the callee, the stack arguments above them, the position of SP fixed by alignment and distance |
| CallFn.Pushed | goefi/pkg/ueficore/uefi.s:66-71 | One more push keeps the argument array and the words already pushed |
| DevicePath.DevicePath | goefi/pkg/ueficore/path.go:48-103 | The loop computes `Parse` on every buffer |
| DevicePath.ParsesExactly | goefi/pkg/ueficore/path.go:63-102 | A path is returned if and only if the buffer holds the encodings of those nodes and an end header, there are at most 15 of them, and each has length 4 to 255 |
| DevicePath.ParsedIsSmall | goefi/pkg/ueficore/path.go:63-100 | At most 15 nodes, at most 3825 bytes, and the descriptor is the concatenation of the encodings |
| DevicePath.RejectsExactly | goefi/pkg/ueficore/path.go:64-92 | The three failures, each if and only if: 16 nodes; a length of 0 or above 255; a length of 1 to 3, which aborts |
| DevicePath.NodesTaken | goefi/pkg/ueficore/path.go:68-96 | Nodes that are in the buffer are read one after the other, whatever follows |
| DevicePath.FilePath | goefi/pkg/ueficore/path.go:117-142 | The file node is a media file path of 4 + 2 * (units + 1) bytes, modulo 2^16 in its length field, that holds the units of the name and a zero unit, and reads back as the name if and only if that has no NUL; the descriptor is that of the volume, this node and the end node; failures of the parser are passed on |
| DevicePath.NameReadBack | goefi/pkg/ueficore/path.go:118-126 | The name in the node, read up to its NUL |
| DevicePath.FilePathRoundTrip | goefi/pkg/ueficore/path.go:117-142 | Parsing the descriptor again gives the volume's nodes and the file's, if and only if there were at most 14 and the name's node is at most 255 bytes |
| DevicePath.LongNameRejected | goefi/pkg/ueficore/path.go:79-81 | A file node of 256 to 65535 bytes is rejected on the next parse |
| Clock.DaysSinceEpoch | goefi/pkg/uefi/clock.go:135-158 | The wrapped closed form is the sum of the year lengths modulo 2^64, for every year from the zero year on |
| Clock.ClosedIsSum | goefi/pkg/uefi/clock.go:97-158 | The closed form by cycles equals the year-by-year sum, because the zero year is 1 modulo 400 |
| Clock.EpochOffset | goefi/pkg/uefi/clock.go:100-110 | The constants of the source span exactly the years from the zero year to 1970 |
| Clock.TableIsCalendar | goefi/pkg/uefi/clock.go:116-130 | The table with the leap-day rule equals the sum of the month lengths |
| Clock.CalendarOrder | goefi/pkg/uefi/clock.go:112-158 | In the calendar that the results refer to, every date is numbered one more than the date before it, across months and years |
| Clock.EpochIsZero | goefi/pkg/uefi/clock.go:100-110 | 1 January 1970 is second 0 |
| Clock.ExactInt64 | goefi/pkg/uefi/clock.go:79-82 | A sum that fits 64 signed bits is exact, however often it wrapped on the way |
| Clock.GetEpoch | goefi/pkg/uefi/clock.go:62-86 | For every year, month, day and time: out of range exactly for months outside 2 to 14, otherwise the exact Unix seconds of the date with the month one earlier; so never those of the time given, but early by the length of the month before (from day 1 on) |
| Variables.Vars | goefi/cmd/efiload/main.go:60-105 | Every variable is printed once, in the firmware's order, with its exact bytes; no variable costs more than two calls; the previous name survives each regrow |
| Variables.GetKey | goefi/cmd/efiload/main.go:24-58 | The exact bytes of the variable; none when it does not exist; found exactly when it is not empty |
| Variables.Regrow | goefi/cmd/efiload/main.go:74-80 | The regrown slice still holds the previous name with its NUL |
| Variables.HeldName | goefi/cmd/efiload/main.go:68-71 | A buffer that holds a name with its NUL is read by the firmware as that name |
| Guid.GuidBytes | goefi/pkg/ueficore/guid.go:19-51 | The loop appends the groups with the first three reversed; text that does not match gives 16 zero bytes |
| Guid.BytesOfFormat | goefi/pkg/ueficore/config.go:23-31 | Printing and reading gives every 16 bytes back |
| Guid.FormatOfBytes | goefi/pkg/ueficore/guid.go:13-51 | Reading and printing gives the text in lower case if and only if the text matches the pattern |
| Guid.PaddedIsReversed | goefi/pkg/ueficore/config.go:25-28 | Printing a little-endian value prints its bytes in reverse |
| Guid.HexDigits | goefi/pkg/ueficore/guid.go:13-17 | The digits the pattern admits |
| Unicode.ToUTF16 | goefi/pkg/ueficore/desc.go:19-26 | The little-endian units of the text and a zero unit |
| Unicode.UTF16PtrToString | goefi/pkg/uefi/util.go:44-64 | The moving pointer stops at the first zero unit, and the units before it are decoded |
| Unicode.NameRoundTrip | goefi/pkg/ueficore/desc.go:19-26 | Encoding, scanning to the NUL and decoding gives the text back if and only if it has no NUL |
| Unicode.DecodeEncoded | goefi/pkg/uefi/util.go:54-64 | Decoding undoes encoding for all strings of Unicode scalar values |
| Unicode.UnitsOfUtf8 | src/stub2/main.zig:88-91 | The unit count of the UTF-8 of a text is the length of its UTF-16 encoding |
| Unicode.UnitCountExact | src/stub2/main.zig:88-91 | There is a count if and only if the bytes are the UTF-8 of some text, and one up to a limit if and only if that text takes no more units |
| Unicode.StringToUTF16 | goefi/pkg/uefi/util.go:30-38 | One unit a rune, cut to 16 bits, and a zero unit |
| Unicode.EncodersAgree | goefi/pkg/uefi/util.go:30-38 | The two encoders agree if and only if every rune is below 0x10000 |
| Console.Console.Write | goefi/pkg/ueficore/console.go:202-237 | The buffer handed to the firmware, for every text and setting; nothing is sent for empty text or without an output address |
| Console.TransformConcat | goefi/pkg/ueficore/console.go:216-230 | The transform acts on every unit alone |
| Console.TransformOne | goefi/pkg/ueficore/console.go:217-229 | A tab becomes the number of spaces set, a line feed gets its return, everything else stays |
| Console.CursorBack | goefi/pkg/ueficore/console.go:209-211 | The cursor-back sequence sends the bytes 8, 0, 0, 0 |
| Console.NoTabs | goefi/pkg/ueficore/console.go:217-222 | No tab is left when tabs are replaced |
| Console.LineFeedsGetReturns | goefi/pkg/ueficore/console.go:224-229 | Every line feed output has a carriage return behind it |
| Console.OutputLength | goefi/pkg/ueficore/console.go:216-230 | The number of units output |
| Console.TextRecovered | goefi/pkg/ueficore/console.go:216-230 | Without tabs, taking the added returns out gives the text back |
| Console.TerminatedOnlyByText | goefi/pkg/ueficore/console.go:150-153 | The buffer sent holds a NUL unit if and only if the text contains U+0000 or is the cursor-back sequence |

## Left out

- The UEFI wrapper tables, input, graphics, network, block and serial protocols: foreign calls without logic of their own.
- The inner workings of SHA-256, regular expressions, `encoding/hex` and the `dma` regions: parameters or small reference functions.
- The stub of `src/stub0`, the recovery and verification commands, and `executeKernel`: input and output sequences with no property beyond those of the verified stub.
- The stub's own image in memory: the configuration text is a value, so a store into it by firmware is not modelled. It is mapped read-only data of the loaded image.
- The code of `main.zig` behind `linuxExec` (lines 142 to 191): proved not to be reached, so its effects are not modelled.
- The file names of kernel and initrd: each file is a value of the firmware.
- Stub.LoadFile: the size reported by a read that fails is taken to be no larger than requested, because only a directory read makes firmware report more.
- Stub.SignAndBoot: states the outcome for kernels that have at least the 0x268 bytes of the header; shorter files are covered by `Stub.Run` without the exact condition.
- CallFn.Cpu.CallFn: addresses are unbounded integers, so a stack that wraps around address 0 is not modelled; the argument array is required to lie outside the stack words the routine writes, as Go's slices do.
- Heap.Runtime.AllocateHeap: the case that the memory map cannot be read, in which nothing is done, and the printed warnings.
- MemoryMapDecode.GetMemoryMap: firmware that lays descriptors out at another stride than the 48 bytes the code assumes.
- Variables.Vars: firmware that reports other errors than a small buffer, an end of the list or a bad name ends the listing with a panic and is not modelled; firmware is taken to update the name size on success.
- Console.Console.Write: text comes as decoded runes, and the status of the firmware's `OutputString` is not modelled.
- Unicode.UTF16PtrToString: the UTF-8 encoding of the result is left to the library.
- The rest of `setup-efi`: keys, file systems, signing and copying.
