# ELF core dumper model

A Dafny model of the core-file writer in `elfcore.c` of bare_core. On a
32-bit ARM board, `CreateElfCore` writes an ELF core file that describes
one RAM window. The file holds:

- an ELF header;
- a program-header table: one PT_NOTE entry, then one PT_LOAD entry per
  mapping;
- the note segment: an NT_PRPSINFO record, then one NT_PRSTATUS record per
  thread;
- zero padding up to the next 4096-byte page boundary;
- the bytes of every writable mapping;
- a zeroed PT_NULL program header.

Every write goes through `c_write`. It is a `write()` loop that retries
EINTR (the `NO_INTR` macro), keeps going after short writes, gives up on
any other error and stops when `write()` takes nothing. After each write
the dumper checks that the whole part was written, and otherwise jumps to
the `done:` label, which closes the descriptor.

The project has nine modules:

- `Encoding` (encoding.dfy): bytes, and 16/32-bit fields in either byte
  order. Each field round-trips.
- `Elf32` (elf32.dfy): the Elf32_Ehdr, Elf32_Phdr and Elf32_Nhdr records
  and their constants, with encode/decode round trips.
- `Slices` (slices.dfy): facts about where a part lies in a byte sequence
  (`At`), and about concatenating a sequence of parts.
- `CoreLayout` (core_layout.dfy): the layout arithmetic as pure functions
  (note offset and size, page padding, segment offsets), and `CoreImage`,
  the byte image the dumper must produce when every write succeeds.
- `CoreReader` (reader.dfy): what a reader of any file laid out as
  `CoreImage` finds in it. This covers the header fields, the PT_NOTE
  entry, the note records, the zero padding, each PT_LOAD entry and the
  bytes it points at, and the terminating PT_NULL entry.
- `Posix` (posix.dfy): the output file as a class. `open()`, `write()`
  and `close()` are methods. Each `write()` outcome (interrupted, failed
  with an errno, or accepted some number of bytes) comes from a finite
  script that the file object holds. Once the script runs out, `write()`
  accepts everything.
- `Retry` (cwrite.dfy): `NO_INTR` and `c_write`. Each is an imperative
  loop proved against a function that says what the call comes to under a
  given script (`NoIntrRun`, `CWriteRun`). Lemmas about `CWriteRun` state
  its guarantees.
- `CoreWrites` (writes.dfy): the list of `c_write` calls the dumper makes,
  in order (`CoreCalls`), and `Emit`, what a run of calls leaves in the
  file under a given script. In `Emit` each call appends what `c_write`
  wrote, and the first call whose result is not its length ends the run.
  Lemmas show that the calls laid end to end are `CoreImage`, and that no
  call after the first incomplete one writes a byte or uses an outcome.
- `ElfCore` (elfcore.dfy): `CreateElfCore` as a method. Each stage of the
  dumper is a method that appends to the file. Its contract gives the
  file's new contents and the outcomes left, exactly as `Emit` gives them
  for that stage's calls. The loops of the program-header, note and
  segment stages are `while` loops with invariants.

The proofs establish the following about `CreateElfCore`:

- The descriptor is always closed.
- It returns 0 on every path.
- When the file can be created, it holds exactly what `Emit` gives for the
  dumper's calls, and the script has exactly the outcomes `Emit` leaves.
  Each call appends what `c_write` wrote. The first call that returns
  less than its length ends the dump, and no later call writes anything.
- That content is always a prefix of the core image. It is the whole
  image exactly when every call completed.
- The file holds all of the image when no `write()` fails for good or
  takes zero bytes.
- The file is empty when the very first write fails for good.

`sex()` (elfcore.c:206-209) is the parameter `big`: it tells whether the
host is big-endian, and therefore in which byte order the header structs
reach the file. The two locals `prpsinfo` and `prstatus`, which the source
never initialises, are byte-sequence parameters of 124 and 148 bytes. Those
are the 32-bit ARM sizes of the structs declared at elfcore.c:97-129.
`pr_pid` sits at byte 24 of prstatus.

Where the behaviour described for the program and the code differ, the
model follows the code:

- `e_shentsize` is `sizeof(Elf32_Shdr)` = 40 (elfcore.c:262), not zero,
  although the file has no section headers.
- The page padding is written whenever the notes do not end on a page
  boundary (elfcore.c:347-354), whether or not a writable mapping follows.
- `CreateElfCore` returns 0 even when the dump failed (see Findings).
- The comment above `c_write` (elfcore.c:166-167) promises no short
  writes. Yet when `write()` takes zero bytes, the loop breaks and
  `c_write` returns the count written so far, which is short
  (`Retry.CWriteRunShort`). The dumper treats such a result as a failed
  write.

## Model

| member | source | states |
|---|---|---|
| Encoding.DecodeEncodeField | elfcore.c:206-209 | A field written in the host's byte order reads back, in that order, as the value cut to the field's width. |
| Encoding.EncodeDecodeField | elfcore.c:206-209 | Every 2- or 4-byte string is the encoding of the value a reader takes from it, so encoding loses nothing. |
| Encoding.DecodeEncodeFields | elfcore.c:246-262 | A struct written field by field reads back as the same field values, when each fits its width. |
| Encoding.EncodeDecodeFields | elfcore.c:246-262 | Every byte string of the struct's length is the encoding of the fields read from it. |
| Encoding.DecodeEncodeFieldsCut | elfcore.c:246-262 | Any struct written field by field reads back as its field values cut to their widths. |
| Encoding.EncodeZeroFields | elfcore.c:247 | A struct whose fields are all zero, as `memset` leaves it, is all zero bytes. |
| Elf32.DecodeEncodeEhdr | elfcore.c:246-263 | The 52 bytes written for an ELF header decode to the same header. |
| Elf32.DecodeEncodePhdr | elfcore.c:279-283 | The 32 bytes written for a program header decode to the same header. |
| Elf32.EncodeDecodePhdr | elfcore.c:279-283 | Any 32 bytes are the encoding of the program header decoded from them. |
| Elf32.DecodeEncodePhdrCut | elfcore.c:279-308 | Any program header, fitting or not, decodes from its 32 bytes as its words cut to 32 bits, as storing into the Elf32 fields cuts them. |
| Elf32.ZeroPhdrIsZeros | elfcore.c:366-369 | A program header of zero fields encodes as 32 zero bytes. |
| Elf32.DecodeEncodeNhdr | elfcore.c:317-322 | The 12 bytes written for a note header decode to the same header. |
| CoreLayout.PrPidOfSetPrPid | elfcore.c:334 | After `pr_pid` is set, a reader of prstatus finds that pid, cut to 32 bits. |
| CoreLayout.SetPrPidIdempotent | elfcore.c:330-334 | Setting `pr_pid` again leaves the same bytes, so every NT_PRSTATUS descriptor is the same. |
| CoreLayout.LayoutSizes | elfcore.c:273-277 | The note offset is the ELF header plus n+1 program headers. The NT_PRPSINFO record is 12 + 4 + 124 = 140 bytes and each NT_PRSTATUS record 12 + 4 + 148 = 164. The notes are one of the former plus t of the latter. The header and one program header take 84 bytes, and a page is 4096. |
| CoreLayout.NoteAlignReaches | elfcore.c:292-295 | `note_align` is below 4096 and takes the end of the notes to a page boundary. |
| CoreLayout.NoteAlignIsLeast | elfcore.c:292-295 | No smaller padding reaches a page boundary. |
| CoreLayout.FirstLoadIsPageAligned | elfcore.c:273-295 | The first segment starts on the first page boundary at or after the end of the notes. |
| CoreLayout.LoadOffsetStep | elfcore.c:295-299 | The first segment starts at that boundary, and each later one starts where the one before it ends. |
| CoreLayout.LoadTableEntry | elfcore.c:296-312 | Entry i of the PT_LOAD table is mapping i's header, at the offset the mappings before it leave. |
| CoreLayout.ThreadNoteEntry | elfcore.c:330-343 | Status record k occupies slot k of the thread notes. |
| CoreLayout.PayloadEntry | elfcore.c:357-364 | Mapping i's bytes lie in the payload right after those of the mappings before it. |
| CoreLayout.NoteSegmentLength | elfcore.c:273-277 | The note records are exactly as long as the PT_NOTE p_filesz. |
| CoreLayout.PrologueLength | elfcore.c:273-295 | The bytes before the payload are exactly as many as the first PT_LOAD entry's p_offset. |
| CoreLayout.ImageLength | elfcore.c:243-374 | The whole file is that offset plus the mappings' p_filesz plus the 32-byte terminator. |
| CoreLayout.CoreImageLaidOut | elfcore.c:243-374 | The core image has each part at the offset its headers give. |
| CoreReader.HeaderDecodes | elfcore.c:246-263 | The first 52 bytes decode to the header the dumper fills in. |
| CoreReader.CoreEhdrFields | elfcore.c:246-262 | That header has the ELF magic, ELFCLASS32, ELFDATA2MSB on a big-endian host and ELFDATA2LSB otherwise, EV_CURRENT, and zero in e_ident[7..16]. It has ET_CORE, EM_ARM, e_phoff = e_ehsize = 52, e_phentsize 32, e_phnum = mappings + 1, e_shentsize 40, and zero in every other field. |
| CoreReader.HeaderRead | elfcore.c:246-263 | The same fields, identification bytes included, read from the first 52 bytes of any file laid out as the core image. |
| CoreReader.NoteEntryRead | elfcore.c:273-286 | The first program header is PT_NOTE with p_offset 52 + 32(n+1) and p_filesz 140 + 164t, its other fields zero, and the note segment lies exactly there. |
| CoreReader.NoteRecordRead | elfcore.c:317-328 | A note record is a note header with n_namesz 4 and the descriptor's size and type, then "CORE", then the descriptor. |
| CoreReader.ProcessNoteRead | elfcore.c:317-328 | The NT_PRPSINFO record with the caller's prpsinfo opens the note segment. |
| CoreReader.StatusNoteRead | elfcore.c:330-343 | NT_PRSTATUS record k lies at NoteOffset + 140 + 164k and carries prstatus with pr_pid 1. |
| CoreReader.PaddingZeros | elfcore.c:292-295 | Between the end of the notes and the first segment there are only zero bytes, and the first segment starts on a page boundary. |
| CoreReader.PhdrAt | elfcore.c:308 | A program header laid in the file reads back with each word cut to 32 bits, so unchanged when every word fits. |
| CoreReader.CutLoadPhdr | elfcore.c:298-307 | Of a PT_LOAD entry only p_offset can lose bits when stored: the address is 32-bit, and p_filesz and p_memsz are already cut to `size_t`. |
| CoreReader.SumFileSizeGrows | elfcore.c:296-298 | The file space of the mappings before i, plus mapping i's, is within that of all of them. |
| CoreReader.LoadEntryAt | elfcore.c:296-312 | Entry i of a PT_LOAD table reads back as mapping i's header. Its p_offset is mapping i's position cut to the 32-bit `size_t`, for any table size. |
| CoreReader.SegmentAt | elfcore.c:357-364 | Mapping i's bytes lie where the mappings before it end. |
| CoreReader.LoadEntryIn | elfcore.c:296-312 | Entry i reads back as mapping i's header, with p_offset cut to 32 bits, and mapping i's bytes lie at the uncut position. When that position is below 4 GiB, p_offset points at them. |
| CoreReader.LoadEntryRead | elfcore.c:289-312 | Program header i+1 is PT_LOAD with mapping i's address, memsz, flags, p_paddr 0 and p_align 4096. Its p_filesz is memsz when writable and 0 otherwise. Its p_offset is the first segment offset plus the earlier mappings' sizes, cut to 32 bits. When that position is below 4 GiB, whatever the file's size, the first `end - start` bytes of the caller's buffer lie there when the mapping is writable. |
| CoreReader.TerminatorAt | elfcore.c:365-374 | The file ends with 32 zero bytes that read as a PT_NULL program header. |
| Posix.OutputFile.Open | elfcore.c:243 | `open(O_WRONLY\|O_TRUNC\|O_CREAT)` empties the file and gives a valid descriptor when the file can be created, and otherwise leaves it alone with descriptor -1. |
| Posix.OutputFile.Write | elfcore.c:174 | `write()` returns the next scripted outcome and appends exactly the bytes it reports. |
| Posix.OutputFile.Close | elfcore.c:376 | `close()` invalidates the descriptor and changes no content. |
| Retry.NoIntrRun | elfcore.c:164 | The retried call never ends in EINTR, never reports more than was asked, and uses no scripted outcome exactly when the descriptor is bad or the script has run out. |
| Retry.NoIntrVerdict | elfcore.c:164 | Every call before the last was interrupted. The result is an error exactly when the descriptor is bad or the last call failed with another errno, and 0 exactly when the last call took nothing. |
| Retry.NoIntrWrite | elfcore.c:164 | The NO_INTR loop does what `NoIntrRun` says and appends only the bytes the last call wrote. |
| Retry.CWriteRun | elfcore.c:170-186 | The result is the number of bytes written or -1. A -1 means the write fell short. Nothing is used for an empty buffer. |
| Retry.CWrite | elfcore.c:170-186 | The c_write loop returns `CWriteRun`'s result, appends exactly the bytes it reports written, and consumes exactly its outcomes. |
| Retry.CWriteRunCompletes | elfcore.c:170-186 | When no call fails for good or takes zero bytes, the whole length is written and returned. |
| Retry.CWriteRunStopsAtFirstFault | elfcore.c:170-186 | Every outcome used before the last was harmless: the call stops at the first lasting failure or empty write. |
| Retry.CWriteRunFails | elfcore.c:174-177 | The result is negative exactly when the descriptor is bad or the last write failed with an errno other than EINTR. |
| Retry.CWriteRunShort | elfcore.c:178-179 | A result in [0, len) is returned exactly when the last write took zero bytes. |
| Retry.CWriteRunBadDescriptor | elfcore.c:170-186 | On descriptor -1 nothing is written, and a non-empty write returns -1. |
| Retry.CWriteRunFirstFails | elfcore.c:174-176 | A first write that fails for good returns -1 at once, with nothing written. |
| CoreWrites.EmitAppend | elfcore.c:243-374 | Running calls a and then b is running a, followed by b only when every call of a completed. |
| CoreWrites.EmitIgnoresLater | elfcore.c:263-265 | Once a call has not completed, the calls after it change nothing: the run writes and uses exactly what it did without them (the `goto done`). |
| CoreWrites.EmitOne | elfcore.c:263 | One call appends the bytes `c_write` wrote, uses the outcomes `c_write` used, and completes exactly when `c_write` returns its length. |
| CoreWrites.EmitPrefix | elfcore.c:243-374 | A run appends a prefix of its calls' bytes laid end to end, and all of them exactly when every call completed. |
| CoreWrites.EmitBenign | elfcore.c:170-186 | When no `write()` fails for good or takes zero bytes, every call completes and the outcomes left are as harmless. |
| CoreWrites.EmitClosed | elfcore.c:243 | On the descriptor -1 a failed `open()` returns, nothing is written and no outcome is used, and a first call with bytes fails. |
| CoreWrites.EmitFirstLasting | elfcore.c:263-265 | When the first `write()` fails for good, the run ends at once with nothing written and one outcome used. |
| CoreWrites.NoteCallsRecord | elfcore.c:322-325 | The three writes of a note lay down exactly its note record. |
| CoreWrites.PhdrCallsTable | elfcore.c:271-313 | The program-header writes lay down exactly the PT_NOTE entry and the PT_LOAD table. |
| CoreWrites.NoteSegmentCallsBytes | elfcore.c:316-344 | The note writes lay down exactly the note segment. |
| CoreWrites.PaddingCallsBytes | elfcore.c:347-354 | The padding write lays down exactly `note_align` zero bytes, and there is no write when it is 0. |
| CoreWrites.SegmentCallsPayload | elfcore.c:357-364 | The segment writes lay down exactly the payload. |
| CoreWrites.CoreCallsImage | elfcore.c:243-374 | All the dumper's calls, laid end to end, are the core image. |
| CoreWrites.DumpRunImage | elfcore.c:243-374 | After a successful `open()`, the dump leaves a prefix of the image. It leaves all of it exactly when every call completed, all of it under a harmless script, and nothing when the first `write()` fails for good. |
| ElfCore.WriteAll | elfcore.c:263 | One `c_write(...) != n` test: it appends exactly what `c_write` wrote, uses its outcomes, and succeeds exactly when `c_write` returned n. |
| ElfCore.FillEhdr | elfcore.c:246-262 | The filled-in header is the core file's ELF header. |
| ElfCore.WriteHeader | elfcore.c:245-267 | The file and script end exactly as `Emit` gives them for the one ELF header write. |
| ElfCore.WriteLoadEntry | elfcore.c:297-311 | One loop turn makes exactly the write of mapping i's PT_LOAD entry, and advances offset + filesz past mapping i. |
| ElfCore.WriteLoadHeaders | elfcore.c:289-312 | The loop ends with the file and script exactly as `Emit` gives them for the PT_LOAD table, stopping at the first incomplete entry. |
| ElfCore.PageGap | elfcore.c:292-294 | `note_align` is below 4096 and takes the end of the notes to a page boundary. |
| ElfCore.FirstLoadAfterGap | elfcore.c:295-297 | offset + note_align + filesz is where the first segment starts. |
| ElfCore.WriteNoteEntry | elfcore.c:271-286 | Makes exactly the PT_NOTE entry write, and returns the note offset and p_filesz. |
| ElfCore.WriteProgramHeaders | elfcore.c:271-313 | The file and script end exactly as `Emit` gives them for the PT_NOTE entry and the PT_LOAD table. On success it returns `note_align`. |
| ElfCore.WriteNote | elfcore.c:322-325 | The three writes joined by `\|\|` end exactly as `Emit` gives them for one note. A write after an incomplete one is not made. |
| ElfCore.StatusStep | elfcore.c:334 | Setting pr_pid = 1 in the original or the already-set prstatus gives the same descriptor. |
| ElfCore.WriteThreadNote | elfcore.c:332-342 | One turn sets pr_pid to 1 and makes exactly the writes of that NT_PRSTATUS note. |
| ElfCore.WriteThreadNotes | elfcore.c:330-343 | The countdown loop ends exactly as `Emit` gives it for the per-thread notes. |
| ElfCore.WriteNotes | elfcore.c:316-344 | The file and script end exactly as `Emit` gives them for the note writes. |
| ElfCore.WritePadding | elfcore.c:347-354 | The file and script end exactly as `Emit` gives them for the padding write. No write is made when `note_align` is 0. |
| ElfCore.WriteSegment | elfcore.c:358-363 | One turn writes a writable mapping's bytes from the start of the buffer, and nothing for a read-only one. |
| ElfCore.WriteSegments | elfcore.c:357-364 | The loop ends exactly as `Emit` gives it for the segment writes. |
| ElfCore.WriteTerminator | elfcore.c:365-374 | The file and script end exactly as `Emit` gives them for the zeroed PT_NULL header write. |
| ElfCore.WriteCore | elfcore.c:243-374 | The file and script end exactly as `Emit` gives them for all of the dumper's calls, on an open or a closed descriptor. |
| ElfCore.RamMappings | elfcore.c:226-235 | One writable mapping starting at ram_addr and spanning ram_size bytes. |
| ElfCore.RamLoadEntryRead | elfcore.c:289-312 | With the single mapping of elfcore.c:234, in the dumper's file the one PT_LOAD entry has p_offset 4096, p_vaddr ram_addr and p_filesz ram_size for every ram_size, and the RAM bytes lie at 4096. The 32-bit cut never reaches it, even in a file of 4 GiB or more. |
| ElfCore.RamLoadEntryIn | elfcore.c:296-312 | The same for any file with the RAM window's PT_LOAD table at byte 84 and its payload at 4096. |
| ElfCore.DumpEnds | elfcore.c:243-376 | After `open()` succeeded, the file holds exactly what the dump's run wrote: a prefix of the image, all of it exactly when every call completed. After a failed `open()`, the file and the script are unchanged and the dump reports failure. |
| ElfCore.CreateElfCore | elfcore.c:216-378 | Returns 0 and closes the descriptor. If the file can be created, the file and the script end exactly as `Emit` gives them for the dumper's calls. That is a prefix of the image: all of it under a harmless script, and none of it when the first write fails for good. Otherwise the file is untouched. |
| ElfCore.CreateElfCoreChecked | elfcore.c:216-378 | Writes exactly what `CreateElfCore` writes, with a corrected return code: 0 exactly when the file can be created and holds the whole image, -1 otherwise. |
| ElfCore.TestImageLayout | test_main.c:14-22 | For 32 KiB at 0x1fffc000 with one thread: notes at byte 116, 304 bytes long, RAM at byte 4096, file of 36896 bytes. |
| ElfCore.TestCallOnFullDisk | test_main.c:18-22 | That call on a disk full from the first write returns 0 with nothing written. |
| ElfCore.TestCallFailingMidHeader | test_main.c:18-22 | That call, when `write()` takes 10 header bytes and then fails with EIO, returns 0, leaves those 10 bytes, and uses no later outcome. |

## Left out

- The `frame` argument of `CreateElfCore` is unused by the code (the
  `pr_reg` copy is commented out at elfcore.c:335) and has no counterpart.
- The file name `fn` is modelled only through `OutputFile.creatable`,
  whether `open()` succeeds.
- Every `write()` outcome comes from a finite script held by the file.
  Real I/O, signals and concurrency are not modelled.
- A `write()` that keeps failing with EINTR is outside the model. There
  `NO_INTR` (elfcore.c:164) spins forever and the dump never returns.
  `Retry.NoIntrWrite` and `Retry.CWrite` terminate only because the
  script is finite, and `write()` accepts everything once it runs out.
- `assert(0)` in the failure branches is modelled as in an NDEBUG build:
  the branch goes straight to `done:`. With assertions enabled the process
  would abort there instead.
- The unused `struct io`, `WriterFds` and their initialisation
  (elfcore.c:189-200, 229, 241) have no counterpart.
- The uninitialised `prpsinfo` and `prstatus` locals are parameters, so
  the model covers every value they might hold.
- The variable-length `scratch` array of the padding stage is a sequence
  of zero bytes. Stack exhaustion is not modelled.
- Offsets and sizes are unbounded naturals. The 32-bit `size_t`
  truncation appears where a value is stored: in a header field
  (`Encoding.Truncate`), and in `end - start` (`CoreLayout.MemSize`).
  `CoreReader.LoadEntryRead` states p_offset as the segment's position
  cut to 32 bits, as the source's `size_t` arithmetic leaves it, for a
  table of any number of mappings; the cut only changes it for a segment
  that starts at 4 GiB or beyond, and `CoreReader.SegmentAt` places the
  bytes at the uncut position. The dumper itself builds one mapping
  (elfcore.c:233-234), whose segment starts at 4096, so its p_offset is
  4096 and points at the RAM bytes for every `ram_size`, even when a
  `ram_size` of 0xFFFFEFE0 or more makes the file 4 GiB or larger
  (`ElfCore.RamLoadEntryRead`).
- The mode 0644 that `open()` passes with `O_CREAT` (elfcore.c:243) is not
  modelled: `Posix.OutputFile` has no permissions, owner or umask.
- Retry.CWrite: `c_write` returns `ssize_t`, and `bytes - len` for a huge
  `bytes` is not modelled as wrapping. Callers compare the result with the
  unsigned size, where -1 still reads as "not all written", as in
  `ElfCore.WriteAll`.
- The stage methods of `ElfCore` split one C function into parts.
  `WriteCore` runs them in the source's order, with the same early exits.

## Findings

| source | as written | input that shows it | evidently intended | confidence | as-written member | corrected member |
|---|---|---|---|---|---|---|
| elfcore.c:227, 377 | `rc` is set to 0 and never changed, and `open()` is never checked, so `CreateElfCore` returns 0 on every path, including a failed open or a failed write | `CreateElfCore("core", 0x1fffc000, buf, 32768, ...)` on a disk where the first `write()` fails with ENOSPC: the file is empty and 0 is returned | a failure status when the core file was not written in full | not executed | ElfCore.TestCallOnFullDisk | ElfCore.CreateElfCoreChecked |
