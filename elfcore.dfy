/** CreateElfCore (elfcore.c:216-378): opens the core file, writes it part by
    part through `c_write`, leaves at the first write that does not complete
    (the `goto done` of every stage) and closes the descriptor.

    Each stage is a method whose contract says exactly what it leaves: the
    file and the `write()` outcomes still ahead are those of a run
    (`CoreWrites.Emit`) of the stage's own `c_write` calls, which ends at the
    first call that does not complete. The dumper as a whole runs
    `CoreWrites.CoreCalls`, whose bytes laid end to end are the core image
    `CoreLayout.CoreImage` (`CoreWrites.CoreCallsImage`). */
module ElfCore {
  import opened Encoding
  import opened Elf32
  import opened Slices
  import opened CoreLayout
  import opened Posix
  import opened Retry
  import opened CoreWrites
  import CoreReader

  // ---- One write --------------------------------------------------------------

  /** `c_write(handle, buf, n) != n`, the test after every write of the dumper:
      the file and the outcomes ahead are what `c_write` leaves, and `ok` says
      whether it returned `n`. */
  method WriteAll(f: OutputFile, bytes: seq<Byte>) returns (ok: bool)
    modifies f
    ensures ok <==> CWriteRun(old(f.isOpen), old(f.faults), |bytes|).rc == |bytes|
    ensures f.contents == old(f.contents) + bytes[..CWriteRun(old(f.isOpen), old(f.faults), |bytes|).written]
    ensures f.faults == old(f.faults)[CWriteRun(old(f.isOpen), old(f.faults), |bytes|).used..]
    ensures f.isOpen == old(f.isOpen)
    ensures Ran(old(f.contents), old(f.isOpen), old(f.faults), [bytes], f.contents, f.faults, ok)
  {
    ghost var open, evs := f.isOpen, f.faults;
    var rc := CWrite(f, bytes);
    ok := rc == |bytes|;
    EmitOne(open, evs, bytes);
  }

  // ---- The stages -------------------------------------------------------------

  /** The ELF header as the dumper fills it in (elfcore.c:246-260): zeroed,
      then the identification bytes and the fields of a 32-bit ARM core
      file, one assignment at a time. */
  method FillEhdr(numMappings: nat, big: bool) returns (ehdr: Ehdr)
    ensures ehdr == CoreEhdr(numMappings, big)
  {
    var ident := Zeros(IdentSize);
    ident := ident[0 := 0x7f][1 := 0x45][2 := 0x4c][3 := 0x46];
    ident := ident[EI_CLASS := ELFCLASS32];
    ident := ident[EI_DATA := if big then ELFDATA2MSB else ELFDATA2LSB];
    ident := ident[EI_VERSION := EV_CURRENT];
    assert ident == CoreIdent(big);
    ehdr := Ehdr(ident, 0, 0, 0, 0, 0, 0, 0, 0, 0, 0, 0, 0, 0);
    ehdr := ehdr.(eType := ET_CORE, eMachine := EM_ARM, eVersion := EV_CURRENT as nat);
    ehdr := ehdr.(ePhoff := EhdrSize, eEhsize := EhdrSize, ePhentsize := PhdrSize);
    ehdr := ehdr.(ePhnum := numMappings + 1, eShentsize := ShdrSize);
  }

  /** The ELF header written out in one call (elfcore.c:245-267). */
  method WriteHeader(f: OutputFile, numMappings: nat, big: bool) returns (ok: bool)
    modifies f
    ensures Ran(old(f.contents), old(f.isOpen), old(f.faults), [HeaderBytes(numMappings, big)], f.contents, f.faults, ok)
    ensures f.isOpen == old(f.isOpen)
  {
    var ehdr := FillEhdr(numMappings, big);
    ok := WriteAll(f, EncodeEhdr(ehdr, big));
  }

  /** The file space of the first `i` mappings grows by that of mapping `i - 1`. */
  lemma SumFileSizeStep(ms: seq<Mapping>, i: nat)
    requires 0 < i <= |ms|
    ensures SumFileSize(ms[..i]) == SumFileSize(ms[..i - 1]) + FileSize(ms[i - 1])
  {
    assert ms[..i][..i - 1] == ms[..i - 1];
  }

  /** The `phdr` the loop has filled in for mapping `i` is its PT_LOAD entry. */
  lemma LoadEntryBuilt(ms: seq<Mapping>, first: nat, big: bool, i: nat, offset: nat, filesz: nat, phdr: Phdr)
    requires i < |ms| && offset == first + SumFileSize(ms[..i])
    requires filesz == if Writable(ms[i]) then MemSize(ms[i]) else 0
    requires phdr == Phdr(PT_LOAD, offset, ms[i].start, 0, filesz, MemSize(ms[i]), ms[i].flags as nat, PageSize)
    ensures LoadEntries(ms, first, big)[i] == EncodePhdr(phdr, big)
  {
    assert phdr == LoadPhdr(ms[i], first + SumFileSize(ms[..i]));
  }

  /** One turn of the PT_LOAD loop (elfcore.c:297-311): move `offset` past the
      segment before, fill the fields of mapping `i` into the reused `phdr`
      and write it. `offset + filesz` moves on by the file space of mapping `i`. */
  method WriteLoadEntry(f: OutputFile, ms: seq<Mapping>, ghost first: nat, big: bool, i: nat,
                        phdr: Phdr, offset: nat, filesz: nat)
    returns (ok: bool, nextPhdr: Phdr, nextOffset: nat, nextFilesz: nat)
    requires i < |ms|
    requires phdr.pType == PT_LOAD && phdr.pPaddr == 0 && phdr.pAlign == PageSize
    requires offset + filesz == first + SumFileSize(ms[..i])
    modifies f
    ensures nextPhdr.pType == PT_LOAD && nextPhdr.pPaddr == 0 && nextPhdr.pAlign == PageSize
    ensures nextOffset + nextFilesz == first + SumFileSize(ms[..i + 1])
    ensures Ran(old(f.contents), old(f.isOpen), old(f.faults), [LoadEntries(ms, first, big)[i]], f.contents, f.faults, ok)
    ensures f.isOpen == old(f.isOpen)
  {
    nextOffset := offset + filesz;
    nextFilesz := MemSize(ms[i]);
    nextPhdr := phdr.(pOffset := nextOffset, pVaddr := ms[i].start, pMemsz := nextFilesz);
    if !Writable(ms[i]) {
      nextFilesz := 0;
    }
    nextPhdr := nextPhdr.(pFilesz := nextFilesz, pFlags := ms[i].flags as nat);
    LoadEntryBuilt(ms, first, big, i, nextOffset, nextFilesz, nextPhdr);
    SumFileSizeStep(ms, i + 1);
    ok := WriteAll(f, EncodePhdr(nextPhdr, big));
  }

  /** The PT_LOAD entries (elfcore.c:289-312), one call each, built in the
      `phdr` the PT_NOTE entry was built in, whose type, alignment and
      physical address the caller has already set. `offset + filesz` is
      `first`, where the first segment starts. */
  method WriteLoadHeaders(f: OutputFile, ms: seq<Mapping>, ghost first: nat, big: bool,
                          phdr: Phdr, offset: nat, filesz: nat) returns (ok: bool)
    requires phdr.pType == PT_LOAD && phdr.pPaddr == 0 && phdr.pAlign == PageSize
    requires offset + filesz == first
    modifies f
    ensures Ran(old(f.contents), old(f.isOpen), old(f.faults), LoadEntries(ms, first, big), f.contents, f.faults, ok)
    ensures f.isOpen == old(f.isOpen)
  {
    ghost var c0, open, evs := f.contents, f.isOpen, f.faults;
    ghost var es := LoadEntries(ms, first, big);
    assert ms[..0] == [] && es[..0] == [];
    RanNone(c0, open, evs);
    var phdr, offset, filesz := phdr, offset, filesz;
    ok := true;
    var i: nat := 0;
    while i < |ms|
      invariant i <= |ms|
      invariant offset + filesz == first + SumFileSize(ms[..i])
      invariant phdr.pType == PT_LOAD && phdr.pPaddr == 0 && phdr.pAlign == PageSize
      invariant f.isOpen == open
      invariant Ran(c0, open, evs, es[..i], f.contents, f.faults, true)
      invariant ok
    {
      ghost var c1, evs1 := f.contents, f.faults;
      ok, phdr, offset, filesz := WriteLoadEntry(f, ms, first, big, i, phdr, offset, filesz);
      RanNext(c0, open, evs, es, i, c1, evs1, f.contents, f.faults, ok);
      if !ok {
        return;
      }
      i := i + 1;
    }
    assert es[..i] == es;
  }

  /** The padding after the notes (elfcore.c:292-294): what is left of the
      page the notes end in, or nothing when they end on a page boundary. */
  method PageGap(offset: nat, filesz: nat) returns (noteAlign: nat)
    ensures noteAlign == NoteAlign(offset + filesz)
    ensures noteAlign < 4096 && (offset + filesz + noteAlign) % 4096 == 0
  {
    noteAlign := 4096 - (offset + filesz) % 4096;
    if noteAlign == 4096 {
      noteAlign := 0;
    }
  }

  /** The notes' end plus the padding after them is where the first
      segment starts. */
  lemma FirstLoadAfterGap(numMappings: nat, numThreads: nat, offset: nat, filesz: nat, noteAlign: nat)
    requires offset == NoteOffset(numMappings) && filesz == NoteFilesz(numThreads)
    requires noteAlign == NoteAlign(offset + filesz)
    ensures noteAlign == NoteAlign(NoteOffset(numMappings) + NoteFilesz(numThreads))
    ensures offset + noteAlign + filesz == FirstLoadOffset(numMappings, numThreads)
  {
  }

  /** The PT_NOTE entry (elfcore.c:271-286), built in a zeroed `phdr`: the
      notes start after the ELF header and the whole program-header table,
      and take one NT_PRPSINFO record and one NT_PRSTATUS record per thread. */
  method WriteNoteEntry(f: OutputFile, numMappings: nat, numThreads: nat, big: bool)
    returns (ok: bool, phdr: Phdr, offset: nat, filesz: nat)
    modifies f
    ensures offset == NoteOffset(numMappings) && filesz == NoteFilesz(numThreads)
    ensures Ran(old(f.contents), old(f.isOpen), old(f.faults), [EncodePhdr(NotePhdr(numMappings, numThreads), big)],
                f.contents, f.faults, ok)
    ensures f.isOpen == old(f.isOpen)
  {
    offset := 52 + (numMappings + 1) * 32;
    filesz := 140 + numThreads * 164;
    phdr := ZeroPhdr.(pType := PT_NOTE, pOffset := offset, pFilesz := filesz);
    ok := WriteAll(f, EncodePhdr(phdr, big));
  }

  /** The program-header table (elfcore.c:271-313): the PT_NOTE entry, then
      the PT_LOAD entries, all built in one reused `phdr`. The padding that
      takes the notes to a page boundary is worked out on the way and
      returned. */
  method WriteProgramHeaders(f: OutputFile, ms: seq<Mapping>, numThreads: nat, big: bool)
    returns (ok: bool, noteAlign: nat)
    modifies f
    ensures Ran(old(f.contents), old(f.isOpen), old(f.faults), PhdrCalls(ms, numThreads, big), f.contents, f.faults, ok)
    ensures ok ==> noteAlign == NoteAlign(NoteOffset(|ms|) + NoteFilesz(numThreads))
    ensures f.isOpen == old(f.isOpen)
  {
    ghost var c0, open, evs := f.contents, f.isOpen, f.faults;
    ghost var note := NoteEntry(ms, numThreads, big);
    ghost var loads := LoadEntries(ms, FirstLoadOffset(|ms|, numThreads), big);
    assert PhdrCalls(ms, numThreads, big) == [note] + loads;
    noteAlign := 0;
    var phdr, offset, filesz;
    ok, phdr, offset, filesz := WriteNoteEntry(f, |ms|, numThreads, big);
    if !ok {
      RanStop(c0, open, evs, [note], f.contents, f.faults, [note] + loads);
      return;
    }
    ghost var c1, evs1 := f.contents, f.faults;

    phdr := phdr.(pType := PT_LOAD, pAlign := 4096, pPaddr := 0);
    noteAlign := PageGap(offset, filesz);
    FirstLoadAfterGap(|ms|, numThreads, offset, filesz, noteAlign);
    offset := offset + noteAlign;
    ok := WriteLoadHeaders(f, ms, FirstLoadOffset(|ms|, numThreads), big, phdr, offset, filesz);
    RanSeq(c0, open, evs, [note], c1, evs1, loads, f.contents, f.faults, ok);
  }

  /** One note record, written as three `c_write` calls joined by `||`
      (elfcore.c:322-325, 336-339): the note header, the owner "CORE", the
      descriptor. A call that does not complete skips the calls after it. */
  method WriteNote(f: OutputFile, nhdr: Nhdr, desc: seq<Byte>, big: bool) returns (ok: bool)
    requires nhdr.nNamesz == 4 && nhdr.nDescsz == |desc|
    modifies f
    ensures Ran(old(f.contents), old(f.isOpen), old(f.faults), NoteCalls(nhdr.nType, desc, big), f.contents, f.faults, ok)
    ensures f.isOpen == old(f.isOpen)
  {
    ghost var c0, open, evs := f.contents, f.isOpen, f.faults;
    ghost var h := EncodeNhdr(nhdr, big);
    ghost var calls := NoteCalls(nhdr.nType, desc, big);
    assert calls == [h] + [CoreName] + [desc];
    ok := WriteAll(f, EncodeNhdr(nhdr, big));
    if !ok {
      RanStop(c0, open, evs, [h], f.contents, f.faults, calls);
      return;
    }
    ghost var c1, evs1 := f.contents, f.faults;
    ok := WriteAll(f, CoreName);
    RanSeq(c0, open, evs, [h], c1, evs1, [CoreName], f.contents, f.faults, ok);
    if !ok {
      RanStop(c0, open, evs, [h] + [CoreName], f.contents, f.faults, calls);
      return;
    }
    ghost var c2, evs2 := f.contents, f.faults;
    ok := WriteAll(f, desc);
    RanSeq(c0, open, evs, [h] + [CoreName], c2, evs2, [desc], f.contents, f.faults, ok);
  }

  /** Setting pr_pid in the caller's prstatus, whether for the first time or
      again, gives the descriptor of every NT_PRSTATUS note. */
  lemma StatusStep(status: seq<Byte>, prstatus: seq<Byte>, big: bool)
    requires |prstatus| == PrstatusSize
    requires status == prstatus || status == StatusDesc(prstatus, big)
    ensures |status| == PrstatusSize && SetPrPid(status, 1, big) == StatusDesc(prstatus, big)
  {
    if status != prstatus {
      SetPrPidIdempotent(prstatus, 1, big);
    }
  }

  /** One turn of the NT_PRSTATUS loop (elfcore.c:332-342): set pr_pid to 1
      in the caller's prstatus, retype the reused note header and write the
      record. */
  method WriteThreadNote(f: OutputFile, prstatus: seq<Byte>, big: bool, status: seq<Byte>, nhdr: Nhdr)
    returns (ok: bool, nextStatus: seq<Byte>, nextNhdr: Nhdr)
    requires |prstatus| == PrstatusSize && nhdr.nNamesz == 4
    requires status == prstatus || status == StatusDesc(prstatus, big)
    modifies f
    ensures nextStatus == StatusDesc(prstatus, big) && nextNhdr.nNamesz == 4
    ensures Ran(old(f.contents), old(f.isOpen), old(f.faults), NoteCalls(NT_PRSTATUS, StatusDesc(prstatus, big), big),
                f.contents, f.faults, ok)
    ensures f.isOpen == old(f.isOpen)
  {
    nextNhdr := nhdr.(nDescsz := PrstatusSize, nType := NT_PRSTATUS);
    StatusStep(status, prstatus, big);
    nextStatus := SetPrPid(status, 1, big);
    ok := WriteNote(f, nextNhdr, nextStatus, big);
  }

  /** The NT_PRSTATUS records (elfcore.c:330-343), counting the threads
      down, pr_pid set to 1 in the caller's prstatus before every one. The
      note header is the one the NT_PRPSINFO record was written from. */
  method WriteThreadNotes(f: OutputFile, numThreads: nat, prstatus: seq<Byte>, big: bool, nhdr: Nhdr)
    returns (ok: bool)
    requires |prstatus| == PrstatusSize && nhdr.nNamesz == 4
    modifies f
    ensures Ran(old(f.contents), old(f.isOpen), old(f.faults), Concat(ThreadCalls(numThreads, StatusDesc(prstatus, big), big)),
                f.contents, f.faults, ok)
    ensures f.isOpen == old(f.isOpen)
  {
    ghost var c0, open, evs := f.contents, f.isOpen, f.faults;
    ghost var g := ThreadCalls(numThreads, StatusDesc(prstatus, big), big);
    assert g[..0] == [];
    RanNone(c0, open, evs);
    var nhdr := nhdr;
    var status := prstatus;
    ok := true;
    var i: nat := numThreads;
    while i > 0
      invariant i <= numThreads
      invariant status == prstatus || status == StatusDesc(prstatus, big)
      invariant nhdr.nNamesz == 4
      invariant f.isOpen == open
      invariant Ran(c0, open, evs, Concat(g[..numThreads - i]), f.contents, f.faults, true)
      invariant ok
    {
      i := i - 1;
      ghost var k := numThreads - i - 1;
      ghost var c1, evs1 := f.contents, f.faults;
      ok, status, nhdr := WriteThreadNote(f, prstatus, big, status, nhdr);
      RanNextGroup(c0, open, evs, g, k, c1, evs1, f.contents, f.faults, ok);
      if !ok {
        return;
      }
    }
    assert g[..numThreads - i] == g;
  }

  /** The note segment (elfcore.c:316-344): the NT_PRPSINFO record, then the
      NT_PRSTATUS records, all from one reused note header. */
  method WriteNotes(f: OutputFile, numThreads: nat, prpsinfo: seq<Byte>, prstatus: seq<Byte>, big: bool)
    returns (ok: bool)
    requires |prpsinfo| == PrpsinfoSize && |prstatus| == PrstatusSize
    modifies f
    ensures Ran(old(f.contents), old(f.isOpen), old(f.faults), NoteSegmentCalls(numThreads, prpsinfo, prstatus, big),
                f.contents, f.faults, ok)
    ensures f.isOpen == old(f.isOpen)
  {
    ghost var c0, open, evs := f.contents, f.isOpen, f.faults;
    ghost var process := NoteCalls(NT_PRPSINFO, prpsinfo, big);
    ghost var threads := Concat(ThreadCalls(numThreads, StatusDesc(prstatus, big), big));
    var nhdr := Nhdr(0, 0, 0);
    nhdr := nhdr.(nNamesz := 4, nDescsz := PrpsinfoSize, nType := NT_PRPSINFO);
    ok := WriteNote(f, nhdr, prpsinfo, big);
    if !ok {
      RanStop(c0, open, evs, process, f.contents, f.faults, process + threads);
      return;
    }
    ghost var c1, evs1 := f.contents, f.faults;
    ok := WriteThreadNotes(f, numThreads, prstatus, big, nhdr);
    RanSeq(c0, open, evs, process, c1, evs1, threads, f.contents, f.faults, ok);
  }

  /** The zero bytes that take the file to the first page boundary after the
      notes, written only when there are any (elfcore.c:347-354). */
  method WritePadding(f: OutputFile, noteAlign: nat) returns (ok: bool)
    modifies f
    ensures Ran(old(f.contents), old(f.isOpen), old(f.faults), PaddingCalls(noteAlign), f.contents, f.faults, ok)
    ensures f.isOpen == old(f.isOpen)
  {
    if noteAlign != 0 {
      var scratch := Zeros(noteAlign);
      ok := WriteAll(f, scratch);
    } else {
      ok := true;
      RanNone(f.contents, f.isOpen, f.faults);
    }
  }

  /** One turn of the segment loop (elfcore.c:358-363): a read-only mapping
      is skipped, a writable one is written from the start of the caller's
      buffer. */
  method WriteSegment(f: OutputFile, m: Mapping, raw: seq<Byte>) returns (ok: bool)
    requires Writable(m) ==> MemSize(m) <= |raw|
    modifies f
    ensures Ran(old(f.contents), old(f.isOpen), old(f.faults), SegmentCalls(m, raw), f.contents, f.faults, ok)
    ensures f.isOpen == old(f.isOpen)
  {
    if !Writable(m) {
      ok := true;
      RanNone(f.contents, f.isOpen, f.faults);
      return;
    }
    ok := WriteAll(f, raw[..MemSize(m)]);
  }

  /** The bytes of every writable mapping, each taken from the start of the
      caller's buffer (elfcore.c:357-364). */
  method WriteSegments(f: OutputFile, ms: seq<Mapping>, raw: seq<Byte>) returns (ok: bool)
    requires Covers(ms, raw)
    modifies f
    ensures Ran(old(f.contents), old(f.isOpen), old(f.faults), Concat(SegmentGroups(ms, raw)), f.contents, f.faults, ok)
    ensures f.isOpen == old(f.isOpen)
  {
    ghost var c0, open, evs := f.contents, f.isOpen, f.faults;
    ghost var g := SegmentGroups(ms, raw);
    assert g[..0] == [];
    RanNone(c0, open, evs);
    ok := true;
    var i: nat := 0;
    while i < |ms|
      invariant i <= |ms|
      invariant f.isOpen == open
      invariant Ran(c0, open, evs, Concat(g[..i]), f.contents, f.faults, true)
      invariant ok
    {
      ghost var c1, evs1 := f.contents, f.faults;
      ok := WriteSegment(f, ms[i], raw);
      RanNextGroup(c0, open, evs, g, i, c1, evs1, f.contents, f.faults, ok);
      if !ok {
        return;
      }
      i := i + 1;
    }
    assert g[..i] == g;
  }

  /** The zeroed PT_NULL program header that closes the file (elfcore.c:365-374). */
  method WriteTerminator(f: OutputFile, big: bool) returns (ok: bool)
    modifies f
    ensures Ran(old(f.contents), old(f.isOpen), old(f.faults), [Terminator(big)], f.contents, f.faults, ok)
    ensures f.isOpen == old(f.isOpen)
  {
    var phdr := ZeroPhdr;
    phdr := phdr.(pType := PT_NULL, pPaddr := 0);
    ok := WriteAll(f, EncodePhdr(phdr, big));
  }

  // ---- The dumper ---------------------------------------------------------------

  /** The calls of the stages before a stage, with that stage's own, start
      the calls of the whole dumper. */
  lemma StagePrefixes(h: seq<seq<Byte>>, p: seq<seq<Byte>>, n: seq<seq<Byte>>, z: seq<seq<Byte>>,
                      s: seq<seq<Byte>>, t: seq<seq<Byte>>)
    ensures h <= h + p + n + z + s + t
    ensures h + p <= h + p + n + z + s + t
    ensures h + p + n <= h + p + n + z + s + t
    ensures h + p + n + z <= h + p + n + z + s + t
    ensures h + p + n + z + s <= h + p + n + z + s + t
  {
    var all := h + p + n + z + s + t;
    assert all[..|h|] == h;
    assert all[..|h + p|] == h + p;
    assert all[..|h + p + n|] == h + p + n;
    assert all[..|h + p + n + z|] == h + p + n + z;
    assert all[..|h + p + n + z + s|] == h + p + n + z + s;
  }

  /** The body of CreateElfCore between `open()` and the `done:` label
      (elfcore.c:243-377): the stages in file order, leaving at the first
      one that does not complete. The file and the outcomes ahead are those
      of a run of all of the dumper's calls; `ok` says whether every call
      completed. */
  method WriteCore(f: OutputFile, ms: seq<Mapping>, numThreads: nat, prpsinfo: seq<Byte>, prstatus: seq<Byte>,
                   raw: seq<Byte>, big: bool) returns (ok: bool)
    requires Covers(ms, raw) && |prpsinfo| == PrpsinfoSize && |prstatus| == PrstatusSize
    modifies f
    ensures Ran(old(f.contents), old(f.isOpen), old(f.faults), CoreCalls(ms, numThreads, prpsinfo, prstatus, raw, big),
                f.contents, f.faults, ok)
    ensures f.isOpen == old(f.isOpen)
  {
    ghost var c0, open, evs := f.contents, f.isOpen, f.faults;
    ghost var h := [HeaderBytes(|ms|, big)];
    ghost var p := PhdrCalls(ms, numThreads, big);
    ghost var n := NoteSegmentCalls(numThreads, prpsinfo, prstatus, big);
    ghost var z := PaddingCalls(NoteAlign(NoteOffset(|ms|) + NoteFilesz(numThreads)));
    ghost var s := Concat(SegmentGroups(ms, raw));
    ghost var t := [Terminator(big)];
    ghost var all := CoreCalls(ms, numThreads, prpsinfo, prstatus, raw, big);
    CoreCallsStages(ms, numThreads, prpsinfo, prstatus, raw, big);
    StagePrefixes(h, p, n, z, s, t);

    ok := WriteHeader(f, |ms|, big);
    if !ok {
      RanStop(c0, open, evs, h, f.contents, f.faults, all);
      return;
    }

    ghost var c1, evs1 := f.contents, f.faults;
    var noteAlign;
    ok, noteAlign := WriteProgramHeaders(f, ms, numThreads, big);
    RanSeq(c0, open, evs, h, c1, evs1, p, f.contents, f.faults, ok);
    if !ok {
      RanStop(c0, open, evs, h + p, f.contents, f.faults, all);
      return;
    }

    ghost var c2, evs2 := f.contents, f.faults;
    ok := WriteNotes(f, numThreads, prpsinfo, prstatus, big);
    RanSeq(c0, open, evs, h + p, c2, evs2, n, f.contents, f.faults, ok);
    if !ok {
      RanStop(c0, open, evs, h + p + n, f.contents, f.faults, all);
      return;
    }

    ghost var c3, evs3 := f.contents, f.faults;
    ok := WritePadding(f, noteAlign);
    RanSeq(c0, open, evs, h + p + n, c3, evs3, z, f.contents, f.faults, ok);
    if !ok {
      RanStop(c0, open, evs, h + p + n + z, f.contents, f.faults, all);
      return;
    }

    ghost var c4, evs4 := f.contents, f.faults;
    ok := WriteSegments(f, ms, raw);
    RanSeq(c0, open, evs, h + p + n + z, c4, evs4, s, f.contents, f.faults, ok);
    if !ok {
      RanStop(c0, open, evs, h + p + n + z + s, f.contents, f.faults, all);
      return;
    }

    ghost var c5, evs5 := f.contents, f.faults;
    ok := WriteTerminator(f, big);
    RanSeq(c0, open, evs, h + p + n + z + s, c5, evs5, t, f.contents, f.faults, ok);
  }

  /** The one mapping the dumper describes: the RAM window of `ramSize` bytes
      at `ramAddr`, writable and readable, its end computed in the 32-bit
      size_t (elfcore.c:226-235). */
  function RamMappings(ramAddr: nat, ramSize: nat): (ms: seq<Mapping>)
    requires ramAddr < 0x1_0000_0000 && ramSize < 0x1_0000_0000
    ensures |ms| == 1 && ms[0].start == ramAddr && Writable(ms[0]) && MemSize(ms[0]) == ramSize
  {
    [Mapping(ramAddr, (ramAddr + ramSize) % 0x1_0000_0000, PF_W | PF_R)]
  }

  /** The core image of the RAM window with one thread. */
  function RamImage(ramAddr: nat, ramSize: nat, raw: seq<Byte>, prpsinfo: seq<Byte>, prstatus: seq<Byte>,
                    big: bool): seq<Byte>
    requires ramAddr < 0x1_0000_0000 && ramSize < 0x1_0000_0000 && ramSize <= |raw|
    requires |prstatus| == PrstatusSize
  {
    CoreImage(RamMappings(ramAddr, ramSize), 1, prpsinfo, prstatus, raw, big)
  }

  /** The dumper's one PT_LOAD entry has p_offset 4096 and p_filesz
      `ramSize` for every `ramSize`, and the RAM bytes lie at 4096. Its
      offset is never cut to 32 bits, even when the file reaches 4 GiB: only
      a later mapping could start beyond 4 GiB, and the dumper builds none. */
  lemma {:induction false} RamLoadEntryRead(ramAddr: nat, ramSize: nat, raw: seq<Byte>, prpsinfo: seq<Byte>,
                                            prstatus: seq<Byte>, big: bool)
    requires ramAddr < 0x1_0000_0000 && ramSize < 0x1_0000_0000 && ramSize <= |raw|
    requires |prpsinfo| == PrpsinfoSize && |prstatus| == PrstatusSize
    ensures var img := RamImage(ramAddr, ramSize, raw, prpsinfo, prstatus, big);
            && 116 <= |img|
            && DecodePhdr(img[84..116], big).pType == PT_LOAD
            && DecodePhdr(img[84..116], big).pOffset == 4096
            && DecodePhdr(img[84..116], big).pVaddr == ramAddr
            && DecodePhdr(img[84..116], big).pFilesz == ramSize
            && At(img, 4096, raw[..ramSize])
  {
    var ms := RamMappings(ramAddr, ramSize);
    assert Covers(ms, raw);
    assert FirstLoadOffset(1, 1) == 4096;
    CoreImageLaidOut(ms, 1, prpsinfo, prstatus, raw, big);
    RamLoadEntryIn(RamImage(ramAddr, ramSize, raw, prpsinfo, prstatus, big), ramAddr, ramSize, raw, big);
  }

  /** `RamLoadEntryRead` for any file with the RAM window's PT_LOAD table at
      byte 84 and its payload at 4096. */
  lemma {:induction false} RamLoadEntryIn(img: seq<Byte>, ramAddr: nat, ramSize: nat, raw: seq<Byte>, big: bool)
    requires ramAddr < 0x1_0000_0000 && ramSize < 0x1_0000_0000 && ramSize <= |raw|
    requires At(img, 84, LoadTable(RamMappings(ramAddr, ramSize), 4096, big))
    requires At(img, 4096, Payload(RamMappings(ramAddr, ramSize), raw))
    ensures && 116 <= |img|
            && DecodePhdr(img[84..116], big).pType == PT_LOAD
            && DecodePhdr(img[84..116], big).pOffset == 4096
            && DecodePhdr(img[84..116], big).pVaddr == ramAddr
            && DecodePhdr(img[84..116], big).pFilesz == ramSize
            && At(img, 4096, raw[..ramSize])
  {
    var ms := RamMappings(ramAddr, ramSize);
    assert Covers(ms, raw);
    assert ms[..0] == [];
    CoreReader.LoadEntryIn(img, ms, 4096, raw, big, 0);
    assert 4096 + SumFileSize(ms[..0]) == 4096;
  }

  /** The run of the dumper's calls for the RAM window with one thread, when
      `open()` succeeded and the `write()` calls meet the outcomes `evs`. */
  function RamDump(ramAddr: nat, ramSize: nat, raw: seq<Byte>, prpsinfo: seq<Byte>, prstatus: seq<Byte>,
                   big: bool, evs: seq<WriteEvent>): Run
    requires ramAddr < 0x1_0000_0000 && ramSize < 0x1_0000_0000 && ramSize <= |raw|
    requires |prstatus| == PrstatusSize
  {
    DumpRun(RamMappings(ramAddr, ramSize), 1, prpsinfo, prstatus, raw, big, evs)
  }

  /** What the dumper's calls leave after `open()`: the run of them when the
      file could be created, and nothing at all on the descriptor -1. */
  lemma DumpEnds(ms: seq<Mapping>, numThreads: nat, prpsinfo: seq<Byte>, prstatus: seq<Byte>, raw: seq<Byte>, big: bool,
                 creatable: bool, c0: seq<Byte>, evs: seq<WriteEvent>, c1: seq<Byte>, evs1: seq<WriteEvent>, ok: bool)
    requires Covers(ms, raw) && |prstatus| == PrstatusSize
    requires Ran(if creatable then [] else c0, creatable, evs, CoreCalls(ms, numThreads, prpsinfo, prstatus, raw, big),
                 c1, evs1, ok)
    ensures creatable ==> c1 == DumpRun(ms, numThreads, prpsinfo, prstatus, raw, big, evs).written
                          && evs1 == DumpRun(ms, numThreads, prpsinfo, prstatus, raw, big, evs).rest
                          && (ok <==> c1 == CoreImage(ms, numThreads, prpsinfo, prstatus, raw, big))
                          && c1 <= CoreImage(ms, numThreads, prpsinfo, prstatus, raw, big)
                          && (Benign(evs) ==> c1 == CoreImage(ms, numThreads, prpsinfo, prstatus, raw, big))
                          && (FailsFirst(evs) ==> c1 == [])
    ensures !creatable ==> c1 == c0 && evs1 == evs && !ok
  {
    var calls := CoreCalls(ms, numThreads, prpsinfo, prstatus, raw, big);
    if creatable {
      assert [] + Emit(true, evs, calls).written == Emit(true, evs, calls).written;
      DumpRunImage(ms, numThreads, prpsinfo, prstatus, raw, big, evs);
    } else {
      EmitClosed(evs, calls);
      assert c0 + [] == c0;
    }
  }

  /** CreateElfCore(fn, ram_addr, raw_buf, ram_size, frame) (elfcore.c:216-378),
      for the file `f` names. `big` is what `sex()` reports for the host
      (elfcore.c:206-209); `prpsinfo` and `prstatus` are the bytes the two
      uninitialised locals hold. The descriptor is closed and 0 is returned
      on every path. When `open()` succeeds the file holds exactly what the
      run of the dumper's calls writes, up to the first one that does not
      complete, and the outcomes that run did not use are still ahead;
      hence a prefix of the core image, all of it when no write fails for
      good or takes zero bytes, and nothing when the very first write fails. */
  method CreateElfCore(f: OutputFile, ramAddr: nat, raw: seq<Byte>, ramSize: nat, big: bool,
                       prpsinfo: seq<Byte>, prstatus: seq<Byte>) returns (rc: int)
    requires ramAddr < 0x1_0000_0000 && ramSize < 0x1_0000_0000 && ramSize <= |raw|
    requires |prpsinfo| == PrpsinfoSize && |prstatus| == PrstatusSize
    modifies f
    ensures rc == 0
    ensures !f.isOpen
    ensures f.creatable ==>
              && f.contents == RamDump(ramAddr, ramSize, raw, prpsinfo, prstatus, big, old(f.faults)).written
              && f.faults == RamDump(ramAddr, ramSize, raw, prpsinfo, prstatus, big, old(f.faults)).rest
    ensures !f.creatable ==> f.contents == old(f.contents) && f.faults == old(f.faults)
    ensures f.creatable ==> f.contents <= RamImage(ramAddr, ramSize, raw, prpsinfo, prstatus, big)
    ensures f.creatable && Benign(old(f.faults)) ==>
              f.contents == RamImage(ramAddr, ramSize, raw, prpsinfo, prstatus, big)
    ensures f.creatable && FailsFirst(old(f.faults)) ==> f.contents == []
  {
    var numThreads := 1;
    rc := 0;
    var ms := RamMappings(ramAddr, ramSize);
    ghost var c0, evs := f.contents, f.faults;
    f.Open();
    var finished := WriteCore(f, ms, numThreads, prpsinfo, prstatus, raw, big);
    DumpEnds(ms, numThreads, prpsinfo, prstatus, raw, big, f.creatable, c0, evs, f.contents, f.faults, finished);
    f.Close();
  }

  /** CreateElfCore with the return code its callers can act on: 0 exactly
      when the whole core image reached the file, -1 otherwise. */
  method CreateElfCoreChecked(f: OutputFile, ramAddr: nat, raw: seq<Byte>, ramSize: nat, big: bool,
                              prpsinfo: seq<Byte>, prstatus: seq<Byte>) returns (rc: int)
    requires ramAddr < 0x1_0000_0000 && ramSize < 0x1_0000_0000 && ramSize <= |raw|
    requires |prpsinfo| == PrpsinfoSize && |prstatus| == PrstatusSize
    modifies f
    ensures rc == 0 || rc == -1
    ensures rc == 0 <==> f.creatable && f.contents == RamImage(ramAddr, ramSize, raw, prpsinfo, prstatus, big)
    ensures !f.isOpen
    ensures f.creatable ==>
              && f.contents == RamDump(ramAddr, ramSize, raw, prpsinfo, prstatus, big, old(f.faults)).written
              && f.faults == RamDump(ramAddr, ramSize, raw, prpsinfo, prstatus, big, old(f.faults)).rest
    ensures !f.creatable ==> f.contents == old(f.contents) && f.faults == old(f.faults)
    ensures f.creatable && Benign(old(f.faults)) ==> rc == 0
  {
    var numThreads := 1;
    rc := 0;
    var ms := RamMappings(ramAddr, ramSize);
    ghost var c0, evs := f.contents, f.faults;
    f.Open();
    var finished := WriteCore(f, ms, numThreads, prpsinfo, prstatus, raw, big);
    DumpEnds(ms, numThreads, prpsinfo, prstatus, raw, big, f.creatable, c0, evs, f.contents, f.faults, finished);
    if !finished {
      rc := -1;
    }
    f.Close();
  }

  // ---- The call in test_main.c ---------------------------------------------------

  /** The image test_main.c:14-22 asks for: 32 KiB of RAM at 0x1fffc000, one
      thread. The notes sit at byte 116 and take 304 bytes, the RAM starts on
      the first page boundary at 4096, and the file is 36896 bytes long. */
  lemma {:induction false} TestImageLayout(raw: seq<Byte>, prpsinfo: seq<Byte>, prstatus: seq<Byte>, big: bool)
    requires |raw| == 32768 && |prpsinfo| == PrpsinfoSize && |prstatus| == PrstatusSize
    ensures NoteOffset(1) == 116 && NoteFilesz(1) == 304 && FirstLoadOffset(1, 1) == 4096
    ensures |RamImage(0x1fffc000, 32768, raw, prpsinfo, prstatus, big)| == 36896
  {
    var ms := RamMappings(0x1fffc000, 32768);
    assert FirstLoadOffset(1, 1) == 4096;
    assert ms[..0] == [];
    assert SumFileSize(ms) == 32768;
    ImageLength(ms, 1, prpsinfo, prstatus, raw, big);
  }

  /** The call of test_main.c:14-22 on a disk that is full from the first
      write on: nothing reaches the file, yet 0 comes back, while the image
      it was meant to hold has 36896 bytes (`TestImageLayout`). */
  method TestCallOnFullDisk() returns (rc: int, written: seq<Byte>)
    ensures rc == 0 && written == []
  {
    var raw: seq<Byte> := seq(32768, _ => 0xde);
    var f := new OutputFile([], true, [Fail(ENOSPC)]);
    assert f.creatable && FailsFirst(f.faults);
    rc := CreateElfCore(f, 0x1fffc000, raw, 32768, false, Zeros(PrpsinfoSize), Zeros(PrstatusSize));
    written := f.contents;
  }

  /** The same call when the first `write()` takes 10 of the header's 52
      bytes and the next one fails with EIO: `c_write` gives up, the header
      test sends the dumper to `done:`, and neither the rest of the header
      nor any later part is written, though a `write()` that would have
      taken them is still ahead. */
  method TestCallFailingMidHeader() returns (rc: int, written: seq<Byte>, left: seq<WriteEvent>)
    ensures rc == 0 && written == HeaderBytes(1, false)[..10] && left == [Accept(1000)]
  {
    var raw: seq<Byte> := seq(32768, _ => 0xde);
    var evs := [Accept(10), Fail(EIO), Accept(1000)];
    var f := new OutputFile([], true, evs);
    assert NoIntrRun(true, evs, 52) == Attempt(Wrote(10), 1);
    assert evs[1..] == [Fail(EIO), Accept(1000)] && evs[2..] == [Accept(1000)];
    assert CWriteRun(true, evs[1..], 42) == Outcome(-1, 0, 1);
    assert CWriteRun(true, evs, 52) == Outcome(-1, 10, 2);
    rc := CreateElfCore(f, 0x1fffc000, raw, 32768, false, Zeros(PrpsinfoSize), Zeros(PrstatusSize));
    written := f.contents;
    left := f.faults;
  }
}
