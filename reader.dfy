/** What a reader of the core file finds in it: every offset and size the
    headers announce leads to the bytes the dumper wrote for that part.
    These are the properties the layout of CreateElfCore (elfcore.c:216-378)
    exists to provide; each is stated on the decoded header fields, the way
    a debugger takes them from the file, for a file `img` laid out as
    `CoreLayout.LaidOut` describes, which `CoreLayout.CoreImageLaidOut`
    shows of the image the dumper writes. */
module CoreReader {
  import opened Encoding
  import opened Elf32
  import opened Slices
  import opened CoreLayout

  // ---- The ELF header --------------------------------------------------------

  lemma {:induction false} HeaderDecodes(numMappings: nat, big: bool)
    requires numMappings + 1 < 0x1_0000
    ensures DecodeEhdr(HeaderBytes(numMappings, big), big) == CoreEhdr(numMappings, big)
  {
    var h := CoreEhdr(numMappings, big);
    assert Fit(EhdrFields(h), EhdrLayout) by {
      var vs, ws := EhdrFields(h), EhdrLayout;
      forall i | 0 <= i < |vs|
        ensures vs[i] < Bound(ws[i])
      {
      }
    }
    DecodeEncodeEhdr(h, big);
  }

  lemma {:induction false} CoreEhdrFields(numMappings: nat, big: bool)
    ensures var h := CoreEhdr(numMappings, big);
      && h.ident[..4] == ELFMAG
      && h.ident[EI_CLASS] == ELFCLASS32
      && h.ident[EI_DATA] == (if big then ELFDATA2MSB else ELFDATA2LSB)
      && h.ident[EI_VERSION] == EV_CURRENT
      && h.ident[EI_VERSION + 1..] == Zeros(9)
      && (DeclaresBigEndian(h.ident) <==> big)
      && h.eType == ET_CORE && h.eMachine == EM_ARM && h.eVersion == 1
      && h.ePhoff == EhdrSize && h.eEhsize == EhdrSize
      && h.ePhentsize == PhdrSize && h.ePhnum == numMappings + 1
      && h.eShentsize == ShdrSize
      && h.eEntry == 0 && h.eShoff == 0 && h.eFlags == 0 && h.eShnum == 0 && h.eShstrndx == 0
  {
  }

  /** The first 52 bytes of the file are an ELF header of a 32-bit ARM core
      file whose program-header table starts right after it and has one
      entry per mapping plus the PT_NOTE entry; its data-encoding byte says
      big-endian exactly when the host is (elfcore.c:246-262). */
  lemma {:induction false} HeaderRead(img: seq<Byte>, ms: seq<Mapping>, numThreads: nat, prpsinfo: seq<Byte>,
                   prstatus: seq<Byte>, raw: seq<Byte>, big: bool)
    requires Covers(ms, raw) && |prstatus| == PrstatusSize
    requires LaidOut(img, ms, numThreads, prpsinfo, prstatus, raw, big)
    requires |ms| + 1 < 0x1_0000
    ensures EhdrSize <= |img|
    ensures var h := DecodeEhdr(img[..EhdrSize], big);
      && h.ident[..4] == ELFMAG
      && h.ident[EI_CLASS] == ELFCLASS32
      && h.ident[EI_DATA] == (if big then ELFDATA2MSB else ELFDATA2LSB)
      && h.ident[EI_VERSION] == EV_CURRENT
      && h.ident[EI_VERSION + 1..] == Zeros(9)
      && (DeclaresBigEndian(h.ident) <==> big)
      && h.eType == ET_CORE && h.eMachine == EM_ARM && h.eVersion == 1
      && h.ePhoff == EhdrSize && h.eEhsize == EhdrSize
      && h.ePhentsize == PhdrSize && h.ePhnum == |ms| + 1
      && h.eShentsize == ShdrSize
      && h.eEntry == 0 && h.eShoff == 0 && h.eFlags == 0 && h.eShnum == 0 && h.eShstrndx == 0
  {
    AtPrefix(img, HeaderBytes(|ms|, big), EhdrSize);
    HeaderDecodes(|ms|, big);
    CoreEhdrFields(|ms|, big);
  }

  // ---- The PT_NOTE entry and the notes -----------------------------------------

  /** The first program header is the PT_NOTE entry; its p_offset and p_filesz
      delimit exactly the note records (elfcore.c:273-286, 316-344). */
  lemma {:induction false} NoteEntryRead(img: seq<Byte>, ms: seq<Mapping>, numThreads: nat, prpsinfo: seq<Byte>,
                      prstatus: seq<Byte>, raw: seq<Byte>, big: bool)
    requires Covers(ms, raw) && |prpsinfo| == PrpsinfoSize && |prstatus| == PrstatusSize
    requires LaidOut(img, ms, numThreads, prpsinfo, prstatus, raw, big)
    requires NoteOffset(|ms|) + NoteFilesz(numThreads) < 0x1_0000_0000
    ensures EhdrSize + PhdrSize <= |img|
    ensures var ph := DecodePhdr(img[EhdrSize .. EhdrSize + PhdrSize], big);
      && ph.pType == PT_NOTE
      && ph.pOffset == NoteOffset(|ms|) && ph.pFilesz == NoteFilesz(numThreads)
      && ph.pVaddr == 0 && ph.pPaddr == 0 && ph.pMemsz == 0 && ph.pFlags == 0 && ph.pAlign == 0
      && |NoteSegment(numThreads, prpsinfo, prstatus, big)| == ph.pFilesz
      && At(img, ph.pOffset, NoteSegment(numThreads, prpsinfo, prstatus, big))
  {
    AtRange(img, EhdrSize, NoteEntry(ms, numThreads, big), EhdrSize + PhdrSize);
    PhdrFitsWords(NotePhdr(|ms|, numThreads));
    DecodeEncodePhdr(NotePhdr(|ms|, numThreads), big);
    NoteSegmentLength(numThreads, prpsinfo, prstatus, big);
  }

  /** A note record starts with a note header naming a 4-byte owner and the
      descriptor's length and type, then the owner "CORE", then the descriptor. */
  lemma {:induction false} NoteRecordRead(nType: nat, desc: seq<Byte>, big: bool)
    requires nType < 0x1_0000_0000 && |desc| < 0x1_0000_0000
    ensures var r := NoteRecord(nType, desc, big);
      && |r| == NoteRecordSize(|desc|)
      && DecodeNhdr(r[..NhdrSize], big) == Nhdr(4, |desc|, nType)
      && r[NhdrSize .. NhdrSize + 4] == CoreName
      && r[NhdrSize + 4 ..] == desc
  {
    var r := NoteRecord(nType, desc, big);
    var nh := Nhdr(|CoreName|, |desc|, nType);
    assert r[..NhdrSize] == EncodeNhdr(nh, big);
    DecodeEncodeNhdr(nh, big);
  }

  /** The NT_PRPSINFO record opens the notes. */
  lemma {:induction false} ProcessNoteRead(img: seq<Byte>, ms: seq<Mapping>, numThreads: nat, prpsinfo: seq<Byte>,
                        prstatus: seq<Byte>, raw: seq<Byte>, big: bool)
    requires Covers(ms, raw) && |prpsinfo| == PrpsinfoSize && |prstatus| == PrstatusSize
    requires LaidOut(img, ms, numThreads, prpsinfo, prstatus, raw, big)
    ensures At(img, NoteOffset(|ms|), NoteRecord(NT_PRPSINFO, prpsinfo, big))
  {
    var rec := NoteRecord(NT_PRPSINFO, prpsinfo, big);
    Parts2(rec, ThreadNotes(numThreads, StatusDesc(prstatus, big), big), NoteRecordSize(PrpsinfoSize));
    AtWithin(img, NoteOffset(|ms|), NoteSegment(numThreads, prpsinfo, prstatus, big),
             0, rec, NoteOffset(|ms|));
  }

  /** The NT_PRSTATUS record of thread slot `k` follows the NT_PRPSINFO record
      and the `k` status records before it; its descriptor reports process
      id 1 and otherwise carries the caller's prstatus bytes (elfcore.c:330-343). */
  lemma {:induction false} StatusNoteRead(img: seq<Byte>, ms: seq<Mapping>, numThreads: nat, prpsinfo: seq<Byte>,
                       prstatus: seq<Byte>, raw: seq<Byte>, big: bool, k: nat)
    requires Covers(ms, raw) && |prpsinfo| == PrpsinfoSize && |prstatus| == PrstatusSize
    requires LaidOut(img, ms, numThreads, prpsinfo, prstatus, raw, big)
    requires k < numThreads
    ensures At(img, NoteOffset(|ms|) + 140 + k * 164, NoteRecord(NT_PRSTATUS, StatusDesc(prstatus, big), big))
    ensures PrPid(StatusDesc(prstatus, big), big) == 1
  {
    var notes := NoteSegment(numThreads, prpsinfo, prstatus, big);
    var threads := ThreadNotes(numThreads, StatusDesc(prstatus, big), big);
    var rec := NoteRecord(NT_PRSTATUS, StatusDesc(prstatus, big), big);
    Parts2(NoteRecord(NT_PRPSINFO, prpsinfo, big), threads, 140);
    ThreadNoteEntry(numThreads, StatusDesc(prstatus, big), big, k);
    AtWithin(notes, 140, threads, k * 164, rec, 140 + k * 164);
    AtWithin(img, NoteOffset(|ms|), notes, 140 + k * 164, rec, NoteOffset(|ms|) + 140 + k * 164);
    PrPidOfSetPrPid(prstatus, 1, big);
  }

  // ---- Padding ---------------------------------------------------------------

  /** Between the end of the notes and the first segment there are only zero
      bytes, and the first segment starts on a page boundary
      (elfcore.c:292-295, 346-354). The padding lies where this lemma needs
      it in any file `LaidOut` describes. */
  lemma {:induction false} PaddingZeros(img: seq<Byte>, numMappings: nat, numThreads: nat)
    requires At(img, NoteOffset(numMappings) + NoteFilesz(numThreads), Padding(numMappings, numThreads))
    ensures FirstLoadOffset(numMappings, numThreads) <= |img|
    ensures FirstLoadOffset(numMappings, numThreads) % 4096 == 0
    ensures forall k :: NoteOffset(numMappings) + NoteFilesz(numThreads) <= k < FirstLoadOffset(numMappings, numThreads) ==>
                img[k] == 0
  {
    var off := NoteOffset(numMappings) + NoteFilesz(numThreads);
    var pad := Padding(numMappings, numThreads);
    FirstLoadIsPageAligned(numMappings, numThreads);
    forall k | off <= k < FirstLoadOffset(numMappings, numThreads)
      ensures img[k] == 0
    {
      AtIndex(img, off, pad, k - off);
    }
  }

  // ---- The PT_LOAD entries and the segments ---------------------------------------

  /** The mappings before `i` never take more file space than all of them. */
  lemma {:induction false} SumFileSizeGrows(ms: seq<Mapping>, i: nat)
    requires i < |ms|
    ensures SumFileSize(ms[..i]) + FileSize(ms[i]) <= SumFileSize(ms)
  {
    var n := |ms| - 1;
    assert ms[..n + 1] == ms;
    if i < n {
      assert ms[..n][..i] == ms[..i];
      assert ms[..n][i] == ms[i];
      SumFileSizeGrows(ms[..n], i);
    }
  }

  /** Any program header laid in the file reads back with its words cut to 32 bits. */
  lemma {:induction false} PhdrAt(img: seq<Byte>, off: nat, h: Phdr, big: bool)
    requires At(img, off, EncodePhdr(h, big))
    ensures off + 32 <= |img| && DecodePhdr(img[off .. off + 32], big) == CutPhdr(h)
  {
    AtRange(img, off, EncodePhdr(h, big), off + 32);
    DecodeEncodePhdrCut(h, big);
  }

  /** Entry `i` of a table of PT_LOAD entries laid at byte 84, for segments
      that start at `first`. Its p_offset is the position of mapping `i`'s
      bytes in the target's 32-bit size_t, which wraps past 4 GiB. */
  lemma {:induction false} LoadEntryAt(img: seq<Byte>, ms: seq<Mapping>, first: nat, big: bool, i: nat)
    requires At(img, 84, LoadTable(ms, first, big))
    requires i < |ms| && ms[i].start < 0x1_0000_0000
    ensures 116 + i * 32 <= |img|
    ensures DecodePhdr(img[84 + i * 32 .. 116 + i * 32], big)
            == LoadPhdr(ms[i], Truncate(first + SumFileSize(ms[..i]), Word))
  {
    var ph := LoadPhdr(ms[i], first + SumFileSize(ms[..i]));
    var off := 84 + i * 32;
    LoadTableEntry(ms, first, big, i);
    AtWithin(img, 84, LoadTable(ms, first, big), i * 32, EncodePhdr(ph, big), off);
    PhdrAt(img, off, ph, big);
    CutLoadPhdr(ms[i], first + SumFileSize(ms[..i]));
  }

  /** Of a PT_LOAD entry only the offset can exceed 32 bits: the address is
      32-bit, and the sizes are cut to the target's size_t already. */
  lemma CutLoadPhdr(m: Mapping, offset: nat)
    requires m.start < 0x1_0000_0000
    ensures CutPhdr(LoadPhdr(m, offset)) == LoadPhdr(m, Truncate(offset, Word))
  {
    assert (m.flags as nat) < 0x1_0000_0000;
  }

  /** The bytes of mapping `i` in a payload laid at `first`. */
  lemma {:induction false} SegmentAt(img: seq<Byte>, ms: seq<Mapping>, first: nat, raw: seq<Byte>, i: nat)
    requires Covers(ms, raw) && At(img, first, Payload(ms, raw)) && i < |ms|
    ensures At(img, first + SumFileSize(ms[..i]), Contents(ms[i], raw))
  {
    PayloadEntry(ms, raw, i);
    AtWithin(img, first, Payload(ms, raw), SumFileSize(ms[..i]), Contents(ms[i], raw), first + SumFileSize(ms[..i]));
  }

  /** What a reader finds in program header `i + 1` when mapping `i`'s bytes
      lie at `pos`: a PT_LOAD entry with the mapping's address, sizes, flags
      and page alignment, whose p_offset is `pos` in the target's 32-bit
      size_t. When `pos` is below 4 GiB p_offset is `pos` itself, and the
      bytes written for the mapping lie there: the first `end - start` bytes
      of the caller's buffer when it is writable, nothing when it is not. */
  ghost predicate LoadEntryFound(img: seq<Byte>, ms: seq<Mapping>, raw: seq<Byte>, big: bool, i: nat, pos: nat)
    requires Covers(ms, raw) && i < |ms|
  {
    && 116 + i * 32 <= |img|
    && var ph := DecodePhdr(img[84 + i * 32 .. 116 + i * 32], big);
    && ph.pType == PT_LOAD
    && ph.pOffset == Truncate(pos, Word)
    && ph.pVaddr == ms[i].start && ph.pPaddr == 0
    && ph.pMemsz == MemSize(ms[i])
    && ph.pFilesz == (if Writable(ms[i]) then MemSize(ms[i]) else 0)
    && ph.pFlags == ms[i].flags as nat && ph.pAlign == PageSize
    && (pos < 0x1_0000_0000 ==> At(img, ph.pOffset, if Writable(ms[i]) then raw[..MemSize(ms[i])] else []))
  }

  /** The PT_LOAD entry of mapping `i` and the bytes it points at, for a table
      laid at byte 84 and segments laid from `first`. */
  lemma {:induction false} LoadEntryIn(img: seq<Byte>, ms: seq<Mapping>, first: nat, raw: seq<Byte>, big: bool, i: nat)
    requires Covers(ms, raw)
    requires At(img, 84, LoadTable(ms, first, big)) && At(img, first, Payload(ms, raw))
    requires i < |ms| && ms[i].start < 0x1_0000_0000
    ensures LoadEntryFound(img, ms, raw, big, i, first + SumFileSize(ms[..i]))
    ensures At(img, first + SumFileSize(ms[..i]), if Writable(ms[i]) then raw[..MemSize(ms[i])] else [])
  {
    LoadEntryAt(img, ms, first, big, i);
    SegmentAt(img, ms, first, raw, i);
    var pos := first + SumFileSize(ms[..i]);
    var part := if Writable(ms[i]) then raw[..MemSize(ms[i])] else [];
    assert At(img, pos, part);
    if pos < 0x1_0000_0000 {
      var ph := DecodePhdr(img[84 + i * 32 .. 116 + i * 32], big);
      assert pos < Bound(Word);
      assert ph.pOffset == pos;
      assert At(img, ph.pOffset, part);
    }
  }

  /** Program header `i + 1` is the PT_LOAD entry of mapping `i`, and its
      p_offset and p_filesz delimit exactly the bytes written for it, which
      follow the segments of the mappings before it (elfcore.c:289-312,
      357-364). The offset is kept in a 32-bit size_t, so for a segment that
      starts at 4 GiB or beyond p_offset is that position cut to 32 bits;
      `SegmentAt` places the bytes at the uncut position. */
  lemma {:induction false} LoadEntryRead(img: seq<Byte>, ms: seq<Mapping>, numThreads: nat, prpsinfo: seq<Byte>,
                      prstatus: seq<Byte>, raw: seq<Byte>, big: bool, i: nat)
    requires Covers(ms, raw) && |prstatus| == PrstatusSize
    requires LaidOut(img, ms, numThreads, prpsinfo, prstatus, raw, big)
    requires i < |ms| && ms[i].start < 0x1_0000_0000
    ensures LoadEntryFound(img, ms, raw, big, i, FirstLoadOffset(|ms|, numThreads) + SumFileSize(ms[..i]))
  {
    LoadEntryIn(img, ms, FirstLoadOffset(|ms|, numThreads), raw, big, i);
  }

  // ---- The terminator --------------------------------------------------------------

  /** The file ends with one program header that is all zero, which reads as
      a PT_NULL entry (elfcore.c:365-374). In a file `LaidOut` describes the
      terminator lies at `FirstLoadOffset + SumFileSize`, 32 bytes before
      the end. */
  lemma {:induction false} TerminatorAt(img: seq<Byte>, off: nat, big: bool)
    requires At(img, off, Terminator(big)) && off + PhdrSize == |img|
    ensures img[off..] == Zeros(PhdrSize)
    ensures DecodePhdr(img[off..], big).pType == PT_NULL
  {
    AtSuffix(img, off, Terminator(big));
    ZeroPhdrIsZeros(big);
    PhdrFitsWords(NullPhdr);
    DecodeEncodePhdr(NullPhdr, big);
  }
}
