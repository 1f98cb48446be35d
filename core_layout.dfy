/** The layout of the core file that CreateElfCore writes (elfcore.c:216-378),
    as pure functions: where each part starts, how long it is, and the whole
    byte image the dumper is meant to produce when every write succeeds.

    The file is, in order: the ELF header; the program-header table (one
    PT_NOTE entry, then one PT_LOAD entry per mapping); the note segment (an
    NT_PRPSINFO record, then one NT_PRSTATUS record per thread); zero padding
    up to a page boundary; the bytes of every writable mapping; and one
    zeroed PT_NULL program header. */
module CoreLayout {
  import opened Encoding
  import opened Elf32
  import opened Slices

  /** sizeof(struct prpsinfo) and sizeof(struct prstatus) for 32-bit ARM,
      the layouts declared at elfcore.c:97-129. */
  const PrpsinfoSize: nat := 124
  const PrstatusSize: nat := 148

  /** Where pr_pid sits in struct prstatus on 32-bit ARM: after pr_info (12
      bytes), pr_cursig (2 bytes and 2 of padding), pr_sigpend and pr_sighold. */
  const PidOffset: nat := 24

  /** The page size the dumper assumes (elfcore.c:239). */
  const PageSize: nat := 4096

  /** The owner name of every note: the four bytes "CORE", without a terminator. */
  const CoreName: seq<Byte> := [0x43, 0x4f, 0x52, 0x45]

  /** A memory region to dump. `end` is one past its last byte. */
  datatype Mapping = Mapping(start: nat, end: nat, flags: bv32)

  predicate Writable(m: Mapping)
  {
    m.flags & PF_W != 0
  }

  /** `end_address - start_address` in the target's 32-bit size_t. */
  function MemSize(m: Mapping): nat
  {
    (m.end - m.start) % 0x1_0000_0000
  }

  /** How many bytes of the mapping the file holds: read-only regions none. */
  function FileSize(m: Mapping): (n: nat)
    ensures n <= MemSize(m)
  {
    if Writable(m) then MemSize(m) else 0
  }

  /** The bytes the payload stage writes for one mapping: always the first
      MemSize bytes of the caller's buffer (elfcore.c:358-361). */
  function Contents(m: Mapping, raw: seq<Byte>): (c: seq<Byte>)
    requires Writable(m) ==> MemSize(m) <= |raw|
    ensures |c| == FileSize(m)
  {
    if Writable(m) then raw[..MemSize(m)] else []
  }

  /** The caller's buffer is long enough for every writable mapping. */
  predicate Covers(ms: seq<Mapping>, raw: seq<Byte>)
  {
    forall i :: 0 <= i < |ms| && Writable(ms[i]) ==> MemSize(ms[i]) <= |raw|
  }

  // ---- Offsets ------------------------------------------------------------

  /** Where the note segment starts: just past the program-header table. */
  function NoteOffset(numMappings: nat): nat
  {
    52 + (numMappings + 1) * 32   // sizeof(Ehdr) + (num_mappings + 1) * sizeof(Phdr)
  }

  /** The length of one note record: header, name, descriptor. */
  function NoteRecordSize(descsz: nat): nat
  {
    16 + descsz   // sizeof(Nhdr) + 4 + descsz
  }

  /** The length of the note segment (elfcore.c:274-277). */
  function NoteFilesz(numThreads: nat): nat
  {
    140 + numThreads * 164   // one 16 + 124-byte NT_PRPSINFO record, one 16 + 148-byte NT_PRSTATUS record per thread
  }

  /** The numbers the offsets above are written with are the sizes of the
      structures they count: the ELF and program headers, a note header with
      its four-byte owner, the two descriptors, and the page. */
  lemma LayoutSizes(numMappings: nat, numThreads: nat)
    ensures NoteOffset(numMappings) == EhdrSize + (numMappings + 1) * PhdrSize
    ensures NoteRecordSize(PrpsinfoSize) == NhdrSize + |CoreName| + PrpsinfoSize == 140
    ensures NoteRecordSize(PrstatusSize) == NhdrSize + |CoreName| + PrstatusSize == 164
    ensures NoteFilesz(numThreads) == NoteRecordSize(PrpsinfoSize) + numThreads * NoteRecordSize(PrstatusSize)
    ensures EhdrSize + PhdrSize == 84 && PageSize == 4096
  {
  }

  /** The padding that takes offset `end` to the next page boundary. */
  function NoteAlign(end: nat): (pad: nat)
  {
    var r := end % 4096;
    if r == 0 then 0 else 4096 - r
  }

  /** Where the first PT_LOAD segment starts: the end of the notes rounded up to a page. */
  function FirstLoadOffset(numMappings: nat, numThreads: nat): nat
  {
    var noteEnd := NoteOffset(numMappings) + NoteFilesz(numThreads);
    noteEnd + NoteAlign(noteEnd)
  }

  /** The file bytes taken by the mappings in `ms`. */
  function SumFileSize(ms: seq<Mapping>): nat
  {
    if ms == [] then 0 else SumFileSize(ms[..|ms| - 1]) + FileSize(ms[|ms| - 1])
  }

  /** Where mapping `i` starts in the file: each segment follows the previous one. */
  function LoadOffset(ms: seq<Mapping>, numThreads: nat, i: nat): nat
    requires i <= |ms|
  {
    FirstLoadOffset(|ms|, numThreads) + SumFileSize(ms[..i])
  }

  // ---- Records ------------------------------------------------------------

  function CoreIdent(big: bool): (ident: seq<Byte>)
    ensures |ident| == IdentSize
  {
    ELFMAG + [ELFCLASS32, if big then ELFDATA2MSB else ELFDATA2LSB, EV_CURRENT] + Zeros(9)
  }

  /** The ELF header of a core file with `numMappings` mappings (elfcore.c:246-262). */
  function CoreEhdr(numMappings: nat, big: bool): (h: Ehdr)
    ensures |h.ident| == IdentSize
  {
    Ehdr(CoreIdent(big), ET_CORE, EM_ARM, EV_CURRENT, 0, EhdrSize, 0, 0,
         EhdrSize, PhdrSize, numMappings + 1, ShdrSize, 0, 0)
  }

  /** The PT_NOTE entry (elfcore.c:279-282). */
  function NotePhdr(numMappings: nat, numThreads: nat): Phdr
  {
    ZeroPhdr.(pType := PT_NOTE, pOffset := NoteOffset(numMappings), pFilesz := NoteFilesz(numThreads))
  }

  /** The PT_LOAD entry of a mapping whose bytes start at `offset` (elfcore.c:289-307). */
  function LoadPhdr(m: Mapping, offset: nat): Phdr
  {
    Phdr(PT_LOAD, offset, m.start, 0, FileSize(m), MemSize(m), m.flags as nat, PageSize)
  }

  /** The trailing PT_NULL entry (elfcore.c:366-369). */
  const NullPhdr: Phdr := ZeroPhdr.(pType := PT_NULL, pPaddr := 0)

  /** One note: its header, the name "CORE", then the descriptor. */
  function NoteRecord(nType: nat, desc: seq<Byte>, big: bool): seq<Byte>
  {
    EncodeNhdr(Nhdr(|CoreName|, |desc|, nType), big) + CoreName + desc
  }

  /** `prstatus.pr_pid = pid` on the struct's bytes (elfcore.c:334): a 32-bit
      field in host byte order, every other byte left as it was. */
  function SetPrPid(prstatus: seq<Byte>, pid: nat, big: bool): (r: seq<Byte>)
    requires |prstatus| == PrstatusSize
    ensures |r| == PrstatusSize
    ensures forall k :: 0 <= k < PrstatusSize && !(PidOffset <= k < PidOffset + 4) ==> r[k] == prstatus[k]
  {
    prstatus[..PidOffset] + EncodeField(pid, Word, big) + prstatus[PidOffset + 4..]
  }

  /** The pr_pid a reader of the given byte order takes from a prstatus. */
  function PrPid(prstatus: seq<Byte>, big: bool): nat
    requires |prstatus| == PrstatusSize
  {
    DecodeField(prstatus[PidOffset .. PidOffset + 4], Word, big)
  }

  /** The descriptor of every NT_PRSTATUS note: the caller's prstatus with pr_pid set to 1. */
  function StatusDesc(prstatus: seq<Byte>, big: bool): (d: seq<Byte>)
    requires |prstatus| == PrstatusSize
    ensures |d| == PrstatusSize
  {
    SetPrPid(prstatus, 1, big)
  }

  /** A reader finds the pid that was stored, cut to 32 bits. */
  lemma {:induction false} PrPidOfSetPrPid(prstatus: seq<Byte>, pid: nat, big: bool)
    requires |prstatus| == PrstatusSize
    ensures PrPid(SetPrPid(prstatus, pid, big), big) == Truncate(pid, Word)
  {
    var r := SetPrPid(prstatus, pid, big);
    assert r[PidOffset .. PidOffset + 4] == EncodeField(pid, Word, big);
    DecodeEncodeField(pid, Word, big);
  }

  /** Storing the same pid twice leaves what storing it once does, so setting
      pr_pid before every NT_PRSTATUS note writes the same descriptor each time. */
  lemma {:induction false} SetPrPidIdempotent(prstatus: seq<Byte>, pid: nat, big: bool)
    requires |prstatus| == PrstatusSize
    ensures SetPrPid(SetPrPid(prstatus, pid, big), pid, big) == SetPrPid(prstatus, pid, big)
  {
    var once := SetPrPid(prstatus, pid, big);
    var twice := SetPrPid(once, pid, big);
    forall k | 0 <= k < PrstatusSize
      ensures twice[k] == once[k]
    {
      if PidOffset <= k < PidOffset + 4 {
        assert twice[k] == EncodeField(pid, Word, big)[k - PidOffset];
        assert once[k] == EncodeField(pid, Word, big)[k - PidOffset];
      }
    }
  }

  // ---- The parts of the file, in order -------------------------------------

  function HeaderBytes(numMappings: nat, big: bool): (bs: seq<Byte>)
    ensures |bs| == EhdrSize
  {
    EncodeEhdr(CoreEhdr(numMappings, big), big)
  }

  /** The PT_LOAD entry of each mapping, each segment starting where the one
      before it ends. */
  function LoadEntries(ms: seq<Mapping>, first: nat, big: bool): (es: seq<seq<Byte>>)
    ensures |es| == |ms|
    ensures forall j :: 0 <= j < |es| ==> |es[j]| == PhdrSize
  {
    seq(|ms|, i requires 0 <= i < |ms| => EncodePhdr(LoadPhdr(ms[i], first + SumFileSize(ms[..i])), big))
  }

  function LoadTable(ms: seq<Mapping>, first: nat, big: bool): seq<Byte>
  {
    Concat(LoadEntries(ms, first, big))
  }

  function NoteEntry(ms: seq<Mapping>, numThreads: nat, big: bool): seq<Byte>
  {
    EncodePhdr(NotePhdr(|ms|, numThreads), big)
  }

  /** `count` NT_PRSTATUS records, all with the same descriptor. */
  function ThreadRecords(count: nat, prstatus: seq<Byte>, big: bool): (rs: seq<seq<Byte>>)
    ensures |rs| == count
    ensures forall j :: 0 <= j < count ==> |rs[j]| == NoteRecordSize(|prstatus|)
  {
    seq(count, _ => NoteRecord(NT_PRSTATUS, prstatus, big))
  }

  function ThreadNotes(count: nat, prstatus: seq<Byte>, big: bool): seq<Byte>
  {
    Concat(ThreadRecords(count, prstatus, big))
  }

  function NoteSegment(numThreads: nat, prpsinfo: seq<Byte>, prstatus: seq<Byte>, big: bool): seq<Byte>
    requires |prstatus| == PrstatusSize
  {
    NoteRecord(NT_PRPSINFO, prpsinfo, big) + ThreadNotes(numThreads, StatusDesc(prstatus, big), big)
  }

  function Padding(numMappings: nat, numThreads: nat): seq<Byte>
  {
    var noteEnd := NoteOffset(numMappings) + NoteFilesz(numThreads);
    Zeros(NoteAlign(noteEnd))
  }

  /** The bytes each mapping contributes to the file. */
  function Segments(ms: seq<Mapping>, raw: seq<Byte>): (ss: seq<seq<Byte>>)
    requires Covers(ms, raw)
    ensures |ss| == |ms|
    ensures forall j :: 0 <= j < |ms| ==> |ss[j]| == FileSize(ms[j])
  {
    seq(|ms|, i requires 0 <= i < |ms| => Contents(ms[i], raw))
  }

  function Payload(ms: seq<Mapping>, raw: seq<Byte>): seq<Byte>
    requires Covers(ms, raw)
  {
    Concat(Segments(ms, raw))
  }

  function Terminator(big: bool): seq<Byte>
  {
    EncodePhdr(NullPhdr, big)
  }

  /** The program-header table: the PT_NOTE entry, then the PT_LOAD entries. */
  function PhdrTable(ms: seq<Mapping>, numThreads: nat, big: bool): seq<Byte>
  {
    NoteEntry(ms, numThreads, big) + LoadTable(ms, FirstLoadOffset(|ms|, numThreads), big)
  }

  /** The ELF header and the program-header table. */
  function Head(ms: seq<Mapping>, numThreads: nat, big: bool): seq<Byte>
  {
    HeaderBytes(|ms|, big) + PhdrTable(ms, numThreads, big)
  }

  /** Everything before the first PT_LOAD segment. */
  function Prologue(ms: seq<Mapping>, numThreads: nat, prpsinfo: seq<Byte>, prstatus: seq<Byte>, big: bool): seq<Byte>
    requires |prstatus| == PrstatusSize
  {
    Head(ms, numThreads, big) + NoteSegment(numThreads, prpsinfo, prstatus, big) + Padding(|ms|, numThreads)
  }

  /** The whole core file, as the dumper writes it when no write fails. */
  function CoreImage(ms: seq<Mapping>, numThreads: nat, prpsinfo: seq<Byte>, prstatus: seq<Byte>,
                     raw: seq<Byte>, big: bool): seq<Byte>
    requires Covers(ms, raw) && |prstatus| == PrstatusSize
  {
    Prologue(ms, numThreads, prpsinfo, prstatus, big) + Payload(ms, raw) + Terminator(big)
  }

  // ---- Lengths ---------------------------------------------------------------

  lemma {:induction false} LoadTableLength(ms: seq<Mapping>, first: nat, big: bool)
    ensures |LoadTable(ms, first, big)| == |ms| * 32
  {
    ConcatUniform(LoadEntries(ms, first, big), 32);
  }

  lemma {:induction false} ThreadNotesLength(count: nat, prstatus: seq<Byte>, big: bool)
    requires |prstatus| == PrstatusSize
    ensures |ThreadNotes(count, prstatus, big)| == count * 164
  {
    ConcatUniform(ThreadRecords(count, prstatus, big), 164);
  }

  /** The PT_NOTE entry's p_filesz is the length of the notes written after the
      table: one process record and one status record per thread. */
  lemma {:induction false} NoteSegmentLength(numThreads: nat, prpsinfo: seq<Byte>, prstatus: seq<Byte>, big: bool)
    requires |prpsinfo| == PrpsinfoSize && |prstatus| == PrstatusSize
    ensures |NoteSegment(numThreads, prpsinfo, prstatus, big)| == NoteFilesz(numThreads)
  {
    ThreadNotesLength(numThreads, StatusDesc(prstatus, big), big);
  }

  /** The segments of the first `i` mappings take as many bytes as their
      PT_LOAD entries' p_filesz fields add up to. */
  lemma {:induction false} SegmentsLength(ms: seq<Mapping>, raw: seq<Byte>, i: nat)
    requires Covers(ms, raw) && i <= |ms|
    ensures |Concat(Segments(ms, raw)[..i])| == SumFileSize(ms[..i])
  {
    if i > 0 {
      SegmentsLength(ms, raw, i - 1);
      ConcatSnoc(Segments(ms, raw), i - 1);
      assert ms[..i][..i - 1] == ms[..i - 1];
    }
  }

  lemma {:induction false} PayloadLength(ms: seq<Mapping>, raw: seq<Byte>)
    requires Covers(ms, raw)
    ensures |Payload(ms, raw)| == SumFileSize(ms)
  {
    SegmentsLength(ms, raw, |ms|);
    assert Segments(ms, raw)[..|ms|] == Segments(ms, raw);
    assert ms[..|ms|] == ms;
  }

  /** The bytes written before the payload are exactly as many as the first
      PT_LOAD entry's p_offset says. */
  lemma {:induction false} PrologueLength(ms: seq<Mapping>, numThreads: nat, prpsinfo: seq<Byte>, prstatus: seq<Byte>, big: bool)
    requires |prpsinfo| == PrpsinfoSize && |prstatus| == PrstatusSize
    ensures |Prologue(ms, numThreads, prpsinfo, prstatus, big)| == FirstLoadOffset(|ms|, numThreads)
  {
    LoadTableLength(ms, FirstLoadOffset(|ms|, numThreads), big);
    NoteSegmentLength(numThreads, prpsinfo, prstatus, big);
  }

  // ---- Where each record lies -------------------------------------------------

  /** Entry `i` of the PT_LOAD table describes mapping `i`, at the offset the
      mappings before it leave. */
  lemma {:induction false} LoadTableEntry(ms: seq<Mapping>, first: nat, big: bool, i: nat)
    requires i < |ms|
    ensures At(LoadTable(ms, first, big), i * 32,
               EncodePhdr(LoadPhdr(ms[i], first + SumFileSize(ms[..i])), big))
  {
    var es := LoadEntries(ms, first, big);
    assert es[i] == EncodePhdr(LoadPhdr(ms[i], first + SumFileSize(ms[..i])), big);
    ConcatUniformAt(es, 32, i);
  }

  /** Mapping `i`'s bytes lie in the payload just after those of the mappings before it. */
  lemma {:induction false} PayloadEntry(ms: seq<Mapping>, raw: seq<Byte>, i: nat)
    requires Covers(ms, raw) && i < |ms|
    ensures At(Payload(ms, raw), SumFileSize(ms[..i]), Contents(ms[i], raw))
  {
    ConcatAt(Segments(ms, raw), i);
    SegmentsLength(ms, raw, i);
  }

  /** Status record `k` occupies the k-th slot of the thread notes. */
  lemma {:induction false} ThreadNoteEntry(count: nat, prstatus: seq<Byte>, big: bool, k: nat)
    requires |prstatus| == PrstatusSize && k < count
    ensures At(ThreadNotes(count, prstatus, big), k * 164,
               NoteRecord(NT_PRSTATUS, prstatus, big))
  {
    var rs := ThreadRecords(count, prstatus, big);
    assert rs[k] == NoteRecord(NT_PRSTATUS, prstatus, big);
    ConcatUniformAt(rs, 164, k);
  }

  /** Each segment starts where the previous one ends (elfcore.c:297). */
  lemma {:induction false} LoadOffsetStep(ms: seq<Mapping>, numThreads: nat, i: nat)
    requires i < |ms|
    ensures LoadOffset(ms, numThreads, 0) == FirstLoadOffset(|ms|, numThreads)
    ensures LoadOffset(ms, numThreads, i + 1) == LoadOffset(ms, numThreads, i) + FileSize(ms[i])
  {
    assert ms[..0] == [];
    assert ms[..i + 1][..i] == ms[..i];
  }

  // ---- The properties a reader of the file relies on ---------------------------

  /** The padding is the least that reaches a page boundary. */
  lemma {:induction false} NoteAlignReaches(end: nat)
    ensures NoteAlign(end) < 4096 && (end + NoteAlign(end)) % 4096 == 0
  {
  }

  lemma {:induction false} NoteAlignIsLeast(end: nat, k: nat)
    requires k < NoteAlign(end)
    ensures (end + k) % 4096 != 0
  {
  }

  /** The first segment starts on the first page boundary at or after the end of the notes. */
  lemma {:induction false} FirstLoadIsPageAligned(numMappings: nat, numThreads: nat)
    ensures var noteEnd := NoteOffset(numMappings) + NoteFilesz(numThreads);
      var first := FirstLoadOffset(numMappings, numThreads);
      && noteEnd <= first < noteEnd + 4096
      && first % 4096 == 0
      && forall k :: noteEnd <= k < first ==> k % 4096 != 0
  {
    var noteEnd := NoteOffset(numMappings) + NoteFilesz(numThreads);
    NoteAlignReaches(noteEnd);
    forall k | noteEnd <= k < FirstLoadOffset(numMappings, numThreads)
      ensures k % 4096 != 0
    {
      NoteAlignIsLeast(noteEnd, k - noteEnd);
    }
  }

  // ---- The image, part by part ---------------------------------------------------

  lemma {:induction false} HeadLength(ms: seq<Mapping>, numThreads: nat, big: bool)
    ensures |PhdrTable(ms, numThreads, big)| == (|ms| + 1) * 32
    ensures |Head(ms, numThreads, big)| == NoteOffset(|ms|)
  {
    LoadTableLength(ms, FirstLoadOffset(|ms|, numThreads), big);
  }

  /** The file is as long as the first PT_LOAD entry's p_offset, plus the
      mappings' p_filesz fields, plus the terminating program header. */
  lemma {:induction false} ImageLength(ms: seq<Mapping>, numThreads: nat, prpsinfo: seq<Byte>, prstatus: seq<Byte>,
                    raw: seq<Byte>, big: bool)
    requires Covers(ms, raw)
    requires |prpsinfo| == PrpsinfoSize && |prstatus| == PrstatusSize
    ensures |CoreImage(ms, numThreads, prpsinfo, prstatus, raw, big)|
         == FirstLoadOffset(|ms|, numThreads) + SumFileSize(ms) + PhdrSize
  {
    PrologueLength(ms, numThreads, prpsinfo, prstatus, big);
    PayloadLength(ms, raw);
  }

  /** The prologue opens the file. */
  lemma {:induction false} PrologueInImage(ms: seq<Mapping>, numThreads: nat, prpsinfo: seq<Byte>, prstatus: seq<Byte>,
                        raw: seq<Byte>, big: bool)
    requires Covers(ms, raw) && |prstatus| == PrstatusSize
    ensures At(CoreImage(ms, numThreads, prpsinfo, prstatus, raw, big), 0, Prologue(ms, numThreads, prpsinfo, prstatus, big))
  {
    var pro := Prologue(ms, numThreads, prpsinfo, prstatus, big);
    Parts3(pro, Payload(ms, raw), Terminator(big), |pro|, |pro| + |Payload(ms, raw)|);
  }

  /** The parts before the first PT_LOAD segment lie where the headers put them:
      the ELF header and the table first, the notes at the PT_NOTE entry's
      p_offset, the padding right after them. */
  lemma {:induction false} PrologueLayout(ms: seq<Mapping>, numThreads: nat, prpsinfo: seq<Byte>, prstatus: seq<Byte>, big: bool)
    requires |prpsinfo| == PrpsinfoSize && |prstatus| == PrstatusSize
    ensures var pro := Prologue(ms, numThreads, prpsinfo, prstatus, big);
      && At(pro, 0, Head(ms, numThreads, big))
      && At(pro, NoteOffset(|ms|), NoteSegment(numThreads, prpsinfo, prstatus, big))
      && At(pro, NoteOffset(|ms|) + NoteFilesz(numThreads), Padding(|ms|, numThreads))
  {
    HeadLength(ms, numThreads, big);
    NoteSegmentLength(numThreads, prpsinfo, prstatus, big);
    Parts3(Head(ms, numThreads, big), NoteSegment(numThreads, prpsinfo, prstatus, big), Padding(|ms|, numThreads),
           NoteOffset(|ms|), NoteOffset(|ms|) + NoteFilesz(numThreads));
  }

  lemma {:induction false} NotesInImage(ms: seq<Mapping>, numThreads: nat, prpsinfo: seq<Byte>, prstatus: seq<Byte>,
                     raw: seq<Byte>, big: bool)
    requires Covers(ms, raw)
    requires |prpsinfo| == PrpsinfoSize && |prstatus| == PrstatusSize
    ensures At(CoreImage(ms, numThreads, prpsinfo, prstatus, raw, big), NoteOffset(|ms|),
               NoteSegment(numThreads, prpsinfo, prstatus, big))
  {
    PrologueInImage(ms, numThreads, prpsinfo, prstatus, raw, big);
    PrologueLayout(ms, numThreads, prpsinfo, prstatus, big);
    AtWithin(CoreImage(ms, numThreads, prpsinfo, prstatus, raw, big), 0, Prologue(ms, numThreads, prpsinfo, prstatus, big),
             NoteOffset(|ms|), NoteSegment(numThreads, prpsinfo, prstatus, big), NoteOffset(|ms|));
  }

  lemma {:induction false} PaddingInImage(ms: seq<Mapping>, numThreads: nat, prpsinfo: seq<Byte>, prstatus: seq<Byte>,
                       raw: seq<Byte>, big: bool)
    requires Covers(ms, raw)
    requires |prpsinfo| == PrpsinfoSize && |prstatus| == PrstatusSize
    ensures At(CoreImage(ms, numThreads, prpsinfo, prstatus, raw, big), NoteOffset(|ms|) + NoteFilesz(numThreads),
               Padding(|ms|, numThreads))
  {
    var noteEnd := NoteOffset(|ms|) + NoteFilesz(numThreads);
    PrologueInImage(ms, numThreads, prpsinfo, prstatus, raw, big);
    HeadLength(ms, numThreads, big);
    NoteSegmentLength(numThreads, prpsinfo, prstatus, big);
    Parts3(Head(ms, numThreads, big), NoteSegment(numThreads, prpsinfo, prstatus, big), Padding(|ms|, numThreads),
           NoteOffset(|ms|), noteEnd);
    AtWithin(CoreImage(ms, numThreads, prpsinfo, prstatus, raw, big), 0, Prologue(ms, numThreads, prpsinfo, prstatus, big),
             noteEnd, Padding(|ms|, numThreads), noteEnd);
  }

  /** The ELF header opens the file and the program-header table follows it:
      the PT_NOTE entry, then the PT_LOAD entries up to the notes. */
  lemma {:induction false} HeadLayout(ms: seq<Mapping>, numThreads: nat, prpsinfo: seq<Byte>, prstatus: seq<Byte>,
                   raw: seq<Byte>, big: bool)
    requires Covers(ms, raw)
    requires |prpsinfo| == PrpsinfoSize && |prstatus| == PrstatusSize
    ensures var img := CoreImage(ms, numThreads, prpsinfo, prstatus, raw, big);
      && At(img, 0, HeaderBytes(|ms|, big))
      && At(img, EhdrSize, NoteEntry(ms, numThreads, big))
      && At(img, EhdrSize + PhdrSize, LoadTable(ms, FirstLoadOffset(|ms|, numThreads), big))
  {
    var img := CoreImage(ms, numThreads, prpsinfo, prstatus, raw, big);
    var head := Head(ms, numThreads, big);
    var table := PhdrTable(ms, numThreads, big);
    PrologueInImage(ms, numThreads, prpsinfo, prstatus, raw, big);
    PrologueLayout(ms, numThreads, prpsinfo, prstatus, big);
    AtWithin(img, 0, Prologue(ms, numThreads, prpsinfo, prstatus, big), 0, head, 0);
    Parts2(HeaderBytes(|ms|, big), table, EhdrSize);
    Parts2(NoteEntry(ms, numThreads, big), LoadTable(ms, FirstLoadOffset(|ms|, numThreads), big), PhdrSize);
    AtWithin(img, 0, head, 0, HeaderBytes(|ms|, big), 0);
    AtWithin(img, 0, head, EhdrSize, table, EhdrSize);
    AtWithin(img, EhdrSize, table, 0, NoteEntry(ms, numThreads, big), EhdrSize);
    AtWithin(img, EhdrSize, table, PhdrSize, LoadTable(ms, FirstLoadOffset(|ms|, numThreads), big), EhdrSize + PhdrSize);
  }

  /** The mapping bytes start at the first PT_LOAD entry's p_offset and the
      zeroed terminator entry closes the file. */
  lemma {:induction false} TailLayout(ms: seq<Mapping>, numThreads: nat, prpsinfo: seq<Byte>, prstatus: seq<Byte>,
                   raw: seq<Byte>, big: bool)
    requires Covers(ms, raw)
    requires |prpsinfo| == PrpsinfoSize && |prstatus| == PrstatusSize
    ensures var img := CoreImage(ms, numThreads, prpsinfo, prstatus, raw, big);
      var first := FirstLoadOffset(|ms|, numThreads);
      && At(img, first, Payload(ms, raw))
      && At(img, first + SumFileSize(ms), Terminator(big))
  {
    ImageLength(ms, numThreads, prpsinfo, prstatus, raw, big);
    PayloadLength(ms, raw);
    Parts3(Prologue(ms, numThreads, prpsinfo, prstatus, big), Payload(ms, raw), Terminator(big),
           FirstLoadOffset(|ms|, numThreads), FirstLoadOffset(|ms|, numThreads) + SumFileSize(ms));
  }

  /** Where every part of a core file lies, as the headers announce it. */
  ghost predicate LaidOut(img: seq<Byte>, ms: seq<Mapping>, numThreads: nat, prpsinfo: seq<Byte>,
                          prstatus: seq<Byte>, raw: seq<Byte>, big: bool)
    requires Covers(ms, raw) && |prstatus| == PrstatusSize
  {
    && |img| == FirstLoadOffset(|ms|, numThreads) + SumFileSize(ms) + 32
    && At(img, 0, HeaderBytes(|ms|, big))
    && At(img, 52, NoteEntry(ms, numThreads, big))
    && At(img, 84, LoadTable(ms, FirstLoadOffset(|ms|, numThreads), big))
    && At(img, NoteOffset(|ms|), NoteSegment(numThreads, prpsinfo, prstatus, big))
    && At(img, NoteOffset(|ms|) + NoteFilesz(numThreads), Padding(|ms|, numThreads))
    && At(img, FirstLoadOffset(|ms|, numThreads), Payload(ms, raw))
    && At(img, FirstLoadOffset(|ms|, numThreads) + SumFileSize(ms), Terminator(big))
  }

  /** The image is laid out part by part as its headers say. */
  lemma {:induction false} CoreImageLaidOut(ms: seq<Mapping>, numThreads: nat, prpsinfo: seq<Byte>, prstatus: seq<Byte>,
                         raw: seq<Byte>, big: bool)
    requires Covers(ms, raw)
    requires |prpsinfo| == PrpsinfoSize && |prstatus| == PrstatusSize
    ensures LaidOut(CoreImage(ms, numThreads, prpsinfo, prstatus, raw, big), ms, numThreads, prpsinfo, prstatus, raw, big)
  {
    ImageLength(ms, numThreads, prpsinfo, prstatus, raw, big);
    HeadLayout(ms, numThreads, prpsinfo, prstatus, raw, big);
    NotesInImage(ms, numThreads, prpsinfo, prstatus, raw, big);
    PaddingInImage(ms, numThreads, prpsinfo, prstatus, raw, big);
    TailLayout(ms, numThreads, prpsinfo, prstatus, raw, big);
  }
}
