/** The records of the 32-bit ELF format that a core file is made of:
    the file header (Elf32_Ehdr), the program header (Elf32_Phdr) and the
    note header (Elf32_Nhdr), as laid out in the Tool Interface Standard
    ELF Specification v1.2, Book I Part 1 "ELF Header" and Book I Part 2
    "Program Header" and "Note Section". */
module Elf32 {
  import opened Encoding

  const EhdrSize: nat := 52   // sizeof(Elf32_Ehdr)
  const PhdrSize: nat := 32   // sizeof(Elf32_Phdr)
  const ShdrSize: nat := 40   // sizeof(Elf32_Shdr)
  const NhdrSize: nat := 12   // sizeof(Elf32_Nhdr)
  const IdentSize: nat := 16  // EI_NIDENT

  // e_ident indices and values
  const EI_CLASS: nat := 4
  const EI_DATA: nat := 5
  const EI_VERSION: nat := 6
  const ELFMAG: seq<Byte> := [0x7f, 0x45, 0x4c, 0x46]   // 0x7f 'E' 'L' 'F'
  const ELFCLASS32: Byte := 1
  const ELFDATA2LSB: Byte := 1
  const ELFDATA2MSB: Byte := 2
  const EV_CURRENT: Byte := 1

  const ET_CORE: nat := 4
  const EM_ARM: nat := 40

  const PT_NULL: nat := 0
  const PT_LOAD: nat := 1
  const PT_NOTE: nat := 4

  const PF_W: bv32 := 2
  const PF_R: bv32 := 4

  const NT_PRSTATUS: nat := 1
  const NT_PRPSINFO: nat := 3

  /** The file header. `ident` holds the EI_NIDENT identification bytes. */
  datatype Ehdr = Ehdr(
    ident: seq<Byte>,
    eType: nat, eMachine: nat, eVersion: nat, eEntry: nat, ePhoff: nat, eShoff: nat,
    eFlags: nat, eEhsize: nat, ePhentsize: nat, ePhnum: nat, eShentsize: nat,
    eShnum: nat, eShstrndx: nat)

  const EhdrLayout: seq<Width> :=
    [Half, Half, Word, Word, Word, Word, Word, Half, Half, Half, Half, Half, Half]

  function EhdrFields(h: Ehdr): seq<nat>
  {
    [h.eType, h.eMachine, h.eVersion, h.eEntry, h.ePhoff, h.eShoff, h.eFlags,
     h.eEhsize, h.ePhentsize, h.ePhnum, h.eShentsize, h.eShnum, h.eShstrndx]
  }

  predicate EhdrFits(h: Ehdr)
  {
    |h.ident| == IdentSize && Fit(EhdrFields(h), EhdrLayout)
  }

  /** The 52 bytes `write(fd, &ehdr, sizeof(Ehdr))` puts in the file. */
  function EncodeEhdr(h: Ehdr, big: bool): (bs: seq<Byte>)
    requires |h.ident| == IdentSize
    ensures |bs| == EhdrSize
  {
    h.ident + EncodeFields(EhdrFields(h), EhdrLayout, big)
  }

  lemma EhdrLayoutSize()
    ensures TotalSize(EhdrLayout) == EhdrSize - IdentSize
  {
  }

  function DecodeEhdr(bs: seq<Byte>, big: bool): (h: Ehdr)
    requires |bs| == EhdrSize
    ensures |h.ident| == IdentSize
  {
    EhdrLayoutSize();
    var v := DecodeFields(bs[IdentSize..], EhdrLayout, big);
    Ehdr(bs[..IdentSize], v[0], v[1], v[2], v[3], v[4], v[5], v[6], v[7], v[8], v[9], v[10], v[11], v[12])
  }

  /** A reader recovers every field of a header whose values fit. */
  lemma DecodeEncodeEhdr(h: Ehdr, big: bool)
    requires EhdrFits(h)
    ensures DecodeEhdr(EncodeEhdr(h, big), big) == h
  {
    var bs := EncodeEhdr(h, big);
    assert bs[..IdentSize] == h.ident;
    assert bs[IdentSize..] == EncodeFields(EhdrFields(h), EhdrLayout, big);
    DecodeEncodeFields(EhdrFields(h), EhdrLayout, big);
  }

  /** The byte order a reader takes from the file's own identification bytes. */
  predicate DeclaresBigEndian(ident: seq<Byte>)
    requires |ident| == IdentSize
  {
    ident[EI_DATA] == ELFDATA2MSB
  }

  /** A program header (segment descriptor). */
  datatype Phdr = Phdr(
    pType: nat, pOffset: nat, pVaddr: nat, pPaddr: nat,
    pFilesz: nat, pMemsz: nat, pFlags: nat, pAlign: nat)

  /** A program header after `memset(&phdr, 0, sizeof(Phdr))`; also PT_NULL. */
  const ZeroPhdr: Phdr := Phdr(0, 0, 0, 0, 0, 0, 0, 0)

  const PhdrLayout: seq<Width> := [Word, Word, Word, Word, Word, Word, Word, Word]

  function PhdrFields(h: Phdr): seq<nat>
  {
    [h.pType, h.pOffset, h.pVaddr, h.pPaddr, h.pFilesz, h.pMemsz, h.pFlags, h.pAlign]
  }

  predicate PhdrFits(h: Phdr)
  {
    Fit(PhdrFields(h), PhdrLayout)
  }

  /** A program header fits when each of its eight words does. */
  lemma PhdrFitsWords(h: Phdr)
    requires h.pType < 0x1_0000_0000 && h.pOffset < 0x1_0000_0000 && h.pVaddr < 0x1_0000_0000
    requires h.pPaddr < 0x1_0000_0000 && h.pFilesz < 0x1_0000_0000 && h.pMemsz < 0x1_0000_0000
    requires h.pFlags < 0x1_0000_0000 && h.pAlign < 0x1_0000_0000
    ensures PhdrFits(h)
  {
    var vs := PhdrFields(h);
    forall i | 0 <= i < |vs|
      ensures vs[i] < Bound(PhdrLayout[i])
    {
    }
  }

  function EncodePhdr(h: Phdr, big: bool): (bs: seq<Byte>)
    ensures |bs| == PhdrSize
  {
    EncodeFields(PhdrFields(h), PhdrLayout, big)
  }

  function DecodePhdr(bs: seq<Byte>, big: bool): Phdr
    requires |bs| == PhdrSize
  {
    var v := DecodeFields(bs, PhdrLayout, big);
    Phdr(v[0], v[1], v[2], v[3], v[4], v[5], v[6], v[7])
  }

  lemma DecodeEncodePhdr(h: Phdr, big: bool)
    requires PhdrFits(h)
    ensures DecodePhdr(EncodePhdr(h, big), big) == h
  {
    DecodeEncodeFields(PhdrFields(h), PhdrLayout, big);
  }

  /** A program header as its 32 bytes hold it: each word cut to 32 bits,
      as a C assignment to an Elf32 field cuts it. */
  function CutPhdr(h: Phdr): Phdr
  {
    Phdr(Truncate(h.pType, Word), Truncate(h.pOffset, Word), Truncate(h.pVaddr, Word), Truncate(h.pPaddr, Word),
         Truncate(h.pFilesz, Word), Truncate(h.pMemsz, Word), Truncate(h.pFlags, Word), Truncate(h.pAlign, Word))
  }

  /** Any program header, fitting or not, decodes to its words cut to 32 bits. */
  lemma DecodeEncodePhdrCut(h: Phdr, big: bool)
    ensures DecodePhdr(EncodePhdr(h, big), big) == CutPhdr(h)
  {
    DecodeEncodeFieldsCut(PhdrFields(h), PhdrLayout, big);
  }

  lemma EncodeDecodePhdr(bs: seq<Byte>, big: bool)
    requires |bs| == PhdrSize
    ensures EncodePhdr(DecodePhdr(bs, big), big) == bs
  {
    assert PhdrFields(DecodePhdr(bs, big)) == DecodeFields(bs, PhdrLayout, big);
    EncodeDecodeFields(bs, PhdrLayout, big);
  }

  /** The zeroed program header is 32 zero bytes in either byte order. */
  lemma ZeroPhdrIsZeros(big: bool)
    ensures EncodePhdr(ZeroPhdr, big) == Zeros(PhdrSize)
  {
    EncodeZeroFields(PhdrFields(ZeroPhdr), PhdrLayout, big);
  }

  /** A note header: the name length, the descriptor length and the note type. */
  datatype Nhdr = Nhdr(nNamesz: nat, nDescsz: nat, nType: nat)

  const NhdrLayout: seq<Width> := [Word, Word, Word]

  function NhdrFields(h: Nhdr): seq<nat>
  {
    [h.nNamesz, h.nDescsz, h.nType]
  }

  function EncodeNhdr(h: Nhdr, big: bool): (bs: seq<Byte>)
    ensures |bs| == NhdrSize
  {
    EncodeFields(NhdrFields(h), NhdrLayout, big)
  }

  function DecodeNhdr(bs: seq<Byte>, big: bool): Nhdr
    requires |bs| == NhdrSize
  {
    var v := DecodeFields(bs, NhdrLayout, big);
    Nhdr(v[0], v[1], v[2])
  }

  lemma DecodeEncodeNhdr(h: Nhdr, big: bool)
    requires Fit(NhdrFields(h), NhdrLayout)
    ensures DecodeNhdr(EncodeNhdr(h, big), big) == h
  {
    DecodeEncodeFields(NhdrFields(h), NhdrLayout, big);
  }
}
