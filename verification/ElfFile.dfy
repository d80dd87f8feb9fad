/** The reading side: program headers, section headers and symbols of a finished ELF64 file, as
    the suite's own reader takes them apart and as the kernel maps them. */
module ElfFile {
  import opened Wrappers
  import opened Bytes
  import opened ElfObject

  const EHDR_SIZE: nat := 64
  const PHDR_SIZE: nat := 56
  const SHDR_SIZE: nat := 64
  const SYM_SIZE: nat := 24
  const PAGE_SIZE: nat := 0x1000
  const PT_LOAD: nat := 1
  const SHT_SYMTAB: nat := 2

  /** The file header after its 16 identification bytes. */
  const EHDR: seq<nat> := [2, 2, 4, 8, 8, 8, 4, 2, 2, 2, 2, 2, 2]
  const PHDR: seq<nat> := [4, 4, 8, 8, 8, 8, 8, 8]
  const SHDR: seq<nat> := [4, 4, 8, 8, 8, 8, 4, 4, 8, 8]
  const SYM: seq<nat> := [4, 1, 1, 2, 8, 8]

  lemma EhdrSize()
    ensures |EHDR| == 13 && Sum(EHDR) == 48
  {
    assert Sum([4, 2, 2, 2, 2, 2, 2]) == 16;
    assert EHDR[6..] == [4, 2, 2, 2, 2, 2, 2];
    assert Sum([8, 8, 8, 4, 2, 2, 2, 2, 2, 2]) == 40;
  }

  lemma PhdrSize()
    ensures |PHDR| == 8 && Sum(PHDR) == PHDR_SIZE
  {
    assert PHDR[4..] == [8, 8, 8, 8] && Sum([8, 8, 8, 8]) == 32;
  }

  lemma ShdrSize()
    ensures |SHDR| == 10 && Sum(SHDR) == SHDR_SIZE
  {
    assert SHDR[5..] == [8, 4, 4, 8, 8] && Sum([8, 4, 4, 8, 8]) == 32;
  }

  lemma SymSize()
    ensures |SYM| == 6 && Sum(SYM) == SYM_SIZE
  {
    assert SYM[3..] == [2, 8, 8] && Sum([2, 8, 8]) == 18;
  }

  /** The offset of entry `i` of a table of `step`-byte entries. */
  function EntryAt(base: nat, i: nat, step: nat): nat
  {
    base + i * step
  }

  // ----- program headers and the memory image -------------------------------------------

  datatype Segment = Segment(
    ptype: nat, flags: nat, offset: nat, vaddr: nat, paddr: nat, filesz: nat, memsz: nat, align: nat)
  {
    predicate Contains(addr: nat)
    {
      vaddr <= addr < vaddr + memsz
    }

    /** Loading the file maps the address here. */
    predicate Maps(addr: nat)
    {
      ptype == PT_LOAD && Contains(addr)
    }
  }

  /** The fields of a record at `at`, if the file is long enough. */
  function RecordAt(file: seq<byte>, widths: seq<nat>, at: nat): (r: Option<seq<nat>>)
    ensures r.Some? <==> at + Sum(widths) <= |file|
    ensures r.Some? ==> |r.value| == |widths|
  {
    if at + Sum(widths) <= |file| then Some(Decode(widths, file[at..at + Sum(widths)])) else None
  }

  datatype Header = Header(
    etype: nat, machine: nat, entry: nat, phoff: nat, shoff: nat,
    phentsize: nat, phnum: nat, shentsize: nat, shnum: nat)

  function ReadHeader(file: seq<byte>): Option<Header>
  {
    EhdrSize();
    match RecordAt(file, EHDR, 16)
    case None => None
    case Some(f) => Some(Header(f[0], f[1], f[3], f[4], f[5], f[8], f[9], f[10], f[11]))
  }

  function ReadSegment(file: seq<byte>, at: nat): Option<Segment>
  {
    PhdrSize();
    match RecordAt(file, PHDR, at)
    case None => None
    case Some(f) => Some(Segment(f[0], f[1], f[2], f[3], f[4], f[5], f[6], f[7]))
  }

  /** The first `n` entries of the program header table. */
  function ReadSegments(file: seq<byte>, phoff: nat, step: nat, n: nat): Option<seq<Segment>>
  {
    if n == 0 then Some([])
    else
      match ReadSegments(file, phoff, step, n - 1)
      case None => None
      case Some(init) =>
        match ReadSegment(file, EntryAt(phoff, n - 1, step))
        case None => None
        case Some(s) => Some(init + [s])
  }

  /** The program headers of a file. */
  function Segments(file: seq<byte>): Option<seq<Segment>>
  {
    match ReadHeader(file)
    case None => None
    case Some(h) =>
      if h.phnum > 0 && h.phentsize < PHDR_SIZE then None
      else ReadSegments(file, h.phoff, h.phentsize, h.phnum)
  }

  /** The first loadable segment that maps `addr`. */
  function SegmentFor(segs: seq<Segment>, addr: nat): (r: Option<Segment>)
    ensures r.None? <==> forall s | s in segs :: !s.Maps(addr)
    ensures r.Some? ==> exists i :: 0 <= i < |segs| && r.value == segs[i] && segs[i].Maps(addr)
                                    && forall j | 0 <= j < i :: !segs[j].Maps(addr)
  {
    if |segs| == 0 then None
    else if segs[0].Maps(addr) then Some(segs[0])
    else
      assert forall s :: s in segs <==> s == segs[0] || s in segs[1..];
      SegmentFor(segs[1..], addr)
  }

  /** The byte at an address once every loadable segment is mapped: file bytes up to `p_filesz`,
      zeros up to `p_memsz`; `None` where nothing is mapped. */
  function LoadedByte(file: seq<byte>, segs: seq<Segment>, addr: nat): Option<byte>
  {
    match SegmentFor(segs, addr)
    case None => None
    case Some(s) =>
      var delta := addr - s.vaddr;
      if delta >= s.filesz then Some(0)
      else if s.offset + delta < |file| then Some(file[s.offset + delta])
      else None
  }

  /** Segments that share no address, so that mapping order does not matter. */
  ghost predicate SegmentsDisjoint(segs: seq<Segment>)
  {
    forall i, j, addr | 0 <= i < |segs| && 0 <= j < |segs| && segs[i].Contains(addr) && segs[j].Contains(addr) ::
      i == j
  }

  // ----- section headers and symbols -------------------------------------------------------

  datatype SectionHeader = SectionHeader(shType: nat, addr: nat, offset: nat, size: nat, link: nat, entsize: nat)

  function ReadSectionHeader(file: seq<byte>, at: nat): Option<SectionHeader>
  {
    ShdrSize();
    match RecordAt(file, SHDR, at)
    case None => None
    case Some(f) => Some(SectionHeader(f[1], f[3], f[4], f[5], f[6], f[9]))
  }

  function ReadSectionHeaders(file: seq<byte>, shoff: nat, step: nat, n: nat): Option<seq<SectionHeader>>
  {
    if n == 0 then Some([])
    else
      match ReadSectionHeaders(file, shoff, step, n - 1)
      case None => None
      case Some(init) =>
        match ReadSectionHeader(file, EntryAt(shoff, n - 1, step))
        case None => None
        case Some(s) => Some(init + [s])
  }

  /** The section headers of a file. */
  function SectionHeaders(file: seq<byte>): Option<seq<SectionHeader>>
  {
    match ReadHeader(file)
    case None => None
    case Some(h) =>
      if h.shnum == 0 || h.shoff == 0 then Some([])
      else if h.shentsize < SHDR_SIZE then None
      else ReadSectionHeaders(file, h.shoff, h.shentsize, h.shnum)
  }

  function FirstOfType(hs: seq<SectionHeader>, t: nat): Option<SectionHeader>
  {
    if |hs| == 0 then None else if hs[0].shType == t then Some(hs[0]) else FirstOfType(hs[1..], t)
  }

  /** The bytes of `table` up to the first NUL. */
  function UpToNul(table: seq<byte>): seq<byte>
  {
    if |table| == 0 || table[0] == 0 then [] else [table[0]] + UpToNul(table[1..])
  }

  /** The name at offset `at` of a string table. */
  function CString(table: seq<byte>, at: nat): Name
  {
    if at >= |table| then [] else UpToNul(table[at..])
  }

  datatype ReadSymbol = ReadSymbol(name: Name, info: nat, shndx: nat, value: nat, size: nat)

  function SymbolIn(chunk: seq<byte>, strings: seq<byte>): ReadSymbol
    requires |chunk| == SYM_SIZE
  {
    SymSize();
    var f := Decode(SYM, chunk);
    ReadSymbol(CString(strings, f[0]), f[1], f[3], f[4], f[5])
  }

  /** One symbol per `step` bytes; a short last chunk ends the table. */
  function ReadSymbols(data: seq<byte>, strings: seq<byte>, step: nat): seq<ReadSymbol>
    requires step >= SYM_SIZE
    decreases |data|
  {
    if |data| < SYM_SIZE then []
    else
      [SymbolIn(data[..SYM_SIZE], strings)]
      + ReadSymbols(if |data| < step then [] else data[step..], strings, step)
  }

  function SliceOf(file: seq<byte>, h: SectionHeader): Option<seq<byte>>
  {
    if h.offset + h.size <= |file| then Some(file[h.offset..h.offset + h.size]) else None
  }

  /** The symbol table of a file, decoded against the string table it links to. */
  function SymbolTable(file: seq<byte>): Option<seq<ReadSymbol>>
  {
    match SectionHeaders(file)
    case None => None
    case Some(hs) =>
      match FirstOfType(hs, SHT_SYMTAB)
      case None => Some([])
      case Some(h) =>
        var strings :=
          if h.link < |hs| && SliceOf(file, hs[h.link]).Some? then SliceOf(file, hs[h.link]).value else [];
        var step := if h.entsize == 0 then SYM_SIZE else h.entsize;
        match SliceOf(file, h)
        case None => None
        case Some(data) => if step < SYM_SIZE then None else Some(ReadSymbols(data, strings, step))
  }
}
