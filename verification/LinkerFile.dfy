/** The executable as the linker writes it, part by part, from headers to symbols. */
module LinkerFile {
  import opened Wrappers
  import opened Bytes
  import opened ByteOrder
  import opened ElfObject
  import opened ElfFile
  import opened LinkerLayout
  import opened LinkerSymbols

  const TEXT_OFF: nat := 0x1000
  const RODATA_OFF: nat := 0x2000
  const DATA_OFF: nat := 0x3000
  const PF_X: nat := 1
  const PF_W: nat := 2
  const PF_R: nat := 4
  const ET_EXEC: nat := 2
  const SHT_PROGBITS: nat := 1
  const SHT_STRTAB: nat := 3

  /** Everything `assemble` is given. */
  datatype Output = Output(
    text: seq<byte>, rodata: seq<byte>, data: seq<byte>,
    bssSize: nat, bssBase: nat, entry: nat, globals: Table)

  // ----- program headers ------------------------------------------------------------------

  function Load(flags: nat, offset: nat, vaddr: nat, filesz: nat, memsz: nat): Segment
  {
    Segment(PT_LOAD, flags, offset, vaddr, vaddr, filesz, memsz, PAGE_SIZE)
  }

  function DataMemSize(o: Output): nat
    requires o.bssBase >= DATA_ADDR
  {
    Max(o.bssBase - DATA_ADDR + o.bssSize, |o.data|)
  }

  function LoadSegments(o: Output): seq<Segment>
    requires o.bssBase >= DATA_ADDR
  {
    (if o.text == [] then [] else [Load(PF_R + PF_X, TEXT_OFF, TEXT_ADDR, |o.text|, |o.text|)])
    + (if o.rodata == [] then [] else [Load(PF_R, RODATA_OFF, RODATA_ADDR, |o.rodata|, |o.rodata|)])
    + (if o.data == [] && o.bssSize == 0 then []
       else [Load(PF_R + PF_W, DATA_OFF, DATA_ADDR, |o.data|, DataMemSize(o))])
  }

  function PhdrRow(s: Segment): (r: seq<int>)
    ensures |r| == 8
  {
    [s.ptype, s.flags, s.offset, s.vaddr, s.paddr, s.filesz, s.memsz, s.align]
  }

  function PhdrBytes(s: Segment): (r: seq<byte>)
    ensures |r| == PHDR_SIZE
  {
    PhdrSize();
    Encode(PHDR, PhdrRow(s))
  }

  function PhdrTable(segs: seq<Segment>): seq<byte>
  {
    if |segs| == 0 then [] else PhdrTable(segs[..|segs| - 1]) + PhdrBytes(segs[|segs| - 1])
  }

  // ----- section contents -----------------------------------------------------------------

  /** The contents fit the buffer they are copied into; otherwise the program panics. */
  predicate FitsFile(o: Output)
  {
    && TEXT_OFF + |o.text| <= DATA_OFF + Max(|o.data|, 1)
    && RODATA_OFF + |o.rodata| <= DATA_OFF + Max(|o.data|, 1)
  }

  function Body(o: Output): (r: seq<byte>)
    requires FitsFile(o)
    ensures |r| == DATA_OFF + Max(|o.data|, 1)
  {
    var blank := Zeros(DATA_OFF + Max(|o.data|, 1));
    Splice(Splice(Splice(blank, TEXT_OFF, o.text), RODATA_OFF, o.rodata), DATA_OFF, o.data)
  }

  // ----- symbols --------------------------------------------------------------------------

  function StrTab(names: seq<Name>): (r: seq<byte>)
    ensures |r| > 0
  {
    if |names| == 0 then [0] else StrTab(names[..|names| - 1]) + names[|names| - 1] + [0]
  }

  /** `st_info` of a global symbol without a type. */
  const GLOBAL_NOTYPE: nat := 0x10

  predicate AllIn(names: seq<Name>, globals: Table)
  {
    forall i | 0 <= i < |names| :: names[i] in globals
  }

  function SymRow(nameOff: nat, addr: nat): (r: seq<int>)
    ensures |r| == 6
  {
    [nameOff, GLOBAL_NOTYPE, 0, 1, addr, 0]
  }

  function SymRows(names: seq<Name>, globals: Table): (r: seq<seq<int>>)
    requires AllIn(names, globals)
    ensures |r| == |names| + 1
    ensures RowsOf(SYM, r)
  {
    if |names| == 0 then [[0, 0, 0, 0, 0, 0]]
    else
      var init := names[..|names| - 1];
      SymRows(init, globals) + [SymRow(|StrTab(init)|, globals[names[|names| - 1]])]
  }

  function SymTab(names: seq<Name>, globals: Table): seq<byte>
    requires AllIn(names, globals)
  {
    Rows(SYM, SymRows(names, globals))
  }

  // ----- section headers ------------------------------------------------------------------

  const TEXT_NAME: seq<byte> := [0x2e, 0x74, 0x65, 0x78, 0x74]
  const RODATA_NAME: seq<byte> := [0x2e, 0x72, 0x6f, 0x64, 0x61, 0x74, 0x61]
  const DATA_NAME: seq<byte> := [0x2e, 0x64, 0x61, 0x74, 0x61]
  const BSS_NAME: seq<byte> := [0x2e, 0x62, 0x73, 0x73]
  const SYMTAB_NAME: seq<byte> := [0x2e, 0x73, 0x79, 0x6d, 0x74, 0x61, 0x62]
  const STRTAB_NAME: seq<byte> := [0x2e, 0x73, 0x74, 0x72, 0x74, 0x61, 0x62]
  const SHSTRTAB_NAME: seq<byte> := [0x2e, 0x73, 0x68, 0x73, 0x74, 0x72, 0x74, 0x61, 0x62]

  /** The names of the sections after the first, which has none. */
  const SECTIONS: seq<Name> :=
    [TEXT_NAME, RODATA_NAME, DATA_NAME, BSS_NAME, SYMTAB_NAME, STRTAB_NAME, SHSTRTAB_NAME]

  lemma {:induction false} StrTabLength(names: seq<Name>, i: nat)
    requires i < |names|
    ensures |StrTab(names[..i + 1])| == |StrTab(names[..i])| + |names[i]| + 1
  {
    assert names[..i + 1][..i] == names[..i];
  }

  lemma NoNames(names: seq<Name>)
    ensures StrTab(names[..0]) == [0]
  {
  }

  /** Where the name of each section starts, and where the last one ends. */
  lemma SectionNameOffsets()
    ensures |SECTIONS| == 7
    ensures forall i | 0 <= i <= 7 :: |StrTab(SECTIONS[..i])| == [1, 7, 15, 21, 26, 34, 42, 52][i]
  {
    hide StrTab;
    assert |StrTab(SECTIONS[..0])| == 1 by { NoNames(SECTIONS); }
    StrTabLength(SECTIONS, 0);
    StrTabLength(SECTIONS, 1);
    StrTabLength(SECTIONS, 2);
    StrTabLength(SECTIONS, 3);
    StrTabLength(SECTIONS, 4);
    StrTabLength(SECTIONS, 5);
    StrTabLength(SECTIONS, 6);
  }

  /** The table of section names: 52 bytes. */
  function SectionNames(): (r: seq<byte>)
    ensures |r| == 52
  {
    SectionNameOffsets();
    assert SECTIONS[..7] == SECTIONS;
    StrTab(SECTIONS)
  }

  function Shdr(name: nat, shType: nat, flags: nat, addr: nat, offset: nat, size: nat,
                link: nat, info: nat, align: nat, entsize: nat): (r: seq<int>)
    ensures |r| == 10
  {
    [name, shType, flags, addr, offset, size, link, info, align, entsize]
  }

  /** Where each trailing part of the file starts. */
  datatype Offsets = Offsets(symtab: nat, strtab: nat, names: nat, headers: nat)

  function OffsetsOf(o: Output, symtab: nat, strtab: nat): Offsets
  {
    var at := AlignUp(DATA_OFF + Max(|o.data|, 1), 8);
    Offsets(at, at + symtab, at + symtab + strtab, AlignUp(at + symtab + strtab + 52, 8))
  }

  function ShdrRows(o: Output, at: Offsets): (r: seq<seq<int>>)
    requires at.symtab <= at.strtab <= at.names
    ensures RowsOf(SHDR, r) && |r| == 8
  {
    [ Shdr(0, 0, 0, 0, 0, 0, 0, 0, 0, 0),
      Shdr(1, SHT_PROGBITS, 6, TEXT_ADDR, TEXT_OFF, |o.text|, 0, 0, 16, 0),
      Shdr(7, SHT_PROGBITS, 2, RODATA_ADDR, RODATA_OFF, |o.rodata|, 0, 0, 1, 0),
      Shdr(15, SHT_PROGBITS, 3, DATA_ADDR, DATA_OFF, |o.data|, 0, 0, 1, 0),
      Shdr(21, SHT_NOBITS, 3, o.bssBase, DATA_OFF + |o.data|, o.bssSize, 0, 0, 16, 0),
      Shdr(26, SHT_SYMTAB, 0, 0, at.symtab, at.strtab - at.symtab, 6, 1, 8, SYM_SIZE),
      Shdr(34, SHT_STRTAB, 0, 0, at.strtab, at.names - at.strtab, 0, 0, 1, 0),
      Shdr(42, SHT_STRTAB, 0, 0, at.names, 52, 0, 0, 1, 0) ]
  }

  // ----- the file header --------------------------------------------------------------------

  const IDENT: seq<byte> := [0x7f, 0x45, 0x4c, 0x46, 2, 1, 1, 0, 0, 0, 0, 0, 0, 0, 0, 0]

  function HeaderRow(entry: nat, shoff: nat, phnum: nat): (r: seq<int>)
    ensures |r| == 13
  {
    [ET_EXEC, EM_X86_64, 1, entry, EHDR_SIZE, shoff, 0, EHDR_SIZE, PHDR_SIZE, phnum, SHDR_SIZE, 8, 7]
  }

  function HeaderBytes(entry: nat, shoff: nat, phnum: nat): (r: seq<byte>)
    ensures |r| == EHDR_SIZE
  {
    EhdrSize();
    IDENT + Encode(EHDR, HeaderRow(entry, shoff, phnum))
  }

  // ----- the whole file -----------------------------------------------------------------------

  /** The bytes from the section contents to the section headers, before the first 64 bytes and
      the program headers are filled in. */
  function Unheaded(o: Output, names: seq<Name>): seq<byte>
    requires FitsFile(o) && AllIn(names, o.globals)
  {
    var symtab, strtab := SymTab(names, o.globals), StrTab(names);
    var at := OffsetsOf(o, |symtab|, |strtab|);
    var body := Body(o);
    body + Zeros(at.symtab - |body|) + symtab + strtab + SectionNames()
    + Zeros(at.headers - (at.names + 52)) + Rows(SHDR, ShdrRows(o, at))
  }

  lemma {:induction false} PhdrTableLength(segs: seq<Segment>)
    ensures |PhdrTable(segs)| == PHDR_SIZE * |segs|
  {
    PhdrSize();
    if |segs| > 0 {
      PhdrTableLength(segs[..|segs| - 1]);
    }
  }

  /** The file header and the program headers written over the first bytes of a file. */
  function Headed(file: seq<byte>, entry: nat, shoff: nat, segs: seq<Segment>): (r: seq<byte>)
    requires |file| >= TEXT_OFF && |segs| <= 3
    ensures |r| == |file|
  {
    EhdrSize();
    PhdrTableLength(segs);
    Splice(Splice(file, 0, HeaderBytes(entry, shoff, |segs|)), EHDR_SIZE, PhdrTable(segs))
  }

  function OffsetsIn(o: Output, names: seq<Name>): Offsets
    requires AllIn(names, o.globals)
  {
    OffsetsOf(o, |SymTab(names, o.globals)|, |StrTab(names)|)
  }

  /** The symbols of the output in the order they are written. */
  function NamesOf(o: Output): (names: seq<Name>)
    ensures AllIn(names, o.globals)
    ensures forall n | n in o.globals :: n in names
    ensures Ascending(names)
  {
    SortedKeys(o.globals.Keys)
  }

  lemma UnheadedLength(o: Output, names: seq<Name>)
    requires FitsFile(o) && AllIn(names, o.globals)
    ensures |Unheaded(o, names)| == OffsetsIn(o, names).headers + 8 * SHDR_SIZE
  {
    hide Body, SymTab, StrTab, SectionNames;
    ShdrSize();
    RowsLength(SHDR, ShdrRows(o, OffsetsIn(o, names)));
  }

  function Assembled(o: Output): Option<seq<byte>>
    requires o.bssBase >= DATA_ADDR
  {
    if !FitsFile(o) then None
    else
      var names := NamesOf(o);
      UnheadedLength(o, names);
      Some(Headed(Unheaded(o, names), o.entry, OffsetsIn(o, names).headers, LoadSegments(o)))
  }
}
