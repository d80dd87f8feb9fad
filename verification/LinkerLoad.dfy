/** Loading an assembled file under the rules of the ELF program headers. */
module LinkerLoad {
  import opened Wrappers
  import opened Bytes
  import opened ElfObject
  import opened ElfFile
  import opened LinkerLayout
  import opened LinkerFile
  import opened LinkerReadBack

  predicate OutputFits(o: Output)
  {
    WindowsHold(|o.text|, |o.rodata|, |o.data|, o.bssSize)
  }

  /** The memory the program is meant to start with. */
  function ImageByte(o: Output, addr: nat): Option<byte>
    requires o.bssBase >= DATA_ADDR
  {
    if TEXT_ADDR <= addr < TEXT_ADDR + |o.text| then Some(o.text[addr - TEXT_ADDR])
    else if RODATA_ADDR <= addr < RODATA_ADDR + |o.rodata| then Some(o.rodata[addr - RODATA_ADDR])
    else if DATA_ADDR <= addr < DATA_ADDR + |o.data| then Some(o.data[addr - DATA_ADDR])
    else if (o.data != [] || o.bssSize > 0) && DATA_ADDR <= addr < DATA_ADDR + DataMemSize(o) then Some(0)
    else None
  }

  // ----- segments -----------------------------------------------------------------------------

  /** The segments share no address exactly when text and rodata stay inside their windows. */
  lemma SegmentsDisjointWhen(o: Output)
    requires o.bssBase >= DATA_ADDR
    ensures SegmentsDisjoint(LoadSegments(o)) <==> OutputFits(o)
  {
    var segs := LoadSegments(o);
    if o.rodata != [] && |o.text| > RODATA_ADDR - TEXT_ADDR {
      assert segs[0].Contains(RODATA_ADDR) && segs[1].Contains(RODATA_ADDR);
    } else if o.data != [] || o.bssSize > 0 {
      var last := |segs| - 1;
      assert segs[last] == Load(PF_R + PF_W, DATA_OFF, DATA_ADDR, |o.data|, DataMemSize(o));
      assert segs[last].Contains(DATA_ADDR);
      if |o.text| > DATA_ADDR - TEXT_ADDR {
        assert segs[0].Contains(DATA_ADDR) && last > 0;
      } else if |o.rodata| > DATA_ADDR - RODATA_ADDR {
        assert segs[last - 1] == Load(PF_R, RODATA_OFF, RODATA_ADDR, |o.rodata|, |o.rodata|);
        assert segs[last - 1].Contains(DATA_ADDR);
      }
    }
  }

  /** The kernel's page congruence. */
  lemma SegmentsCongruent(o: Output, i: nat)
    requires o.bssBase >= DATA_ADDR && i < |LoadSegments(o)|
    ensures LoadSegments(o)[i].offset % PAGE_SIZE == LoadSegments(o)[i].vaddr % PAGE_SIZE
    ensures LoadSegments(o)[i].filesz <= LoadSegments(o)[i].memsz
  {
  }

  lemma {:induction false} SegmentForConcat(a: seq<Segment>, b: seq<Segment>, addr: nat)
    ensures SegmentFor(a + b, addr) ==
      if SegmentFor(a, addr).Some? then SegmentFor(a, addr) else SegmentFor(b, addr)
  {
    if |a| == 0 {
      assert a + b == b;
    } else {
      assert (a + b)[1..] == a[1..] + b;
      SegmentForConcat(a[1..], b, addr);
    }
  }

  lemma AtMostOne(segs: seq<Segment>, addr: nat)
    requires |segs| <= 1
    ensures SegmentFor(segs, addr) ==
      if |segs| == 1 && segs[0].Maps(addr) then Some(segs[0]) else None
  {
    if |segs| == 1 {
      assert segs[1..] == [];
    }
  }

  lemma TextSurvives(s: seq<byte>, at: nat, b: seq<byte>, i: nat, j: nat)
    requires at + |b| <= |s| && i <= j <= |s| && (b == [] || j <= at)
    ensures Splice(s, at, b)[i..j] == s[i..j]
  {
    if b == [] {
      assert Splice(s, at, b) == s;
    } else {
      SpliceOutside(s, at, b, i, j);
    }
  }

  /** Each section's bytes are where its program header says. */
  lemma BodySlices(o: Output)
    requires FitsFile(o) && OutputFits(o)
    ensures Body(o)[TEXT_OFF..TEXT_OFF + |o.text|] == o.text
    ensures Body(o)[RODATA_OFF..RODATA_OFF + |o.rodata|] == o.rodata
    ensures Body(o)[DATA_OFF..DATA_OFF + |o.data|] == o.data
  {
    hide Splice;
    var blank := Zeros(DATA_OFF + Max(|o.data|, 1));
    var one := Splice(blank, TEXT_OFF, o.text);
    var two := Splice(one, RODATA_OFF, o.rodata);
    SpliceInside(blank, TEXT_OFF, o.text);
    SpliceInside(one, RODATA_OFF, o.rodata);
    SpliceInside(two, DATA_OFF, o.data);
    TextSurvives(one, RODATA_OFF, o.rodata, TEXT_OFF, TEXT_OFF + |o.text|);
    TextSurvives(two, DATA_OFF, o.data, TEXT_OFF, TEXT_OFF + |o.text|);
    TextSurvives(two, DATA_OFF, o.data, RODATA_OFF, RODATA_OFF + |o.rodata|);
  }

  /** The section contents as they appear in the file. */
  ghost predicate ContentsInPlace(file: seq<byte>, o: Output)
  {
    && DATA_OFF + |o.data| <= |file| && RODATA_OFF + |o.rodata| <= |file| && TEXT_OFF + |o.text| <= |file|
    && file[TEXT_OFF..TEXT_OFF + |o.text|] == o.text
    && file[RODATA_OFF..RODATA_OFF + |o.rodata|] == o.rodata
    && file[DATA_OFF..DATA_OFF + |o.data|] == o.data
  }

  lemma SliceAt(file: seq<byte>, at: nat, b: seq<byte>, i: nat)
    requires at + |b| <= |file| && file[at..at + |b|] == b && i < |b|
    ensures file[at + i] == b[i]
  {
    assert file[at..at + |b|][i] == file[at + i];
  }

  /** The segment that maps an address, by region. */
  lemma SegmentForAddress(o: Output, addr: nat)
    requires o.bssBase >= DATA_ADDR
    ensures SegmentFor(LoadSegments(o), addr) ==
      if TEXT_ADDR <= addr < TEXT_ADDR + |o.text|
        then Some(Load(PF_R + PF_X, TEXT_OFF, TEXT_ADDR, |o.text|, |o.text|))
      else if RODATA_ADDR <= addr < RODATA_ADDR + |o.rodata|
        then Some(Load(PF_R, RODATA_OFF, RODATA_ADDR, |o.rodata|, |o.rodata|))
      else if (o.data != [] || o.bssSize > 0) && DATA_ADDR <= addr < DATA_ADDR + DataMemSize(o)
        then Some(Load(PF_R + PF_W, DATA_OFF, DATA_ADDR, |o.data|, DataMemSize(o)))
      else None
  {
    var t := if o.text == [] then [] else [Load(PF_R + PF_X, TEXT_OFF, TEXT_ADDR, |o.text|, |o.text|)];
    var r := if o.rodata == [] then [] else [Load(PF_R, RODATA_OFF, RODATA_ADDR, |o.rodata|, |o.rodata|)];
    var d := if o.data == [] && o.bssSize == 0 then []
             else [Load(PF_R + PF_W, DATA_OFF, DATA_ADDR, |o.data|, DataMemSize(o))];
    assert LoadSegments(o) == (t + r) + d;
    SegmentForConcat(t + r, d, addr);
    SegmentForConcat(t, r, addr);
    AtMostOne(t, addr);
    AtMostOne(r, addr);
    AtMostOne(d, addr);
  }

  /** Mapping the three segments gives the intended memory, at every address. */
  lemma LoadsImage(file: seq<byte>, o: Output, addr: nat)
    requires o.bssBase >= DATA_ADDR && OutputFits(o) && ContentsInPlace(file, o)
    ensures LoadedByte(file, LoadSegments(o), addr) == ImageByte(o, addr)
  {
    hide SegmentFor, LoadSegments;
    SegmentForAddress(o, addr);
    if TEXT_ADDR <= addr < TEXT_ADDR + |o.text| {
      SliceAt(file, TEXT_OFF, o.text, addr - TEXT_ADDR);
    } else if RODATA_ADDR <= addr < RODATA_ADDR + |o.rodata| {
      SliceAt(file, RODATA_OFF, o.rodata, addr - RODATA_ADDR);
    } else if DATA_ADDR <= addr < DATA_ADDR + |o.data| {
      SliceAt(file, DATA_OFF, o.data, addr - DATA_ADDR);
    }
  }

  // ----- the assembled file ---------------------------------------------------------------------

  /** The trailing parts of a file, without the section contents. */
  ghost predicate TailInPlace(file: seq<byte>, o: Output, names: seq<Name>)
    requires AllIn(names, o.globals)
  {
    var at := OffsetsIn(o, names);
    && TEXT_OFF <= at.symtab <= at.strtab <= at.names <= at.names + 52 <= at.headers <= |file|
    && file[at.symtab..at.strtab] == SymTab(names, o.globals)
    && file[at.strtab..at.names] == StrTab(names)
    && file[at.names..at.names + 52] == SectionNames()
    && file[at.headers..] == Rows(SHDR, ShdrRows(o, at))
  }

  lemma HeadedTail(u: seq<byte>, o: Output, names: seq<Name>, shoff: nat, segs: seq<Segment>)
    requires FitsFile(o) && AllIn(names, o.globals)
    requires PartsInPlace(u, o, names) && |segs| <= 3 && |Body(o)| >= DATA_OFF
    ensures TailInPlace(Headed(u, o.entry, shoff, segs), o, names)
  {
    hide Headed, Body, OffsetsIn, FitsFile, SymTab, StrTab, Rows, ShdrRows, SectionNames;
    var at := OffsetsIn(o, names);
    RestSlice(u, o.entry, shoff, segs, at.symtab, at.strtab);
    RestSlice(u, o.entry, shoff, segs, at.strtab, at.names);
    RestSlice(u, o.entry, shoff, segs, at.names, at.names + 52);
    RestSlice(u, o.entry, shoff, segs, at.headers, |u|);
    var file := Headed(u, o.entry, shoff, segs);
    assert file[at.headers..|u|] == file[at.headers..] && u[at.headers..|u|] == u[at.headers..];
  }

  lemma SameSlice(u: seq<byte>, o: Output, shoff: nat, segs: seq<Segment>, i: nat, j: nat)
    requires FitsFile(o) && |u| >= |Body(o)| >= DATA_OFF && u[..|Body(o)|] == Body(o) && |segs| <= 3
    requires TEXT_OFF <= i <= j <= |Body(o)|
    ensures Headed(u, o.entry, shoff, segs)[i..j] == Body(o)[i..j]
  {
    hide Headed, Body, FitsFile;
    RestSlice(u, o.entry, shoff, segs, i, j);
    var rest := u[|Body(o)|..];
    assert u == Body(o) + rest;
    PrefixSlice(Body(o), rest, i, j);
  }

  lemma ContentsAre(file: seq<byte>, body: seq<byte>, o: Output)
    requires |file| >= |body| == DATA_OFF + Max(|o.data|, 1) && FitsFile(o)
    requires file[TEXT_OFF..TEXT_OFF + |o.text|] == body[TEXT_OFF..TEXT_OFF + |o.text|] == o.text
    requires file[RODATA_OFF..RODATA_OFF + |o.rodata|] == body[RODATA_OFF..RODATA_OFF + |o.rodata|] == o.rodata
    requires file[DATA_OFF..DATA_OFF + |o.data|] == body[DATA_OFF..DATA_OFF + |o.data|] == o.data
    ensures ContentsInPlace(file, o)
  {
  }

  lemma HeadedContents(u: seq<byte>, o: Output, shoff: nat, segs: seq<Segment>)
    requires FitsFile(o) && OutputFits(o)
    requires |u| >= |Body(o)| >= DATA_OFF && u[..|Body(o)|] == Body(o) && |segs| <= 3
    ensures ContentsInPlace(Headed(u, o.entry, shoff, segs), o)
  {
    hide Headed, Body, OutputFits, Splice, ContentsInPlace;
    BodySlices(o);
    SameSlice(u, o, shoff, segs, TEXT_OFF, TEXT_OFF + |o.text|);
    SameSlice(u, o, shoff, segs, RODATA_OFF, RODATA_OFF + |o.rodata|);
    SameSlice(u, o, shoff, segs, DATA_OFF, DATA_OFF + |o.data|);
    ContentsAre(Headed(u, o.entry, shoff, segs), Body(o), o);
  }

  lemma HeadedHeaders(u: seq<byte>, entry: nat, shoff: nat, segs: seq<Segment>)
    requires |u| >= TEXT_OFF && |segs| <= 3
    requires entry < 0x1_0000_0000_0000_0000 && shoff < 0x1_0000_0000_0000_0000
    requires forall i | 0 <= i < |segs| :: SegmentSized(segs[i])
    ensures ReadHeader(Headed(u, entry, shoff, segs))
         == Some(Header(ET_EXEC, EM_X86_64, entry, EHDR_SIZE, shoff, PHDR_SIZE, |segs|, SHDR_SIZE, 8))
    ensures Segments(Headed(u, entry, shoff, segs)) == Some(segs)
  {
    hide Headed, SegmentSized, PhdrBytes, HeaderRow, RecordAt, ReadSegments, ReadHeader;
    var file := Headed(u, entry, shoff, segs);
    HeaderSlice(u, entry, shoff, segs);
    HeaderReadBack(file, entry, shoff, |segs|);
    forall i | 0 <= i < |segs|
      ensures file[EHDR_SIZE + PHDR_SIZE * i..EHDR_SIZE + PHDR_SIZE * (i + 1)] == PhdrBytes(segs[i])
    {
      PhdrSlice(u, entry, shoff, segs, i);
    }
    SegmentsReadBack(file, segs, |segs|);
    assert segs[..|segs|] == segs;
  }

  lemma SegmentsFit(o: Output)
    requires MachineSized(o) && o.bssBase >= DATA_ADDR
    ensures |LoadSegments(o)| <= 3
    ensures forall i | 0 <= i < |LoadSegments(o)| :: SegmentSized(LoadSegments(o)[i])
  {
    hide StrTab, AlignUp, OffsetsIn, NamesOf;
  }

  /** The header of the section header table, read back. */
  lemma TailReadBack(file: seq<byte>, o: Output, names: seq<Name>, h: Header)
    requires AllIn(names, o.globals)
    requires TailInPlace(file, o, names)
    requires ReadHeader(file) == Some(h) && h.shoff == OffsetsIn(o, names).headers
    requires h.shentsize == SHDR_SIZE && h.shnum == 8
    requires OffsetsIn(o, names).headers < 0x1_0000_0000_0000_0000
    requires |o.text| < 0x1_0000_0000_0000_0000 && |o.rodata| < 0x1_0000_0000_0000_0000
    requires o.bssBase + o.bssSize < 0x1_0000_0000_0000_0000 && DATA_ADDR + |o.data| <= o.bssBase
    ensures SectionHeaders(file).Some? && |SectionHeaders(file).value| == 8
    ensures FirstOfType(SectionHeaders(file).value, SHT_SYMTAB) == Some(SectionHeaders(file).value[5])
    ensures
      var hs, at := SectionHeaders(file).value, OffsetsIn(o, names);
      && hs[5] == SectionHeader(SHT_SYMTAB, 0, at.symtab, at.strtab - at.symtab, 6, SYM_SIZE)
      && hs[6] == SectionHeader(SHT_STRTAB, 0, at.strtab, at.names - at.strtab, 0, 0)
  {
    hide OffsetsIn, Rows, SymTab, StrTab, ReadHeader, ReadSectionHeaders, FirstOfType;
    var at := OffsetsIn(o, names);
    var rows := ShdrRows(o, at);
    ShdrRowsFit(o, at);
    SectionHeadersReadBack(file, at.headers, rows, 8);
    var hs := SectionHeaders(file).value;
    assert hs[0] == HeaderOf(rows[0]) && hs[1] == HeaderOf(rows[1]) && hs[2] == HeaderOf(rows[2]);
    assert hs[3] == HeaderOf(rows[3]) && hs[4] == HeaderOf(rows[4]);
    assert hs[5] == HeaderOf(rows[5]) && hs[6] == HeaderOf(rows[6]);
    FirstOfTypeAt(hs, SHT_SYMTAB, 5);
  }

  lemma SymbolTableReadBack(file: seq<byte>, o: Output, names: seq<Name>, h: Header)
    requires AllIn(names, o.globals)
    requires forall i | 0 <= i < |names| :: o.globals[names[i]] < 0x1_0000_0000_0000_0000 && 0 !in names[i]
    requires |StrTab(names)| < 0x1_0000_0000
    requires TailInPlace(file, o, names)
    requires ReadHeader(file) == Some(h) && h.shoff == OffsetsIn(o, names).headers
    requires h.shentsize == SHDR_SIZE && h.shnum == 8
    requires OffsetsIn(o, names).headers < 0x1_0000_0000_0000_0000
    requires |o.text| < 0x1_0000_0000_0000_0000 && |o.rodata| < 0x1_0000_0000_0000_0000
    requires o.bssBase + o.bssSize < 0x1_0000_0000_0000_0000 && DATA_ADDR + |o.data| <= o.bssBase
    ensures SymbolTable(file) == Some(ExpectedSymbols(names, o.globals))
  {
    hide OffsetsIn, Rows, SymTab, StrTab, ReadHeader, SectionHeaders, FirstOfType, ReadSymbols, ExpectedSymbols,
         ShdrRows;
    TailReadBack(file, o, names, h);
    SymTabReadBack(names, o.globals);
    var at := OffsetsIn(o, names);
    assert at.symtab + (at.strtab - at.symtab) == at.strtab && at.strtab + (at.names - at.strtab) == at.names;
  }

  lemma AssembledIs(o: Output, names: seq<Name>)
    requires o.bssBase >= DATA_ADDR && Assembled(o).Some? && names == NamesOf(o)
    ensures FitsFile(o) && |LoadSegments(o)| <= 3
    ensures |Unheaded(o, names)| >= |Body(o)| >= DATA_OFF
    ensures Assembled(o).value == Headed(Unheaded(o, names), o.entry, OffsetsIn(o, names).headers, LoadSegments(o))
  {
    hide Unheaded, Headed, NamesOf, Splice, OffsetsIn;
    UnheadedSlices(o, names);
  }

  lemma Sizes(o: Output)
    requires MachineSized(o)
    ensures o.entry < 0x1_0000_0000_0000_0000
    ensures OffsetsIn(o, NamesOf(o)).headers < 0x1_0000_0000_0000_0000
    ensures |StrTab(NamesOf(o))| < 0x1_0000_0000
    ensures |o.text| < 0x1_0000_0000_0000_0000 && |o.rodata| < 0x1_0000_0000_0000_0000
    ensures o.bssBase + o.bssSize < 0x1_0000_0000_0000_0000 && DATA_ADDR + |o.data| <= o.bssBase
    ensures forall i | 0 <= i < |NamesOf(o)| ::
      o.globals[NamesOf(o)[i]] < 0x1_0000_0000_0000_0000 && 0 !in NamesOf(o)[i]
  {
    hide OffsetsIn, StrTab;
  }

  /** What the kernel and the suite's reader see in a file. */
  ghost predicate ReadsAs(file: seq<byte>, o: Output)
    requires o.bssBase >= DATA_ADDR
  {
    && ReadHeader(file).Some? && ReadHeader(file).value.entry == o.entry
    && Segments(file) == Some(LoadSegments(o))
    && SymbolTable(file) == Some(ExpectedSymbols(NamesOf(o), o.globals))
    && (OutputFits(o) ==> ContentsInPlace(file, o))
  }

  lemma BodyKept(o: Output, names: seq<Name>)
    requires FitsFile(o) && AllIn(names, o.globals)
    ensures |Body(o)| <= |Unheaded(o, names)| && Unheaded(o, names)[..|Body(o)|] == Body(o)
  {
    hide Unheaded, Body, OffsetsIn;
    UnheadedSlices(o, names);
  }

  /** An assembled file reads back as what it was assembled from. */
  lemma AssembledReadsBack(o: Output)
    requires o.bssBase >= DATA_ADDR && Assembled(o).Some? && MachineSized(o)
    ensures ReadsAs(Assembled(o).value, o)
  {
    hide Unheaded, Headed, LoadSegments, MachineSized, SegmentSized, Assembled, OffsetsIn, FitsFile, OutputFits,
         NamesOf, Body, PartsInPlace, TailInPlace, Segments, SymbolTable, ExpectedSymbols, ReadHeader;
    var names := NamesOf(o);
    AssembledIs(o, names);
    Sizes(o);
    SegmentsFit(o);
    UnheadedSlices(o, names);
    var u, shoff, segs := Unheaded(o, names), OffsetsIn(o, names).headers, LoadSegments(o);
    HeadedHeaders(u, o.entry, shoff, segs);
    HeadedTail(u, o, names, shoff, segs);
    SymbolTableReadBack(Assembled(o).value, o, names, ReadHeader(Assembled(o).value).value);
    if OutputFits(o) {
      BodyKept(o, names);
      HeadedContents(u, o, shoff, segs);
    }
  }
}
