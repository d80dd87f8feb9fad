/** Reading an assembled file back gives what went into it. */
module LinkerReadBack {
  import opened Wrappers
  import opened Bytes
  import opened ElfObject
  import opened ElfFile
  import opened LinkerLayout
  import opened LinkerSymbols
  import opened LinkerFile

  // ----- slices of the finished file --------------------------------------------------------

  lemma {:induction false} PhdrAt(segs: seq<Segment>, i: nat)
    requires i < |segs|
    ensures PHDR_SIZE * (i + 1) <= |PhdrTable(segs)|
    ensures PhdrTable(segs)[PHDR_SIZE * i..PHDR_SIZE * (i + 1)] == PhdrBytes(segs[i])
  {
    PhdrSize();
    PhdrTableLength(segs);
    var init := segs[..|segs| - 1];
    PhdrTableLength(init);
    if i < |segs| - 1 {
      PhdrAt(init, i);
    }
  }

  /** The file header is where readers look for it. */
  lemma HeaderSlice(file: seq<byte>, entry: nat, shoff: nat, segs: seq<Segment>)
    requires |file| >= TEXT_OFF && |segs| <= 3
    ensures Headed(file, entry, shoff, segs)[16..64] == Encode(EHDR, HeaderRow(entry, shoff, |segs|))
  {
    hide PhdrTable, Encode, Splice, Sum;
    EhdrSize();
    PhdrTableLength(segs);
    var hdr := HeaderBytes(entry, shoff, |segs|);
    SpliceOutside(Splice(file, 0, hdr), EHDR_SIZE, PhdrTable(segs), 16, 64);
    SpliceSlice(file, 0, hdr, 16, 64);
  }

  /** So is each program header. */
  lemma PhdrSlice(file: seq<byte>, entry: nat, shoff: nat, segs: seq<Segment>, i: nat)
    requires |file| >= TEXT_OFF && |segs| <= 3 && i < |segs|
    ensures Headed(file, entry, shoff, segs)[EHDR_SIZE + PHDR_SIZE * i..EHDR_SIZE + PHDR_SIZE * (i + 1)]
         == PhdrBytes(segs[i])
  {
    hide PhdrTable, Encode, Splice, Sum;
    EhdrSize();
    PhdrTableLength(segs);
    PhdrAt(segs, i);
    SpliceSlice(Splice(file, 0, HeaderBytes(entry, shoff, |segs|)), EHDR_SIZE, PhdrTable(segs),
                EHDR_SIZE + PHDR_SIZE * i, EHDR_SIZE + PHDR_SIZE * (i + 1));
  }

  /** Everything from 0x1000 on is left alone. */
  lemma RestSlice(file: seq<byte>, entry: nat, shoff: nat, segs: seq<Segment>, i: nat, j: nat)
    requires |file| >= TEXT_OFF && |segs| <= 3 && TEXT_OFF <= i <= j <= |file|
    ensures Headed(file, entry, shoff, segs)[i..j] == file[i..j]
  {
    hide PhdrTable, Encode, Splice, Sum;
    EhdrSize();
    PhdrTableLength(segs);
    var hdr := HeaderBytes(entry, shoff, |segs|);
    SpliceOutside(Splice(file, 0, hdr), EHDR_SIZE, PhdrTable(segs), i, j);
    SpliceOutside(file, 0, hdr, i, j);
  }

  lemma Concat7Fifth<T>(abcd: seq<T>, e: seq<T>, f: seq<T>, g: seq<T>)
    ensures (abcd + e + f + g)[|abcd|..|abcd| + |e|] == e
  {
    assert abcd + e + f + g == abcd + e + (f + g);
    PartSlice(abcd, e, f + g);
  }

  lemma Concat7<T>(a: seq<T>, b: seq<T>, c: seq<T>, d: seq<T>, e: seq<T>, f: seq<T>, g: seq<T>)
    ensures
      var u := a + b + c + d + e + f + g;
      var ab, abc, abcd := |a| + |b|, |a| + |b| + |c|, |a| + |b| + |c| + |d|;
      && |u| == abcd + |e| + |f| + |g|
      && u[..|a|] == a && u[ab..abc] == c && u[abc..abcd] == d && u[abcd..abcd + |e|] == e
      && u[abcd + |e| + |f|..] == g
  {
    var u := a + b + c + d + e + f + g;
    assert u == a + (b + c + d + e + f + g);
    assert u == (a + b) + c + (d + e + f + g);
    PartSlice(a + b, c, d + e + f + g);
    assert u == (a + b + c) + d + (e + f + g);
    PartSlice(a + b + c, d, e + f + g);
    Concat7Fifth(a + b + c + d, e, f, g);
  }

  ghost predicate PartsInPlace(u: seq<byte>, o: Output, names: seq<Name>)
    requires FitsFile(o) && AllIn(names, o.globals)
  {
    var at := OffsetsIn(o, names);
    && |Body(o)| <= at.symtab <= at.strtab <= at.names <= at.names + 52 <= at.headers <= |u|
    && u[..|Body(o)|] == Body(o)
    && u[at.symtab..at.strtab] == SymTab(names, o.globals)
    && u[at.strtab..at.names] == StrTab(names)
    && u[at.names..at.names + 52] == SectionNames()
    && u[at.headers..] == Rows(SHDR, ShdrRows(o, at))
  }

  lemma UnheadedSlices(o: Output, names: seq<Name>)
    requires FitsFile(o) && AllIn(names, o.globals)
    ensures PartsInPlace(Unheaded(o, names), o, names)
  {
    hide Body, SymTab, StrTab, Rows, AlignUp, ShdrRows, SectionNames;
    UnheadedLength(o, names);
    var at := OffsetsIn(o, names);
    var body := Body(o);
    Concat7(body, Zeros(at.symtab - |body|), SymTab(names, o.globals), StrTab(names), SectionNames(),
            Zeros(at.headers - (at.names + 52)), Rows(SHDR, ShdrRows(o, at)));
  }

  // ----- numbers that fit their fields ----------------------------------------------------------

  /** Every number written into the file fits its field. */
  ghost predicate MachineSized(o: Output)
  {
    var names := NamesOf(o);
    && |StrTab(names)| < 0x1_0000_0000
    && (forall n | n in o.globals :: o.globals[n] < 0x1_0000_0000_0000_0000 && 0 !in n)
    && o.entry < 0x1_0000_0000_0000_0000
    && |o.text| < 0x1_0000_0000_0000_0000 && |o.rodata| < 0x1_0000_0000_0000_0000
    && o.bssBase + o.bssSize < 0x1_0000_0000_0000_0000
    && DATA_ADDR + |o.data| <= o.bssBase
    && OffsetsIn(o, names).headers < 0x1_0000_0000_0000_0000
  }

  lemma RecordReadBack(file: seq<byte>, widths: seq<nat>, at: nat, row: seq<int>)
    requires |row| == |widths| && Fit(widths, row)
    requires at + Sum(widths) <= |file| && file[at..at + Sum(widths)] == Encode(widths, row)
    ensures RecordAt(file, widths, at) == Some(row)
  {
    DecodeOfEncode(widths, row);
  }

  lemma HeaderReadBack(file: seq<byte>, entry: nat, shoff: nat, phnum: nat)
    requires |file| >= EHDR_SIZE && file[16..64] == Encode(EHDR, HeaderRow(entry, shoff, phnum))
    requires entry < 0x1_0000_0000_0000_0000 && shoff < 0x1_0000_0000_0000_0000 && phnum <= 3
    ensures ReadHeader(file)
         == Some(Header(ET_EXEC, EM_X86_64, entry, EHDR_SIZE, shoff, PHDR_SIZE, phnum, SHDR_SIZE, 8))
  {
    hide Encode, Decode, Sum, Pow256;
    EhdrSize();
    Pow256Values();
    RecordReadBack(file, EHDR, 16, HeaderRow(entry, shoff, phnum));
  }

  ghost predicate SegmentSized(s: Segment)
  {
    && s.ptype < 0x1_0000_0000 && s.flags < 0x1_0000_0000
    && s.offset < 0x1_0000_0000_0000_0000 && s.vaddr < 0x1_0000_0000_0000_0000
    && s.paddr < 0x1_0000_0000_0000_0000 && s.filesz < 0x1_0000_0000_0000_0000
    && s.memsz < 0x1_0000_0000_0000_0000 && s.align < 0x1_0000_0000_0000_0000
  }

  lemma SegmentReadBack(file: seq<byte>, at: nat, s: Segment)
    requires SegmentSized(s)
    requires at + PHDR_SIZE <= |file| && file[at..at + PHDR_SIZE] == PhdrBytes(s)
    ensures ReadSegment(file, at) == Some(s)
  {
    hide Encode, Decode, Sum, Pow256;
    PhdrSize();
    Pow256Values();
    RecordReadBack(file, PHDR, at, PhdrRow(s));
  }

  lemma {:induction false} SegmentsReadBack(file: seq<byte>, segs: seq<Segment>, n: nat)
    requires n <= |segs| && EHDR_SIZE + PHDR_SIZE * n <= |file|
    requires forall i | 0 <= i < n :: SegmentSized(segs[i])
    requires forall i | 0 <= i < n ::
      file[EHDR_SIZE + PHDR_SIZE * i..EHDR_SIZE + PHDR_SIZE * (i + 1)] == PhdrBytes(segs[i])
    ensures ReadSegments(file, EHDR_SIZE, PHDR_SIZE, n) == Some(segs[..n])
  {
    hide ReadSegment, PhdrBytes;
    if n > 0 {
      SegmentsReadBack(file, segs, n - 1);
      var at := EHDR_SIZE + PHDR_SIZE * (n - 1);
      assert file[at..at + PHDR_SIZE] == PhdrBytes(segs[n - 1]);
      SegmentReadBack(file, at, segs[n - 1]);
      assert segs[..n] == segs[..n - 1] + [segs[n - 1]];
    }
  }

  // ----- section headers ------------------------------------------------------------------------

  function HeaderOf(row: seq<int>): SectionHeader
    requires |row| == 10 && forall i | 0 <= i < 10 :: row[i] >= 0
  {
    SectionHeader(row[1], row[3], row[4], row[5], row[6], row[9])
  }

  ghost predicate AllFit(widths: seq<nat>, rows: seq<seq<int>>)
  {
    forall i | 0 <= i < |rows| :: |rows[i]| == |widths| && Fit(widths, rows[i])
  }

  lemma SectionHeaderReadBack(file: seq<byte>, at: nat, row: seq<int>)
    requires |row| == |SHDR| && Fit(SHDR, row)
    requires at + SHDR_SIZE <= |file| && file[at..at + SHDR_SIZE] == Encode(SHDR, row)
    ensures |row| == 10 && (forall i | 0 <= i < 10 :: row[i] >= 0)
    ensures ReadSectionHeader(file, at) == Some(HeaderOf(row))
  {
    hide Encode, Decode, Sum, Pow256;
    ShdrSize();
    RecordReadBack(file, SHDR, at, row);
  }

  lemma {:induction false} SectionHeadersReadBack(file: seq<byte>, shoff: nat, rows: seq<seq<int>>, n: nat)
    requires AllFit(SHDR, rows) && n <= |rows|
    requires shoff <= |file| && file[shoff..] == Rows(SHDR, rows)
    ensures ReadSectionHeaders(file, shoff, SHDR_SIZE, n).Some?
    ensures |ReadSectionHeaders(file, shoff, SHDR_SIZE, n).value| == n
    ensures forall i | 0 <= i < n ::
      && |rows[i]| == 10 && (forall j | 0 <= j < 10 :: rows[i][j] >= 0)
      && ReadSectionHeaders(file, shoff, SHDR_SIZE, n).value[i] == HeaderOf(rows[i])
  {
    hide Encode, Decode, Sum, Pow256, ReadSectionHeader, Rows, Fit;
    if n > 0 {
      SectionHeadersReadBack(file, shoff, rows, n - 1);
      ShdrSize();
      RowAt(SHDR, rows, n - 1);
      var at := shoff + SHDR_SIZE * (n - 1);
      assert file[at..at + SHDR_SIZE] == file[shoff..][SHDR_SIZE * (n - 1)..SHDR_SIZE * n];
      SectionHeaderReadBack(file, at, rows[n - 1]);
    }
  }

  lemma ShdrFits(name: nat, shType: nat, flags: nat, addr: nat, offset: nat, size: nat,
                 link: nat, info: nat, align: nat, entsize: nat)
    requires name < 0x1_0000_0000 && shType < 0x1_0000_0000 && link < 0x1_0000_0000 && info < 0x1_0000_0000
    requires flags < 0x1_0000_0000_0000_0000 && addr < 0x1_0000_0000_0000_0000
    requires offset < 0x1_0000_0000_0000_0000 && size < 0x1_0000_0000_0000_0000
    requires align < 0x1_0000_0000_0000_0000 && entsize < 0x1_0000_0000_0000_0000
    ensures |SHDR| == 10 && |Shdr(name, shType, flags, addr, offset, size, link, info, align, entsize)| == 10
    ensures Fit(SHDR, Shdr(name, shType, flags, addr, offset, size, link, info, align, entsize))
  {
    hide Pow256;
    ShdrSize();
    Pow256Values();
  }

  lemma ShdrRowsFit(o: Output, at: Offsets)
    requires at.symtab <= at.strtab <= at.names < 0x1_0000_0000_0000_0000
    requires |o.text| < 0x1_0000_0000_0000_0000 && |o.rodata| < 0x1_0000_0000_0000_0000
    requires o.bssBase + o.bssSize < 0x1_0000_0000_0000_0000 && DATA_ADDR + |o.data| <= o.bssBase
    ensures AllFit(SHDR, ShdrRows(o, at))
  {
    hide Fit, Shdr;
    ShdrFits(0, 0, 0, 0, 0, 0, 0, 0, 0, 0);
    ShdrFits(1, SHT_PROGBITS, 6, TEXT_ADDR, TEXT_OFF, |o.text|, 0, 0, 16, 0);
    ShdrFits(7, SHT_PROGBITS, 2, RODATA_ADDR, RODATA_OFF, |o.rodata|, 0, 0, 1, 0);
    ShdrFits(15, SHT_PROGBITS, 3, DATA_ADDR, DATA_OFF, |o.data|, 0, 0, 1, 0);
    ShdrFits(21, SHT_NOBITS, 3, o.bssBase, DATA_OFF + |o.data|, o.bssSize, 0, 0, 16, 0);
    ShdrFits(26, SHT_SYMTAB, 0, 0, at.symtab, at.strtab - at.symtab, 6, 1, 8, SYM_SIZE);
    ShdrFits(34, SHT_STRTAB, 0, 0, at.strtab, at.names - at.strtab, 0, 0, 1, 0);
    ShdrFits(42, SHT_STRTAB, 0, 0, at.names, 52, 0, 0, 1, 0);
  }

  lemma {:induction false} FirstOfTypeAt(hs: seq<SectionHeader>, t: nat, i: nat)
    requires i < |hs| && hs[i].shType == t
    requires forall j | 0 <= j < i :: hs[j].shType != t
    ensures FirstOfType(hs, t) == Some(hs[i])
  {
    if i > 0 {
      FirstOfTypeAt(hs[1..], t, i - 1);
    }
  }

  // ----- symbols ----------------------------------------------------------------------------------

  lemma {:induction false} UpToNulOf(name: seq<byte>, rest: seq<byte>)
    requires 0 !in name
    ensures UpToNul(name + [0] + rest) == name
  {
    var s := name + [0] + rest;
    if |name| > 0 {
      assert s[1..] == name[1..] + [0] + rest;
      UpToNulOf(name[1..], rest);
    }
  }

  /** The string table grows at its end only. */
  lemma {:induction false} StrTabPrefix(names: seq<Name>, i: nat)
    requires i < |names|
    ensures |StrTab(names[..i])| < |StrTab(names)|
    ensures StrTab(names[..i]) + names[i] + [0] <= StrTab(names)
  {
    if i < |names| - 1 {
      var init := names[..|names| - 1];
      StrTabPrefix(init, i);
      assert init[..i] == names[..i];
    }
  }

  lemma NameReadBack(names: seq<Name>, i: nat)
    requires i < |names| && 0 !in names[i]
    ensures CString(StrTab(names), |StrTab(names[..i])|) == names[i]
  {
    hide StrTab;
    StrTabPrefix(names, i);
    var tab, at := StrTab(names), |StrTab(names[..i])|;
    var head := StrTab(names[..i]) + names[i] + [0];
    var rest := tab[|head|..];
    assert tab == head + rest;
    assert tab[at..] == names[i] + [0] + rest;
    UpToNulOf(names[i], rest);
  }

  lemma {:induction false} StrTabStartsWithNul(names: seq<Name>)
    ensures StrTab(names)[0] == 0
  {
    if |names| > 0 {
      StrTabStartsWithNul(names[..|names| - 1]);
    }
  }

  lemma {:induction false} SymRowsAt(names: seq<Name>, globals: Table, i: nat)
    requires AllIn(names, globals)
    requires i < |names|
    ensures SymRows(names, globals)[i + 1] == SymRow(|StrTab(names[..i])|, globals[names[i]])
    ensures SymRows(names, globals)[0] == [0, 0, 0, 0, 0, 0]
  {
    var init := names[..|names| - 1];
    if i < |names| - 1 {
      SymRowsAt(init, globals, i);
      assert init[..i] == names[..i];
    } else if |names| > 1 {
      SymRowsAt(init, globals, 0);
    }
  }

  function SymbolOf(row: seq<int>, strings: seq<byte>): ReadSymbol
    requires |row| == 6 && forall i | 0 <= i < 6 :: row[i] >= 0
  {
    ReadSymbol(CString(strings, row[0]), row[1], row[3], row[4], row[5])
  }

  lemma SymbolReadBack(chunk: seq<byte>, row: seq<int>, strings: seq<byte>)
    requires |row| == |SYM| && Fit(SYM, row) && chunk == Encode(SYM, row)
    ensures |chunk| == SYM_SIZE
    ensures |row| == 6 && (forall i | 0 <= i < 6 :: row[i] >= 0)
    ensures SymbolIn(chunk, strings) == SymbolOf(row, strings)
  {
    hide Encode, Decode, Sum, Pow256;
    SymSize();
    DecodeOfEncode(SYM, row);
  }

  lemma {:induction false} SymbolsReadBack(rows: seq<seq<int>>, strings: seq<byte>)
    requires AllFit(SYM, rows)
    ensures |ReadSymbols(Rows(SYM, rows), strings, SYM_SIZE)| == |rows|
    ensures forall i | 0 <= i < |rows| ::
      && |rows[i]| == 6 && (forall j | 0 <= j < 6 :: rows[i][j] >= 0)
      && ReadSymbols(Rows(SYM, rows), strings, SYM_SIZE)[i] == SymbolOf(rows[i], strings)
  {
    hide SymbolIn, Fit, Encode, Sum, SymbolOf;
    SymSize();
    if |rows| > 0 {
      var row, rest := Encode(SYM, rows[0]), Rows(SYM, rows[1..]);
      var data := Rows(SYM, rows);
      SymbolReadBack(row, rows[0], strings);
      assert data == row + rest;
      assert data[..SYM_SIZE] == row && data[SYM_SIZE..] == rest;
      SymbolsReadBack(rows[1..], strings);
      var tail := ReadSymbols(rest, strings, SYM_SIZE);
      assert ReadSymbols(data, strings, SYM_SIZE) == [SymbolIn(row, strings)] + tail;
      forall i | 0 <= i < |rows|
        ensures |rows[i]| == 6 && (forall j | 0 <= j < 6 :: rows[i][j] >= 0)
          && ReadSymbols(data, strings, SYM_SIZE)[i] == SymbolOf(rows[i], strings)
      {
        if i > 0 {
          assert rows[1..][i - 1] == rows[i];
        }
      }
    }
  }

  lemma SymRowFits(nameOff: nat, addr: nat)
    requires nameOff < 0x1_0000_0000 && addr < 0x1_0000_0000_0000_0000
    ensures |SYM| == 6 && Fit(SYM, SymRow(nameOff, addr)) && Fit(SYM, [0, 0, 0, 0, 0, 0])
  {
    hide Pow256;
    SymSize();
    Pow256Values();
  }

  /** The symbols a reader must find: the reserved first entry, then every global in name order. */
  function ExpectedSymbols(names: seq<Name>, globals: Table): seq<ReadSymbol>
    requires AllIn(names, globals)
  {
    [ReadSymbol([], 0, 0, 0, 0)]
    + seq(|names|, i requires 0 <= i < |names| => ReadSymbol(names[i], GLOBAL_NOTYPE, 1, globals[names[i]], 0))
  }

  lemma {:induction false} SymRowsFit(names: seq<Name>, globals: Table)
    requires AllIn(names, globals)
    requires forall j | 0 <= j < |names| :: globals[names[j]] < 0x1_0000_0000_0000_0000
    requires |StrTab(names)| < 0x1_0000_0000
    ensures AllFit(SYM, SymRows(names, globals))
  {
    hide Fit;
    SymRowFits(0, 0);
    if |names| > 0 {
      var init := names[..|names| - 1];
      SymRowsFit(init, globals);
      SymRowFits(|StrTab(init)|, globals[names[|names| - 1]]);
    }
  }

  lemma NulFirst(table: seq<byte>)
    requires |table| > 0 && table[0] == 0
    ensures CString(table, 0) == []
  {
  }

  lemma SymTabReadBack(names: seq<Name>, globals: Table)
    requires AllIn(names, globals)
    requires forall j | 0 <= j < |names| :: globals[names[j]] < 0x1_0000_0000_0000_0000 && 0 !in names[j]
    requires |StrTab(names)| < 0x1_0000_0000
    ensures ReadSymbols(SymTab(names, globals), StrTab(names), SYM_SIZE) == ExpectedSymbols(names, globals)
  {
    hide StrTab, Rows, ReadSymbols, CString, Fit;
    SymRowsFit(names, globals);
    var rows, tab := SymRows(names, globals), StrTab(names);
    SymbolsReadBack(rows, tab);
    var got, want := ReadSymbols(SymTab(names, globals), tab, SYM_SIZE), ExpectedSymbols(names, globals);
    StrTabStartsWithNul(names);
    NulFirst(tab);
    forall i | 0 <= i < |rows|
      ensures got[i] == want[i]
    {
      if i > 0 {
        SymRowsAt(names, globals, i - 1);
        NameReadBack(names, i - 1);
      } else if |names| > 0 {
        SymRowsAt(names, globals, 0);
      }
    }
  }
}
