/** The emitted file at the offsets of the ELF64 format: its headers, field by field, and its sections by name. */
module LinkerElf {
  import opened Wrappers
  import opened Bytes
  import opened ElfObject
  import opened ElfFile
  import opened LinkerLayout
  import opened LinkerSymbols
  import opened LinkerFile
  import opened LinkerReadBack
  import opened LinkerLoad

  /** The `width` bytes at `at` are the number `v`. */
  ghost predicate FieldAt(file: seq<byte>, at: nat, width: nat, v: int)
  {
    at + width <= |file| && file[at..at + width] == LittleEndian(v, width)
  }

  lemma SliceInSlice(file: seq<byte>, at: nat, n: nat, i: nat, j: nat)
    requires at + n <= |file| && i <= j <= n
    ensures file[at..at + n][i..j] == file[at + i..at + j]
  {
    var s := file[at..at + n];
    assert forall k | 0 <= k < j - i :: s[i..j][k] == file[at + i..at + j][k];
  }

  lemma FieldFromRow(file: seq<byte>, at: nat, row: seq<byte>, off: nat, width: nat, v: int)
    requires at + |row| <= |file| && file[at..at + |row|] == row && off + width <= |row|
    requires row[off..off + width] == LittleEndian(v, width)
    ensures FieldAt(file, at + off, width, v)
  {
    hide LittleEndian;
    SliceInSlice(file, at, |row|, off, off + width);
  }

  /** A field of a record in a file. */
  lemma RecordField(file: seq<byte>, at: nat, widths: seq<nat>, values: seq<int>, i: nat)
    requires i < |widths| == |values|
    requires at + Sum(widths) <= |file| && file[at..at + Sum(widths)] == Encode(widths, values)
    ensures FieldAt(file, at + Sum(widths[..i]), widths[i], values[i])
  {
    hide LittleEndian, Encode, Sum;
    EncodeField(widths, values, i);
    FieldFromRow(file, at, Encode(widths, values), Sum(widths[..i]), widths[i], values[i]);
  }

  lemma SumNone(widths: seq<nat>)
    ensures Sum(widths[..0]) == 0
  {
  }

  lemma EhdrOffsets()
    ensures |EHDR| == 13
    ensures forall i | 0 <= i < 13 :: Sum(EHDR[..i]) == [0, 2, 4, 8, 16, 24, 32, 36, 38, 40, 42, 44, 46][i]
  {
    hide Sum;
    assert Sum(EHDR[..0]) == 0 by { SumNone(EHDR); }
    SumNext(EHDR, 0);
    SumNext(EHDR, 1);
    SumNext(EHDR, 2);
    SumNext(EHDR, 3);
    SumNext(EHDR, 4);
    SumNext(EHDR, 5);
    SumNext(EHDR, 6);
    SumNext(EHDR, 7);
    SumNext(EHDR, 8);
    SumNext(EHDR, 9);
    SumNext(EHDR, 10);
    SumNext(EHDR, 11);
  }

  lemma PhdrOffsets()
    ensures |PHDR| == 8 && PHDR == [4, 4, 8, 8, 8, 8, 8, 8]
    ensures forall i | 0 <= i < 8 :: Sum(PHDR[..i]) == [0, 4, 8, 16, 24, 32, 40, 48][i]
  {
    hide Sum;
    SumNone(PHDR);
    SumNext(PHDR, 0);
    SumNext(PHDR, 1);
    SumNext(PHDR, 2);
    SumNext(PHDR, 3);
    SumNext(PHDR, 4);
    SumNext(PHDR, 5);
    SumNext(PHDR, 6);
  }

  // ----- the file header --------------------------------------------------------------------------

  lemma HeaderWords(file: seq<byte>, values: seq<int>)
    requires |file| >= 64 && |values| == 13 && |EHDR| == 13 && file[16..64] == Encode(EHDR, values)
    ensures FieldAt(file, 16, 2, values[0]) && FieldAt(file, 18, 2, values[1]) && FieldAt(file, 20, 4, values[2])
    ensures FieldAt(file, 24, 8, values[3]) && FieldAt(file, 32, 8, values[4]) && FieldAt(file, 40, 8, values[5])
    ensures FieldAt(file, 48, 4, values[6]) && FieldAt(file, 52, 2, values[7]) && FieldAt(file, 54, 2, values[8])
    ensures FieldAt(file, 56, 2, values[9]) && FieldAt(file, 58, 2, values[10]) && FieldAt(file, 60, 2, values[11])
    ensures FieldAt(file, 62, 2, values[12])
  {
    hide Sum, Encode, FieldAt;
    EhdrSize();
    EhdrOffsets();
    forall i: nat | i < 13
      ensures FieldAt(file, 16 + [0, 2, 4, 8, 16, 24, 32, 36, 38, 40, 42, 44, 46][i], EHDR[i], values[i])
    {
      RecordField(file, 16, EHDR, values, i);
    }
  }

  lemma IdentSlice(u: seq<byte>, entry: nat, shoff: nat, segs: seq<Segment>)
    requires |u| >= TEXT_OFF && |segs| <= 3
    ensures Headed(u, entry, shoff, segs)[..16] == IDENT
  {
    hide PhdrTable, Encode, Splice, Sum;
    EhdrSize();
    PhdrTableLength(segs);
    var hdr := HeaderBytes(entry, shoff, |segs|);
    SpliceOutside(Splice(u, 0, hdr), EHDR_SIZE, PhdrTable(segs), 0, 16);
    SpliceSlice(u, 0, hdr, 0, 16);
  }

  /** The file header, byte by byte as the format wants it: a 64-bit little-endian executable for x86-64 with this entry
      point, the program headers right after it, and eight section headers at `shoff`, the last naming them. */
  lemma HeaderFields(o: Output, file: seq<byte>)
    requires o.bssBase >= DATA_ADDR && Assembled(o) == Some(file)
    ensures
      var shoff := OffsetsIn(o, NamesOf(o)).headers;
      && |file| >= 64 && file[..16] == [0x7f, 0x45, 0x4c, 0x46, 2, 1, 1, 0, 0, 0, 0, 0, 0, 0, 0, 0]
      && FieldAt(file, 16, 2, 2) && FieldAt(file, 18, 2, 62) && FieldAt(file, 20, 4, 1)
      && FieldAt(file, 24, 8, o.entry) && FieldAt(file, 32, 8, 64) && FieldAt(file, 40, 8, shoff)
      && FieldAt(file, 48, 4, 0) && FieldAt(file, 52, 2, 64) && FieldAt(file, 54, 2, 56)
      && FieldAt(file, 56, 2, |LoadSegments(o)|) && FieldAt(file, 58, 2, 64) && FieldAt(file, 60, 2, 8)
      && FieldAt(file, 62, 2, 7)
  {
    hide Unheaded, Headed, LoadSegments, OffsetsIn, FieldAt, NamesOf, FitsFile, Body, Encode, Sum;
    AssembledIs(o, NamesOf(o));
    var u, shoff, segs := Unheaded(o, NamesOf(o)), OffsetsIn(o, NamesOf(o)).headers, LoadSegments(o);
    HeaderSlice(u, o.entry, shoff, segs);
    EhdrSize();
    HeaderWords(file, HeaderRow(o.entry, shoff, |segs|));
    IdentSlice(u, o.entry, shoff, segs);
  }

  // ----- the program headers ----------------------------------------------------------------------

  lemma PhdrWords(file: seq<byte>, at: nat, values: seq<int>)
    requires |file| >= at + 56 && |values| == 8 == |PHDR| && file[at..at + 56] == Encode(PHDR, values)
    ensures FieldAt(file, at, 4, values[0]) && FieldAt(file, at + 4, 4, values[1])
    ensures FieldAt(file, at + 8, 8, values[2]) && FieldAt(file, at + 16, 8, values[3])
    ensures FieldAt(file, at + 24, 8, values[4]) && FieldAt(file, at + 32, 8, values[5])
    ensures FieldAt(file, at + 40, 8, values[6]) && FieldAt(file, at + 48, 8, values[7])
  {
    hide Sum, Encode, FieldAt;
    PhdrSize();
    PhdrOffsets();
    forall i: nat | i < 8
      ensures FieldAt(file, at + [0, 4, 8, 16, 24, 32, 40, 48][i], PHDR[i], values[i])
    {
      RecordField(file, at, PHDR, values, i);
    }
  }

  /** Program header `i`, field by field: a loadable segment in pages of 0x1000 bytes. */
  lemma ProgramHeaderFields(o: Output, file: seq<byte>, i: nat)
    requires o.bssBase >= DATA_ADDR && Assembled(o) == Some(file) && i < |LoadSegments(o)|
    ensures
      var at, s := 64 + 56 * i, LoadSegments(o)[i];
      && FieldAt(file, at, 4, 1) && FieldAt(file, at + 4, 4, s.flags) && FieldAt(file, at + 8, 8, s.offset)
      && FieldAt(file, at + 16, 8, s.vaddr) && FieldAt(file, at + 24, 8, s.vaddr)
      && FieldAt(file, at + 32, 8, s.filesz) && FieldAt(file, at + 40, 8, s.memsz)
      && FieldAt(file, at + 48, 8, 0x1000)
  {
    hide Unheaded, Headed, OffsetsIn, FieldAt, NamesOf, FitsFile, Body, Encode, Sum;
    AssembledIs(o, NamesOf(o));
    var u, shoff, segs := Unheaded(o, NamesOf(o)), OffsetsIn(o, NamesOf(o)).headers, LoadSegments(o);
    var at, s := 64 + 56 * i, segs[i];
    assert s.ptype == 1 && s.paddr == s.vaddr && s.align == 0x1000;
    hide LoadSegments;
    PhdrSlice(u, o.entry, shoff, segs, i);
    PhdrSize();
    PhdrWords(file, at, PhdrRow(s));
  }

  /** What each segment is for: readable everywhere, text executable, data writable, and no segment without bytes in
      memory. */
  lemma SegmentsAre(o: Output, s: Segment)
    requires o.bssBase >= DATA_ADDR + |o.data| && s in LoadSegments(o)
    ensures s.memsz > 0 && s.vaddr in {TEXT_ADDR, RODATA_ADDR, DATA_ADDR}
    ensures s.vaddr == TEXT_ADDR ==> s.flags == 4 + 1 && s.filesz == s.memsz == |o.text|
    ensures s.vaddr == RODATA_ADDR ==> s.flags == 4 && s.filesz == s.memsz == |o.rodata|
    ensures s.vaddr == DATA_ADDR ==> s.flags == 4 + 2 && s.filesz == |o.data|
                                     && (if o.bssSize > 0 || o.bssBase > DATA_ADDR + |o.data|
                                         then DATA_ADDR + s.memsz == o.bssBase + o.bssSize else s.memsz == |o.data|)
  {
  }

  // ----- the sections -----------------------------------------------------------------------------

  /** The names that the section headers point to. */
  lemma SectionNamesAre(i: nat)
    requires i < 7
    ensures |SECTIONS| == 7 && CString(SectionNames(), [1, 7, 15, 21, 26, 34, 42][i]) == SECTIONS[i]
  {
    hide StrTab, CString;
    SectionNameOffsets();
    NameReadBack(SECTIONS, i);
  }

  /** Section header `i` of the emitted file. */
  function SectionRecord(o: Output, file: seq<byte>, i: nat): Option<seq<nat>>
  {
    RecordAt(file, SHDR, OffsetsIn(o, NamesOf(o)).headers + 64 * i)
  }

  lemma SliceInRest(file: seq<byte>, at: nat, i: nat, j: nat)
    requires at <= |file| && i <= j <= |file| - at
    ensures file[at..][i..j] == file[at + i..at + j]
  {
    var s := file[at..];
    assert forall k | 0 <= k < j - i :: s[i..j][k] == file[at + i..at + j][k];
  }

  lemma RecordInTail(file: seq<byte>, start: nat, rows: seq<seq<int>>, i: nat)
    requires AllFit(SHDR, rows) && RowsOf(SHDR, rows) && i < |rows| && Sum(SHDR) == 64
    requires start <= |file| && file[start..] == Rows(SHDR, rows)
    requires 64 * (i + 1) <= |Rows(SHDR, rows)| && Rows(SHDR, rows)[64 * i..64 * (i + 1)] == Encode(SHDR, rows[i])
    ensures RecordAt(file, SHDR, start + 64 * i) == Some(rows[i])
  {
    hide Rows, Encode, Decode, Sum, Fit;
    var at := start + 64 * i;
    SliceInRest(file, start, 64 * i, 64 * (i + 1));
    RecordReadBack(file, SHDR, at, rows[i]);
  }

  lemma SectionRecordIs(o: Output, file: seq<byte>, i: nat)
    requires o.bssBase >= DATA_ADDR && Assembled(o) == Some(file) && MachineSized(o) && i < 8
    ensures TailInPlace(file, o, NamesOf(o))
    ensures SectionRecord(o, file, i) == Some(ShdrRows(o, OffsetsIn(o, NamesOf(o)))[i])
  {
    hide Unheaded, Headed, OffsetsIn, NamesOf, FitsFile, Body, Encode, Decode, Sum, ShdrRows, StrTab, SymTab, Rows,
         LoadSegments, SectionNames, Fit, MachineSized;
    var names := NamesOf(o);
    AssembledIs(o, names);
    UnheadedSlices(o, names);
    var u, at, segs := Unheaded(o, names), OffsetsIn(o, names), LoadSegments(o);
    HeadedTail(u, o, names, at.headers, segs);
    Sizes(o);
    var rows := ShdrRows(o, at);
    ShdrRowsFit(o, at);
    ShdrSize();
    RowAt(SHDR, rows, i);
    RecordInTail(file, at.headers, rows, i);
  }

  /** The name at an offset of the table that the last section holds. */
  ghost function SectionName(o: Output, file: seq<byte>, at: nat): Name
  {
    match SectionRecord(o, file, 7)
    case None => []
    case Some(f) => if |f| == 10 && f[4] + f[5] <= |file| then CString(file[f[4]..f[4] + f[5]], at) else []
  }

  /** Section `i` has this name, type and place in memory, and these bytes in the file. */
  ghost predicate SectionIs(o: Output, file: seq<byte>, i: nat, name: Name, shType: nat, flags: nat, addr: nat,
                            bytes: seq<byte>)
  {
    exists f | SectionRecord(o, file, i) == Some(f) && |f| == 10 ::
      && SectionName(o, file, f[0]) == name && f[1] == shType && f[2] == flags && f[3] == addr
      && f[4] + f[5] <= |file| && file[f[4]..f[4] + f[5]] == bytes
  }

  lemma SectionFromRow(o: Output, file: seq<byte>, i: nat, k: nat)
    requires o.bssBase >= DATA_ADDR && Assembled(o) == Some(file) && MachineSized(o) && 0 < i < 8 && k == i - 1
    ensures
      var row := ShdrRows(o, OffsetsIn(o, NamesOf(o)))[i];
      && SectionRecord(o, file, i) == Some(row) && |SECTIONS| == 7
      && row[0] == [1, 7, 15, 21, 26, 34, 42][k] && SectionName(o, file, row[0]) == SECTIONS[k]
  {
    hide OffsetsIn, NamesOf, FitsFile, StrTab, SymTab, Rows, Assembled, CString, SectionNames, MachineSized,
         SectionRecord;
    SectionRecordIs(o, file, i);
    SectionRecordIs(o, file, 7);
    SectionNamesAre(k);
  }

  /** Section `i` read off its row. */
  lemma SectionFrom(o: Output, file: seq<byte>, i: nat, shType: nat, flags: nat, addr: nat, offset: nat, size: nat)
    requires o.bssBase >= DATA_ADDR && Assembled(o) == Some(file) && MachineSized(o) && 0 < i < 8
    requires
      var row := ShdrRows(o, OffsetsIn(o, NamesOf(o)))[i];
      row[0] == [1, 7, 15, 21, 26, 34, 42][i - 1] && row[1..6] == [shType, flags, addr, offset, size]
    requires offset + size <= |file|
    ensures |SECTIONS| == 7 && SectionIs(o, file, i, SECTIONS[i - 1], shType, flags, addr, file[offset..offset + size])
  {
    hide NamesOf, Assembled, SectionName, MachineSized, SectionRecord, ShdrRows, SymTab, StrTab, AlignUp;
    SectionFromRow(o, file, i, i - 1);
    var row := ShdrRows(o, OffsetsIn(o, NamesOf(o)))[i];
    assert row[1] == row[1..6][0] && row[2] == row[1..6][1] && row[3] == row[1..6][2];
    assert row[4] == row[1..6][3] && row[5] == row[1..6][4];
  }

  lemma RowIs(name: nat, shType: nat, flags: nat, addr: nat, offset: nat, size: nat, link: nat, info: nat, align: nat,
              entsize: nat)
    ensures
      var row := Shdr(name, shType, flags, addr, offset, size, link, info, align, entsize);
      row[0] == name && row[1..6] == [shType, flags, addr, offset, size]
  {
  }

  /** The sections that take in the input: code is allocated and executable, data and `.bss` are allocated and writable,
      and each that is in the file holds what it should. */
  lemma ContentSections(o: Output, file: seq<byte>)
    requires o.bssBase >= DATA_ADDR && Assembled(o) == Some(file) && MachineSized(o) && OutputFits(o)
    ensures SectionIs(o, file, 1, TEXT_NAME, 1, 2 + 4, TEXT_ADDR, o.text)
    ensures SectionIs(o, file, 2, RODATA_NAME, 1, 2, RODATA_ADDR, o.rodata)
    ensures SectionIs(o, file, 3, DATA_NAME, 1, 2 + 1, DATA_ADDR, o.data)
    ensures SectionRecord(o, file, 4).Some? && |SectionRecord(o, file, 4).value| == 10
    ensures var f := SectionRecord(o, file, 4).value;
            && SectionName(o, file, f[0]) == BSS_NAME && f[1] == 8 && f[2] == 2 + 1 && f[3] == o.bssBase
            && f[5] == o.bssSize
  {
    hide OffsetsIn, NamesOf, Assembled, SectionName, MachineSized, SectionRecord, OutputFits, LoadSegments, Segments,
         SymbolTable, ReadHeader, ExpectedSymbols, SectionIs;
    RowIs(1, 1, 6, TEXT_ADDR, TEXT_OFF, |o.text|, 0, 0, 16, 0);
    RowIs(7, 1, 2, RODATA_ADDR, RODATA_OFF, |o.rodata|, 0, 0, 1, 0);
    RowIs(15, 1, 3, DATA_ADDR, DATA_OFF, |o.data|, 0, 0, 1, 0);
    AssembledReadsBack(o);
    SectionFromRow(o, file, 4, 3);
    hide Shdr;
    SectionFrom(o, file, 1, 1, 6, TEXT_ADDR, TEXT_OFF, |o.text|);
    SectionFrom(o, file, 2, 1, 2, RODATA_ADDR, RODATA_OFF, |o.rodata|);
    SectionFrom(o, file, 3, 1, 3, DATA_ADDR, DATA_OFF, |o.data|);
  }

  /** The symbol table, its names, and the names of the sections. */
  lemma TableSections(o: Output, file: seq<byte>)
    requires o.bssBase >= DATA_ADDR && Assembled(o) == Some(file) && MachineSized(o)
    ensures SectionIs(o, file, 5, SYMTAB_NAME, 2, 0, 0, SymTab(NamesOf(o), o.globals))
    ensures SectionIs(o, file, 6, STRTAB_NAME, 3, 0, 0, StrTab(NamesOf(o)))
    ensures SectionIs(o, file, 7, SHSTRTAB_NAME, 3, 0, 0, SectionNames())
  {
    hide OffsetsIn, NamesOf, Assembled, SectionName, MachineSized, SectionRecord, SectionIs, SymTab, StrTab, Rows,
         SectionNames;
    SectionRecordIs(o, file, 7);
    var at := OffsetsIn(o, NamesOf(o));
    RowIs(26, 2, 0, 0, at.symtab, at.strtab - at.symtab, 6, 1, 8, SYM_SIZE);
    RowIs(34, 3, 0, 0, at.strtab, at.names - at.strtab, 0, 0, 1, 0);
    RowIs(42, 3, 0, 0, at.names, 52, 0, 0, 1, 0);
    hide Shdr;
    SectionFrom(o, file, 5, 2, 0, 0, at.symtab, at.strtab - at.symtab);
    SectionFrom(o, file, 6, 3, 0, 0, at.strtab, at.names - at.strtab);
    SectionFrom(o, file, 7, 3, 0, 0, at.names, 52);
  }

  lemma SymOffsets()
    ensures |SYM| == 6 && SYM == [4, 1, 1, 2, 8, 8]
    ensures forall i | 0 <= i < 6 :: Sum(SYM[..i]) == [0, 4, 5, 6, 8, 16][i]
  {
    hide Sum;
    SumNone(SYM);
    SumNext(SYM, 0);
    SumNext(SYM, 1);
    SumNext(SYM, 2);
    SumNext(SYM, 3);
    SumNext(SYM, 4);
  }

  lemma SymWords(table: seq<byte>, at: nat, values: seq<int>)
    requires |table| >= at + 24 && |values| == 6 == |SYM| && table[at..at + 24] == Encode(SYM, values)
    ensures FieldAt(table, at, 4, values[0]) && FieldAt(table, at + 4, 1, values[1])
    ensures FieldAt(table, at + 5, 1, values[2]) && FieldAt(table, at + 6, 2, values[3])
    ensures FieldAt(table, at + 8, 8, values[4]) && FieldAt(table, at + 16, 8, values[5])
  {
    hide Sum, Encode, FieldAt;
    SymSize();
    SymOffsets();
    forall i: nat | i < 6
      ensures FieldAt(table, at + [0, 4, 5, 6, 8, 16][i], SYM[i], values[i])
    {
      RecordField(table, at, SYM, values, i);
    }
  }

  /** Symbol `i` of the table, field by field: global, without a type or a visibility of its own, in the first section,
      its name where the string table has it, its address as value, and no size. */
  lemma SymbolFields(names: seq<Name>, globals: Table, i: nat)
    requires AllIn(names, globals) && i < |names| && 0 !in names[i]
    ensures
      var table, at, nameAt := SymTab(names, globals), 24 * (i + 1), |StrTab(names[..i])|;
      && CString(StrTab(names), nameAt) == names[i]
      && FieldAt(table, at, 4, nameAt) && FieldAt(table, at + 4, 1, 0x10) && FieldAt(table, at + 5, 1, 0)
      && FieldAt(table, at + 6, 2, 1) && FieldAt(table, at + 8, 8, globals[names[i]])
      && FieldAt(table, at + 16, 8, 0)
  {
    hide Sum, Encode, FieldAt, StrTab, CString, SymRows, Rows;
    NameReadBack(names, i);
    SymRowsAt(names, globals, i);
    SymSize();
    RowAt(SYM, SymRows(names, globals), i + 1);
    SymWords(SymTab(names, globals), 24 * (i + 1), SymRow(|StrTab(names[..i])|, globals[names[i]]));
  }

  /** The symbol table starts at the next multiple of 8 after the contents, the section headers after the tables. */
  lemma TablesAligned(o: Output)
    ensures
      var names := NamesOf(o);
      var at := OffsetsIn(o, names);
      && at.symtab % 8 == 0 && DATA_OFF + Max(|o.data|, 1) <= at.symtab < DATA_OFF + Max(|o.data|, 1) + 8
      && at.strtab == at.symtab + |SymTab(names, o.globals)| && at.names == at.strtab + |StrTab(names)|
      && at.headers % 8 == 0 && at.names + 52 <= at.headers < at.names + 52 + 8
  {
    hide NamesOf, SymTab, StrTab, AlignUp;
    var names := NamesOf(o);
    var at := OffsetsIn(o, names);
    AlignUpMultiple(DATA_OFF + Max(|o.data|, 1), 8);
    AlignUpMultiple(at.names + 52, 8);
  }
}
