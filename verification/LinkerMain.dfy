/** The linker from its inputs to the bytes of the executable, and what the executable is. */
module LinkerMain {
  import opened Wrappers
  import opened Bytes
  import opened ByteOrder
  import opened ElfObject
  import opened ElfFile
  import opened LinkerLayout
  import opened LinkerSymbols
  import opened LinkerImage
  import opened LinkerRelocate
  import opened LinkerContents
  import opened LinkerFile
  import opened LinkerLoad

  // ----- assembling -------------------------------------------------------------------------

  lemma SymRowsNext(names: seq<Name>, i: nat, globals: Table)
    requires i < |names| && AllIn(names, globals)
    ensures StrTab(names[..i + 1]) == StrTab(names[..i]) + names[i] + [0]
    ensures SymTab(names[..i + 1], globals)
         == SymTab(names[..i], globals) + Encode(SYM, SymRow(|StrTab(names[..i])|, globals[names[i]]))
  {
    hide Encode, Sum, Rows;
    SymSize();
    assert names[..i + 1][..i] == names[..i];
    RowsAppend(SYM, SymRows(names[..i], globals), SymRow(|StrTab(names[..i])|, globals[names[i]]));
  }

  lemma NoSymbols(globals: Table)
    ensures StrTab([]) == [0] && SymTab([], globals) == Encode(SYM, [0, 0, 0, 0, 0, 0])
  {
    SymSize();
    var rows := SymRows([], globals);
    assert rows[1..] == [] && Rows(SYM, []) == [];
  }

  /** The loop that writes the symbol table and the string table. */
  method WriteSymbols(globals: Table) returns (names: seq<Name>, symtab: seq<byte>, strtab: seq<byte>)
    ensures names == SortedKeys(globals.Keys)
    ensures symtab == SymTab(names, globals) && strtab == StrTab(names)
  {
    hide SymTab, StrTab, SymRow, Encode;
    SymSize();
    NoSymbols(globals);
    names := SortedKeys(globals.Keys);
    strtab := [0];
    symtab := Encode(SYM, [0, 0, 0, 0, 0, 0]);
    for i := 0 to |names|
      invariant symtab == SymTab(names[..i], globals) && strtab == StrTab(names[..i])
    {
      SymRowsNext(names, i, globals);
      var nameOff := |strtab|;
      strtab := strtab + names[i] + [0];
      symtab := symtab + Encode(SYM, SymRow(nameOff, globals[names[i]]));
    }
    assert names[..|names|] == names;
  }

  lemma NoPhdrs(file: seq<byte>)
    requires |file| >= EHDR_SIZE
    ensures PhdrTable([]) == [] && Splice(file, EHDR_SIZE, PhdrTable([])) == file
  {
  }

  lemma PhdrNext(segs: seq<Segment>, i: nat)
    requires i < |segs|
    ensures PhdrTable(segs[..i + 1]) == PhdrTable(segs[..i]) + PhdrBytes(segs[i])
    ensures |PhdrTable(segs[..i + 1])| == PHDR_SIZE * (i + 1)
  {
    PhdrSize();
    assert segs[..i + 1][..i] == segs[..i];
    PhdrTableLength(segs[..i + 1]);
  }

  /** The loop that writes the program headers behind the file header. */
  method WriteHeaders(file: seq<byte>, entry: nat, shoff: nat, phdrs: seq<Segment>) returns (r: seq<byte>)
    requires |file| >= TEXT_OFF && |phdrs| <= 3
    ensures r == Headed(file, entry, shoff, phdrs)
  {
    hide PhdrTable, PhdrBytes, HeaderBytes, Splice, Sum, Encode;
    var hdr := HeaderBytes(entry, shoff, |phdrs|);
    r := Splice(file, 0, hdr);
    ghost var first := r;
    var at := EHDR_SIZE;
    NoPhdrs(first);
    for i := 0 to |phdrs|
      invariant at == EHDR_SIZE + PHDR_SIZE * i && |first| >= TEXT_OFF
      invariant |PhdrTable(phdrs[..i])| == PHDR_SIZE * i
      invariant r == Splice(first, EHDR_SIZE, PhdrTable(phdrs[..i]))
    {
      PhdrNext(phdrs, i);
      SpliceAdjacent(first, EHDR_SIZE, PhdrTable(phdrs[..i]), PhdrBytes(phdrs[i]));
      r := Splice(r, at, PhdrBytes(phdrs[i]));
      at := at + PHDR_SIZE;
    }
    assert phdrs[..|phdrs|] == phdrs;
  }

  lemma AssembledInParts(o: Output, names: seq<Name>)
    requires o.bssBase >= DATA_ADDR && FitsFile(o) && names == SortedKeys(o.globals.Keys)
    ensures Assembled(o).Some? && |LoadSegments(o)| <= 3
    ensures |Unheaded(o, names)| >= TEXT_OFF
    ensures Assembled(o).value == Headed(Unheaded(o, names), o.entry, OffsetsIn(o, names).headers, LoadSegments(o))
  {
    assert Assembled(o).Some?;
    AssembledIs(o, names);
  }

  method AssembleTail(o: Output, body: seq<byte>, phdrs: seq<Segment>) returns (r: Result<seq<byte>, LinkError>)
    requires o.bssBase >= DATA_ADDR && FitsFile(o) && body == Body(o) && phdrs == LoadSegments(o)
    ensures Assembled(o).Some? && r == Ok(Assembled(o).value)
  {
    hide SymTab, StrTab, Headed, Rows, AlignUp, SectionNames, Body, LoadSegments, ShdrRows;
    var file := body;
    var names, symtab, strtab := WriteSymbols(o.globals);
    AssembledInParts(o, names);
    var symtabOff := AlignUp(|file|, 8);
    file := file + Zeros(symtabOff - |file|);
    file := file + symtab;
    var strtabOff := |file|;
    file := file + strtab;
    var namesOff := |file|;
    file := file + SectionNames();
    var shoff := AlignUp(|file|, 8);
    file := file + Zeros(shoff - |file|);
    var table := Rows(SHDR, ShdrRows(o, Offsets(symtabOff, strtabOff, namesOff, shoff)));
    file := file + table;
    assert file == Unheaded(o, names);
    file := WriteHeaders(file, o.entry, shoff, phdrs);
    r := Ok(file);
  }

  method Assemble(text: seq<byte>, rodata: seq<byte>, data: seq<byte>,
                  bssSize: nat, bssBase: nat, entry: nat, globals: Table)
    returns (r: Result<seq<byte>, LinkError>)
    requires bssBase >= DATA_ADDR
    ensures
      var o := Output(text, rodata, data, bssSize, bssBase, entry, globals);
      r == if Assembled(o).Some? then Ok(Assembled(o).value) else Err(FileOutOfRange)
  {
    hide SymTab, StrTab, Splice, Headed, Rows, AlignUp, SectionNames;
    var o := Output(text, rodata, data, bssSize, bssBase, entry, globals);
    var phdrs: seq<Segment> := [];
    if text != [] {
      phdrs := phdrs + [Load(PF_R + PF_X, TEXT_OFF, TEXT_ADDR, |text|, |text|)];
    }
    if rodata != [] {
      phdrs := phdrs + [Load(PF_R, RODATA_OFF, RODATA_ADDR, |rodata|, |rodata|)];
    }
    if data != [] || bssSize > 0 {
      var memsz := bssBase - DATA_ADDR + bssSize;
      phdrs := phdrs + [Load(PF_R + PF_W, DATA_OFF, DATA_ADDR, |data|, Max(memsz, |data|))];
    }
    assert phdrs == LoadSegments(o);

    var file := Zeros(DATA_OFF + Max(|data|, 1));
    if TEXT_OFF + |text| > |file| {
      return Err(FileOutOfRange);
    }
    file := Splice(file, TEXT_OFF, text);
    if RODATA_OFF + |rodata| > |file| {
      return Err(FileOutOfRange);
    }
    file := Splice(file, RODATA_OFF, rodata);
    file := Splice(file, DATA_OFF, data);
    assert file == Body(o);
    r := AssembleTail(o, file, phdrs);
  }

  // ----- the whole link -----------------------------------------------------------------------

  /** The first input that is not an x86-64 relocatable object. */
  function BadInput(objs: seq<Object>, m: nat): Option<LinkError>
    requires m <= |objs|
  {
    if m == 0 then None
    else if BadInput(objs, m - 1).Some? then BadInput(objs, m - 1)
    else if objs[m - 1].eType != ET_REL then Some(NotRelocatable(m - 1))
    else if objs[m - 1].eMachine != EM_X86_64 then Some(WrongMachine(m - 1))
    else None
  }

  lemma {:induction false} BadInputSticks(objs: seq<Object>, m: nat, n: nat)
    requires m <= n <= |objs| && BadInput(objs, m).Some?
    ensures BadInput(objs, n) == BadInput(objs, m)
    decreases n
  {
    if m < n {
      BadInputSticks(objs, m, n - 1);
    }
  }

  function OutputOf(objs: seq<Object>, syms: Symbols, b: Buffers, entry: nat): Output
  {
    Output(b.text, b.rodata, b.data, SizeOf(objs, Bss), BssBase(objs), entry, syms.globals)
  }

  /** The result of the link as a function of its inputs: the file, or the first error. */
  ghost function Linked(objs: seq<Object>, entry: Name): Result<seq<byte>, LinkError>
    requires ValidObjects(objs)
  {
    if |objs| == 0 then Err(NoInput)
    else if BadInput(objs, |objs|).Some? then Err(BadInput(objs, |objs|).value)
    else
      LocalsPerObject(objs);
      match Resolved(objs)
      case Err(e) => Err(e)
      case Ok(syms) =>
        match Finished(objs, syms)
        case Err(e) => Err(e)
        case Ok(b) =>
          if entry !in syms.globals then Err(NoEntry(entry))
          else
            match Assembled(OutputOf(objs, syms, b, syms.globals[entry]))
            case None => Err(FileOutOfRange)
            case Some(file) => Ok(file)
  }

  lemma FreshBuffers(objs: seq<Object>, text: array<byte>, rodata: array<byte>, data: array<byte>)
    requires text.Length == SizeOf(objs, Text) && rodata.Length == SizeOf(objs, Rodata)
    requires data.Length == SizeOf(objs, Data)
    requires forall i | 0 <= i < text.Length :: text[i] == 0
    requires forall i | 0 <= i < rodata.Length :: rodata[i] == 0
    requires forall i | 0 <= i < data.Length :: data[i] == 0
    ensures View(text, rodata, data) == Blank(objs)
  {
    hide SizeOf;
    assert text[..] == Zeros(SizeOf(objs, Text));
    assert rodata[..] == Zeros(SizeOf(objs, Rodata));
    assert data[..] == Zeros(SizeOf(objs, Data));
  }

  /** Copies and relocates into three fresh buffers. */
  method Fill(objs: seq<Object>, syms: Symbols, pieces: seq<Piece>, cursor: map<Kind, nat>)
    returns (r: Result<Buffers, LinkError>)
    requires ValidObjects(objs) && pieces == Pieces(objs) && |syms.locals| == |objs|
    requires forall k :: SizeIn(cursor, k) == SizeOf(objs, k)
    ensures r == Finished(objs, syms)
  {
    hide Run, Copies, Patches, SizeOf, Pieces, SizeIn;
    PiecesAreSections(objs);
    var text := new byte[SizeIn(cursor, Text)](_ => 0);
    var rodata := new byte[SizeIn(cursor, Rodata)](_ => 0);
    var data := new byte[SizeIn(cursor, Data)](_ => 0);
    FreshBuffers(objs, text, rodata, data);
    var err := CopySections(objs, pieces, text, rodata, data);
    if err.Some? {
      return Err(err.value);
    }
    err := Relocate(objs, syms, pieces, text, rodata, data);
    if err.Some? {
      return Err(err.value);
    }
    r := Ok(View(text, rodata, data));
  }

  method CheckInputs(objs: seq<Object>) returns (err: Option<LinkError>)
    ensures err == BadInput(objs, |objs|)
  {
    for i := 0 to |objs|
      invariant BadInput(objs, i) == None
    {
      if objs[i].eType != ET_REL {
        BadInputSticks(objs, i + 1, |objs|);
        return Some(NotRelocatable(i));
      }
      if objs[i].eMachine != EM_X86_64 {
        BadInputSticks(objs, i + 1, |objs|);
        return Some(WrongMachine(i));
      }
    }
    err := None;
  }

  /** `.bss` starts where `.data` ends, rounded up to 16. */
  method BssBaseFrom(objs: seq<Object>, cursor: map<Kind, nat>) returns (base: nat)
    requires SizeIn(cursor, Data) == SizeOf(objs, Data)
    ensures base == BssBase(objs) && base >= DATA_ADDR
  {
    base := DATA_ADDR + AlignUp(SizeIn(cursor, Data), 16);
  }

  method Link(objs: seq<Object>, entry: Name) returns (r: Result<seq<byte>, LinkError>)
    requires ValidObjects(objs)
    ensures r == Linked(objs, entry)
  {
    hide BadInput, Resolved, Finished, Assembled, Pieces, SizeOf, BssBase, SizeIn;
    if |objs| == 0 {
      return Err(NoInput);
    }
    var bad := CheckInputs(objs);
    if bad.Some? {
      return Err(bad.value);
    }
    var pieces, cursor := LayOut(objs);
    var resolved := Resolve(objs, pieces);
    if resolved.Err? {
      return Err(resolved.error);
    }
    var syms := resolved.value;
    LocalsPerObject(objs);
    var filled := Fill(objs, syms, pieces, cursor);
    if filled.Err? {
      return Err(filled.error);
    }
    if entry !in syms.globals {
      return Err(NoEntry(entry));
    }
    var bssBase := BssBaseFrom(objs, cursor);
    var b := filled.value;
    r := Assemble(b.text, b.rodata, b.data, SizeIn(cursor, Bss), bssBase, syms.globals[entry], syms.globals);
  }
}
