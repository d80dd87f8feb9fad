/** The end-to-end theorem: what a linked file is once it is loaded. */
module LinkerProgram {
  import opened Wrappers
  import opened Bytes
  import opened ElfObject
  import opened ElfFile
  import opened LinkerLayout
  import opened LinkerSymbols
  import opened LinkerImage
  import opened LinkerRelocate
  import opened LinkerContents
  import opened LinkerMeaning
  import opened LinkerFile
  import opened LinkerReadBack
  import opened LinkerLoad
  import opened LinkerMain

  // ----- names in the table are names of symbols ----------------------------------------------

  lemma {:induction false} DefsUpToNulFree(objs: seq<Object>, o: nat, n: nat)
    requires ValidObjects(objs) && o < |objs| && n <= |objs[o].symbols|
    ensures forall i | 0 <= i < |DefsUpTo(objs, o, n)| :: 0 !in DefsUpTo(objs, o, n)[i].name
    decreases o, n + 1
  {
    hide AddressOf;
    if n == 0 {
      DefsNulFree(objs, o);
    } else {
      DefsUpToNulFree(objs, o, n - 1);
      assert objs[o].Valid();
    }
  }

  lemma {:induction false} DefsNulFree(objs: seq<Object>, m: nat)
    requires ValidObjects(objs) && m <= |objs|
    ensures forall i | 0 <= i < |Defs(objs, m)| :: 0 !in Defs(objs, m)[i].name
    decreases m, 0
  {
    if m > 0 {
      DefsUpToNulFree(objs, m - 1, |objs[m - 1].symbols|);
    }
  }

  lemma GlobalsNulFree(objs: seq<Object>)
    requires ValidObjects(objs) && Resolved(objs).Ok?
    ensures forall n | n in Resolved(objs).value.globals :: 0 !in n
  {
    hide Enter, Defs, Locals;
    var ds := Defs(objs, |objs|);
    EnterByHistory(ds);
    DefsNulFree(objs, |objs|);
    forall n | n in Resolved(objs).value.globals
      ensures 0 !in n
    {
      assert Named(ds, n);
    }
  }

  /** A successful link went through every phase. */
  ghost predicate LinkedAs(objs: seq<Object>, entry: Name, syms: Symbols, b: Buffers, file: seq<byte>)
    requires ValidObjects(objs)
  {
    && |syms.locals| == |objs|
    && Resolved(objs) == Ok(syms)
    && Finished(objs, syms) == Ok(b)
    && entry in syms.globals
    && Assembled(OutputOf(objs, syms, b, syms.globals[entry])) == Some(file)
  }

  lemma LinkedPhases(objs: seq<Object>, entry: Name) returns (syms: Symbols, b: Buffers)
    requires ValidObjects(objs) && Linked(objs, entry).Ok?
    ensures LinkedAs(objs, entry, syms, b, Linked(objs, entry).value)
  {
    hide Resolved, Finished, Assembled, BadInput;
    LocalsPerObject(objs);
    syms := Resolved(objs).value;
    b := Finished(objs, syms).value;
  }

  /** Every number of the output fits its field in the file. */
  ghost predicate NumbersFit(o: Output)
  {
    var names := NamesOf(o);
    && |StrTab(names)| < 0x1_0000_0000
    && (forall n | n in o.globals :: o.globals[n] < 0x1_0000_0000_0000_0000)
    && |o.text| < 0x1_0000_0000_0000_0000 && |o.rodata| < 0x1_0000_0000_0000_0000
    && o.bssBase + o.bssSize < 0x1_0000_0000_0000_0000
    && OffsetsIn(o, names).headers < 0x1_0000_0000_0000_0000
  }

  lemma OutputIsMachineSized(objs: seq<Object>, entry: Name, syms: Symbols, b: Buffers, file: seq<byte>)
    requires ValidObjects(objs) && LinkedAs(objs, entry, syms, b, file)
    requires NumbersFit(OutputOf(objs, syms, b, syms.globals[entry]))
    ensures MachineSized(OutputOf(objs, syms, b, syms.globals[entry]))
  {
    hide Resolved, Finished, Assembled, StrTab, OffsetsIn, SizeOf;
    GlobalsNulFree(objs);
    BufferSizes(objs, syms, b);
  }

  // ----- the theorem ----------------------------------------------------------------------------

  /** The file's segments, entry point and symbols are the linker's; the segments are disjoint and
      congruent with their file offsets. */
  lemma FileReadsBack(objs: seq<Object>, entry: Name, syms: Symbols, b: Buffers, file: seq<byte>)
    requires ValidObjects(objs) && LinkedAs(objs, entry, syms, b, file)
    requires LayoutFits(objs) && NumbersFit(OutputOf(objs, syms, b, syms.globals[entry]))
    ensures
      var o := OutputOf(objs, syms, b, syms.globals[entry]);
      && ReadsAs(file, o) && OutputFits(o) && ContentsInPlace(file, o)
      && SegmentsDisjoint(LoadSegments(o))
      && (forall s | s in LoadSegments(o) :: s.offset % PAGE_SIZE == s.vaddr % PAGE_SIZE && s.filesz <= s.memsz)
  {
    hide Resolved, Finished, Assembled, NumbersFit, MachineSized, SizeOf, LoadSegments, SegmentsDisjoint, ReadHeader,
         Segments, SymbolTable, ContentsInPlace;
    var o := OutputOf(objs, syms, b, syms.globals[entry]);
    OutputIsMachineSized(objs, entry, syms, b, file);
    AssembledReadsBack(o);
    BufferSizes(objs, syms, b);
    SegmentsDisjointWhen(o);
    forall s | s in LoadSegments(o)
      ensures s.offset % PAGE_SIZE == s.vaddr % PAGE_SIZE && s.filesz <= s.memsz
    {
      var i :| 0 <= i < |LoadSegments(o)| && LoadSegments(o)[i] == s;
      SegmentsCongruent(o, i);
    }
  }

  /** The byte a program sees at `addr`. */
  function MemoryAt(file: seq<byte>, addr: nat): Option<byte>
  {
    match Segments(file)
    case None => None
    case Some(segs) => LoadedByte(file, segs, addr)
  }

  lemma ImageOfPiece(objs: seq<Object>, syms: Symbols, b: Buffers, entry: nat, k: Kind, pos: nat)
    requires LayoutFits(objs) && k != Bss && pos < SizeOf(objs, k)
    requires |b.text| == SizeOf(objs, Text) && |b.rodata| == SizeOf(objs, Rodata) && |b.data| == SizeOf(objs, Data)
    ensures ImageByte(OutputOf(objs, syms, b, entry), BaseOf(objs, k) + pos) == Some(b.Of(k)[pos])
  {
    hide SizeOf, BssBase;
  }

  /** End to end, for sections with contents: mapping the emitted file puts at each address of a
      piece the section's own byte, as changed by the last relocation field over it.
      (`AllSections` holds of every layout, by `PiecesAreSections`; it is named so that the clauses make sense.) */
  lemma LoadedContents(objs: seq<Object>, entry: Name, syms: Symbols, b: Buffers, file: seq<byte>, m: nat, d: nat)
    requires ValidObjects(objs) && LinkedAs(objs, entry, syms, b, file)
    requires LayoutFits(objs) && NumbersFit(OutputOf(objs, syms, b, syms.globals[entry]))
    requires AllSections(objs, Pieces(objs))
    requires m < |Pieces(objs)| && Pieces(objs)[m].kind != Bss && d < SectionOf(objs, Pieces(objs)[m]).size
    ensures
      var p := Pieces(objs)[m];
      var s := SectionOf(objs, p);
      && s.offset + d < |objs[p.obj].bytes|
      && MemoryAt(file, PieceAddr(objs, p) + d)
         == Some(ByteAfter(Patches(objs, syms, Pieces(objs), |Pieces(objs)|),
                           objs[p.obj].bytes[s.offset + d], p.kind, p.offset + d))
  {
    hide Resolved, Finished, Assembled, NumbersFit, SizeOf, LoadSegments, Pieces, Patches, ByteAfter, LoadedByte,
         Segments, SegmentsDisjoint, ContentsInPlace, ReadHeader, SymbolTable, Copies;
    var p := Pieces(objs)[m];
    var o := OutputOf(objs, syms, b, syms.globals[entry]);
    FileReadsBack(objs, entry, syms, b, file);
    LoadsImage(file, o, PieceAddr(objs, p) + d);
    BufferSizes(objs, syms, b);
    PieceFits(objs, m);
    FinishedByte(objs, syms, p.kind, p.offset + d);
    ImageOfPiece(objs, syms, b, syms.globals[entry], p.kind, p.offset + d);
  }

  lemma ImageOfBss(objs: seq<Object>, syms: Symbols, b: Buffers, entry: nat, pos: nat)
    requires LayoutFits(objs) && pos < SizeOf(objs, Bss)
    requires |b.text| == SizeOf(objs, Text) && |b.rodata| == SizeOf(objs, Rodata) && |b.data| == SizeOf(objs, Data)
    ensures ImageByte(OutputOf(objs, syms, b, entry), BssBase(objs) + pos) == Some(0)
  {
    hide SizeOf, BssBase;
  }

  /** End to end, for `.bss`: zeros. */
  lemma LoadedBss(objs: seq<Object>, entry: Name, syms: Symbols, b: Buffers, file: seq<byte>, m: nat, d: nat)
    requires ValidObjects(objs) && LinkedAs(objs, entry, syms, b, file)
    requires LayoutFits(objs) && NumbersFit(OutputOf(objs, syms, b, syms.globals[entry]))
    requires AllSections(objs, Pieces(objs))
    requires m < |Pieces(objs)| && Pieces(objs)[m].kind == Bss && d < SectionOf(objs, Pieces(objs)[m]).size
    ensures MemoryAt(file, PieceAddr(objs, Pieces(objs)[m]) + d) == Some(0)
  {
    hide Resolved, Finished, Assembled, NumbersFit, LoadSegments, Pieces, LoadedByte, SizeOf,
         Segments, SegmentsDisjoint, ContentsInPlace, ReadHeader, SymbolTable;
    var p := Pieces(objs)[m];
    var o := OutputOf(objs, syms, b, syms.globals[entry]);
    FileReadsBack(objs, entry, syms, b, file);
    LoadsImage(file, o, PieceAddr(objs, p) + d);
    BufferSizes(objs, syms, b);
    PieceFits(objs, m);
    ImageOfBss(objs, syms, b, syms.globals[entry], p.offset + d);
  }

  // ----- relocation fields in memory --------------------------------------------------------------

  lemma FieldsPossible(objs: seq<Object>, syms: Symbols, b: Buffers, i: nat)
    requires ValidObjects(objs) && |syms.locals| == |objs| && Finished(objs, syms) == Ok(b)
    requires AllSections(objs, Pieces(objs)) && i < |Patches(objs, syms, Pieces(objs), |Pieces(objs)|)|
    ensures
      var a := Patches(objs, syms, Pieces(objs), |Pieces(objs)|)[i];
      a.Ok? && a.value.at + |a.value.bytes| <= |b.Of(a.value.kind)|
  {
    hide Run, Copies, Patches, Pieces, SizeOf;
    var ps := Pieces(objs);
    var fields, copied := Patches(objs, syms, ps, |ps|), Run(Copies(objs, ps, |ps|), Blank(objs)).value;
    RunOkWhen(fields, copied);
    RunShape(fields, copied);
  }

  lemma FinishedField(objs: seq<Object>, syms: Symbols, b: Buffers, i: nat, pos: nat)
    requires ValidObjects(objs) && |syms.locals| == |objs| && Finished(objs, syms) == Ok(b)
    requires AllSections(objs, Pieces(objs)) && i < |Patches(objs, syms, Pieces(objs), |Pieces(objs)|)|
    requires PairwiseDisjoint(Patches(objs, syms, Pieces(objs), |Pieces(objs)|))
    requires
      var a := Patches(objs, syms, Pieces(objs), |Pieces(objs)|)[i];
      a.Ok? && a.value.kind != Bss && a.value.Covers(a.value.kind, pos) && pos < |b.Of(a.value.kind)|
    ensures
      var w := Patches(objs, syms, Pieces(objs), |Pieces(objs)|)[i].value;
      b.Of(w.kind)[pos] == w.bytes[pos - w.at]
  {
    hide Run, Copies, Patches, Pieces, SizeOf, ByteAfter;
    var ps := Pieces(objs);
    var fields, copied := Patches(objs, syms, ps, |ps|), Run(Copies(objs, ps, |ps|), Blank(objs)).value;
    var w := fields[i].value;
    RunShape(fields, copied);
    RunByte(fields, copied, w.kind, pos);
    forall j | i < j < |fields| && fields[j].Ok?
      ensures !fields[j].value.Covers(w.kind, pos)
    {
    }
    ByteOfLast(fields, copied.Of(w.kind)[pos], w.kind, pos, i);
  }

  /** Byte `j` of the `i`-th field that is patched. */
  lemma FieldInMemory(objs: seq<Object>, entry: Name, syms: Symbols, b: Buffers, file: seq<byte>, i: nat, j: nat)
    requires ValidObjects(objs) && LinkedAs(objs, entry, syms, b, file)
    requires LayoutFits(objs) && NumbersFit(OutputOf(objs, syms, b, syms.globals[entry]))
    requires AllSections(objs, Pieces(objs))
    requires i < |Patches(objs, syms, Pieces(objs), |Pieces(objs)|)|
    requires PairwiseDisjoint(Patches(objs, syms, Pieces(objs), |Pieces(objs)|))
    requires
      var a := Patches(objs, syms, Pieces(objs), |Pieces(objs)|)[i];
      a.Ok? && a.value.kind != Bss && j < |a.value.bytes| && a.value.at + |a.value.bytes| <= |b.Of(a.value.kind)|
    ensures
      var w := Patches(objs, syms, Pieces(objs), |Pieces(objs)|)[i].value;
      MemoryAt(file, BaseOf(objs, w.kind) + w.at + j) == Some(w.bytes[j])
  {
    hide Resolved, Finished, Assembled, NumbersFit, LoadSegments, Pieces, Patches, LoadedByte, SizeOf, BssBase,
         Segments, SegmentsDisjoint, ContentsInPlace, ReadHeader, SymbolTable, PairwiseDisjoint;
    var w := Patches(objs, syms, Pieces(objs), |Pieces(objs)|)[i].value;
    BufferSizes(objs, syms, b);
    FinishedField(objs, syms, b, i, w.at + j);
    FileReadsBack(objs, entry, syms, b, file);
    LoadsImage(file, OutputOf(objs, syms, b, syms.globals[entry]), BaseOf(objs, w.kind) + w.at + j);
    ImageOfPiece(objs, syms, b, syms.globals[entry], w.kind, w.at + j);
  }

  /** The bytes of the field that relocation `n` of piece `m`'s object patches there. */
  lemma PatchInMemory(objs: seq<Object>, entry: Name, syms: Symbols, b: Buffers, file: seq<byte>,
                      m: nat, n: nat, j: nat)
    requires ValidObjects(objs) && LinkedAs(objs, entry, syms, b, file)
    requires LayoutFits(objs) && NumbersFit(OutputOf(objs, syms, b, syms.globals[entry]))
    requires AllSections(objs, Pieces(objs)) && Patched(objs, m, n)
    requires PairwiseDisjoint(Patches(objs, syms, Pieces(objs), |Pieces(objs)|))
    ensures
      var p := Pieces(objs)[m];
      var a := PatchOf(objs, syms, p, objs[p.obj].relocations[n]);
      && a.Ok?
      && (j < |a.value.bytes| ==> MemoryAt(file, BaseOf(objs, p.kind) + a.value.at + j) == Some(a.value.bytes[j]))
  {
    hide Resolved, Finished, Assembled, NumbersFit, LoadSegments, Pieces, Patches, PatchesUpTo, LoadedByte, SizeOf,
         ByteAfter, Segments, SegmentsDisjoint, ContentsInPlace, ReadHeader, SymbolTable, FieldBytes,
         Supported, Target, PairwiseDisjoint, Copies, Run;
    var ps := Pieces(objs);
    var p := ps[m];
    var r := objs[p.obj].relocations[n];
    var fields := Patches(objs, syms, ps, |ps|);
    PatchIn(objs, syms, ps, m, n, |objs[p.obj].relocations|);
    PatchesExtend(objs, syms, ps, m, |objs[p.obj].relocations|, |ps|);
    var a := PatchOf(objs, syms, p, r);
    assert a in fields;
    var i :| 0 <= i < |fields| && fields[i] == a;
    FieldsPossible(objs, syms, b, i);
    if j < |a.value.bytes| {
      FieldInMemory(objs, entry, syms, b, file, i, j);
    }
  }

  /** End to end, for relocations: when their fields do not overlap, each one refers to some address `s`, and in
      memory its field holds, from the patched place on, `s` minus that place in four bytes, or `s`
      itself in eight or four, as its kind asks. */
  lemma LoadedField(objs: seq<Object>, entry: Name, syms: Symbols, b: Buffers, file: seq<byte>, m: nat, n: nat)
    requires ValidObjects(objs) && LinkedAs(objs, entry, syms, b, file)
    requires LayoutFits(objs) && NumbersFit(OutputOf(objs, syms, b, syms.globals[entry]))
    requires AllSections(objs, Pieces(objs)) && Patched(objs, m, n)
    requires PairwiseDisjoint(Patches(objs, syms, Pieces(objs), |Pieces(objs)|))
    ensures
      var p := Pieces(objs)[m];
      var r := objs[p.obj].relocations[n];
      var site := PieceAddr(objs, p) + r.offset;
      exists s: nat, field :: RefersTo(objs, p.obj, r, s) && FieldIs(r.kind, s, site, field)
                              && forall j | 0 <= j < |field| :: MemoryAt(file, site + j) == Some(field[j])
  {
    hide Resolved, Finished, Assembled, NumbersFit, LoadSegments, Pieces, Patches, PatchesUpTo, MemoryAt, SizeOf,
         RefersTo, Target, FieldBytes, PairwiseDisjoint, BaseOf;
    var p := Pieces(objs)[m];
    var r := objs[p.obj].relocations[n];
    var a := PatchOf(objs, syms, p, r);
    PatchInMemory(objs, entry, syms, b, file, m, n, 0);
    var s := Target(objs, syms, p.obj, r).value;
    var field := a.value.bytes;
    TargetMeans(objs, syms, p.obj, r, s);
    FieldMeans(r.kind, s, PieceAddr(objs, p) + r.offset);
    forall j | 0 <= j < |field|
      ensures MemoryAt(file, PieceAddr(objs, p) + r.offset + j) == Some(field[j])
    {
      PatchInMemory(objs, entry, syms, b, file, m, n, j);
    }
  }
}
