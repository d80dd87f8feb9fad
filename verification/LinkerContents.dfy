/** What the finished output sections contain, byte by byte. */
module LinkerContents {
  import opened Wrappers
  import opened Bytes
  import opened ElfObject
  import opened LinkerLayout
  import opened LinkerSymbols
  import opened LinkerImage
  import opened LinkerRelocate

  /** The three buffers before anything is copied. */
  function Blank(objs: seq<Object>): Buffers
  {
    Buffers(Zeros(SizeOf(objs, Text)), Zeros(SizeOf(objs, Rodata)), Zeros(SizeOf(objs, Data)))
  }

  /** Both phases, one after the other. */
  ghost function Finished(objs: seq<Object>, syms: Symbols): Result<Buffers, LinkError>
    requires ValidObjects(objs) && |syms.locals| == |objs|
  {
    PiecesAreSections(objs);
    var ps := Pieces(objs);
    match Run(Copies(objs, ps, |ps|), Blank(objs))
    case Err(e) => Err(e)
    case Ok(copied) => Run(Patches(objs, syms, ps, |ps|), copied)
  }

  /** Piece `p` occupies `pos` of its output section. */
  predicate Occupies(objs: seq<Object>, p: Piece, pos: nat)
    requires IsSection(objs, p.obj, p.section)
  {
    p.offset <= pos < p.offset + SectionOf(objs, p).size
  }

  // ----- pieces by position in the whole list -------------------------------------------

  function StartOf(objs: seq<Object>, k: Kind): nat
  {
    match k
    case Text => 0
    case Rodata => |PiecesOf(objs, Text)|
    case Data => |PiecesOf(objs, Text)| + |PiecesOf(objs, Rodata)|
    case Bss => |PiecesOf(objs, Text)| + |PiecesOf(objs, Rodata)| + |PiecesOf(objs, Data)|
  }

  lemma PieceOfKind(objs: seq<Object>, k: Kind, i: nat)
    requires i < |PiecesOf(objs, k)|
    ensures StartOf(objs, k) + i < |Pieces(objs)|
    ensures Pieces(objs)[StartOf(objs, k) + i] == PiecesOf(objs, k)[i]
  {
    hide PiecesOf;
    match k case Text => case Rodata => case Data => case Bss =>
  }

  lemma KindOfPiece(objs: seq<Object>, m: nat) returns (k: Kind, i: nat)
    requires m < |Pieces(objs)|
    ensures i < |PiecesOf(objs, k)| && m == StartOf(objs, k) + i
    ensures Pieces(objs)[m] == PiecesOf(objs, k)[i]
  {
    hide PiecesOf;
    if m < StartOf(objs, Rodata) {
      k, i := Text, m;
    } else if m < StartOf(objs, Data) {
      k, i := Rodata, m - StartOf(objs, Rodata);
    } else if m < StartOf(objs, Bss) {
      k, i := Data, m - StartOf(objs, Data);
    } else {
      k, i := Bss, m - StartOf(objs, Bss);
    }
    PieceOfKind(objs, k, i);
  }

  lemma PiecesAreSections(objs: seq<Object>)
    requires ValidObjects(objs)
    ensures AllSections(objs, Pieces(objs))
  {
    forall m | 0 <= m < |Pieces(objs)|
      ensures IsSection(objs, Pieces(objs)[m].obj, Pieces(objs)[m].section)
    {
      var k, i := KindOfPiece(objs, m);
      PieceWithin(objs, k, i);
    }
  }

  lemma PieceFits(objs: seq<Object>, m: nat)
    requires ValidObjects(objs) && m < |Pieces(objs)|
    ensures AllSections(objs, Pieces(objs))
    ensures Pieces(objs)[m].offset + SectionOf(objs, Pieces(objs)[m]).size <= SizeOf(objs, Pieces(objs)[m].kind)
  {
    PiecesAreSections(objs);
    var k, i := KindOfPiece(objs, m);
    PieceWithin(objs, k, i);
  }

  lemma PiecesDoNotOverlap(objs: seq<Object>, m: nat, m': nat, pos: nat)
    requires ValidObjects(objs) && m < |Pieces(objs)| && m' < |Pieces(objs)|
    requires AllSections(objs, Pieces(objs))
    requires Pieces(objs)[m].kind == Pieces(objs)[m'].kind
    requires Occupies(objs, Pieces(objs)[m], pos) && Occupies(objs, Pieces(objs)[m'], pos)
    ensures m == m'
  {
    var k, i := KindOfPiece(objs, m);
    var k', i' := KindOfPiece(objs, m');
    PieceWithin(objs, k, i);
    PieceWithin(objs, k', i');
    LayoutCorrect(objs, k);
    if i < i' {
      TightDisjoint(objs, k, PiecesOf(objs, k), i, i');
    } else if i' < i {
      TightDisjoint(objs, k, PiecesOf(objs, k), i', i);
    }
  }

  // ----- after the copy loop --------------------------------------------------------------

  lemma {:induction false} CopiesBlank(objs: seq<Object>, ps: seq<Piece>, m: nat, base: byte, k: Kind, pos: nat)
    requires m <= |ps| && AllSections(objs, ps) && k != Bss
    requires forall j | 0 <= j < m && ps[j].kind == k :: !Occupies(objs, ps[j], pos)
    ensures ByteAfter(Copies(objs, ps, m), base, k, pos) == base
  {
    if m > 0 {
      CopiesBlank(objs, ps, m - 1, base, k, pos);
    }
  }

  lemma {:induction false} CopiesByte(objs: seq<Object>, ps: seq<Piece>, m: nat, base: byte, i: nat, pos: nat)
    requires i < m <= |ps| && AllSections(objs, ps) && ps[i].kind != Bss
    requires CopyOf(objs, ps[i]).Ok? && Occupies(objs, ps[i], pos)
    requires forall j | i < j < m && ps[j].kind == ps[i].kind :: !Occupies(objs, ps[j], pos)
    ensures ByteAfter(Copies(objs, ps, m), base, ps[i].kind, pos)
         == objs[ps[i].obj].bytes[SectionOf(objs, ps[i]).offset + pos - ps[i].offset]
    decreases m
  {
    if i < m - 1 {
      CopiesByte(objs, ps, m - 1, base, i, pos);
    }
  }

  ghost predicate Sliced(objs: seq<Object>, ps: seq<Piece>, m: nat)
    requires m <= |ps| && AllSections(objs, ps)
  {
    forall i | 0 <= i < m && ps[i].kind != Bss :: CopyOf(objs, ps[i]).Ok?
  }

  lemma {:induction false} CopiesPossible(objs: seq<Object>, ps: seq<Piece>, m: nat, b: Buffers)
    requires m <= |ps| && AllSections(objs, ps)
    requires forall i | 0 <= i < |ps| && ps[i].kind != Bss ::
      ps[i].offset + SectionOf(objs, ps[i]).size <= |b.Of(ps[i].kind)|
    ensures Possible(Copies(objs, ps, m), b) <==> Sliced(objs, ps, m)
    decreases m
  {
    if m > 0 {
      CopiesPossible(objs, ps, m - 1, b);
      if ps[m - 1].kind != Bss {
        PossibleNext(Copies(objs, ps, m - 1), CopyOf(objs, ps[m - 1]), b);
      }
    }
  }

  /** Copying succeeds exactly when every kept section's bytes are inside its file; it never
      runs past the end of an output section. */
  lemma CopyingSucceedsWhen(objs: seq<Object>)
    requires ValidObjects(objs)
    ensures AllSections(objs, Pieces(objs))
    ensures Run(Copies(objs, Pieces(objs), |Pieces(objs)|), Blank(objs)).Ok?
       <==> Sliced(objs, Pieces(objs), |Pieces(objs)|)
  {
    PiecesAreSections(objs);
    var ps := Pieces(objs);
    forall i | 0 <= i < |ps| && ps[i].kind != Bss
      ensures ps[i].offset + SectionOf(objs, ps[i]).size <= |Blank(objs).Of(ps[i].kind)|
    {
      PieceFits(objs, i);
    }
    CopiesPossible(objs, ps, |ps|, Blank(objs));
    RunOkWhen(Copies(objs, ps, |ps|), Blank(objs));
  }

  // ----- the finished sections --------------------------------------------------------------

  ghost predicate IsPlaced(objs: seq<Object>, k: Kind, pos: nat)
    requires AllSections(objs, Pieces(objs))
  {
    exists m :: 0 <= m < |Pieces(objs)| && Pieces(objs)[m].kind == k && Occupies(objs, Pieces(objs)[m], pos)
  }

  lemma FinishedShape(objs: seq<Object>, syms: Symbols)
    requires ValidObjects(objs) && |syms.locals| == |objs| && Finished(objs, syms).Ok?
    ensures SameShape(Blank(objs), Finished(objs, syms).value)
    ensures AllSections(objs, Pieces(objs)) && Sliced(objs, Pieces(objs), |Pieces(objs)|)
  {
    hide Run;
    CopyingSucceedsWhen(objs);
    var ps := Pieces(objs);
    RunShape(Copies(objs, ps, |ps|), Blank(objs));
    RunShape(Patches(objs, syms, ps, |ps|), Run(Copies(objs, ps, |ps|), Blank(objs)).value);
  }

  lemma BufferSizes(objs: seq<Object>, syms: Symbols, b: Buffers)
    requires ValidObjects(objs) && |syms.locals| == |objs| && Finished(objs, syms) == Ok(b)
    ensures |b.text| == SizeOf(objs, Text) && |b.rodata| == SizeOf(objs, Rodata) && |b.data| == SizeOf(objs, Data)
  {
    hide SizeOf, Finished;
    FinishedShape(objs, syms);
    assert |Blank(objs).Of(Text)| == |b.Of(Text)| && |Blank(objs).Of(Rodata)| == |b.Of(Rodata)|;
    assert |Blank(objs).Of(Data)| == |b.Of(Data)|;
  }

  /** Each byte of a finished section starts as the byte of the piece that occupies it, or as
      zero in padding, and is then whatever the last relocation field over it says. */
  lemma FinishedByte(objs: seq<Object>, syms: Symbols, k: Kind, pos: nat)
    requires ValidObjects(objs) && |syms.locals| == |objs| && Finished(objs, syms).Ok?
    requires k != Bss && pos < SizeOf(objs, k)
    ensures AllSections(objs, Pieces(objs)) && Sliced(objs, Pieces(objs), |Pieces(objs)|)
    ensures |Finished(objs, syms).value.Of(k)| == SizeOf(objs, k)
    ensures
      var fields := Patches(objs, syms, Pieces(objs), |Pieces(objs)|);
      var b := Finished(objs, syms).value.Of(k)[pos];
      && (forall m | 0 <= m < |Pieces(objs)| && Pieces(objs)[m].kind == k && Occupies(objs, Pieces(objs)[m], pos) ::
            var p := Pieces(objs)[m];
            b == ByteAfter(fields, objs[p.obj].bytes[SectionOf(objs, p).offset + pos - p.offset], k, pos))
      && (!IsPlaced(objs, k, pos) ==> b == ByteAfter(fields, 0, k, pos))
  {
    hide Run, Pieces, PiecesOf, ByteAfter, Patches, Copies;
    FinishedShape(objs, syms);
    var ps := Pieces(objs);
    var copies, fields := Copies(objs, ps, |ps|), Patches(objs, syms, ps, |ps|);
    var copied := Run(copies, Blank(objs)).value;
    RunByte(copies, Blank(objs), k, pos);
    RunByte(fields, copied, k, pos);
    forall m | 0 <= m < |ps| && ps[m].kind == k && Occupies(objs, ps[m], pos)
      ensures copied.Of(k)[pos] == objs[ps[m].obj].bytes[SectionOf(objs, ps[m]).offset + pos - ps[m].offset]
    {
      forall j | m < j < |ps| && ps[j].kind == ps[m].kind
        ensures !Occupies(objs, ps[j], pos)
      {
        if Occupies(objs, ps[j], pos) {
          PiecesDoNotOverlap(objs, m, j, pos);
        }
      }
      CopiesByte(objs, ps, |ps|, 0, m, pos);
    }
    if !IsPlaced(objs, k, pos) {
      CopiesBlank(objs, ps, |ps|, 0, k, pos);
    }
  }
}
