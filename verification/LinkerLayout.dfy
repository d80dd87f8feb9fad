/** The layout phase of the linker: which sections are kept, in which order, at which offset. */
module LinkerLayout {
  import opened Wrappers
  import opened Bytes
  import opened ElfObject

  const TEXT_ADDR: nat := 0x40_1000
  const RODATA_ADDR: nat := 0x40_2000
  const DATA_ADDR: nat := 0x40_3000

  datatype Kind = Text | Rodata | Data | Bss

  /** The output section that takes in `s`, if `s` is allocated at all. */
  function KindOf(s: Section): Option<Kind>
  {
    if s.flags & SHF_ALLOC == 0 then None
    else if s.shType == SHT_NOBITS then Some(Bss)
    else if s.flags & SHF_EXECINSTR != 0 then Some(Text)
    else if s.flags & SHF_WRITE != 0 then Some(Data)
    else Some(Rodata)
  }

  /** A kept input section and its place in the output section of its kind. */
  datatype Piece = Piece(obj: nat, section: nat, kind: Kind, offset: nat)

  /** The least multiple of `align` that is not below `v`. */
  function AlignUp(v: nat, align: nat): (r: nat)
    requires align > 0
    ensures v <= r < v + align
  {
    var rest := v % align;
    if rest == 0 then v else v + (align - rest)
  }

  lemma AlignUpMultiple(v: nat, align: nat)
    requires align > 0
    ensures AlignUp(v, align) % align == 0
  {
    assert v == align * (v / align) + v % align;
    if v % align > 0 {
      assert AlignUp(v, align) == align * (v / align + 1);
      DivModUnique(AlignUp(v, align), align, v / align + 1, 0);
    }
  }

  lemma MultiplesApart(a: nat, x: int, y: int)
    requires x < y
    ensures a * x + a <= a * y
  {
    assert a * (x + 1) <= a * y;
  }

  lemma MultiplesOrdered(a: nat, x: int, y: int)
    requires x <= y
    ensures a * x <= a * y
  {
  }

  /** An offset is rounded up to the least multiple of the section's alignment; alignments 0 and 1 leave
      it where it is. */
  lemma AlignUpLeast(v: nat, align: nat)
    ensures
      var a := Max(align, 1);
      && v <= AlignUp(v, a) && AlignUp(v, a) % a == 0
      && (forall u: nat | u % a == 0 && u >= v :: AlignUp(v, a) <= u)
      && (align <= 1 ==> AlignUp(v, a) == v)
  {
    hide AlignUp;
    var a := Max(align, 1);
    var r := AlignUp(v, a);
    AlignUpMultiple(v, a);
    assert r == a * (r / a);
    forall u: nat | u % a == 0 && u >= v
      ensures r <= u
    {
      assert u == a * (u / a);
      if u / a < r / a {
        MultiplesApart(a, u / a, r / a);
      } else {
        MultiplesOrdered(a, r / a, u / a);
      }
    }
  }

  // ----- the layout as a function of the command line --------------------------------

  /** The pieces of one kind placed so far and the first free offset after them. */
  datatype Placed = Placed(pieces: seq<Piece>, end: nat)

  function PlaceSection(o: nat, s: Section, k: Kind, st: Placed): Placed
  {
    if KindOf(s) != Some(k) || s.size == 0 then st
    else
      var at := AlignUp(st.end, Max(s.align, 1));
      Placed(st.pieces + [Piece(o, s.index, k, at)], at + s.size)
  }

  /** Places the first `n` sections of object `o`. */
  function PlaceObject(objs: seq<Object>, o: nat, n: nat, k: Kind): Placed
    requires o < |objs| && n <= |objs[o].sections|
    decreases o, n + 1
  {
    if n == 0 then PlaceKind(objs, o, k)
    else PlaceSection(o, objs[o].sections[n - 1], k, PlaceObject(objs, o, n - 1, k))
  }

  /** Places every section of the first `m` objects. */
  function PlaceKind(objs: seq<Object>, m: nat, k: Kind): Placed
    requires m <= |objs|
    decreases m, 0
  {
    if m == 0 then Placed([], 0)
    else PlaceObject(objs, m - 1, |objs[m - 1].sections|, k)
  }

  function PiecesOf(objs: seq<Object>, k: Kind): seq<Piece>
  {
    PlaceKind(objs, |objs|, k).pieces
  }

  function SizeOf(objs: seq<Object>, k: Kind): nat
  {
    PlaceKind(objs, |objs|, k).end
  }

  function Pieces(objs: seq<Object>): seq<Piece>
  {
    PiecesOf(objs, Text) + PiecesOf(objs, Rodata) + PiecesOf(objs, Data) + PiecesOf(objs, Bss)
  }

  /** `.bss` starts where `.data` ends, rounded up to 16. */
  function BssBase(objs: seq<Object>): (r: nat)
    ensures r >= DATA_ADDR + SizeOf(objs, Data)
  {
    DATA_ADDR + AlignUp(SizeOf(objs, Data), 16)
  }

  function BaseOf(objs: seq<Object>, k: Kind): nat
  {
    match k
    case Text => TEXT_ADDR
    case Rodata => RODATA_ADDR
    case Data => DATA_ADDR
    case Bss => BssBase(objs)
  }

  function PieceAddr(objs: seq<Object>, p: Piece): nat
  {
    BaseOf(objs, p.kind) + p.offset
  }

  // ----- what a correct layout is ----------------------------------------------------

  predicate IsSection(objs: seq<Object>, o: nat, s: nat)
  {
    o < |objs| && s < |objs[o].sections|
  }

  /** The section must be placed in the output section of kind `k`: it is allocated and not empty; without file
      contents it goes to `.bss`, otherwise code to `.text`, what is writable to `.data`, the rest to
      `.rodata`. Code comes before writability. */
  predicate Wanted(objs: seq<Object>, o: nat, s: nat, k: Kind)
  {
    && IsSection(objs, o, s)
    && var sec := objs[o].sections[s];
       var nobits, code, writable :=
         sec.shType == SHT_NOBITS, sec.flags & SHF_EXECINSTR != 0, sec.flags & SHF_WRITE != 0;
       && sec.size > 0 && sec.flags & SHF_ALLOC != 0
       && match k
          case Text => !nobits && code
          case Rodata => !nobits && !code && !writable
          case Data => !nobits && !code && writable
          case Bss => nobits
  }

  lemma KindWanted(objs: seq<Object>, o: nat, s: nat, k: Kind)
    ensures Wanted(objs, o, s, k)
       <==> IsSection(objs, o, s) && KindOf(objs[o].sections[s]) == Some(k) && objs[o].sections[s].size > 0
  {
  }

  function SectionOf(objs: seq<Object>, p: Piece): Section
    requires IsSection(objs, p.obj, p.section)
  {
    objs[p.obj].sections[p.section]
  }

  /** Command-line order. */
  predicate Before(o: nat, s: nat, o': nat, s': nat)
  {
    o < o' || (o == o' && s < s')
  }

  predicate Holds(ps: seq<Piece>, o: nat, s: nat)
  {
    exists i :: 0 <= i < |ps| && ps[i].obj == o && ps[i].section == s
  }

  /** Where the free space before piece `i` starts. */
  function PrevEnd(objs: seq<Object>, ps: seq<Piece>, i: nat): nat
    requires i <= |ps|
    requires i > 0 ==> IsSection(objs, ps[i - 1].obj, ps[i - 1].section)
  {
    if i == 0 then 0 else ps[i - 1].offset + SectionOf(objs, ps[i - 1]).size
  }

  /** Every piece is a wanted section; pieces come in command-line order, back to back up to
      the least padding its alignment needs. */
  ghost predicate Tight(objs: seq<Object>, k: Kind, ps: seq<Piece>)
  {
    && (forall i | 0 <= i < |ps| :: ps[i].kind == k && Wanted(objs, ps[i].obj, ps[i].section, k))
    && (forall i, j | 0 <= i < j < |ps| ::
          Before(ps[i].obj, ps[i].section, ps[j].obj, ps[j].section))
    && (forall i {:trigger PrevEnd(objs, ps, i)} | 0 <= i < |ps| ::
          ps[i].offset == AlignUp(PrevEnd(objs, ps, i), Max(SectionOf(objs, ps[i]).align, 1)))
  }

  /** The placed pieces are exactly the wanted sections before position `(o, n)`. */
  ghost predicate PlacedUpTo(objs: seq<Object>, k: Kind, st: Placed, o: nat, n: nat)
  {
    && Tight(objs, k, st.pieces)
    && st.end == PrevEnd(objs, st.pieces, |st.pieces|)
    && (forall i | 0 <= i < |st.pieces| :: Before(st.pieces[i].obj, st.pieces[i].section, o, n))
    && (forall o', s' :: Before(o', s', o, n) && Wanted(objs, o', s', k) ==> Holds(st.pieces, o', s'))
  }

  lemma TightAppend(objs: seq<Object>, k: Kind, ps: seq<Piece>, p: Piece)
    requires Tight(objs, k, ps)
    requires p.kind == k && Wanted(objs, p.obj, p.section, k)
    requires forall i | 0 <= i < |ps| :: Before(ps[i].obj, ps[i].section, p.obj, p.section)
    requires p.offset == AlignUp(PrevEnd(objs, ps, |ps|), Max(SectionOf(objs, p).align, 1))
    ensures Tight(objs, k, ps + [p])
    ensures PrevEnd(objs, ps + [p], |ps| + 1) == p.offset + SectionOf(objs, p).size
  {
    var qs := ps + [p];
    forall i | 0 <= i < |qs|
      ensures qs[i].kind == k && Wanted(objs, qs[i].obj, qs[i].section, k)
      ensures qs[i].offset == AlignUp(PrevEnd(objs, qs, i), Max(SectionOf(objs, qs[i]).align, 1))
    {
      assert PrevEnd(objs, qs, i) == PrevEnd(objs, ps, i);
    }
  }

  lemma HoldsMore(ps: seq<Piece>, p: Piece)
    ensures forall o, s :: Holds(ps, o, s) ==> Holds(ps + [p], o, s)
    ensures Holds(ps + [p], p.obj, p.section)
  {
    var qs := ps + [p];
    assert qs[|ps|] == p;
    forall o, s | Holds(ps, o, s)
      ensures Holds(qs, o, s)
    {
      var i :| 0 <= i < |ps| && ps[i].obj == o && ps[i].section == s;
      assert qs[i] == ps[i];
    }
  }

  lemma PlaceSectionKeeps(objs: seq<Object>, o: nat, n: nat, k: Kind, st: Placed)
    requires IsSection(objs, o, n) && objs[o].sections[n].index == n
    requires PlacedUpTo(objs, k, st, o, n)
    ensures PlacedUpTo(objs, k, PlaceSection(o, objs[o].sections[n], k, st), o, n + 1)
  {
    KindWanted(objs, o, n, k);
    hide KindOf, Wanted, AlignUp, Tight, PrevEnd, Holds;
    var s := objs[o].sections[n];
    if Wanted(objs, o, n, k) {
      var p := Piece(o, n, k, AlignUp(st.end, Max(s.align, 1)));
      TightAppend(objs, k, st.pieces, p);
      HoldsMore(st.pieces, p);
    }
  }

  lemma {:induction false} PlaceObjectCorrect(objs: seq<Object>, o: nat, n: nat, k: Kind)
    requires ValidObjects(objs) && o < |objs| && n <= |objs[o].sections|
    ensures PlacedUpTo(objs, k, PlaceObject(objs, o, n, k), o, n)
    decreases o, n + 1
  {
    hide PlacedUpTo, PlaceSection, KindOf;
    if n == 0 {
      PlaceKindCorrect(objs, o, k);
    } else {
      PlaceObjectCorrect(objs, o, n - 1, k);
      assert objs[o].Valid();
      PlaceSectionKeeps(objs, o, n - 1, k, PlaceObject(objs, o, n - 1, k));
    }
  }

  lemma {:induction false} PlaceKindCorrect(objs: seq<Object>, m: nat, k: Kind)
    requires ValidObjects(objs) && m <= |objs|
    ensures PlacedUpTo(objs, k, PlaceKind(objs, m, k), m, 0)
    decreases m, 0
  {
    if m > 0 {
      PlaceObjectCorrect(objs, m - 1, |objs[m - 1].sections|, k);
    }
  }

  /** The layout theorem: each kind's pieces are exactly its wanted sections, in command-line
      order, tightly packed, and the recorded size is where the last one ends. */
  lemma LayoutCorrect(objs: seq<Object>, k: Kind)
    requires ValidObjects(objs)
    ensures Tight(objs, k, PiecesOf(objs, k))
    ensures forall o, s :: Wanted(objs, o, s, k) <==> Holds(PiecesOf(objs, k), o, s)
    ensures SizeOf(objs, k) == PrevEnd(objs, PiecesOf(objs, k), |PiecesOf(objs, k)|)
  {
    PlaceKindCorrect(objs, |objs|, k);
    var ps := PiecesOf(objs, k);
    forall o, s | Wanted(objs, o, s, k)
      ensures Holds(ps, o, s)
    {
      assert Before(o, s, |objs|, 0);
    }
  }

  /** Tight pieces do not overlap and all end by the recorded size. */
  lemma {:induction false} TightDisjoint(objs: seq<Object>, k: Kind, ps: seq<Piece>, i: nat, j: nat)
    requires Tight(objs, k, ps) && i < j <= |ps|
    ensures ps[i].offset + SectionOf(objs, ps[i]).size <= PrevEnd(objs, ps, j)
    ensures j < |ps| ==> ps[i].offset + SectionOf(objs, ps[i]).size <= ps[j].offset
    decreases j
  {
    if i + 1 < j {
      TightDisjoint(objs, k, ps, i, j - 1);
    }
  }

  lemma PieceWithin(objs: seq<Object>, k: Kind, i: nat)
    requires ValidObjects(objs) && i < |PiecesOf(objs, k)|
    ensures IsSection(objs, PiecesOf(objs, k)[i].obj, PiecesOf(objs, k)[i].section)
    ensures PiecesOf(objs, k)[i].kind == k
    ensures 0 < SectionOf(objs, PiecesOf(objs, k)[i]).size
    ensures PiecesOf(objs, k)[i].offset + SectionOf(objs, PiecesOf(objs, k)[i]).size <= SizeOf(objs, k)
  {
    LayoutCorrect(objs, k);
    TightDisjoint(objs, k, PiecesOf(objs, k), i, |PiecesOf(objs, k)|);
  }

  /** Text and rodata stay inside the address windows that lie below the next segment in use. */
  predicate WindowsHold(text: nat, rodata: nat, data: nat, bss: nat)
  {
    && (rodata > 0 ==> text <= RODATA_ADDR - TEXT_ADDR)
    && (data > 0 || bss > 0 ==> text <= DATA_ADDR - TEXT_ADDR && rodata <= DATA_ADDR - RODATA_ADDR)
  }

  predicate LayoutFits(objs: seq<Object>)
  {
    WindowsHold(SizeOf(objs, Text), SizeOf(objs, Rodata), SizeOf(objs, Data), SizeOf(objs, Bss))
  }

  function Rank(k: Kind): nat
  {
    match k case Text => 0 case Rodata => 1 case Data => 2 case Bss => 3
  }

  /** The kinds in use are laid out one after the other in memory. */
  lemma KindsApart(objs: seq<Object>, k: Kind, k': Kind)
    requires LayoutFits(objs) && Rank(k) < Rank(k') && SizeOf(objs, k') > 0
    ensures BaseOf(objs, k) + SizeOf(objs, k) <= BaseOf(objs, k')
  {
  }

  /** No two pieces share an address. */
  lemma AddressesDisjoint(objs: seq<Object>, k: Kind, i: nat, k': Kind, j: nat)
    requires ValidObjects(objs) && LayoutFits(objs)
    requires i < |PiecesOf(objs, k)| && j < |PiecesOf(objs, k')|
    requires Rank(k) < Rank(k') || (k == k' && i < j)
    ensures
      var p, q := PiecesOf(objs, k)[i], PiecesOf(objs, k')[j];
      && IsSection(objs, p.obj, p.section)
      && PieceAddr(objs, p) + SectionOf(objs, p).size <= PieceAddr(objs, q)
  {
    PieceWithin(objs, k, i);
    PieceWithin(objs, k', j);
    if k == k' {
      LayoutCorrect(objs, k);
      TightDisjoint(objs, k, PiecesOf(objs, k), i, j);
    } else {
      KindsApart(objs, k, k');
    }
  }

  lemma ModAdd(a: nat, b: nat, m: nat)
    requires m > 0 && b % m == 0
    ensures (a + b) % m == a % m
  {
    assert b == m * (b / m);
    assert a == m * (a / m) + a % m;
    assert a + b == m * (a / m + b / m) + a % m;
    DivModUnique(a + b, m, a / m + b / m, a % m);
  }

  lemma DividesThrough(a: nat, m: nat, n: nat)
    requires m > 0 && n > 0 && n % m == 0 && a % n == 0
    ensures a % m == 0
  {
    assert n == m * (n / m) && a == n * (a / n);
    assert a == m * ((n / m) * (a / n));
    DivModUnique(a, m, (n / m) * (a / n), 0);
  }

  /** A piece's address honours its alignment exactly when its output section's base does;
      that holds for alignments dividing 0x1000, and for those dividing 16 in `.bss`. */
  lemma AddressAligned(objs: seq<Object>, k: Kind, i: nat)
    requires ValidObjects(objs) && i < |PiecesOf(objs, k)|
    ensures
      var p := PiecesOf(objs, k)[i];
      && IsSection(objs, p.obj, p.section)
      && var align := Max(SectionOf(objs, p).align, 1);
         && (PieceAddr(objs, p) % align == 0 <==> BaseOf(objs, k) % align == 0)
         && ((if k == Bss then 16 else 0x1000) % align == 0 ==> PieceAddr(objs, p) % align == 0)
  {
    LayoutCorrect(objs, k);
    var ps := PiecesOf(objs, k);
    var p := ps[i];
    var align := Max(SectionOf(objs, p).align, 1);
    assert p.offset == AlignUp(PrevEnd(objs, ps, i), align);
    AlignUpMultiple(PrevEnd(objs, ps, i), align);
    ModAdd(BaseOf(objs, k), p.offset, align);
    if k == Bss {
      AlignUpMultiple(SizeOf(objs, Data), 16);
      ModAdd(DATA_ADDR, AlignUp(SizeOf(objs, Data), 16), 16);
      if 16 % align == 0 {
        DividesThrough(BaseOf(objs, k), align, 16);
      }
    } else if 0x1000 % align == 0 {
      DividesThrough(BaseOf(objs, k), align, 0x1000);
    }
  }

  // ----- the layout as the program computes it ----------------------------------------

  function SizeIn(cursor: map<Kind, nat>, k: Kind): nat
  {
    if k in cursor then cursor[k] else 0
  }

  method LayOutKind(objs: seq<Object>, k: Kind, before: seq<Piece>, cursorBefore: map<Kind, nat>)
    returns (pieces: seq<Piece>, cursor: map<Kind, nat>)
    requires k !in cursorBefore
    ensures pieces == before + PiecesOf(objs, k)
    ensures SizeIn(cursor, k) == SizeOf(objs, k)
    ensures cursor - {k} == cursorBefore
  {
    pieces, cursor := before, cursorBefore;
    for o := 0 to |objs|
      invariant pieces == before + PlaceKind(objs, o, k).pieces
      invariant SizeIn(cursor, k) == PlaceKind(objs, o, k).end
      invariant cursor - {k} == cursorBefore
    {
      for n := 0 to |objs[o].sections|
        invariant pieces == before + PlaceObject(objs, o, n, k).pieces
        invariant SizeIn(cursor, k) == PlaceObject(objs, o, n, k).end
        invariant cursor - {k} == cursorBefore
      {
        var s := objs[o].sections[n];
        if KindOf(s) != Some(k) || s.size == 0 {
          continue;
        }
        var at := AlignUp(SizeIn(cursor, k), Max(s.align, 1));
        pieces := pieces + [Piece(o, s.index, k, at)];
        cursor := cursor[k := at + s.size];
      }
    }
  }

  method LayOut(objs: seq<Object>) returns (pieces: seq<Piece>, cursor: map<Kind, nat>)
    ensures pieces == Pieces(objs)
    ensures forall k :: SizeIn(cursor, k) == SizeOf(objs, k)
  {
    pieces, cursor := [], map[];
    var kinds := [Text, Rodata, Data, Bss];
    for i := 0 to 4
      invariant forall k | Rank(k) < i :: SizeIn(cursor, k) == SizeOf(objs, k)
      invariant forall k | Rank(k) >= i :: k !in cursor
      invariant pieces ==
        (if i > 0 then PiecesOf(objs, Text) else []) + (if i > 1 then PiecesOf(objs, Rodata) else [])
        + (if i > 2 then PiecesOf(objs, Data) else []) + (if i > 3 then PiecesOf(objs, Bss) else [])
    {
      pieces, cursor := LayOutKind(objs, kinds[i], pieces, cursor);
    }
  }
}
