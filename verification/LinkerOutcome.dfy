/** When a link succeeds, and what its result does not depend on. */
module LinkerOutcome {
  import opened Wrappers
  import opened Bytes
  import opened ElfObject
  import opened LinkerLayout
  import opened LinkerSymbols
  import opened LinkerImage
  import opened LinkerRelocate
  import opened LinkerContents
  import opened LinkerMeaning
  import opened LinkerFile
  import opened LinkerMain

  // ----- success ----------------------------------------------------------------------------------

  predicate LinkableInput(obj: Object)
  {
    obj.eType == ET_REL && obj.eMachine == EM_X86_64
  }

  lemma {:induction false} GoodInputs(objs: seq<Object>, m: nat)
    requires m <= |objs|
    ensures BadInput(objs, m).None? <==> forall o | 0 <= o < m :: LinkableInput(objs[o])
  {
    if m > 0 {
      GoodInputs(objs, m - 1);
    }
  }

  /** The relocation fields of all pieces, in the order they are patched. */
  ghost function Fields(objs: seq<Object>): seq<Attempt>
    requires ValidObjects(objs) && Resolved(objs).Ok?
  {
    PiecesAreSections(objs);
    LocalsPerObject(objs);
    Patches(objs, Resolved(objs).value, Pieces(objs), |Pieces(objs)|)
  }

  /** Every kept section that has contents has them inside its file. */
  ghost predicate SectionsPresent(objs: seq<Object>)
    requires AllSections(objs, Pieces(objs))
  {
    forall m: nat | m < |Pieces(objs)| && Pieces(objs)[m].kind != Bss ::
      var p := Pieces(objs)[m];
      SectionOf(objs, p).offset + SectionOf(objs, p).size <= |objs[p.obj].bytes|
  }

  /** Text and rodata fit into the file that data and the fixed offsets give. */
  predicate ContentsFit(objs: seq<Object>)
  {
    && TEXT_OFF + SizeOf(objs, Text) <= DATA_OFF + Max(SizeOf(objs, Data), 1)
    && RODATA_OFF + SizeOf(objs, Rodata) <= DATA_OFF + Max(SizeOf(objs, Data), 1)
  }

  lemma FillsWhen(objs: seq<Object>, syms: Symbols)
    requires ValidObjects(objs) && Resolved(objs) == Ok(syms) && |syms.locals| == |objs|
    requires AllSections(objs, Pieces(objs))
    ensures Finished(objs, syms).Ok? <==> SectionsPresent(objs) && FieldsFit(objs)
  {
    hide Resolved, Run, Blank, Pieces, Patches, Copies, FieldsFit;
    CopyingSucceedsWhen(objs);
    FieldsFitWhen(objs, syms);
    var ps := Pieces(objs);
    assert Sliced(objs, ps, |ps|) <==> SectionsPresent(objs);
    var copied := Run(Copies(objs, ps, |ps|), Blank(objs));
    if copied.Ok? {
      RunOkWhen(Patches(objs, syms, ps, |ps|), copied.value);
      RunShape(Copies(objs, ps, |ps|), Blank(objs));
    }
  }

  lemma FitsWhen(o: Output)
    requires o.bssBase >= DATA_ADDR
    ensures Assembled(o).Some? <==> FitsFile(o)
  {
  }

  /** A link succeeds if and only if there is an input and every one is an x86-64 relocatable object, no global
      symbol defines a name that was defined before, every kept section is inside its file, every
      relocation refers to something, is of a known kind and has its field inside the output section,
      some symbol defines the entry, and the contents fit the file. */
  lemma LinkSucceedsIff(objs: seq<Object>, entry: Name)
    requires ValidObjects(objs)
    ensures AllSections(objs, Pieces(objs))
    ensures Linked(objs, entry).Ok? <==>
      && |objs| > 0 && (forall o | 0 <= o < |objs| :: LinkableInput(objs[o]))
      && (forall o: nat, n: nat :: !SecondGlobal(objs, o, n)) && SectionsPresent(objs) && FieldsFit(objs)
      && DefinedSomewhere(objs, entry) && ContentsFit(objs)
  {
    hide BadInput, Resolved, Finished, Assembled, SizeOf, Pieces, SecondGlobal, DefinedSomewhere, SectionsPresent,
         FieldsFit;
    GoodInputs(objs, |objs|);
    PiecesAreSections(objs);
    ResolvedMeans(objs);
    if Resolved(objs).Ok? {
      LocalsPerObject(objs);
      var syms := Resolved(objs).value;
      FillsWhen(objs, syms);
      if Finished(objs, syms).Ok? {
        var b := Finished(objs, syms).value;
        BufferSizes(objs, syms, b);
        if entry in syms.globals {
          FitsWhen(OutputOf(objs, syms, b, syms.globals[entry]));
        }
      }
    }
  }

  // ----- the order of relocations -------------------------------------------------------------------

  ghost predicate ReorderedObject(a: Object, b: Object)
  {
    b == a.(relocations := b.relocations) && multiset(a.relocations) == multiset(b.relocations)
  }

  /** The same objects, each with its relocations in any order. */
  ghost predicate Reordered(objs: seq<Object>, objs': seq<Object>)
  {
    && |objs| == |objs'|
    && forall o | 0 <= o < |objs| :: ReorderedObject(objs[o], objs'[o])
  }

  lemma {:induction false} SamePlaceObject(objs: seq<Object>, objs': seq<Object>, o: nat, n: nat, k: Kind)
    requires Reordered(objs, objs') && o < |objs| && n <= |objs[o].sections|
    ensures n <= |objs'[o].sections| && PlaceObject(objs', o, n, k) == PlaceObject(objs, o, n, k)
    decreases o, n + 1
  {
    hide PlaceSection;
    assert ReorderedObject(objs[o], objs'[o]);
    if n == 0 {
      SamePlaceKind(objs, objs', o, k);
    } else {
      SamePlaceObject(objs, objs', o, n - 1, k);
    }
  }

  lemma {:induction false} SamePlaceKind(objs: seq<Object>, objs': seq<Object>, m: nat, k: Kind)
    requires Reordered(objs, objs') && m <= |objs|
    ensures PlaceKind(objs', m, k) == PlaceKind(objs, m, k)
    decreases m, 0
  {
    if m > 0 {
      assert ReorderedObject(objs[m - 1], objs'[m - 1]);
      SamePlaceObject(objs, objs', m - 1, |objs[m - 1].sections|, k);
    }
  }

  lemma SameLayout(objs: seq<Object>, objs': seq<Object>)
    requires Reordered(objs, objs')
    ensures forall k :: SizeOf(objs', k) == SizeOf(objs, k)
    ensures Pieces(objs') == Pieces(objs) && BssBase(objs') == BssBase(objs) && Blank(objs') == Blank(objs)
    ensures forall p :: PieceAddr(objs', p) == PieceAddr(objs, p)
  {
    hide PlaceKind;
    forall k
      ensures PlaceKind(objs', |objs'|, k) == PlaceKind(objs, |objs|, k)
    {
      SamePlaceKind(objs, objs', |objs|, k);
    }
  }

  lemma SameAddresses(objs: seq<Object>, objs': seq<Object>)
    requires Reordered(objs, objs')
    ensures forall o, sym :: AddressOf(objs', o, sym) == AddressOf(objs, o, sym)
  {
    hide Pieces, FindPiece, PieceAddr;
    SameLayout(objs, objs');
  }

  lemma {:induction false} SameDefsUpTo(objs: seq<Object>, objs': seq<Object>, o: nat, n: nat)
    requires Reordered(objs, objs') && o < |objs| && n <= |objs[o].symbols|
    requires forall o, sym :: AddressOf(objs', o, sym) == AddressOf(objs, o, sym)
    ensures n <= |objs'[o].symbols| && DefsUpTo(objs', o, n) == DefsUpTo(objs, o, n)
    decreases o, n + 1
  {
    hide AddressOf;
    assert ReorderedObject(objs[o], objs'[o]);
    if n == 0 {
      SameDefs(objs, objs', o);
    } else {
      SameDefsUpTo(objs, objs', o, n - 1);
      assert DefOf(objs', o, objs'[o].symbols[n - 1]) == DefOf(objs, o, objs[o].symbols[n - 1]);
    }
  }

  lemma {:induction false} SameDefs(objs: seq<Object>, objs': seq<Object>, m: nat)
    requires Reordered(objs, objs') && m <= |objs|
    requires forall o, sym :: AddressOf(objs', o, sym) == AddressOf(objs, o, sym)
    ensures Defs(objs', m) == Defs(objs, m)
    decreases m, 0
  {
    hide AddressOf;
    if m > 0 {
      assert ReorderedObject(objs[m - 1], objs'[m - 1]);
      SameDefsUpTo(objs, objs', m - 1, |objs[m - 1].symbols|);
    }
  }

  lemma SameResolved(objs: seq<Object>, objs': seq<Object>)
    requires Reordered(objs, objs')
    ensures Resolved(objs') == Resolved(objs)
  {
    hide AddressOf, Enter, Defs;
    SameAddresses(objs, objs');
    SameDefs(objs, objs', |objs|);
    forall o | 0 <= o < |objs|
      ensures Locals(objs', o, |objs'[o].symbols|) == Locals(objs, o, |objs[o].symbols|)
    {
      assert ReorderedObject(objs[o], objs'[o]);
    }
    hide Locals;
    if Enter(Defs(objs, |objs|)).Ok? {
      assert Resolved(objs').value.locals == Resolved(objs).value.locals;
    }
  }

  lemma {:induction false} SameCopies(objs: seq<Object>, objs': seq<Object>, ps: seq<Piece>, m: nat)
    requires Reordered(objs, objs') && m <= |ps| && AllSections(objs, ps) && AllSections(objs', ps)
    ensures Copies(objs', ps, m) == Copies(objs, ps, m)
  {
    if m > 0 {
      SameCopies(objs, objs', ps, m - 1);
      assert IsSection(objs, ps[m - 1].obj, ps[m - 1].section);
      assert ReorderedObject(objs[ps[m - 1].obj], objs'[ps[m - 1].obj]);
    }
  }

  /** The fields that some relocations patch in a piece. */
  ghost function FieldsOf(objs: seq<Object>, syms: Symbols, p: Piece, rs: seq<Relocation>): seq<Attempt>
    requires p.obj < |objs| && |syms.locals| == |objs|
  {
    if |rs| == 0 then []
    else
      var r := rs[|rs| - 1];
      FieldsOf(objs, syms, p, rs[..|rs| - 1]) + if r.target == p.section then [PatchOf(objs, syms, p, r)] else []
  }

  lemma {:induction false} FieldsJoin(objs: seq<Object>, syms: Symbols, p: Piece,
                                      a: seq<Relocation>, b: seq<Relocation>)
    requires p.obj < |objs| && |syms.locals| == |objs|
    ensures FieldsOf(objs, syms, p, a + b) == FieldsOf(objs, syms, p, a) + FieldsOf(objs, syms, p, b)
  {
    hide PatchOf;
    if |b| == 0 {
      assert a + b == a;
    } else {
      assert (a + b)[..|a + b| - 1] == a + b[..|b| - 1];
      FieldsJoin(objs, syms, p, a, b[..|b| - 1]);
    }
  }

  lemma PlaceOf(init: seq<Relocation>, r: Relocation, b: seq<Relocation>) returns (j: nat)
    requires multiset(init + [r]) == multiset(b)
    ensures j < |b| && b[j] == r && multiset(init) == multiset(b[..j] + b[j + 1..])
  {
    assert r in multiset(b);
    j :| 0 <= j < |b| && b[j] == r;
    var left, right := b[..j], b[j + 1..];
    assert b == left + [r] + right;
    assert multiset(init + [r]) - multiset{r} == multiset(init);
    assert multiset(left + [r] + right) - multiset{r} == multiset(left + right);
  }

  lemma FieldsWithout(objs: seq<Object>, syms: Symbols, p: Piece, b: seq<Relocation>, j: nat)
    requires p.obj < |objs| && |syms.locals| == |objs| && j < |b|
    ensures multiset(FieldsOf(objs, syms, p, b))
         == multiset(FieldsOf(objs, syms, p, b[..j] + b[j + 1..])) + multiset(FieldsOf(objs, syms, p, [b[j]]))
  {
    hide PatchOf, FieldsOf;
    var left, r, right := b[..j], [b[j]], b[j + 1..];
    assert b == left + r + right;
    FieldsJoin(objs, syms, p, left, right);
    FieldsJoin(objs, syms, p, left, r);
    FieldsJoin(objs, syms, p, left + r, right);
  }

  /** Reordered relocations give reordered fields. */
  lemma {:induction false} FieldsReordered(objs: seq<Object>, syms: Symbols, p: Piece,
                                           a: seq<Relocation>, b: seq<Relocation>)
    requires p.obj < |objs| && |syms.locals| == |objs| && multiset(a) == multiset(b)
    ensures multiset(FieldsOf(objs, syms, p, a)) == multiset(FieldsOf(objs, syms, p, b))
    decreases |a|
  {
    hide PatchOf, FieldsOf;
    if |a| == 0 {
      assert |multiset(b)| == 0;
      assert b == a;
    } else {
      var init, r := a[..|a| - 1], a[|a| - 1];
      assert a == init + [r];
      var j := PlaceOf(init, r, b);
      FieldsReordered(objs, syms, p, init, b[..j] + b[j + 1..]);
      FieldsJoin(objs, syms, p, init, [r]);
      FieldsWithout(objs, syms, p, b, j);
    }
  }

  lemma {:induction false} PatchesAreFields(objs: seq<Object>, syms: Symbols, ps: seq<Piece>, i: nat, n: nat)
    requires i < |ps| && AllSections(objs, ps) && |syms.locals| == |objs| && n <= |objs[ps[i].obj].relocations|
    ensures PatchesUpTo(objs, syms, ps, i, n)
         == Patches(objs, syms, ps, i) + FieldsOf(objs, syms, ps[i], objs[ps[i].obj].relocations[..n])
    decreases n
  {
    hide PatchOf, Patches;
    if n > 0 {
      var rs := objs[ps[i].obj].relocations;
      assert rs[..n][..n - 1] == rs[..n - 1];
      PatchesAreFields(objs, syms, ps, i, n - 1);
    }
  }

  lemma {:induction false} SameField(objs: seq<Object>, objs': seq<Object>, syms: Symbols, p: Piece,
                                     rs: seq<Relocation>)
    requires Reordered(objs, objs') && p.obj < |objs| && |syms.locals| == |objs|
    ensures FieldsOf(objs', syms, p, rs) == FieldsOf(objs, syms, p, rs)
  {
    hide PieceAddr, FieldBytes;
    if |rs| > 0 {
      SameLayout(objs, objs');
      assert ReorderedObject(objs[p.obj], objs'[p.obj]);
      assert PatchOf(objs', syms, p, rs[|rs| - 1]) == PatchOf(objs, syms, p, rs[|rs| - 1]);
      hide PatchOf;
      SameField(objs, objs', syms, p, rs[..|rs| - 1]);
    }
  }

  lemma {:induction false} PatchesReordered(objs: seq<Object>, objs': seq<Object>, syms: Symbols,
                                            ps: seq<Piece>, m: nat)
    requires Reordered(objs, objs') && |syms.locals| == |objs| && m <= |ps|
    requires AllSections(objs, ps) && AllSections(objs', ps)
    ensures multiset(Patches(objs', syms, ps, m)) == multiset(Patches(objs, syms, ps, m))
  {
    hide FieldsOf, PatchesUpTo;
    if m > 0 {
      PatchesReordered(objs, objs', syms, ps, m - 1);
      var p := ps[m - 1];
      assert IsSection(objs, p.obj, p.section);
      assert ReorderedObject(objs[p.obj], objs'[p.obj]);
      if p.kind != Bss {
        var rs, rs' := objs[p.obj].relocations, objs'[p.obj].relocations;
        assert rs[..|rs|] == rs && rs'[..|rs'|] == rs';
        PatchesAreFields(objs, syms, ps, m - 1, |rs|);
        PatchesAreFields(objs', syms, ps, m - 1, |rs'|);
        SameField(objs, objs', syms, p, rs');
        FieldsReordered(objs, syms, p, rs, rs');
      }
    }
  }

  lemma TwiceInOther(ws: seq<Attempt>, i: nat, j: nat)
    requires i < |ws| && j < |ws| && i != j && ws[i] == ws[j]
    ensures multiset(ws)[ws[i]] >= 2
  {
    var lo, hi := if i < j then i else j, if i < j then j else i;
    assert ws == ws[..lo] + [ws[lo]] + ws[lo + 1..hi] + [ws[hi]] + ws[hi + 1..];
  }

  lemma OnceMore(ws: seq<Attempt>, a: nat)
    requires a < |ws| && multiset(ws)[ws[a]] >= 2
    ensures exists b :: 0 <= b < |ws| && b != a && ws[b] == ws[a]
  {
    var rest := ws[..a] + ws[a + 1..];
    assert ws == ws[..a] + [ws[a]] + ws[a + 1..];
    assert multiset(rest)[ws[a]] >= 1;
    assert ws[a] in rest;
    var b :| 0 <= b < |rest| && rest[b] == ws[a];
    assert ws[if b < a then b else b + 1] == ws[a];
  }

  lemma TwoPlaces(ws: seq<Attempt>, ws': seq<Attempt>, i: nat, j: nat)
    requires multiset(ws) == multiset(ws') && i < |ws'| && j < |ws'| && i != j
    ensures exists a, b :: 0 <= a < |ws| && 0 <= b < |ws| && a != b && ws[a] == ws'[i] && ws[b] == ws'[j]
  {
    assert ws'[i] in multiset(ws') && ws'[j] in multiset(ws');
    var a :| 0 <= a < |ws| && ws[a] == ws'[i];
    if ws'[i] == ws'[j] {
      TwiceInOther(ws', i, j);
      OnceMore(ws, a);
    } else {
      var b :| 0 <= b < |ws| && ws[b] == ws'[j];
    }
  }

  /** Disjointness does not depend on the order. */
  lemma DisjointReordered(ws: seq<Attempt>, ws': seq<Attempt>)
    requires multiset(ws) == multiset(ws') && PairwiseDisjoint(ws)
    ensures PairwiseDisjoint(ws')
  {
    forall i, j, k, pos | 0 <= i < |ws'| && 0 <= j < |ws'| && ws'[i].Ok? && ws'[j].Ok?
                          && ws'[i].value.Covers(k, pos) && ws'[j].value.Covers(k, pos)
      ensures i == j
    {
      if i != j {
        TwoPlaces(ws, ws', i, j);
      }
    }
  }

  lemma SameInputs(objs: seq<Object>, objs': seq<Object>)
    requires Reordered(objs, objs') && BadInput(objs, |objs|).None?
    ensures BadInput(objs', |objs'|).None?
  {
    GoodInputs(objs, |objs|);
    GoodInputs(objs', |objs'|);
    forall o | 0 <= o < |objs'|
      ensures LinkableInput(objs'[o])
    {
      assert ReorderedObject(objs[o], objs'[o]) && LinkableInput(objs[o]);
    }
  }

  lemma SameFinished(objs: seq<Object>, objs': seq<Object>, syms: Symbols)
    requires ValidObjects(objs) && ValidObjects(objs') && Reordered(objs, objs')
    requires Resolved(objs) == Ok(syms) && |syms.locals| == |objs| && Finished(objs, syms).Ok?
    requires PairwiseDisjoint(Fields(objs))
    ensures Finished(objs', syms) == Finished(objs, syms)
  {
    hide Resolved, Run, Pieces, Patches, Copies, Blank, PairwiseDisjoint;
    PiecesAreSections(objs);
    PiecesAreSections(objs');
    SameLayout(objs, objs');
    var ps := Pieces(objs);
    SameCopies(objs, objs', ps, |ps|);
    PatchesReordered(objs, objs', syms, ps, |ps|);
    var ws, ws' := Patches(objs, syms, ps, |ps|), Patches(objs', syms, ps, |ps|);
    assert ws == Fields(objs);
    DisjointReordered(ws, ws');
    OrderIrrelevant(ws, ws', Run(Copies(objs, ps, |ps|), Blank(objs)).value);
  }

  /** When relocation fields do not overlap, the order of each object's relocations does not matter: the
      linked file is the same, byte for byte. */
  lemma RelocationOrderIrrelevant(objs: seq<Object>, objs': seq<Object>, entry: Name)
    requires ValidObjects(objs) && Reordered(objs, objs') && Linked(objs, entry).Ok?
    requires Resolved(objs).Ok? && PairwiseDisjoint(Fields(objs))
    ensures ValidObjects(objs') && Linked(objs', entry) == Linked(objs, entry)
  {
    hide Resolved, Assembled, BadInput, Finished, Fields, PairwiseDisjoint;
    forall o | 0 <= o < |objs'|
      ensures objs'[o].Valid()
    {
      assert ReorderedObject(objs[o], objs'[o]) && objs[o].Valid();
    }
    SameInputs(objs, objs');
    SameResolved(objs, objs');
    SameLayout(objs, objs');
    LocalsPerObject(objs);
    SameFinished(objs, objs', Resolved(objs).value);
  }
}
