/** What symbols, references and relocation fields mean, read off the input objects alone. */
module LinkerMeaning {
  import opened Wrappers
  import opened Bytes
  import opened ElfObject
  import opened LinkerLayout
  import opened LinkerSymbols
  import opened LinkerImage
  import opened LinkerRelocate
  import opened LinkerContents

  // ----- addresses --------------------------------------------------------------------------------

  /** The symbol is defined and has a name or stands for a section, and `a` is its address: its value, counted
      from where the linker put its own object's section unless it is absolute. */
  ghost predicate AddressIs(objs: seq<Object>, o: nat, sym: Symbol, a: nat)
  {
    && sym.shndx != SHN_UNDEF && (sym.name != [] || sym.stype == STT_SECTION)
    && if sym.shndx == SHN_ABS then a == sym.value
       else exists p :: p in Pieces(objs) && p.obj == o && p.section == sym.shndx && a == PieceAddr(objs, p) + sym.value
  }

  /** A section is placed once. */
  lemma OnePiece(objs: seq<Object>, p: Piece, q: Piece)
    requires ValidObjects(objs) && p in Pieces(objs) && q in Pieces(objs) && p.obj == q.obj && p.section == q.section
    ensures p == q
  {
    hide Pieces, PiecesOf, Wanted;
    var m :| 0 <= m < |Pieces(objs)| && Pieces(objs)[m] == p;
    var m' :| 0 <= m' < |Pieces(objs)| && Pieces(objs)[m'] == q;
    var k, i := KindOfPiece(objs, m);
    var k', i' := KindOfPiece(objs, m');
    LayoutCorrect(objs, k);
    LayoutCorrect(objs, k');
    assert Wanted(objs, p.obj, p.section, k) && Wanted(objs, p.obj, p.section, k');
    KindWanted(objs, p.obj, p.section, k);
    KindWanted(objs, p.obj, p.section, k');
    assert i == i';
  }

  lemma AddressMeans(objs: seq<Object>, o: nat, sym: Symbol, a: nat)
    requires ValidObjects(objs)
    ensures AddressOf(objs, o, sym) == Some(a) <==> AddressIs(objs, o, sym, a)
  {
    hide FindPiece, Pieces, PieceAddr;
    var ps := Pieces(objs);
    FindPieceMember(ps, o, sym.shndx);
    forall p | p in ps && p.obj == o && p.section == sym.shndx
      ensures FindPiece(ps, o, sym.shndx) == Some(p)
    {
      var m :| 0 <= m < |ps| && ps[m] == p;
      assert Holds(ps, o, sym.shndx);
      OnePiece(objs, p, FindPiece(ps, o, sym.shndx).value);
    }
  }

  // ----- definitions ------------------------------------------------------------------------------

  predicate IsSymbol(objs: seq<Object>, o: nat, n: nat)
  {
    o < |objs| && n < |objs[o].symbols|
  }

  /** Symbol `n` of object `o` defines `name` for every object: it is global or weak and has an address. */
  ghost predicate Defines(objs: seq<Object>, o: nat, n: nat, name: Name)
  {
    && IsSymbol(objs, o, n)
    && var sym := objs[o].symbols[n];
       && name != [] && sym.name == name && (sym.bind == STB_GLOBAL || sym.bind == STB_WEAK)
       && exists a :: AddressIs(objs, o, sym, a)
  }

  ghost predicate DefinedBefore(objs: seq<Object>, o: nat, n: nat, name: Name)
  {
    exists o': nat, n': nat :: Before(o', n', o, n) && Defines(objs, o', n', name)
  }

  /** Symbol `n` of object `o` defines `name`, and no symbol of an earlier object, or earlier in this one, does. */
  ghost predicate DefinesFirst(objs: seq<Object>, o: nat, n: nat, name: Name)
  {
    Defines(objs, o, n, name) && !DefinedBefore(objs, o, n, name)
  }

  /** A global symbol that defines a name which was defined before. */
  ghost predicate SecondGlobal(objs: seq<Object>, o: nat, n: nat)
  {
    && IsSymbol(objs, o, n) && objs[o].symbols[n].bind == STB_GLOBAL
    && Defines(objs, o, n, objs[o].symbols[n].name) && DefinedBefore(objs, o, n, objs[o].symbols[n].name)
  }

  ghost predicate SecondGlobalBefore(objs: seq<Object>, o: nat, n: nat)
  {
    exists o': nat, n': nat :: Before(o', n', o, n) && SecondGlobal(objs, o', n')
  }

  /** The table holds exactly the names defined before `(o, n)`, each with its first definition's address. */
  ghost predicate HoldsFirst(objs: seq<Object>, t: Table, o: nat, n: nat)
  {
    && (forall name :: name in t <==> DefinedBefore(objs, o, n, name))
    && (forall o': nat, n': nat, name | Before(o', n', o, n) && DefinesFirst(objs, o', n', name) ::
          name in t && AddressIs(objs, o', objs[o'].symbols[n'], t[name]))
  }

  lemma BeforeNext(objs: seq<Object>, o: nat, n: nat, name: Name)
    ensures DefinedBefore(objs, o, n + 1, name) <==> DefinedBefore(objs, o, n, name) || Defines(objs, o, n, name)
    ensures SecondGlobalBefore(objs, o, n + 1) <==> SecondGlobalBefore(objs, o, n) || SecondGlobal(objs, o, n)
  {
    hide Defines, SecondGlobal;
    assert Before(o, n, o, n + 1);
  }

  lemma HoldsFirstNext(objs: seq<Object>, t: Table, t': Table, o: nat, n: nat, name: Name)
    requires IsSymbol(objs, o, n) && name == objs[o].symbols[n].name && HoldsFirst(objs, t, o, n)
    requires name in t || !Defines(objs, o, n, name) ==> t' == t
    requires name !in t && Defines(objs, o, n, name) ==>
      exists a: nat :: AddressIs(objs, o, objs[o].symbols[n], a) && t' == t[name := a]
    ensures HoldsFirst(objs, t', o, n + 1)
  {
    hide AddressIs;
    forall other
      ensures other in t' <==> DefinedBefore(objs, o, n + 1, other)
    {
      BeforeNext(objs, o, n, other);
    }
    hide DefinedBefore;
  }

  lemma TableHas(objs: seq<Object>, t: Table, o: nat, n: nat, name: Name)
    requires HoldsFirst(objs, t, o, n)
    ensures name in t <==> DefinedBefore(objs, o, n, name)
  {
  }

  /** One symbol more. */
  lemma SymbolMeans(objs: seq<Object>, o: nat, n: nat)
    requires ValidObjects(objs) && IsSymbol(objs, o, n)
    requires Enter(DefsUpTo(objs, o, n)).Ok? <==> !SecondGlobalBefore(objs, o, n)
    requires Enter(DefsUpTo(objs, o, n)).Ok? ==> HoldsFirst(objs, Enter(DefsUpTo(objs, o, n)).value, o, n)
    ensures Enter(DefsUpTo(objs, o, n + 1)).Ok? <==> !SecondGlobalBefore(objs, o, n + 1)
    ensures Enter(DefsUpTo(objs, o, n + 1)).Ok? ==> HoldsFirst(objs, Enter(DefsUpTo(objs, o, n + 1)).value, o, n + 1)
  {
    hide AddressOf, AddressIs, Enter, DefsUpTo, Locals, HoldsFirst, DefinedBefore, SecondGlobalBefore;
    var sym := objs[o].symbols[n];
    BeforeNext(objs, o, n, sym.name);
    if Enter(DefsUpTo(objs, o, n)).Ok? {
      var t := Enter(DefsUpTo(objs, o, n)).value;
      SymbolStep(objs, o, n, t);
      forall a: nat
        ensures AddressOf(objs, o, sym) == Some(a) <==> AddressIs(objs, o, sym, a)
      {
        AddressMeans(objs, o, sym, a);
      }
      assert sym.name in t <==> DefinedBefore(objs, o, n, sym.name) by {
        TableHas(objs, t, o, n, sym.name);
      }
      if Enter(DefsUpTo(objs, o, n + 1)).Ok? {
        HoldsFirstNext(objs, t, Enter(DefsUpTo(objs, o, n + 1)).value, o, n, sym.name);
      }
    } else {
      DefsExtend(objs, o, n, o, n + 1);
      var ds, more := DefsUpTo(objs, o, n), DefsUpTo(objs, o, n + 1)[|DefsUpTo(objs, o, n)|..];
      assert DefsUpTo(objs, o, n + 1) == ds + more;
      EnterErrSticks(ds, more);
    }
  }

  lemma EndOfObject(objs: seq<Object>, o: nat)
    requires o < |objs|
    ensures forall name :: DefinedBefore(objs, o + 1, 0, name) <==> DefinedBefore(objs, o, |objs[o].symbols|, name)
    ensures SecondGlobalBefore(objs, o + 1, 0) <==> SecondGlobalBefore(objs, o, |objs[o].symbols|)
    ensures forall t :: HoldsFirst(objs, t, o, |objs[o].symbols|) ==> HoldsFirst(objs, t, o + 1, 0)
  {
  }

  lemma {:induction false} ObjectsMean(objs: seq<Object>, o: nat)
    requires ValidObjects(objs) && o <= |objs|
    ensures Enter(Defs(objs, o)).Ok? <==> !SecondGlobalBefore(objs, o, 0)
    ensures Enter(Defs(objs, o)).Ok? ==> HoldsFirst(objs, Enter(Defs(objs, o)).value, o, 0)
    decreases o, 0
  {
    hide Enter, DefsUpTo;
    if o == 0 {
      NothingEntered(objs, 0);
    } else {
      SymbolsMean(objs, o - 1, |objs[o - 1].symbols|);
      EndOfObject(objs, o - 1);
    }
  }

  lemma {:induction false} SymbolsMean(objs: seq<Object>, o: nat, n: nat)
    requires ValidObjects(objs) && o < |objs| && n <= |objs[o].symbols|
    ensures Enter(DefsUpTo(objs, o, n)).Ok? <==> !SecondGlobalBefore(objs, o, n)
    ensures Enter(DefsUpTo(objs, o, n)).Ok? ==> HoldsFirst(objs, Enter(DefsUpTo(objs, o, n)).value, o, n)
    decreases o, n + 1
  {
    hide Enter, HoldsFirst, SecondGlobalBefore;
    if n == 0 {
      ObjectsMean(objs, o);
    } else {
      SymbolsMean(objs, o, n - 1);
      SymbolMeans(objs, o, n - 1);
    }
  }

  /** Some symbol defines the name. */
  ghost predicate DefinedSomewhere(objs: seq<Object>, name: Name)
  {
    exists o: nat, n: nat :: Defines(objs, o, n, name)
  }

  /** Resolution, read off the inputs: it succeeds if and only if no global symbol defines a name that was defined
      before; then the table holds exactly the defined names, each with the address of its first definition. */
  lemma ResolvedMeans(objs: seq<Object>)
    requires ValidObjects(objs)
    ensures Resolved(objs).Ok? <==> forall o: nat, n: nat :: !SecondGlobal(objs, o, n)
    ensures Resolved(objs).Ok? ==>
      var t := Resolved(objs).value.globals;
      && (forall name :: name in t <==> DefinedSomewhere(objs, name))
      && (forall o: nat, n: nat, name | DefinesFirst(objs, o, n, name) ::
            name in t && AddressIs(objs, o, objs[o].symbols[n], t[name]))
  {
    hide Enter, Defs, Locals, AddressIs;
    ObjectsMean(objs, |objs|);
    forall o: nat, n: nat | IsSymbol(objs, o, n)
      ensures Before(o, n, |objs|, 0)
    {
    }
    forall name
      ensures DefinedSomewhere(objs, name) <==> DefinedBefore(objs, |objs|, 0, name)
    {
    }
  }

  // ----- references -------------------------------------------------------------------------------

  ghost predicate FirstAddressIs(objs: seq<Object>, name: Name, s: nat)
  {
    exists o: nat, n: nat :: DefinesFirst(objs, o, n, name) && AddressIs(objs, o, objs[o].symbols[n], s)
  }

  /** Relocation `r` of object `o` is about the address `s`: that of the object's own symbol if it has one, and
      otherwise that of the first definition of its name anywhere. */
  ghost predicate RefersTo(objs: seq<Object>, o: nat, r: Relocation, s: nat)
  {
    && IsSymbol(objs, o, r.sym)
    && var sym := objs[o].symbols[r.sym];
       || AddressIs(objs, o, sym, s)
       || ((forall a: nat :: !AddressIs(objs, o, sym, a)) && FirstAddressIs(objs, sym.name, s))
  }

  lemma {:induction false} SomeFirst(objs: seq<Object>, o: nat, n: nat, name: Name) returns (o': nat, n': nat)
    requires Defines(objs, o, n, name)
    ensures DefinesFirst(objs, o', n', name)
    decreases o, n
  {
    hide Defines;
    if DefinedBefore(objs, o, n, name) {
      var p: nat, q: nat :| Before(p, q, o, n) && Defines(objs, p, q, name);
      o', n' := SomeFirst(objs, p, q, name);
    } else {
      o', n' := o, n;
    }
  }

  lemma FirstAddress(objs: seq<Object>, name: Name, s: nat)
    requires ValidObjects(objs) && Resolved(objs).Ok?
    ensures FirstAddressIs(objs, name, s)
       <==> name in Resolved(objs).value.globals && Resolved(objs).value.globals[name] == s
  {
    hide Resolved, AddressOf, AddressIs;
    ResolvedMeans(objs);
    var t := Resolved(objs).value.globals;
    if FirstAddressIs(objs, name, s) {
      var o: nat, n: nat :| DefinesFirst(objs, o, n, name) && AddressIs(objs, o, objs[o].symbols[n], s);
      AddressMeans(objs, o, objs[o].symbols[n], s);
      AddressMeans(objs, o, objs[o].symbols[n], t[name]);
    }
    if name in t {
      var o: nat, n: nat :| Defines(objs, o, n, name);
      var p, q := SomeFirst(objs, o, n, name);
      assert AddressIs(objs, p, objs[p].symbols[q], t[name]);
    }
  }

  lemma Undefined(objs: seq<Object>, o: nat, sym: Symbol)
    requires sym.shndx == SHN_UNDEF
    ensures AddressOf(objs, o, sym) == None
  {
  }

  /** The linker takes each relocation to be about what it refers to, and finds it undefined when it refers to
      nothing. */
  lemma TargetMeans(objs: seq<Object>, syms: Symbols, o: nat, r: Relocation, s: nat)
    requires ValidObjects(objs) && Resolved(objs) == Ok(syms) && o < |objs| == |syms.locals|
    ensures Target(objs, syms, o, r) == Ok(s) <==> RefersTo(objs, o, r, s)
  {
    hide Enter, Defs, AddressOf, AddressIs, FirstAddressIs;
    if IsSymbol(objs, o, r.sym) {
      var sym := objs[o].symbols[r.sym];
      assert objs[o].Valid();
      assert syms.locals[o] == Locals(objs, o, |objs[o].symbols|);
      forall a: nat
        ensures AddressOf(objs, o, sym) == Some(a) <==> AddressIs(objs, o, sym, a)
      {
        AddressMeans(objs, o, sym, a);
      }
      if sym.shndx == SHN_UNDEF {
        Undefined(objs, o, sym);
      }
      FirstAddress(objs, sym.name, s);
    }
  }

  /** A reference is to one address. */
  lemma RefersToOne(objs: seq<Object>, o: nat, r: Relocation, s: nat, s': nat)
    requires ValidObjects(objs) && Resolved(objs).Ok? && RefersTo(objs, o, r, s) && RefersTo(objs, o, r, s')
    ensures s == s'
  {
    hide Resolved, AddressIs, FirstAddressIs, Target;
    LocalsPerObject(objs);
    TargetMeans(objs, Resolved(objs).value, o, r, s);
    TargetMeans(objs, Resolved(objs).value, o, r, s');
  }

  // ----- fields -----------------------------------------------------------------------------------

  /** What the linker stores at address `site` for a relocation of this kind about `s`: four bytes of S - P, eight of
      S, or four of S. */
  ghost predicate FieldIs(kind: nat, s: nat, site: nat, field: seq<byte>)
  {
    || (kind == R_X86_64_64 && field == LittleEndian(s, 8))
    || ((kind == R_X86_64_32 || kind == R_X86_64_32S) && field == LittleEndian(s, 4))
    || ((kind == R_X86_64_PC32 || kind == R_X86_64_PLT32 || kind == R_X86_64_GOTPCREL
         || kind == R_X86_64_GOTPCRELX || kind == R_X86_64_REX_GOTPCRELX) && field == LittleEndian(s - site, 4))
  }

  lemma FieldMeans(kind: nat, s: nat, site: nat)
    ensures Supported(kind) <==> exists field :: FieldIs(kind, s, site, field)
    ensures Supported(kind) ==> FieldIs(kind, s, site, FieldBytes(kind, s, site))
  {
    hide LittleEndian;
    if Supported(kind) {
      assert FieldIs(kind, s, site, FieldBytes(kind, s, site));
    }
  }

  /** Relocation `n` of its object is about piece `m`, which has contents to patch. */
  predicate Patched(objs: seq<Object>, m: nat, n: nat)
    requires AllSections(objs, Pieces(objs))
  {
    && m < |Pieces(objs)| && Pieces(objs)[m].kind != Bss
    && n < |objs[Pieces(objs)[m].obj].relocations|
    && objs[Pieces(objs)[m].obj].relocations[n].target == Pieces(objs)[m].section
  }

  lemma {:induction false} PatchIn(objs: seq<Object>, syms: Symbols, ps: seq<Piece>, i: nat, n: nat, n': nat)
    requires i < |ps| && AllSections(objs, ps) && |syms.locals| == |objs|
    requires n < n' <= |objs[ps[i].obj].relocations|
    requires objs[ps[i].obj].relocations[n].target == ps[i].section
    ensures PatchOf(objs, syms, ps[i], objs[ps[i].obj].relocations[n]) in PatchesUpTo(objs, syms, ps, i, n')
    decreases n'
  {
    hide PatchOf;
    if n < n' - 1 {
      PatchIn(objs, syms, ps, i, n, n' - 1);
    }
  }

  ghost predicate IsPatch(objs: seq<Object>, syms: Symbols, ps: seq<Piece>, i: nat, n: nat, a: Attempt)
    requires AllSections(objs, ps) && |syms.locals| == |objs|
  {
    && i < |ps| && ps[i].kind != Bss && n < |objs[ps[i].obj].relocations|
    && objs[ps[i].obj].relocations[n].target == ps[i].section
    && a == PatchOf(objs, syms, ps[i], objs[ps[i].obj].relocations[n])
  }

  lemma {:induction false} PatchesUpToFrom(objs: seq<Object>, syms: Symbols, ps: seq<Piece>, i: nat, n: nat, a: Attempt)
    requires i < |ps| && AllSections(objs, ps) && |syms.locals| == |objs| && ps[i].kind != Bss
    requires n <= |objs[ps[i].obj].relocations| && a in PatchesUpTo(objs, syms, ps, i, n)
    ensures exists i': nat, n': nat :: i' <= i && IsPatch(objs, syms, ps, i', n', a)
    decreases i, n + 1
  {
    hide PatchOf;
    if n == 0 {
      PatchesFrom(objs, syms, ps, i, a);
    } else if a in PatchesUpTo(objs, syms, ps, i, n - 1) {
      PatchesUpToFrom(objs, syms, ps, i, n - 1, a);
    } else {
      assert IsPatch(objs, syms, ps, i, n - 1, a);
    }
  }

  lemma {:induction false} PatchesFrom(objs: seq<Object>, syms: Symbols, ps: seq<Piece>, m: nat, a: Attempt)
    requires m <= |ps| && AllSections(objs, ps) && |syms.locals| == |objs| && a in Patches(objs, syms, ps, m)
    ensures exists i: nat, n: nat :: i < m && IsPatch(objs, syms, ps, i, n, a)
    decreases m, 0
  {
    hide IsPatch;
    if ps[m - 1].kind == Bss {
      PatchesFrom(objs, syms, ps, m - 1, a);
    } else {
      PatchesUpToFrom(objs, syms, ps, m - 1, |objs[ps[m - 1].obj].relocations|, a);
    }
  }

  /** The relocation refers to something, is of a known kind, and its field ends inside the output section. */
  ghost predicate FieldFits(objs: seq<Object>, m: nat, n: nat)
    requires AllSections(objs, Pieces(objs)) && Patched(objs, m, n)
  {
    var p := Pieces(objs)[m];
    var r := objs[p.obj].relocations[n];
    exists s: nat, field ::
      && RefersTo(objs, p.obj, r, s) && FieldIs(r.kind, s, PieceAddr(objs, p) + r.offset, field)
      && p.offset + r.offset + |field| <= SizeOf(objs, p.kind)
  }

  lemma PatchFits(objs: seq<Object>, syms: Symbols, m: nat, n: nat)
    requires ValidObjects(objs) && Resolved(objs) == Ok(syms) && |syms.locals| == |objs|
    requires AllSections(objs, Pieces(objs)) && Patched(objs, m, n)
    ensures
      var p := Pieces(objs)[m];
      var a := PatchOf(objs, syms, p, objs[p.obj].relocations[n]);
      a.Ok? && a.value.at + |a.value.bytes| <= SizeOf(objs, p.kind) <==> FieldFits(objs, m, n)
  {
    hide Pieces, Resolved, Target, RefersTo, SizeOf, PieceAddr, FieldBytes, LittleEndian;
    var p := Pieces(objs)[m];
    var r := objs[p.obj].relocations[n];
    var site := PieceAddr(objs, p) + r.offset;
    if FieldFits(objs, m, n) {
      var s: nat, field :| RefersTo(objs, p.obj, r, s) && FieldIs(r.kind, s, site, field)
                           && p.offset + r.offset + |field| <= SizeOf(objs, p.kind);
      TargetMeans(objs, syms, p.obj, r, s);
      FieldMeans(r.kind, s, site);
    }
    if PatchOf(objs, syms, p, r).Ok? {
      var s := Target(objs, syms, p.obj, r).value;
      TargetMeans(objs, syms, p.obj, r, s);
      FieldMeans(r.kind, s, site);
    }
  }

  /** Every relocation of a piece can be carried out. */
  ghost predicate FieldsFit(objs: seq<Object>)
    requires AllSections(objs, Pieces(objs))
  {
    forall m: nat, n: nat | Patched(objs, m, n) :: FieldFits(objs, m, n)
  }

  lemma PatchKind(objs: seq<Object>, syms: Symbols, p: Piece, r: Relocation)
    requires p.obj < |objs| && |syms.locals| == |objs|
    ensures PatchOf(objs, syms, p, r).Ok? ==> PatchOf(objs, syms, p, r).value.kind == p.kind
    ensures p.kind != Bss ==> |Blank(objs).Of(p.kind)| == SizeOf(objs, p.kind)
  {
  }

  lemma FieldsFitWhen(objs: seq<Object>, syms: Symbols)
    requires ValidObjects(objs) && Resolved(objs) == Ok(syms) && |syms.locals| == |objs|
    requires AllSections(objs, Pieces(objs))
    ensures Possible(Patches(objs, syms, Pieces(objs), |Pieces(objs)|), Blank(objs)) <==> FieldsFit(objs)
  {
    hide Pieces, Patches, PatchesUpTo, PatchOf, FieldFits, Resolved, SizeOf;
    var ps := Pieces(objs);
    var ws := Patches(objs, syms, ps, |ps|);
    if Possible(ws, Blank(objs)) {
      forall m: nat, n: nat | Patched(objs, m, n)
        ensures FieldFits(objs, m, n)
      {
        PatchIn(objs, syms, ps, m, n, |objs[ps[m].obj].relocations|);
        PatchesExtend(objs, syms, ps, m, |objs[ps[m].obj].relocations|, |ps|);
        assert PatchOf(objs, syms, ps[m], objs[ps[m].obj].relocations[n]) in ws;
        PatchFits(objs, syms, m, n);
        PatchKind(objs, syms, ps[m], objs[ps[m].obj].relocations[n]);
      }
    }
    if FieldsFit(objs) {
      forall i | 0 <= i < |ws|
        ensures ws[i].Ok? && ws[i].value.at + |ws[i].value.bytes| <= |Blank(objs).Of(ws[i].value.kind)|
      {
        PatchesFrom(objs, syms, ps, |ps|, ws[i]);
        var m: nat, n: nat :| m < |ps| && IsPatch(objs, syms, ps, m, n, ws[i]);
        assert Patched(objs, m, n);
        PatchFits(objs, syms, m, n);
        PatchKind(objs, syms, ps[m], objs[ps[m].obj].relocations[n]);
      }
    }
  }
}
