/** The symbol-resolution phase of the linker. */
module LinkerSymbols {
  import opened Wrappers
  import opened ElfObject
  import opened LinkerLayout

  // ----- addresses of symbols ---------------------------------------------------------

  /** The first piece made from section `s` of object `o`. */
  function FindPiece(ps: seq<Piece>, o: nat, s: nat): Option<Piece>
  {
    if |ps| == 0 then None
    else if ps[0].obj == o && ps[0].section == s then Some(ps[0])
    else FindPiece(ps[1..], o, s)
  }

  /** The address a symbol is recorded with; `None` when the loop skips the symbol. */
  function AddressOf(objs: seq<Object>, o: nat, sym: Symbol): Option<nat>
  {
    if sym.shndx == SHN_UNDEF || (sym.name == [] && sym.stype != STT_SECTION) then None
    else if sym.shndx == SHN_ABS then Some(sym.value)
    else
      match FindPiece(Pieces(objs), o, sym.shndx)
      case None => None
      case Some(p) => Some(PieceAddr(objs, p) + sym.value)
  }

  lemma {:induction false} FindPieceMember(ps: seq<Piece>, o: nat, s: nat)
    ensures FindPiece(ps, o, s) == None <==> !Holds(ps, o, s)
    ensures FindPiece(ps, o, s).Some? ==>
      var p := FindPiece(ps, o, s).value; p in ps && p.obj == o && p.section == s
  {
    if |ps| > 0 {
      FindPieceMember(ps[1..], o, s);
      if Holds(ps, o, s) && !(ps[0].obj == o && ps[0].section == s) {
        var i :| 0 <= i < |ps| && ps[i].obj == o && ps[i].section == s;
        assert ps[1..][i - 1] == ps[i];
      }
    }
  }

  lemma HoldsConcat(ps: seq<Piece>, qs: seq<Piece>, o: nat, s: nat)
    ensures Holds(ps + qs, o, s) <==> Holds(ps, o, s) || Holds(qs, o, s)
  {
    var both := ps + qs;
    if Holds(ps, o, s) {
      var i :| 0 <= i < |ps| && ps[i].obj == o && ps[i].section == s;
      assert both[i] == ps[i];
    } else if Holds(qs, o, s) {
      var i :| 0 <= i < |qs| && qs[i].obj == o && qs[i].section == s;
      assert both[|ps| + i] == qs[i];
    }
  }

  lemma PiecesHold(objs: seq<Object>, o: nat, s: nat)
    ensures Holds(Pieces(objs), o, s) <==> exists k :: Holds(PiecesOf(objs, k), o, s)
  {
    var t, r, d, b := PiecesOf(objs, Text), PiecesOf(objs, Rodata), PiecesOf(objs, Data), PiecesOf(objs, Bss);
    HoldsConcat(t, r, o, s);
    HoldsConcat(t + r, d, o, s);
    HoldsConcat(t + r + d, b, o, s);
    if exists k :: Holds(PiecesOf(objs, k), o, s) {
      var k :| Holds(PiecesOf(objs, k), o, s);
      match k case Text => case Rodata => case Data => case Bss =>
    }
  }

  /** A symbol gets an address exactly when it is defined, has a name or stands for a section, and is
      absolute or lives in a section that is allocated and not empty. The address is its value, from
      the start of its section's piece unless it is absolute. */
  lemma AddressedWhen(objs: seq<Object>, o: nat, sym: Symbol)
    requires ValidObjects(objs) && o < |objs|
    ensures AddressOf(objs, o, sym).Some? <==>
      && sym.shndx != SHN_UNDEF && (sym.name != [] || sym.stype == STT_SECTION)
      && (sym.shndx == SHN_ABS || exists k :: Wanted(objs, o, sym.shndx, k))
    ensures AddressOf(objs, o, sym).Some? ==>
      if sym.shndx == SHN_ABS then AddressOf(objs, o, sym).value == sym.value
      else exists p :: p in Pieces(objs) && p.obj == o && p.section == sym.shndx
                       && AddressOf(objs, o, sym).value == PieceAddr(objs, p) + sym.value
  {
    FindPieceMember(Pieces(objs), o, sym.shndx);
    PiecesHold(objs, o, sym.shndx);
    forall k
      ensures Holds(PiecesOf(objs, k), o, sym.shndx) <==> Wanted(objs, o, sym.shndx, k)
    {
      LayoutCorrect(objs, k);
    }
  }

  // ----- the recorded definitions, in the order they are met --------------------------

  /** A named global (strong) or weak definition. */
  datatype Def = Def(name: Name, strong: bool, addr: nat)

  function DefOf(objs: seq<Object>, o: nat, sym: Symbol): seq<Def>
  {
    match AddressOf(objs, o, sym)
    case None => []
    case Some(addr) =>
      if sym.name != [] && (sym.bind == STB_GLOBAL || sym.bind == STB_WEAK)
      then [Def(sym.name, sym.bind == STB_GLOBAL, addr)]
      else []
  }

  /** The definitions of the first `o` objects and the first `n` symbols of object `o`. */
  function DefsUpTo(objs: seq<Object>, o: nat, n: nat): seq<Def>
    requires o < |objs| && n <= |objs[o].symbols|
    decreases o, n + 1
  {
    if n == 0 then Defs(objs, o)
    else DefsUpTo(objs, o, n - 1) + DefOf(objs, o, objs[o].symbols[n - 1])
  }

  /** The definitions of the first `m` objects. */
  function Defs(objs: seq<Object>, m: nat): seq<Def>
    requires m <= |objs|
    decreases m, 0
  {
    if m == 0 then [] else DefsUpTo(objs, m - 1, |objs[m - 1].symbols|)
  }

  type Table = map<Name, nat>

  /** Entering one more definition. */
  function EnterNext(t: Table, d: Def): Result<Table, LinkError>
  {
    if d.name !in t then Ok(t[d.name := d.addr])
    else if d.strong then Err(MultipleDefinition(d.name))
    else Ok(t)
  }

  /** Entering the definitions one after the other. */
  function Enter(ds: seq<Def>): Result<Table, LinkError>
  {
    if |ds| == 0 then Ok(map[])
    else
      match Enter(ds[..|ds| - 1])
      case Err(e) => Err(e)
      case Ok(t) => EnterNext(t, ds[|ds| - 1])
  }

  /** Definition `i` is the first one of its name. */
  ghost predicate FirstOfName(ds: seq<Def>, i: nat)
    requires i < |ds|
  {
    forall j | 0 <= j < i :: ds[j].name != ds[i].name
  }

  ghost predicate Named(ds: seq<Def>, name: Name)
  {
    exists i :: 0 <= i < |ds| && ds[i].name == name
  }

  ghost predicate StrongFirst(ds: seq<Def>)
  {
    forall i | 0 <= i < |ds| :: ds[i].strong ==> FirstOfName(ds, i)
  }

  /** The table maps exactly the recorded names, each to its first definition's address. */
  ghost predicate FirstDefinitions(ds: seq<Def>, t: Table)
  {
    && (forall name :: name in t <==> Named(ds, name))
    && (forall i | 0 <= i < |ds| && FirstOfName(ds, i) :: ds[i].name in t && t[ds[i].name] == ds[i].addr)
  }

  lemma NamedAppend(ds: seq<Def>, d: Def, name: Name)
    ensures Named(ds + [d], name) <==> Named(ds, name) || name == d.name
  {
    var es := ds + [d];
    assert es[|ds|] == d;
    if Named(ds, name) {
      var i :| 0 <= i < |ds| && ds[i].name == name;
      assert es[i] == ds[i];
    }
  }

  lemma FirstAppend(ds: seq<Def>, d: Def)
    ensures forall i | 0 <= i < |ds| :: FirstOfName(ds + [d], i) <==> FirstOfName(ds, i)
    ensures FirstOfName(ds + [d], |ds|) <==> !Named(ds, d.name)
  {
    var es := ds + [d];
    assert forall i | 0 <= i < |ds| :: es[i] == ds[i];
    assert es[|ds|] == d;
  }

  /** Resolution characterised by history: it succeeds exactly when every strong definition is
      the first of its name, and then the table holds exactly the first definitions; when it
      fails, the error names the first strong definition that came too late. */
  lemma {:induction false} EnterByHistory(ds: seq<Def>)
    ensures Enter(ds).Ok? <==> StrongFirst(ds)
    ensures Enter(ds).Ok? ==> FirstDefinitions(ds, Enter(ds).value)
    ensures Enter(ds).Err? ==>
      exists i :: 0 <= i < |ds| && ds[i].strong && !FirstOfName(ds, i) && StrongFirst(ds[..i])
                  && Enter(ds).error == MultipleDefinition(ds[i].name)
  {
    if |ds| > 0 {
      var n := |ds| - 1;
      var init, d := ds[..n], ds[n];
      assert ds == init + [d];
      EnterByHistory(init);
      FirstAppend(init, d);
      forall name {
        NamedAppend(init, d, name);
      }
      match Enter(init)
      case Err(_) =>
        var i :| 0 <= i < |init| && init[i].strong && !FirstOfName(init, i) && StrongFirst(init[..i])
                 && Enter(init).error == MultipleDefinition(init[i].name);
        assert ds[..i] == init[..i] && ds[i] == init[i];
        assert !FirstOfName(ds, i);
      case Ok(t) =>
        if d.name in t && d.strong {
          assert ds[..n] == init;
          assert !FirstOfName(ds, n);
        } else {
          assert StrongFirst(ds) by {
            forall i | 0 <= i < |ds| && ds[i].strong
              ensures FirstOfName(ds, i)
            {
              if i < n {
                assert ds[i] == init[i];
              }
            }
          }
          forall i | 0 <= i < |ds| && FirstOfName(ds, i)
            ensures ds[i].name in Enter(ds).value && Enter(ds).value[ds[i].name] == ds[i].addr
          {
            if i < n {
              assert ds[i] == init[i] && FirstOfName(init, i);
            }
          }
        }
    }
  }

  lemma {:induction false} EnterErrSticks(ds: seq<Def>, more: seq<Def>)
    requires Enter(ds).Err?
    ensures Enter(ds + more) == Enter(ds)
  {
    if |more| == 0 {
      assert ds + more == ds;
    } else {
      var init := more[..|more| - 1];
      EnterErrSticks(ds, init);
      assert (ds + more)[..|ds + more| - 1] == ds + init;
    }
  }

  /** Later definitions extend earlier ones. */
  lemma {:induction false} DefsExtend(objs: seq<Object>, o: nat, n: nat, o': nat, n': nat)
    requires o <= o' < |objs| && n <= |objs[o].symbols| && n' <= |objs[o'].symbols|
    requires o < o' || n <= n'
    ensures DefsUpTo(objs, o, n) <= DefsUpTo(objs, o', n')
    decreases o', n'
  {
    hide DefOf;
    if o == o' && n == n' {
    } else if n' > 0 {
      DefsExtend(objs, o, n, o', n' - 1);
    } else {
      DefsExtend(objs, o, n, o' - 1, |objs[o' - 1].symbols|);
    }
  }

  // ----- the symbols an object can refer to by index ----------------------------------

  /** Symbols of object `o` among the first `n` that were given an address. */
  function Locals(objs: seq<Object>, o: nat, n: nat): map<nat, nat>
    requires o < |objs| && n <= |objs[o].symbols|
  {
    map i | 0 <= i < n && AddressOf(objs, o, objs[o].symbols[i]).Some?
          :: AddressOf(objs, o, objs[o].symbols[i]).value
  }

  datatype Symbols = Symbols(globals: Table, locals: seq<map<nat, nat>>)

  function Resolved(objs: seq<Object>): Result<Symbols, LinkError>
  {
    match Enter(Defs(objs, |objs|))
    case Err(e) => Err(e)
    case Ok(t) => Ok(Symbols(t, seq(|objs|, o requires 0 <= o < |objs| => Locals(objs, o, |objs[o].symbols|))))
  }

  lemma LocalsPerObject(objs: seq<Object>)
    ensures Resolved(objs).Ok? ==> |Resolved(objs).value.locals| == |objs|
  {
    hide Enter, Defs, Locals;
  }

  lemma ResolvedErr(objs: seq<Object>, o: nat, n: nat)
    requires o < |objs| && n <= |objs[o].symbols|
    requires Enter(DefsUpTo(objs, o, n)).Err?
    ensures Resolved(objs) == Err(Enter(DefsUpTo(objs, o, n)).error)
  {
    hide Enter, DefsUpTo, Locals, AddressOf;
    var last := |objs| - 1;
    DefsExtend(objs, o, n, last, |objs[last].symbols|);
    var ds, all := DefsUpTo(objs, o, n), Defs(objs, |objs|);
    assert all == ds + all[|ds|..];
    EnterErrSticks(ds, all[|ds|..]);
  }

  lemma EnterStep(ds: seq<Def>, d: Def)
    ensures Enter(ds + [d]) ==
      match Enter(ds)
      case Err(e) => Err(e)
      case Ok(t) => EnterNext(t, d)
  {
    assert (ds + [d])[..|ds|] == ds;
  }

  lemma NothingEntered(objs: seq<Object>, o: nat)
    ensures Defs(objs, 0) == [] && Enter([]) == Ok(map[])
    ensures o < |objs| ==> DefsUpTo(objs, o, 0) == Defs(objs, o) && Locals(objs, o, 0) == map[]
    ensures o < |objs| ==> Defs(objs, o + 1) == DefsUpTo(objs, o, |objs[o].symbols|)
  {
  }

  lemma SymbolStep(objs: seq<Object>, o: nat, n: nat, t: Table)
    requires o < |objs| && n < |objs[o].symbols|
    requires Enter(DefsUpTo(objs, o, n)) == Ok(t)
    ensures
      var sym := objs[o].symbols[n];
      match AddressOf(objs, o, sym)
      case None => Locals(objs, o, n + 1) == Locals(objs, o, n) && Enter(DefsUpTo(objs, o, n + 1)) == Ok(t)
      case Some(addr) =>
        && Locals(objs, o, n + 1) == Locals(objs, o, n)[n := addr]
        && Enter(DefsUpTo(objs, o, n + 1)) ==
             if sym.name != [] && (sym.bind == STB_GLOBAL || sym.bind == STB_WEAK)
             then EnterNext(t, Def(sym.name, sym.bind == STB_GLOBAL, addr)) else Ok(t)
  {
    hide FindPiece, PieceAddr, Pieces, AddressOf, Enter, Defs;
    var sym := objs[o].symbols[n];
    var ds := DefsUpTo(objs, o, n);
    assert DefsUpTo(objs, o, n + 1) == ds + DefOf(objs, o, sym);
    if DefOf(objs, o, sym) == [] {
      assert ds + [] == ds;
    } else {
      EnterStep(ds, DefOf(objs, o, sym)[0]);
    }
  }

  /** The inner loop, over the symbols of one object. */
  method ResolveObject(objs: seq<Object>, pieces: seq<Piece>, o: nat, before: Table)
    returns (r: Result<(Table, map<nat, nat>), LinkError>)
    requires o < |objs| && objs[o].Valid() && pieces == Pieces(objs)
    requires Enter(Defs(objs, o)) == Ok(before)
    ensures r.Err? ==> Resolved(objs) == Err(r.error)
    ensures r.Ok? ==> Enter(Defs(objs, o + 1)) == Ok(r.value.0)
    ensures r.Ok? ==> r.value.1 == Locals(objs, o, |objs[o].symbols|)
  {
    hide Locals, DefsUpTo, Defs, Pieces, Resolved, FindPiece, Enter, PieceAddr;
    NothingEntered(objs, o);
    var globals, mine: map<nat, nat> := before, map[];
    for n := 0 to |objs[o].symbols|
      invariant Enter(DefsUpTo(objs, o, n)) == Ok(globals)
      invariant mine == Locals(objs, o, n)
    {
      var sym := objs[o].symbols[n];
      SymbolStep(objs, o, n, globals);
      var addr: nat;
      if sym.shndx == SHN_UNDEF || (sym.name == [] && sym.stype != STT_SECTION) {
        continue;
      }
      if sym.shndx == SHN_ABS {
        addr := sym.value;
      } else {
        var p := FindPiece(pieces, o, sym.shndx);
        if p == None {
          continue;
        }
        addr := PieceAddr(objs, p.value) + sym.value;
      }
      mine := mine[sym.index := addr];
      if sym.bind == STB_GLOBAL && sym.name != [] {
        if sym.name in globals {
          ResolvedErr(objs, o, n + 1);
          return Err(MultipleDefinition(sym.name));
        }
        globals := globals[sym.name := addr];
      } else if sym.bind == STB_WEAK && sym.name != [] {
        if sym.name !in globals {
          globals := globals[sym.name := addr];
        }
      }
    }
    r := Ok((globals, mine));
  }

  /** The outer loop, over the objects. */
  method Resolve(objs: seq<Object>, pieces: seq<Piece>) returns (r: Result<Symbols, LinkError>)
    requires ValidObjects(objs) && pieces == Pieces(objs)
    ensures r == Resolved(objs)
  {
    hide Locals, DefsUpTo, Defs, Pieces, Enter;
    NothingEntered(objs, 0);
    var globals: Table := map[];
    var locals: seq<map<nat, nat>> := [];
    for o := 0 to |objs|
      invariant Enter(Defs(objs, o)) == Ok(globals)
      invariant |locals| == o
      invariant forall q | 0 <= q < o :: locals[q] == Locals(objs, q, |objs[q].symbols|)
    {
      var entered := ResolveObject(objs, pieces, o, globals);
      match entered
      case Err(e) => return Err(e);
      case Ok(v) =>
        globals := v.0;
        locals := locals + [v.1];
    }
    r := Ok(Symbols(globals, locals));
    assert locals == Resolved(objs).value.locals;
  }
}
