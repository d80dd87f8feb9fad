/** What the linker stores: section contents first, then relocation fields without their addend. */
module LinkerRelocate {
  import opened Wrappers
  import opened Bytes
  import opened ElfObject
  import opened LinkerLayout
  import opened LinkerSymbols
  import opened LinkerImage

  // ----- copying the sections ---------------------------------------------------------

  function CopyOf(objs: seq<Object>, p: Piece): Attempt
    requires IsSection(objs, p.obj, p.section)
  {
    var s := SectionOf(objs, p);
    match objs[p.obj].Slice(s.offset, s.size)
    case None => Err(BadSlice(p.obj))
    case Some(bytes) => Ok(Write(p.kind, p.offset, bytes))
  }

  ghost predicate AllSections(objs: seq<Object>, ps: seq<Piece>)
  {
    forall i | 0 <= i < |ps| :: IsSection(objs, ps[i].obj, ps[i].section)
  }

  /** The stores of the copy loop over the first `m` pieces. */
  ghost function Copies(objs: seq<Object>, ps: seq<Piece>, m: nat): seq<Attempt>
    requires m <= |ps| && AllSections(objs, ps)
  {
    if m == 0 then []
    else if ps[m - 1].kind == Bss then Copies(objs, ps, m - 1)
    else Copies(objs, ps, m - 1) + [CopyOf(objs, ps[m - 1])]
  }

  // ----- relocating -------------------------------------------------------------------

  /** The address a relocation refers to. */
  function Target(objs: seq<Object>, syms: Symbols, o: nat, r: Relocation): Result<nat, LinkError>
    requires o < |objs| && |syms.locals| == |objs|
  {
    if r.sym >= |objs[o].symbols| then Err(NoSuchSymbol(r.sym))
    else
      var sym := objs[o].symbols[r.sym];
      if sym.shndx != SHN_UNDEF && sym.index in syms.locals[o] then Ok(syms.locals[o][sym.index])
      else if sym.name in syms.globals then Ok(syms.globals[sym.name])
      else Err(UndefinedReference(sym.name))
  }

  /** The kinds that go through a slot of the global offset table. */
  predicate ThroughGot(kind: nat)
  {
    kind == R_X86_64_GOTPCREL || kind == R_X86_64_GOTPCRELX || kind == R_X86_64_REX_GOTPCRELX
  }

  predicate PcRelative(kind: nat)
  {
    kind == R_X86_64_PC32 || kind == R_X86_64_PLT32 || ThroughGot(kind)
  }

  predicate Absolute32(kind: nat)
  {
    kind == R_X86_64_32 || kind == R_X86_64_32S
  }

  predicate Supported(kind: nat)
  {
    PcRelative(kind) || kind == R_X86_64_64 || Absolute32(kind)
  }

  /** The bytes the linker puts in a field: the addend is forgotten. */
  function FieldBytes(kind: nat, target: nat, site: nat): seq<byte>
    requires Supported(kind)
  {
    if PcRelative(kind) then LittleEndian(target - site, 4)
    else if kind == R_X86_64_64 then LittleEndian(target, 8)
    else LittleEndian(target, 4)
  }

  function PatchOf(objs: seq<Object>, syms: Symbols, p: Piece, r: Relocation): Attempt
    requires p.obj < |objs| && |syms.locals| == |objs|
  {
    match Target(objs, syms, p.obj, r)
    case Err(e) => Err(e)
    case Ok(target) =>
      if Supported(r.kind)
      then Ok(Write(p.kind, p.offset + r.offset, FieldBytes(r.kind, target, PieceAddr(objs, p) + r.offset)))
      else Err(UnsupportedRelocation(r.kind))
  }

  /** The stores of the relocation loop over the first `i` pieces and the first `n`
      relocations of piece `i`'s object. */
  ghost function PatchesUpTo(objs: seq<Object>, syms: Symbols, ps: seq<Piece>, i: nat, n: nat): seq<Attempt>
    requires i < |ps| && AllSections(objs, ps) && |syms.locals| == |objs|
    requires n <= |objs[ps[i].obj].relocations|
    decreases i, n + 1
  {
    if n == 0 then Patches(objs, syms, ps, i)
    else
      var r := objs[ps[i].obj].relocations[n - 1];
      PatchesUpTo(objs, syms, ps, i, n - 1)
      + if r.target == ps[i].section then [PatchOf(objs, syms, ps[i], r)] else []
  }

  ghost function Patches(objs: seq<Object>, syms: Symbols, ps: seq<Piece>, m: nat): seq<Attempt>
    requires m <= |ps| && AllSections(objs, ps) && |syms.locals| == |objs|
    decreases m, 0
  {
    if m == 0 then []
    else if ps[m - 1].kind == Bss then Patches(objs, syms, ps, m - 1)
    else PatchesUpTo(objs, syms, ps, m - 1, |objs[ps[m - 1].obj].relocations|)
  }

  // ----- the addend -------------------------------------------------------------------

  function FieldWidth(kind: nat): nat
  {
    if kind == R_X86_64_64 then 8 else 4
  }

  /** What the psABI asks for, before truncation to the field: S + A - P or S + A. */
  function AbiValue(kind: nat, target: nat, addend: int, site: nat): int
    requires !ThroughGot(kind)
  {
    if PcRelative(kind) then target + addend - site else target + addend
  }

  lemma ModShift(v: int, a: int, m: int)
    requires m > 0
    ensures v % m == (v + a) % m <==> a % m == 0
  {
    var v1, v2, a1 := v / m, (v + a) / m, a / m;
    assert v == m * v1 + v % m && v + a == m * v2 + (v + a) % m;
    if v % m == (v + a) % m {
      assert a == m * (v2 - v1) by { assert m * (v2 - v1) == m * v2 - m * v1; }
      DivModUnique(a, m, v2 - v1, 0);
    }
    if a % m == 0 {
      assert a == m * a1;
      assert v + a == m * (v1 + a1) + v % m by { assert m * (v1 + a1) == m * v1 + m * a1; }
      DivModUnique(v + a, m, v1 + a1, v % m);
    }
  }

  /** What the psABI asks for when the symbol's address is in the table at `slot`: G + GOT + A - P. */
  function GotValue(slot: nat, addend: int, site: nat): int
  {
    slot + addend - site
  }

  lemma ModMultiple(v: int, q: int, m: int)
    requires m > 0
    ensures (v + m * q) % m == v % m
  {
    assert v == m * (v / m) + v % m;
    assert v + m * q == m * (v / m + q) + v % m by { assert m * (v / m + q) == m * (v / m) + m * q; }
    DivModUnique(v + m * q, m, v / m + q, v % m);
  }

  lemma {:induction false} ValueInjective(a: seq<byte>, b: seq<byte>)
    requires |a| == |b| && Value(a) == Value(b)
    ensures a == b
  {
    if |a| > 0 {
      ValueInjective(a[1..], b[1..]);
      assert a == [a[0]] + a[1..] && b == [b[0]] + b[1..];
    }
  }

  /** A field holding `v` against the value `v + off` that was asked for. */
  lemma FieldOff(v: int, off: int, w: nat)
    ensures
      var m := Pow256(w);
      && (Value(LittleEndian(v, w)) + off) % m == (v + off) % m
      && (LittleEndian(v, w) == LittleEndian(v + off, w) <==> off % m == 0)
  {
    hide LittleEndian, Value, Pow256;
    var m := Pow256(w);
    ValueOfLittleEndian(v, w);
    ValueOfLittleEndian(v + off, w);
    assert v == m * (v / m) + v % m;
    ModMultiple(v % m + off, v / m, m);
    ModShift(v, off, m);
    if off % m == 0 {
      ValueInjective(LittleEndian(v, w), LittleEndian(v + off, w));
    }
  }

  /** How far the result is from the ABI for PC32, PLT32, 64, 32 and 32S: the field plus the addend is the
      ABI value modulo the field's range, and the field is right exactly when the addend is a multiple
      of that range. */
  lemma FieldVersusAbi(kind: nat, target: nat, addend: int, site: nat)
    requires Supported(kind) && !ThroughGot(kind)
    ensures
      var m := Pow256(FieldWidth(kind));
      var field := FieldBytes(kind, target, site);
      && |field| == FieldWidth(kind)
      && (Value(field) + addend) % m == AbiValue(kind, target, addend, site) % m
      && (field == LittleEndian(AbiValue(kind, target, addend, site), FieldWidth(kind)) <==> addend % m == 0)
  {
    hide LittleEndian, Value, Pow256;
    FieldOff(if PcRelative(kind) then target - site else target, addend, FieldWidth(kind));
  }

  /** The kinds that go through the global offset table get the symbol's own address and no table is made:
      the field is S - P, so it is what the ABI asks for exactly when slot plus addend is the symbol's
      address modulo 2^32. */
  lemma GotFieldVersusAbi(kind: nat, target: nat, slot: nat, addend: int, site: nat)
    requires ThroughGot(kind)
    ensures
      var field := FieldBytes(kind, target, site);
      && |field| == 4
      && (Value(field) + addend) % 0x1_0000_0000 == (target + addend - site) % 0x1_0000_0000
      && (field == LittleEndian(GotValue(slot, addend, site), 4) <==> (slot + addend - target) % 0x1_0000_0000 == 0)
  {
    hide LittleEndian, Value, Pow256;
    Pow256Values();
    FieldOff(target - site, addend, 4);
    FieldOff(target - site, slot + addend - target, 4);
  }

  /** The processor's reading of a 32-bit displacement. */
  function SignExtend32(v: nat): int
  {
    if v < 0x8000_0000 then v else v - 0x1_0000_0000
  }

  lemma SignExtendTruncated(v: int)
    requires -0x8000_0000 <= v < 0x8000_0000
    ensures SignExtend32(v % 0x1_0000_0000) == v
  {
  }

  /** The operand of an instruction is measured from the byte after the field. So a target
      less than 2 GiB away is missed by four bytes: the processor arrives at `S + 4`, where
      the ABI's value (addend -4) would have led to `S`. (A kind that goes through the global offset
      table should name its slot and not the thing.) */
  lemma LandsFourPast(kind: nat, target: nat, site: nat)
    requires PcRelative(kind) && -0x8000_0000 <= target - site < 0x8000_0000
    ensures site + 4 + SignExtend32(Value(FieldBytes(kind, target, site))) == target + 4
    ensures !ThroughGot(kind) && -0x8000_0000 <= target - site - 4 ==>
      site + 4 + SignExtend32(Value(LittleEndian(AbiValue(kind, target, -4, site), 4))) == target
  {
    hide LittleEndian, Value, Pow256, SignExtend32;
    Pow256Values();
    ValueOfLittleEndian(target - site, 4);
    ValueOfLittleEndian(target - site - 4, 4);
    SignExtendTruncated(target - site);
    if -0x8000_0000 <= target - site - 4 {
      SignExtendTruncated(target - site - 4);
    }
  }

  // ----- the loops, over three buffers patched in place ---------------------------------

  function View(text: array<byte>, rodata: array<byte>, data: array<byte>): Buffers
    reads text, rodata, data
  {
    Buffers(text[..], rodata[..], data[..])
  }

  method CopyFromSlice(dst: array<byte>, at: nat, bytes: seq<byte>)
    requires at + |bytes| <= dst.Length
    modifies dst
    ensures dst[..] == Splice(old(dst[..]), at, bytes)
  {
    ghost var was := dst[..];
    for i := 0 to |bytes|
      invariant forall j | 0 <= j < dst.Length :: dst[j] == if at <= j < at + i then bytes[j - at] else was[j]
    {
      dst[at + i] := bytes[i];
    }
  }

  method StoreInPlace(text: array<byte>, rodata: array<byte>, data: array<byte>, w: Write) returns (ok: bool)
    requires text != rodata && text != data && rodata != data && w.kind != Bss
    modifies text, rodata, data
    ensures ok <==> Store(w, old(View(text, rodata, data))).Ok?
    ensures ok ==> View(text, rodata, data) == Store(w, old(View(text, rodata, data))).value
  {
    var dst := match w.kind case Text => text case Rodata => rodata case _ => data;
    if w.at + |w.bytes| > dst.Length {
      return false;
    }
    CopyFromSlice(dst, w.at, w.bytes);
    ok := true;
  }

  lemma CopiesStep(objs: seq<Object>, ps: seq<Piece>, b: Buffers)
    requires AllSections(objs, ps)
    ensures Run(Copies(objs, ps, 0), b) == Ok(b)
    ensures forall i | 0 <= i < |ps| ::
      Run(Copies(objs, ps, i + 1), b) ==
        if ps[i].kind == Bss then Run(Copies(objs, ps, i), b)
        else
          match Run(Copies(objs, ps, i), b)
          case Err(e) => Err(e)
          case Ok(mid) => match CopyOf(objs, ps[i]) case Err(e) => Err(e) case Ok(w) => Store(w, mid)
  {
    hide Store;
    forall i | 0 <= i < |ps| && ps[i].kind != Bss
      ensures Run(Copies(objs, ps, i + 1), b) ==
        match Run(Copies(objs, ps, i), b)
        case Err(e) => Err(e)
        case Ok(mid) => match CopyOf(objs, ps[i]) case Err(e) => Err(e) case Ok(w) => Store(w, mid)
    {
      RunNext(Copies(objs, ps, i), CopyOf(objs, ps[i]), b);
    }
  }

  lemma {:induction false} CopiesExtend(objs: seq<Object>, ps: seq<Piece>, i: nat, m: nat)
    requires i <= m <= |ps| && AllSections(objs, ps)
    ensures Copies(objs, ps, i) <= Copies(objs, ps, m)
    decreases m
  {
    if i < m {
      CopiesExtend(objs, ps, i, m - 1);
    }
  }

  lemma CopiesErr(objs: seq<Object>, ps: seq<Piece>, i: nat, b: Buffers)
    requires i <= |ps| && AllSections(objs, ps)
    requires Run(Copies(objs, ps, i), b).Err?
    ensures Run(Copies(objs, ps, |ps|), b) == Run(Copies(objs, ps, i), b)
  {
    CopiesExtend(objs, ps, i, |ps|);
    var ws, all := Copies(objs, ps, i), Copies(objs, ps, |ps|);
    assert all == ws + all[|ws|..];
    RunErrSticks(ws, all[|ws|..], b);
  }

  lemma StoreErr(w: Write, b: Buffers)
    ensures Store(w, b).Err? ==> Store(w, b).error == FieldOutOfRange
  {
  }

  method CopySections(objs: seq<Object>, pieces: seq<Piece>,
                      text: array<byte>, rodata: array<byte>, data: array<byte>)
    returns (err: Option<LinkError>)
    requires AllSections(objs, pieces)
    requires text != rodata && text != data && rodata != data
    modifies text, rodata, data
    ensures Run(Copies(objs, pieces, |pieces|), old(View(text, rodata, data)))
         == if err.None? then Ok(View(text, rodata, data)) else Err(err.value)
  {
    hide Run, Store, Copies;
    ghost var start := View(text, rodata, data);
    CopiesStep(objs, pieces, start);
    for i := 0 to |pieces|
      invariant Run(Copies(objs, pieces, i), start) == Ok(View(text, rodata, data))
    {
      var p := pieces[i];
      if p.kind == Bss {
        continue;
      }
      var s := SectionOf(objs, p);
      var bytes := objs[p.obj].Slice(s.offset, s.size);
      if bytes == None {
        CopiesErr(objs, pieces, i + 1, start);
        return Some(BadSlice(p.obj));
      }
      var ok := StoreInPlace(text, rodata, data, Write(p.kind, p.offset, bytes.value));
      if !ok {
        CopiesErr(objs, pieces, i + 1, start);
        StoreErr(Write(p.kind, p.offset, bytes.value), Run(Copies(objs, pieces, i), start).value);
        return Some(FieldOutOfRange);
      }
    }
    err := None;
  }

  lemma PatchesStep(objs: seq<Object>, syms: Symbols, ps: seq<Piece>, i: nat, n: nat, b: Buffers)
    requires i < |ps| && AllSections(objs, ps) && |syms.locals| == |objs|
    requires n < |objs[ps[i].obj].relocations|
    ensures
      var r := objs[ps[i].obj].relocations[n];
      Run(PatchesUpTo(objs, syms, ps, i, n + 1), b) ==
        if r.target != ps[i].section then Run(PatchesUpTo(objs, syms, ps, i, n), b)
        else
          match Run(PatchesUpTo(objs, syms, ps, i, n), b)
          case Err(e) => Err(e)
          case Ok(mid) => match PatchOf(objs, syms, ps[i], r) case Err(e) => Err(e) case Ok(w) => Store(w, mid)
  {
    hide Store, Run, PatchOf;
    var r := objs[ps[i].obj].relocations[n];
    var ws := PatchesUpTo(objs, syms, ps, i, n);
    if r.target == ps[i].section {
      RunNext(ws, PatchOf(objs, syms, ps[i], r), b);
    } else {
      assert ws + [] == ws;
    }
  }

  lemma {:induction false} PatchesGrow(objs: seq<Object>, syms: Symbols, ps: seq<Piece>, i: nat, n: nat, n': nat)
    requires i < |ps| && AllSections(objs, ps) && |syms.locals| == |objs|
    requires n <= n' <= |objs[ps[i].obj].relocations|
    ensures PatchesUpTo(objs, syms, ps, i, n) <= PatchesUpTo(objs, syms, ps, i, n')
    decreases n'
  {
    hide PatchOf;
    if n < n' {
      PatchesGrow(objs, syms, ps, i, n, n' - 1);
    }
  }

  lemma {:induction false} PatchesExtend(objs: seq<Object>, syms: Symbols, ps: seq<Piece>, i: nat, n: nat, m: nat)
    requires i < m <= |ps| && AllSections(objs, ps) && |syms.locals| == |objs|
    requires ps[i].kind != Bss && n <= |objs[ps[i].obj].relocations|
    ensures PatchesUpTo(objs, syms, ps, i, n) <= Patches(objs, syms, ps, m)
    decreases m
  {
    hide PatchOf;
    if i + 1 < m {
      PatchesExtend(objs, syms, ps, i, n, m - 1);
      if ps[m - 1].kind != Bss {
        PatchesGrow(objs, syms, ps, m - 1, 0, |objs[ps[m - 1].obj].relocations|);
      }
    } else {
      PatchesGrow(objs, syms, ps, i, n, |objs[ps[i].obj].relocations|);
    }
  }

  lemma PatchesErr(objs: seq<Object>, syms: Symbols, ps: seq<Piece>, i: nat, n: nat, b: Buffers)
    requires i < |ps| && AllSections(objs, ps) && |syms.locals| == |objs|
    requires ps[i].kind != Bss && n <= |objs[ps[i].obj].relocations|
    requires Run(PatchesUpTo(objs, syms, ps, i, n), b).Err?
    ensures Run(Patches(objs, syms, ps, |ps|), b) == Run(PatchesUpTo(objs, syms, ps, i, n), b)
  {
    hide Run, PatchOf;
    PatchesExtend(objs, syms, ps, i, n, |ps|);
    var ws, all := PatchesUpTo(objs, syms, ps, i, n), Patches(objs, syms, ps, |ps|);
    assert all == ws + all[|ws|..];
    RunErrSticks(ws, all[|ws|..], b);
  }

  lemma NothingPatched(objs: seq<Object>, syms: Symbols, ps: seq<Piece>, i: nat, b: Buffers)
    requires i < |ps| && AllSections(objs, ps) && |syms.locals| == |objs|
    ensures PatchesUpTo(objs, syms, ps, i, 0) == Patches(objs, syms, ps, i)
    ensures Patches(objs, syms, ps, i + 1) ==
      if ps[i].kind == Bss then Patches(objs, syms, ps, i)
      else PatchesUpTo(objs, syms, ps, i, |objs[ps[i].obj].relocations|)
  {
  }

  /** The inner loop, over the relocations that patch one piece. */
  method RelocatePiece(objs: seq<Object>, syms: Symbols, pieces: seq<Piece>, i: nat, ghost start: Buffers,
                       text: array<byte>, rodata: array<byte>, data: array<byte>)
    returns (err: Option<LinkError>)
    requires i < |pieces| && AllSections(objs, pieces) && |syms.locals| == |objs| && pieces[i].kind != Bss
    requires text != rodata && text != data && rodata != data
    requires Run(Patches(objs, syms, pieces, i), start) == Ok(View(text, rodata, data))
    modifies text, rodata, data
    ensures err.Some? ==> Run(Patches(objs, syms, pieces, |pieces|), start) == Err(err.value)
    ensures err.None? ==> Run(Patches(objs, syms, pieces, i + 1), start) == Ok(View(text, rodata, data))
  {
    hide Run, Store, Patches, PatchesUpTo, Target, FieldBytes, Supported;
    NothingPatched(objs, syms, pieces, i, start);
    var p := pieces[i];
    var relocs := objs[p.obj].relocations;
    for n := 0 to |relocs|
      invariant Run(PatchesUpTo(objs, syms, pieces, i, n), start) == Ok(View(text, rodata, data))
    {
      var r := relocs[n];
      PatchesStep(objs, syms, pieces, i, n, start);
      if r.target != p.section {
        continue;
      }
      var target := Target(objs, syms, p.obj, r);
      if target.Err? {
        PatchesErr(objs, syms, pieces, i, n + 1, start);
        return Some(target.error);
      }
      if !Supported(r.kind) {
        PatchesErr(objs, syms, pieces, i, n + 1, start);
        return Some(UnsupportedRelocation(r.kind));
      }
      var site := PieceAddr(objs, p) + r.offset;
      var w := Write(p.kind, p.offset + r.offset, FieldBytes(r.kind, target.value, site));
      ghost var mid := View(text, rodata, data);
      var ok := StoreInPlace(text, rodata, data, w);
      if !ok {
        PatchesErr(objs, syms, pieces, i, n + 1, start);
        StoreErr(w, mid);
        return Some(FieldOutOfRange);
      }
    }
    err := None;
  }

  /** The outer loop, over the pieces. */
  method Relocate(objs: seq<Object>, syms: Symbols, pieces: seq<Piece>,
                  text: array<byte>, rodata: array<byte>, data: array<byte>)
    returns (err: Option<LinkError>)
    requires AllSections(objs, pieces) && |syms.locals| == |objs|
    requires text != rodata && text != data && rodata != data
    modifies text, rodata, data
    ensures Run(Patches(objs, syms, pieces, |pieces|), old(View(text, rodata, data)))
         == if err.None? then Ok(View(text, rodata, data)) else Err(err.value)
  {
    hide Store, PatchesUpTo;
    ghost var start := View(text, rodata, data);
    assert Run([], start) == Ok(start);
    for i := 0 to |pieces|
      invariant Run(Patches(objs, syms, pieces, i), start) == Ok(View(text, rodata, data))
    {
      NothingPatched(objs, syms, pieces, i, start);
      if pieces[i].kind == Bss {
        continue;
      }
      err := RelocatePiece(objs, syms, pieces, i, start, text, rodata, data);
      if err.Some? {
        return;
      }
    }
    err := None;
  }
}
