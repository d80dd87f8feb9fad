/** The copy and relocation phases of the linker, which fill three byte buffers in place. */
module LinkerImage {
  import opened Wrappers
  import opened Bytes
  import opened ElfObject
  import opened LinkerLayout

  /** The contents of the three output sections that occupy file space. */
  datatype Buffers = Buffers(text: seq<byte>, rodata: seq<byte>, data: seq<byte>)
  {
    function Of(k: Kind): seq<byte>
    {
      match k case Text => text case Rodata => rodata case Data => data case Bss => []
    }

    function With(k: Kind, s: seq<byte>): Buffers
    {
      match k case Text => this.(text := s) case Rodata => this.(rodata := s) case Data => this.(data := s)
      case Bss => this
    }
  }

  /** Bytes to be stored at an offset of one output section. */
  datatype Write = Write(kind: Kind, at: nat, bytes: seq<byte>)
  {
    predicate Covers(k: Kind, pos: int)
    {
      kind == k && at <= pos < at + |bytes|
    }
  }

  type Attempt = Result<Write, LinkError>

  /** One store; storing past the end of the buffer is a panic. */
  function Store(w: Write, b: Buffers): Result<Buffers, LinkError>
  {
    if w.at + |w.bytes| <= |b.Of(w.kind)|
    then Ok(b.With(w.kind, Splice(b.Of(w.kind), w.at, w.bytes)))
    else Err(FieldOutOfRange)
  }

  /** Stores carried out one after the other until the first failure. */
  function Run(ws: seq<Attempt>, b: Buffers): Result<Buffers, LinkError>
  {
    if |ws| == 0 then Ok(b)
    else
      match Run(ws[..|ws| - 1], b)
      case Err(e) => Err(e)
      case Ok(mid) =>
        match ws[|ws| - 1]
        case Err(e) => Err(e)
        case Ok(w) => Store(w, mid)
  }

  lemma RunNext(ws: seq<Attempt>, a: Attempt, b: Buffers)
    ensures Run(ws + [a], b) ==
      match Run(ws, b)
      case Err(e) => Err(e)
      case Ok(mid) => match a case Err(e) => Err(e) case Ok(w) => Store(w, mid)
  {
    assert (ws + [a])[..|ws|] == ws;
  }

  lemma {:induction false} RunErrSticks(ws: seq<Attempt>, more: seq<Attempt>, b: Buffers)
    requires Run(ws, b).Err?
    ensures Run(ws + more, b) == Run(ws, b)
  {
    if |more| == 0 {
      assert ws + more == ws;
    } else {
      var init := more[..|more| - 1];
      RunErrSticks(ws, init, b);
      assert (ws + more)[..|ws + more| - 1] == ws + init;
    }
  }

  /** Every store of a list is possible. */
  ghost predicate Possible(ws: seq<Attempt>, b: Buffers)
  {
    forall i | 0 <= i < |ws| ::
      ws[i].Ok? && ws[i].value.at + |ws[i].value.bytes| <= |b.Of(ws[i].value.kind)|
  }

  ghost predicate SameShape(b: Buffers, b': Buffers)
  {
    forall k :: |b.Of(k)| == |b'.Of(k)|
  }

  lemma StoreEffect(w: Write, b: Buffers)
    requires Store(w, b).Ok?
    ensures SameShape(b, Store(w, b).value)
    ensures forall k, pos | 0 <= pos < |b.Of(k)| ::
      Store(w, b).value.Of(k)[pos] == if w.Covers(k, pos) then w.bytes[pos - w.at] else b.Of(k)[pos]
  {
    forall k
      ensures |b.Of(k)| == |Store(w, b).value.Of(k)|
    {
    }
  }

  lemma {:induction false} RunShape(ws: seq<Attempt>, b: Buffers)
    ensures Run(ws, b).Ok? ==> SameShape(b, Run(ws, b).value)
  {
    if |ws| > 0 && Run(ws, b).Ok? {
      hide Store;
      RunShape(ws[..|ws| - 1], b);
      StoreEffect(ws[|ws| - 1].value, Run(ws[..|ws| - 1], b).value);
    }
  }

  lemma PossibleNext(ws: seq<Attempt>, a: Attempt, b: Buffers)
    ensures Possible(ws + [a], b) <==>
      Possible(ws, b) && a.Ok? && a.value.at + |a.value.bytes| <= |b.Of(a.value.kind)|
  {
    var all := ws + [a];
    assert forall i | 0 <= i < |ws| :: all[i] == ws[i];
    assert all[|ws|] == a;
  }

  /** A run succeeds exactly when each of its stores is possible. */
  lemma {:induction false} RunOkWhen(ws: seq<Attempt>, b: Buffers)
    ensures Run(ws, b).Ok? <==> Possible(ws, b)
  {
    if |ws| > 0 {
      var init, a := ws[..|ws| - 1], ws[|ws| - 1];
      RunOkWhen(init, b);
      RunShape(init, b);
      assert ws == init + [a];
      PossibleNext(init, a, b);
    }
  }

  /** The byte at `pos`: the last store that covers it wins. */
  function ByteAfter(ws: seq<Attempt>, base: byte, k: Kind, pos: nat): byte
  {
    if |ws| == 0 then base
    else
      var a := ws[|ws| - 1];
      if a.Ok? && a.value.Covers(k, pos) then a.value.bytes[pos - a.value.at]
      else ByteAfter(ws[..|ws| - 1], base, k, pos)
  }

  lemma {:induction false} RunByte(ws: seq<Attempt>, b: Buffers, k: Kind, pos: nat)
    requires Run(ws, b).Ok? && pos < |b.Of(k)|
    ensures |Run(ws, b).value.Of(k)| == |b.Of(k)|
    ensures Run(ws, b).value.Of(k)[pos] == ByteAfter(ws, b.Of(k)[pos], k, pos)
  {
    RunShape(ws, b);
    if |ws| > 0 {
      hide Store, SameShape;
      RunByte(ws[..|ws| - 1], b, k, pos);
      StoreEffect(ws[|ws| - 1].value, Run(ws[..|ws| - 1], b).value);
    }
  }

  ghost predicate Untouched(ws: seq<Attempt>, k: Kind, pos: nat)
  {
    forall i | 0 <= i < |ws| :: ws[i].Ok? ==> !ws[i].value.Covers(k, pos)
  }

  lemma {:induction false} ByteUntouched(ws: seq<Attempt>, base: byte, k: Kind, pos: nat)
    requires Untouched(ws, k, pos)
    ensures ByteAfter(ws, base, k, pos) == base
  {
    if |ws| > 0 {
      ByteUntouched(ws[..|ws| - 1], base, k, pos);
    }
  }

  lemma {:induction false} ByteOfLast(ws: seq<Attempt>, base: byte, k: Kind, pos: nat, i: nat)
    requires i < |ws| && ws[i].Ok? && ws[i].value.Covers(k, pos)
    requires forall j | i < j < |ws| :: ws[j].Ok? ==> !ws[j].value.Covers(k, pos)
    ensures ByteAfter(ws, base, k, pos) == ws[i].value.bytes[pos - ws[i].value.at]
  {
    if i < |ws| - 1 {
      ByteOfLast(ws[..|ws| - 1], base, k, pos, i);
    }
  }

  /** No two stores of the list touch the same byte. */
  ghost predicate PairwiseDisjoint(ws: seq<Attempt>)
  {
    forall i, j, k, pos | 0 <= i < |ws| && 0 <= j < |ws| && ws[i].Ok? && ws[j].Ok?
                          && ws[i].value.Covers(k, pos) && ws[j].value.Covers(k, pos) :: i == j
  }

  lemma PossiblePermuted(ws: seq<Attempt>, ws': seq<Attempt>, b: Buffers)
    requires multiset(ws) == multiset(ws') && Possible(ws, b)
    ensures Possible(ws', b)
  {
    forall i | 0 <= i < |ws'|
      ensures ws'[i] in ws
    {
      assert ws'[i] in multiset(ws');
    }
  }

  lemma SameByte(ws: seq<Attempt>, ws': seq<Attempt>, base: byte, k: Kind, pos: nat)
    requires multiset(ws) == multiset(ws')
    requires PairwiseDisjoint(ws) && PairwiseDisjoint(ws')
    ensures ByteAfter(ws, base, k, pos) == ByteAfter(ws', base, k, pos)
  {
    if Untouched(ws, k, pos) {
      forall j | 0 <= j < |ws'|
        ensures ws'[j].Ok? ==> !ws'[j].value.Covers(k, pos)
      {
        assert ws'[j] in multiset(ws');
        assert ws'[j] in ws;
      }
      ByteUntouched(ws, base, k, pos);
      ByteUntouched(ws', base, k, pos);
    } else {
      var i :| 0 <= i < |ws| && ws[i].Ok? && ws[i].value.Covers(k, pos);
      assert ws[i] in multiset(ws);
      assert ws[i] in ws';
      var j :| 0 <= j < |ws'| && ws'[j] == ws[i];
      ByteOfLast(ws, base, k, pos, i);
      ByteOfLast(ws', base, k, pos, j);
    }
  }

  lemma SameBytes(ws: seq<Attempt>, ws': seq<Attempt>, b: Buffers, k: Kind)
    requires multiset(ws) == multiset(ws')
    requires PairwiseDisjoint(ws) && PairwiseDisjoint(ws')
    requires Run(ws, b).Ok? && Run(ws', b).Ok?
    ensures Run(ws, b).value.Of(k) == Run(ws', b).value.Of(k)
  {
    hide Run, ByteAfter;
    RunShape(ws, b);
    RunShape(ws', b);
    forall pos | 0 <= pos < |b.Of(k)|
      ensures Run(ws, b).value.Of(k)[pos] == Run(ws', b).value.Of(k)[pos]
    {
      RunByte(ws, b, k, pos);
      RunByte(ws', b, k, pos);
      SameByte(ws, ws', b.Of(k)[pos], k, pos);
    }
  }

  /** Stores that do not overlap may be carried out in any order. */
  lemma OrderIrrelevant(ws: seq<Attempt>, ws': seq<Attempt>, b: Buffers)
    requires multiset(ws) == multiset(ws')
    requires PairwiseDisjoint(ws) && PairwiseDisjoint(ws')
    requires Run(ws, b).Ok?
    ensures Run(ws', b) == Run(ws, b)
  {
    hide Run;
    RunOkWhen(ws, b);
    RunOkWhen(ws', b);
    PossiblePermuted(ws, ws', b);
    var r, r' := Run(ws, b).value, Run(ws', b).value;
    RunShape(ws, b);
    RunShape(ws', b);
    SameBytes(ws, ws', b, Text);
    SameBytes(ws, ws', b, Rodata);
    SameBytes(ws, ws', b, Data);
    assert r.Of(Text) == r'.Of(Text) && r.Of(Rodata) == r'.Of(Rodata) && r.Of(Data) == r'.Of(Data);
  }
}
