/** The key/value node: its store, its revision counter, and the lazy flush to disk. */
module KvNode {
  import opened Wrappers
  import opened Bytes
  import opened ByteOrder
  import opened StoreText
  import Base64

  // ----- requests and answers -----------------------------------------------------------------

  /** A base64 field of a JSON body; `None` when it is missing or not a string. */
  type Field = Option<string>

  datatype Target = VERSION | CREATE | MOD | VALUE

  datatype Compare = Compare(key: Field, target: Target, number: int, value: Field)

  datatype Request =
    | Put(key: Field, value: Field, wantPrev: bool)
    | Range(key: Field, rangeEnd: Field)
    | DeleteRange(key: Field, rangeEnd: Field)

  /** One element of a transaction branch; an operation of another kind is skipped. */
  type Op = Option<Request>

  datatype Txn = Txn(compares: seq<Compare>, success: seq<Op>, failure: seq<Op>)

  datatype Answer =
    | BadRequest
    | PutAnswer(revision: int, prev: Option<Pair>)
    | RangeAnswer(revision: int, kvs: seq<(Key, Pair)>)
    | DeleteAnswer(revision: int, deleted: nat)

  datatype TxnAnswer = TxnBad | TxnAnswer(revision: int, succeeded: bool, responses: seq<Answer>)

  /** A field that is missing or does not decode reads as absent. */
  function KeyOf(f: Field): Option<Key>
  {
    match f case None => None case Some(s) => Base64.Decoded(s)
  }

  // ----- the node as a state machine --------------------------------------------------------------

  /** Everything the node knows: memory, the revision counter, and the file on disk. */
  datatype State = State(kv: KV, dirty: bool, revision: int, disk: Option<string>)

  /** Which keys a range request reads. */
  predicate RangeHit(k: Key, key: Key, end: Option<Key>)
  {
    match end
    case None => k == key
    case Some(e) => if e == [0] then key == [0] || !Less(k, key) else !Less(k, key) && Less(k, e)
  }

  /** Which keys a delete removes. */
  predicate DeleteHit(k: Key, key: Key, end: Option<Key>)
  {
    match end
    case None => k == key
    case Some(e) => if e == [0] then !Less(k, key) else !Less(k, key) && Less(k, e)
  }

  function NextPair(prev: Option<Pair>, value: seq<byte>, rev: int): Pair
  {
    match prev
    case None => Pair(value, rev, rev, 1)
    case Some(p) => Pair(value, p.create, rev, p.version + 1)
  }

  function Lookup(kv: KV, k: Key): Option<Pair>
  {
    if k in kv then Some(kv[k]) else None
  }

  function AfterPut(s: State, key: Key, value: seq<byte>): State
  {
    var rev := s.revision + 1;
    s.(kv := s.kv[key := NextPair(Lookup(s.kv, key), value, rev)], revision := rev, dirty := true)
  }

  function Doomed(kv: KV, key: Key, end: Option<Key>): set<Key>
  {
    set k | k in kv && DeleteHit(k, key, end)
  }

  function AfterDelete(s: State, key: Key, end: Option<Key>): State
  {
    var doomed := Doomed(s.kv, key, end);
    if doomed == {} then s else s.(kv := s.kv - doomed, revision := s.revision + 1, dirty := true)
  }

  /** The pairs a range request returns, in key order. */
  function Selected(ks: seq<Key>, kv: KV, key: Key, end: Option<Key>): seq<(Key, Pair)>
    requires StoreText.AllIn(ks, kv)
  {
    if |ks| == 0 then []
    else
      var init := ks[..|ks| - 1];
      var k := ks[|ks| - 1];
      Selected(init, kv, key, end) + if RangeHit(k, key, end) then [(k, kv[k])] else []
  }

  function AfterRequest(s: State, r: Request): State
  {
    match r
    case Put(k, v, _) =>
      (match (KeyOf(k), KeyOf(v)) case (Some(key), Some(value)) => AfterPut(s, key, value) case _ => s)
    case Range(_, _) => s
    case DeleteRange(k, e) =>
      (match KeyOf(k) case None => s case Some(key) => AfterDelete(s, key, KeyOf(e)))
  }

  function AnswerTo(s: State, r: Request): Answer
  {
    match r
    case Put(k, v, wantPrev) =>
      (match (KeyOf(k), KeyOf(v))
       case (Some(key), Some(value)) =>
         PutAnswer(s.revision + 1, if wantPrev then Lookup(s.kv, key) else None)
       case _ => BadRequest)
    case Range(k, e) =>
      (match KeyOf(k)
       case None => BadRequest
       case Some(key) => RangeAnswer(s.revision, Selected(SortedKeys(s.kv.Keys), s.kv, key, KeyOf(e))))
    case DeleteRange(k, e) =>
      (match KeyOf(k)
       case None => BadRequest
       case Some(key) => DeleteAnswer(AfterDelete(s, key, KeyOf(e)).revision, |Doomed(s.kv, key, KeyOf(e))|))
  }

  const DEFAULT_PAIR := Pair([], 0, 0, 0)

  /** One comparison; `None` when its key cannot be read. */
  function Held(s: State, c: Compare): Option<bool>
  {
    match KeyOf(c.key)
    case None => None
    case Some(key) =>
      var pair := if key in s.kv then s.kv[key] else DEFAULT_PAIR;
      Some(match c.target
           case VERSION => pair.version == c.number
           case CREATE => pair.create == c.number
           case MOD => pair.mod == c.number
           case VALUE => key in s.kv && pair.value == (if KeyOf(c.value).Some? then KeyOf(c.value).value else []))
  }

  /** The comparisons up to the first that cannot be read or does not hold. */
  function AllHeld(s: State, cs: seq<Compare>): Option<bool>
  {
    if |cs| == 0 then Some(true)
    else
      match Held(s, cs[0])
      case None => None
      case Some(h) => if h then AllHeld(s, cs[1..]) else Some(false)
  }

  function AfterOps(s: State, ops: seq<Op>): State
  {
    if |ops| == 0 then s
    else
      var mid := AfterOps(s, ops[..|ops| - 1]);
      match ops[|ops| - 1] case None => mid case Some(r) => AfterRequest(mid, r)
  }

  function AnswersTo(s: State, ops: seq<Op>): seq<Answer>
  {
    if |ops| == 0 then []
    else
      AnswersTo(s, ops[..|ops| - 1])
      + match ops[|ops| - 1]
        case None => []
        case Some(r) => [AnswerTo(AfterOps(s, ops[..|ops| - 1]), r)]
  }

  function BranchOf(s: State, t: Txn): Option<seq<Op>>
  {
    match AllHeld(s, t.compares) case None => None case Some(ok) => Some(if ok then t.success else t.failure)
  }

  function AfterTxn(s: State, t: Txn): State
  {
    match BranchOf(s, t) case None => s case Some(ops) => AfterOps(s, ops)
  }

  /** One attempt at the lazy flush. Whether the write went through is not looked at: the node counts as
      clean either way. */
  function AfterAttempt(s: State, written: bool): State
  {
    if s.dirty then s.(disk := if written then Some(PrintStore(s.kv)) else s.disk, dirty := false) else s
  }

  /** The flush whose write goes through. */
  function AfterFlush(s: State): State
  {
    AfterAttempt(s, true)
  }

  /** A crash loses memory; the next start reads whatever is on disk. */
  function AfterRestart(s: State): State
  {
    match s.disk
    case None => State(map[], false, 1, None)
    case Some(text) =>
      var got := LoadText(text, map[]);
      State(got.kv, false, Max(got.highest, 1), s.disk)
  }

  // ----- what requests ask for, by keys and pairs ---------------------------------------------------

  /** Not before `key`, and before `end` unless that is the single zero byte, which stands for no end. */
  predicate FromTo(k: Key, key: Key, end: Key)
  {
    (k == key || Less(key, k)) && (end == [0] || Less(k, end))
  }

  /** The keys a range request is about: the one key, or the keys of a range; all keys from the zero byte on. */
  predicate RangeAsks(k: Key, key: Key, end: Option<Key>)
  {
    (end.None? && k == key) || (end.Some? && FromTo(k, key, end.value)) || (key == [0] && end == Some([0]))
  }

  /** The keys a deletion is about; it has no special case for the zero byte as its start. */
  predicate DeleteAsks(k: Key, key: Key, end: Option<Key>)
  {
    (end.None? && k == key) || (end.Some? && FromTo(k, key, end.value))
  }

  lemma HitsAreAsked(k: Key, key: Key, end: Option<Key>)
    ensures RangeHit(k, key, end) <==> RangeAsks(k, key, end)
    ensures DeleteHit(k, key, end) <==> DeleteAsks(k, key, end)
  {
    LessTotal(k, key);
    LessIrreflexive(k);
    if Less(key, k) {
      LessAsymmetric(key, k);
    }
  }

  /** A comparison holds of the stored pairs. An absent key has the numbers of a pair never written, and no value;
      a value that cannot be read is the empty one. */
  predicate Holds(kv: KV, c: Compare)
  {
    && KeyOf(c.key).Some?
    && var key := KeyOf(c.key).value;
       match c.target
       case VERSION => (key in kv && kv[key].version == c.number) || (key !in kv && c.number == 0)
       case CREATE => (key in kv && kv[key].create == c.number) || (key !in kv && c.number == 0)
       case MOD => (key in kv && kv[key].mod == c.number) || (key !in kv && c.number == 0)
       case VALUE =>
         key in kv && (KeyOf(c.value) == Some(kv[key].value) || (KeyOf(c.value).None? && kv[key].value == []))
  }

  lemma HeldHolds(s: State, c: Compare)
    ensures Held(s, c).None? <==> KeyOf(c.key).None?
    ensures Held(s, c) == Some(true) <==> Holds(s.kv, c)
  {
    hide Base64.Decoded;
  }

  /** The first comparison that does not hold is the one at `i`. */
  predicate FirstToFail(kv: KV, cs: seq<Compare>, i: nat)
  {
    i < |cs| && !Holds(kv, cs[i]) && forall j | 0 <= j < i :: Holds(kv, cs[j])
  }

  predicate EveryHolds(kv: KV, cs: seq<Compare>)
  {
    forall i | 0 <= i < |cs| :: Holds(kv, cs[i])
  }

  /** Which branch a transaction runs: `success` when every comparison holds; otherwise the first that does not hold
      decides: `failure` when its key can be read, and nothing is run when it cannot. */
  lemma {:induction false} BranchMeans(s: State, cs: seq<Compare>)
    ensures AllHeld(s, cs) == Some(true) <==> EveryHolds(s.kv, cs)
    ensures forall i: nat | FirstToFail(s.kv, cs, i) ::
              AllHeld(s, cs) == if KeyOf(cs[i].key).Some? then Some(false) else None
    ensures EveryHolds(s.kv, cs) || exists i: nat :: FirstToFail(s.kv, cs, i)
  {
    hide Held, Holds, KeyOf;
    if |cs| > 0 {
      HeldHolds(s, cs[0]);
      BranchMeans(s, cs[1..]);
      if Holds(s.kv, cs[0]) {
        assert EveryHolds(s.kv, cs) <==> EveryHolds(s.kv, cs[1..]) by {
          assert forall i | 0 < i < |cs| :: cs[i] == cs[1..][i - 1];
        }
        forall i: nat | FirstToFail(s.kv, cs, i)
          ensures i > 0 && FirstToFail(s.kv, cs[1..], i - 1)
        {
          assert forall j | 0 <= j < i - 1 :: cs[1..][j] == cs[j + 1];
        }
        if i: nat :| FirstToFail(s.kv, cs[1..], i) {
          assert forall j | 0 < j <= i :: cs[j] == cs[1..][j - 1];
          assert FirstToFail(s.kv, cs, i + 1);
        }
      } else {
        assert FirstToFail(s.kv, cs, 0);
      }
    }
  }

  /** The operations of a branch take effect one after the other: `trace` is the state before each and at the end. */
  ghost predicate InTurn(trace: seq<State>, answers: seq<Answer>, ops: seq<Request>)
  {
    && |trace| == |ops| + 1 && |answers| == |ops|
    && forall i | 0 <= i < |ops| ::
         trace[i + 1] == AfterRequest(trace[i], ops[i]) && answers[i] == AnswerTo(trace[i], ops[i])
  }

  /** The operations of a known kind, in order. */
  function Known(ops: seq<Op>): seq<Request>
  {
    if |ops| == 0 then []
    else Known(ops[..|ops| - 1]) + match ops[|ops| - 1] case None => [] case Some(r) => [r]
  }

  lemma {:induction false} OpsInTurn(s: State, ops: seq<Op>) returns (trace: seq<State>)
    ensures InTurn(trace, AnswersTo(s, ops), Known(ops))
    ensures trace[0] == s && trace[|Known(ops)|] == AfterOps(s, ops)
  {
    hide AfterRequest, AnswerTo;
    if |ops| == 0 {
      trace := [s];
    } else {
      trace := OpsInTurn(s, ops[..|ops| - 1]);
      match ops[|ops| - 1]
      case None =>
      case Some(r) => trace := trace + [AfterRequest(trace[|trace| - 1], r)];
    }
  }

  // ----- the node as a program ----------------------------------------------------------------------

  lemma NoText(kv: KV)
    ensures TextOf([], kv) == ""
  {
  }

  /** The loop that pushes one line per pair. */
  method Print(kv: KV) returns (text: string)
    ensures text == PrintStore(kv)
  {
    hide LineOf, TextOf;
    var ks := SortedKeys(kv.Keys);
    text := "";
    NoText(kv);
    for i := 0 to |ks|
      invariant StoreText.AllIn(ks[..i], kv) && text == TextOf(ks[..i], kv)
    {
      assert ks[..i + 1] == ks[..i] + [ks[i]];
      assert ks[i] in kv;
      TextAppend(ks[..i], ks[i], kv);
      text := text + LineOf(ks[i], kv[ks[i]]) + "\n";
    }
    assert ks[..|ks|] == ks;
  }

  lemma SelectedNext(ks: seq<Key>, kv: KV, key: Key, end: Option<Key>, i: nat)
    requires StoreText.AllIn(ks, kv)
    ensures Selected([], kv, key, end) == []
    ensures i < |ks| ==>
      Selected(ks[..i + 1], kv, key, end)
      == Selected(ks[..i], kv, key, end) + if RangeHit(ks[i], key, end) then [(ks[i], kv[ks[i]])] else []
  {
    hide RangeHit;
    if i < |ks| {
      assert ks[..i + 1][..i] == ks[..i];
    }
  }

  /** The loop that collects the pairs a range request hits. */
  method Select(kv: KV, key: Key, end: Option<Key>) returns (kvs: seq<(Key, Pair)>)
    ensures kvs == Selected(SortedKeys(kv.Keys), kv, key, end)
  {
    hide RangeHit, Selected;
    kvs := [];
    var ks := SortedKeys(kv.Keys);
    SelectedNext(ks, kv, key, end, 0);
    for i := 0 to |ks|
      invariant StoreText.AllIn(ks, kv) && kvs == Selected(ks[..i], kv, key, end)
    {
      SelectedNext(ks, kv, key, end, i);
      if RangeHit(ks[i], key, end) {
        kvs := kvs + [(ks[i], kv[ks[i]])];
      }
    }
    assert ks[..|ks|] == ks;
  }

  lemma {:induction false} SelectedHas(ks: seq<Key>, kv: KV, key: Key, end: Option<Key>, k: Key, p: Pair)
    requires StoreText.AllIn(ks, kv)
    ensures (k, p) in Selected(ks, kv, key, end) <==> k in ks && RangeAsks(k, key, end) && k in kv && p == kv[k]
  {
    hide RangeHit, RangeAsks;
    if |ks| > 0 {
      var init, last := ks[..|ks| - 1], ks[|ks| - 1];
      assert ks == init + [last];
      SelectedHas(init, kv, key, end, k, p);
      HitsAreAsked(last, key, end);
    }
  }

  lemma {:induction false} SelectedAscends(ks: seq<Key>, kv: KV, key: Key, end: Option<Key>)
    requires StoreText.AllIn(ks, kv) && Ascending(ks)
    ensures var got := Selected(ks, kv, key, end); forall i, j | 0 <= i < j < |got| :: Less(got[i].0, got[j].0)
  {
    hide RangeHit, RangeAsks, Less;
    if |ks| > 0 {
      var init, last := ks[..|ks| - 1], ks[|ks| - 1];
      SelectedAscends(init, kv, key, end);
      var before := Selected(init, kv, key, end);
      forall i | 0 <= i < |before|
        ensures Less(before[i].0, last)
      {
        SelectedHas(init, kv, key, end, before[i].0, before[i].1);
        var j :| 0 <= j < |init| && init[j] == before[i].0;
        assert ks[j] == init[j];
      }
    }
  }

  /** A range request returns exactly the pairs it is about, in strictly ascending key order. */
  lemma SelectedExactly(ks: seq<Key>, kv: KV, key: Key, end: Option<Key>)
    requires StoreText.AllIn(ks, kv) && Ascending(ks)
    ensures
      var got := Selected(ks, kv, key, end);
      && (forall k, p :: (k, p) in got <==> k in ks && RangeAsks(k, key, end) && k in kv && p == kv[k])
      && (forall i, j | 0 <= i < j < |got| :: Less(got[i].0, got[j].0))
  {
    hide RangeHit, RangeAsks, Less, Selected;
    SelectedAscends(ks, kv, key, end);
    forall k, p
      ensures (k, p) in Selected(ks, kv, key, end) <==> k in ks && RangeAsks(k, key, end) && k in kv && p == kv[k]
    {
      SelectedHas(ks, kv, key, end, k, p);
    }
  }

  /** A deletion takes away exactly the keys it is about. */
  lemma DoomedAre(kv: KV, key: Key, end: Option<Key>)
    ensures
      var doomed := Doomed(kv, key, end);
      && (forall q :: q in kv - doomed <==> q in kv && !DeleteAsks(q, key, end))
      && |kv - doomed| == |kv| - |doomed| && (doomed == {} <==> kv - doomed == kv)
  {
    hide DeleteHit, DeleteAsks;
    var doomed := Doomed(kv, key, end);
    forall q
      ensures DeleteHit(q, key, end) <==> DeleteAsks(q, key, end)
    {
      HitsAreAsked(q, key, end);
    }
    assert (kv - doomed).Keys == kv.Keys - doomed;
    assert doomed != {} ==> |kv - doomed| < |kv|;
  }

  /** From `s` to `t` with this answer: the keys a deletion is about are gone, the others are as they were, and only
      when there were any does the counter move and the store get dirty. */
  ghost predicate Deleted(s: State, t: State, answer: Answer, k: Field, e: Field)
  {
    if KeyOf(k).None? then t == s && answer == BadRequest
    else
      && (forall q :: q in t.kv <==> q in s.kv && !DeleteAsks(q, KeyOf(k).value, KeyOf(e)))
      && (forall q | q in t.kv :: t.kv[q] == s.kv[q])
      && t.revision == s.revision + (if t.kv == s.kv then 0 else 1)
      && t.dirty == (s.dirty || t.kv != s.kv) && t.disk == s.disk
      && answer.DeleteAnswer? && answer.revision == t.revision && answer.deleted + |t.kv| == |s.kv|
  }

  lemma DeletionIs(s: State, k: Field, e: Field)
    ensures Deleted(s, AfterRequest(s, DeleteRange(k, e)), AnswerTo(s, DeleteRange(k, e)), k, e)
  {
    hide KeyOf, DeleteHit, DeleteAsks;
    if KeyOf(k).Some? {
      DoomedAre(s.kv, KeyOf(k).value, KeyOf(e));
      hide Doomed;
    }
  }

  /** From `s` to `t` with this answer: the key has the value at the next revision, with the creation revision and the
      version of the pair it had carried on; the disk is as it was. */
  ghost predicate WasPut(s: State, t: State, answer: Answer, k: Field, v: Field, wantPrev: bool)
  {
    if KeyOf(k).None? || KeyOf(v).None? then t == s && answer == BadRequest
    else
      var key, value := KeyOf(k).value, KeyOf(v).value;
      && t.revision == s.revision + 1 && t.dirty && t.disk == s.disk
      && t.kv == s.kv[key := if key in s.kv then Pair(value, s.kv[key].create, t.revision, s.kv[key].version + 1)
                             else Pair(value, t.revision, t.revision, 1)]
      && answer == PutAnswer(t.revision, if wantPrev && key in s.kv then Some(s.kv[key]) else None)
  }

  lemma PutIs(s: State, k: Field, v: Field, wantPrev: bool)
    ensures WasPut(s, AfterRequest(s, Put(k, v, wantPrev)), AnswerTo(s, Put(k, v, wantPrev)), k, v, wantPrev)
  {
    hide KeyOf;
  }

  /** `kvs` are the stored pairs whose keys the range request is about, in strictly ascending key order. */
  ghost predicate Gives(kvs: seq<(Key, Pair)>, kv: KV, key: Field, end: Field)
    requires KeyOf(key).Some?
  {
    && (forall k, p :: (k, p) in kvs <==> k in kv && kv[k] == p && RangeAsks(k, KeyOf(key).value, KeyOf(end)))
    && (forall i, j | 0 <= i < j < |kvs| :: Less(kvs[i].0, kvs[j].0))
  }

  lemma SelectedGives(kv: KV, key: Field, end: Field)
    requires KeyOf(key).Some?
    ensures Gives(Selected(SortedKeys(kv.Keys), kv, KeyOf(key).value, KeyOf(end)), kv, key, end)
  {
    hide KeyOf, RangeHit, RangeAsks, Less, Selected;
    var ks := SortedKeys(kv.Keys);
    SelectedExactly(ks, kv, KeyOf(key).value, KeyOf(end));
  }

  /** The data directory: it outlives the process. */
  class Disk {
    var file: Option<string>

    constructor ()
      ensures file == None
    {
      file := None;
    }
  }

  class Server {
    var kv: KV
    var dirty: bool
    var revision: int
    const disk: Disk

    ghost function Abs(): State
      reads this, disk
    {
      State(kv, dirty, revision, disk.file)
    }

    /** A fresh process: it starts empty at revision 1 and then loads the store. */
    constructor (d: Disk)
      ensures disk == d && d.file == old(d.file)
      ensures forall s: State :: s.disk == d.file ==> Abs() == AfterRestart(s)
    {
      kv, dirty, revision := map[], false, 1;
      disk := d;
      new;
      Load();
    }

    method Load()
      requires kv == map[] && !dirty && revision == 1
      modifies this
      ensures forall s: State :: s.disk == disk.file ==> Abs() == AfterRestart(s)
    {
      hide Lines, ParseLine;
      if disk.file == None {
        return;
      }
      var lines := Lines(disk.file.value);
      var highest := 0;
      for i := 0 to |lines|
        invariant !dirty && Loaded(kv, highest) == LoadLines(lines, i, map[])
      {
        var parsed := ParseLine(lines[i]);
        if parsed == None {
          continue;
        }
        highest := Max(highest, parsed.value.1.mod);
        kv := kv[parsed.value.0 := parsed.value.1];
      }
      revision := Max(highest, 1);
    }

    method Flush(written: bool)
      modifies this, disk
      ensures Abs() == AfterAttempt(old(Abs()), written)
    {
      if !dirty {
        return;
      }
      var text := Print(kv);
      if written {
        disk.file := Some(text);
      }
      dirty := false;
    }

    method DoPut(k: Field, v: Field, wantPrev: bool) returns (answer: Answer)
      modifies this
      ensures Abs() == AfterRequest(old(Abs()), Put(k, v, wantPrev))
      ensures answer == AnswerTo(old(Abs()), Put(k, v, wantPrev))
      ensures WasPut(old(Abs()), Abs(), answer, k, v, wantPrev)
    {
      hide Base64.Decoded, WasPut;
      PutIs(Abs(), k, v, wantPrev);
      var key, value := KeyOf(k), KeyOf(v);
      if key == None || value == None {
        return BadRequest;
      }
      revision := revision + 1;
      var rev := revision;
      var prev := Lookup(kv, key.value);
      kv := kv[key.value := NextPair(prev, value.value, rev)];
      dirty := true;
      answer := PutAnswer(revision, if wantPrev then prev else None);
    }

    method DoRange(k: Field, e: Field) returns (answer: Answer)
      ensures answer == AnswerTo(Abs(), Range(k, e))
      ensures KeyOf(k).None? ==> answer == BadRequest
      ensures KeyOf(k).Some? ==> answer.RangeAnswer? && answer.revision == revision && Gives(answer.kvs, kv, k, e)
    {
      hide Base64.Decoded, Gives, SortedKeys;
      var key := KeyOf(k);
      if key == None {
        return BadRequest;
      }
      var kvs := Select(kv, key.value, KeyOf(e));
      SelectedGives(kv, k, e);
      answer := RangeAnswer(revision, kvs);
    }

    method DoDelete(k: Field, e: Field) returns (answer: Answer)
      modifies this
      ensures Abs() == AfterRequest(old(Abs()), DeleteRange(k, e))
      ensures answer == AnswerTo(old(Abs()), DeleteRange(k, e))
      ensures Deleted(old(Abs()), Abs(), answer, k, e)
    {
      hide Base64.Decoded, DeleteHit, Deleted;
      DeletionIs(Abs(), k, e);
      var key := KeyOf(k);
      if key == None {
        return BadRequest;
      }
      var end := KeyOf(e);
      var doomed := set q | q in kv && DeleteHit(q, key.value, end);
      assert doomed == Doomed(kv, key.value, end);
      kv := kv - doomed;
      if doomed != {} {
        revision := revision + 1;
        dirty := true;
      }
      assert doomed == {} ==> kv == old(kv);
      answer := DeleteAnswer(revision, |doomed|);
    }

    method Handle(r: Request) returns (answer: Answer)
      modifies this
      ensures Abs() == AfterRequest(old(Abs()), r) && answer == AnswerTo(old(Abs()), r)
    {
      match r
      case Put(k, v, wantPrev) => answer := DoPut(k, v, wantPrev);
      case Range(k, e) => answer := DoRange(k, e);
      case DeleteRange(k, e) => answer := DoDelete(k, e);
    }

    method HandleTxn(t: Txn) returns (answer: TxnAnswer)
      modifies this
      ensures Abs() == AfterTxn(old(Abs()), t)
      ensures answer ==
        match BranchOf(old(Abs()), t)
        case None => TxnBad
        case Some(ops) => TxnAnswer(Abs().revision, AllHeld(old(Abs()), t.compares).value, AnswersTo(old(Abs()), ops))
      ensures EveryHolds(old(kv), t.compares) ==>
                && Abs() == AfterOps(old(Abs()), t.success)
                && answer == TxnAnswer(revision, true, AnswersTo(old(Abs()), t.success))
      ensures forall i: nat | FirstToFail(old(kv), t.compares, i) ::
                if KeyOf(t.compares[i].key).Some? then
                  && Abs() == AfterOps(old(Abs()), t.failure)
                  && answer == TxnAnswer(revision, false, AnswersTo(old(Abs()), t.failure))
                else Abs() == old(Abs()) && answer == TxnBad
    {
      hide AfterRequest, AnswerTo, Held, Holds, KeyOf;
      BranchMeans(Abs(), t.compares);
      ghost var start := Abs();
      var succeeded := true;
      var i := 0;
      assert t.compares[0..] == t.compares;
      while i < |t.compares| && succeeded
        invariant i <= |t.compares| && Abs() == start
        invariant AllHeld(start, t.compares) == if succeeded then AllHeld(start, t.compares[i..]) else Some(false)
      {
        assert t.compares[i..][0] == t.compares[i] && t.compares[i..][1..] == t.compares[i + 1..];
        var held := Held(State(kv, dirty, revision, disk.file), t.compares[i]);
        if held == None {
          return TxnBad;
        }
        if !held.value {
          succeeded := false;
        }
        i := i + 1;
      }
      var ops := if succeeded then t.success else t.failure;
      var responses := [];
      for n := 0 to |ops|
        invariant Abs() == AfterOps(start, ops[..n]) && responses == AnswersTo(start, ops[..n])
      {
        assert ops[..n + 1][..n] == ops[..n];
        match ops[n]
        case None =>
        case Some(r) =>
          var answer := Handle(r);
          responses := responses + [answer];
      }
      assert ops[..|ops|] == ops;
      answer := TxnAnswer(revision, succeeded, responses);
    }
  }
}
