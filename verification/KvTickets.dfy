/** Puts that overlap: a put takes its revision before it takes the lock. */
module KvTickets {
  import opened Wrappers
  import opened Bytes
  import opened StoreText
  import opened KvNode
  import opened KvRuns

  /** A put between its two halves. */
  datatype Ticket = Ticket(key: Key, value: seq<byte>, revision: int)

  datatype Busy = Busy(node: State, tickets: map<nat, Ticket>)

  /** `TakeTicket` is the atomic increment and `Insert` the locked half of thread `t`'s put; the
      other steps run under the lock. */
  datatype Move =
    | TakeTicket(t: nat, key: Key, value: seq<byte>)
    | Insert(t: nat)
    | Delete(key: Key, end: Option<Key>)
    | Flush
    | Restart

  function Next(b: Busy, m: Move): Busy
  {
    match m
    case TakeTicket(t, key, value) =>
      if t in b.tickets then b
      else
        var rev := b.node.revision + 1;
        Busy(b.node.(revision := rev), b.tickets[t := Ticket(key, value, rev)])
    case Insert(t) =>
      if t !in b.tickets then b
      else
        var k := b.tickets[t];
        var pair := NextPair(Lookup(b.node.kv, k.key), k.value, k.revision);
        Busy(b.node.(kv := b.node.kv[k.key := pair], dirty := true), b.tickets - {t})
    case Delete(key, end) => Busy(AfterDelete(b.node, key, end), b.tickets)
    case Flush => Busy(AfterFlush(b.node), b.tickets)
    case Restart => Busy(AfterRestart(b.node), map[])
  }

  const QUIET := Busy(START, map[])

  function Play(ms: seq<Move>): Busy
  {
    if |ms| == 0 then QUIET else Next(Play(ms[..|ms| - 1]), ms[|ms| - 1])
  }

  /** When nothing runs between the halves, they are one put. */
  lemma HalvesMakeAPut(b: Busy, t: nat, key: Key, value: seq<byte>)
    requires t !in b.tickets
    ensures Next(Next(b, TakeTicket(t, key, value)), Insert(t)) == Busy(AfterPut(b.node, key, value), b.tickets)
  {
    assert b.tickets[t := Ticket(key, value, b.node.revision + 1)] - {t} == b.tickets;
  }

  // ----- revisions are never handed out twice ------------------------------------------------

  /** Stored modifications are pairwise distinct and at most the counter. */
  ghost predicate ModsDistinct(kv: KV, revision: int)
  {
    && (forall k | k in kv :: kv[k].mod <= revision)
    && (forall k, k' | k in kv && k' in kv && kv[k].mod == kv[k'].mod :: k == k')
  }

  ghost predicate TicketsDistinct(b: Busy)
  {
    && (forall t | t in b.tickets :: b.tickets[t].revision <= b.node.revision)
    && (forall t, t' | t in b.tickets && t' in b.tickets && b.tickets[t].revision == b.tickets[t'].revision ::
          t == t')
    && (forall t, k | t in b.tickets && k in b.node.kv :: b.tickets[t].revision != b.node.kv[k].mod)
  }

  ghost predicate Unique(b: Busy)
  {
    && Durable(b.node)
    && ModsDistinct(b.node.kv, b.node.revision)
    && TicketsDistinct(b)
    && (exists r :: ModsDistinct(Saved(b.node), r))
  }

  lemma TakeKeeps(b: Busy, t: nat, key: Key, value: seq<byte>)
    requires Unique(b)
    ensures Unique(Next(b, TakeTicket(t, key, value)))
  {
    hide LoadText, PrintStore;
    assert Saved(Next(b, TakeTicket(t, key, value)).node) == Saved(b.node);
  }

  lemma InsertDistinct(b: Busy, t: nat)
    requires ModsDistinct(b.node.kv, b.node.revision) && TicketsDistinct(b) && t in b.tickets
    ensures ModsDistinct(Next(b, Insert(t)).node.kv, b.node.revision)
  {
    var kv, kv' := b.node.kv, Next(b, Insert(t)).node.kv;
    var key, rev := b.tickets[t].key, b.tickets[t].revision;
    assert kv'[key].mod == rev;
    assert forall k | k in kv' && k != key :: k in kv && kv'[k] == kv[k] && kv[k].mod != rev;
  }

  lemma InsertTickets(b: Busy, t: nat)
    requires TicketsDistinct(b) && t in b.tickets
    ensures TicketsDistinct(Next(b, Insert(t)))
  {
    var b' := Next(b, Insert(t));
    var key, rev := b.tickets[t].key, b.tickets[t].revision;
    assert forall k | k in b'.node.kv :: b'.node.kv[k].mod == if k == key then rev else b.node.kv[k].mod;
    assert forall u | u in b'.tickets :: u in b.tickets && u != t && b'.tickets[u] == b.tickets[u];
  }

  lemma InsertKeeps(b: Busy, t: nat)
    requires Unique(b)
    ensures Unique(Next(b, Insert(t)))
  {
    if t in b.tickets {
      InsertDistinct(b, t);
      InsertTickets(b, t);
    }
    hide LoadText, PrintStore, ModsDistinct, TicketsDistinct;
    assert Saved(Next(b, Insert(t)).node) == Saved(b.node);
  }

  lemma DeleteKeepsUnique(b: Busy, key: Key, end: Option<Key>)
    requires Unique(b)
    ensures Unique(Next(b, Delete(key, end)))
  {
    hide LoadText, PrintStore, DeleteHit;
    var b' := Next(b, Delete(key, end));
    assert Saved(b'.node) == Saved(b.node);
    assert forall k | k in b'.node.kv :: k in b.node.kv && b'.node.kv[k] == b.node.kv[k];
  }

  lemma FlushKeepsUnique(b: Busy)
    requires Unique(b)
    ensures Unique(Next(b, Flush))
  {
    hide LoadText, PrintStore;
    StoreRoundTrip(b.node.kv);
    assert Saved(AfterFlush(b.node)) == b.node.kv;
  }

  lemma NoTickets(s: State)
    ensures TicketsDistinct(Busy(s, map[]))
  {
  }

  lemma DistinctBelowHighest(kv: KV, h: int, r: int)
    requires IsHighest(h, kv) && ModsDistinct(kv, r)
    ensures ModsDistinct(kv, Max(h, 1))
  {
  }

  lemma RestartKeepsUnique(b: Busy)
    requires Unique(b)
    ensures Unique(Next(b, Restart))
  {
    RestartRestores(b.node);
    NoTickets(AfterRestart(b.node));
    hide LoadText, PrintStore, AfterRestart, Saved, ModsDistinct, TicketsDistinct, IsHighest, Max;
    var h :| IsHighest(h, Saved(b.node)) && AfterRestart(b.node).revision == Max(h, 1);
    var r :| ModsDistinct(Saved(b.node), r);
    DistinctBelowHighest(Saved(b.node), h, r);
  }

  lemma NothingTaken()
    ensures Unique(QUIET)
  {
    assert ModsDistinct(Saved(START), 0);
  }

  /** Over every interleaving, outstanding tickets and stored modification revisions are pairwise
      distinct and at most the counter. */
  lemma {:induction false} RevisionsUnique(ms: seq<Move>)
    ensures Unique(Play(ms))
  {
    hide Unique, Next;
    if |ms| == 0 {
      NothingTaken();
    } else {
      RevisionsUnique(ms[..|ms| - 1]);
      var b := Play(ms[..|ms| - 1]);
      match ms[|ms| - 1]
      case TakeTicket(t, key, value) => TakeKeeps(b, t, key, value);
      case Insert(t) => InsertKeeps(b, t);
      case Delete(key, end) => DeleteKeepsUnique(b, key, end);
      case Flush => FlushKeepsUnique(b);
      case Restart => RestartKeepsUnique(b);
    }
  }

  // ----- versions count inserts ------------------------------------------------------------------

  /** How often `key` was inserted since it was last absent, read off the history alone: a delete
      that hits it starts over, and a restart goes back to what the last flush saw. */
  function Inserts(ms: seq<Move>, key: Key): nat
    decreases |ms|, 1
  {
    if |ms| == 0 then 0
    else
      var before := ms[..|ms| - 1];
      match ms[|ms| - 1]
      case TakeTicket(_, _, _) => Inserts(before, key)
      case Insert(t) =>
        var tickets := Play(before).tickets;
        Inserts(before, key) + if t in tickets && tickets[t].key == key then 1 else 0
      case Delete(k, end) => if DeleteHit(key, k, end) then 0 else Inserts(before, key)
      case Flush => Inserts(before, key)
      case Restart => InsertsSaved(before, key)
  }

  /** The same count as of the last flush. */
  function InsertsSaved(ms: seq<Move>, key: Key): nat
    decreases |ms|, 0
  {
    if |ms| == 0 then 0
    else
      var before := ms[..|ms| - 1];
      if ms[|ms| - 1].Flush? then Inserts(before, key) else InsertsSaved(before, key)
  }

  ghost predicate Counts(kv: KV, key: Key, n: nat)
  {
    if key in kv then kv[key].version == n > 0 else n == 0
  }

  lemma NoInserts(key: Key)
    ensures Inserts([], key) == InsertsSaved([], key) == 0
    ensures Counts(QUIET.node.kv, key, 0) && Counts(Saved(QUIET.node), key, 0)
  {
  }

  lemma MoveSaved(b: Busy, m: Move)
    requires Durable(b.node)
    ensures Saved(Next(b, m).node) == if m.Flush? then b.node.kv else Saved(b.node)
  {
    hide LoadText, PrintStore, DeleteHit, AfterRestart;
    if m.Restart? {
      RestartRestores(b.node);
    } else if m.Flush? {
      StoreRoundTrip(b.node.kv);
    }
  }

  /** One more move changes the count as follows. */
  function NextCount(b: Busy, m: Move, key: Key, n: nat, saved: nat): nat
  {
    match m
    case TakeTicket(_, _, _) => n
    case Insert(t) => n + if t in b.tickets && b.tickets[t].key == key then 1 else 0
    case Delete(k, end) => if DeleteHit(key, k, end) then 0 else n
    case Flush => n
    case Restart => saved
  }

  lemma InsertsNext(ms: seq<Move>, m: Move, key: Key)
    ensures Inserts(ms + [m], key) == NextCount(Play(ms), m, key, Inserts(ms, key), InsertsSaved(ms, key))
    ensures InsertsSaved(ms + [m], key) == if m.Flush? then Inserts(ms, key) else InsertsSaved(ms, key)
  {
    hide Play, DeleteHit;
    assert (ms + [m])[..|ms|] == ms;
  }

  lemma MoveCounts(b: Busy, m: Move, key: Key, n: nat, saved: nat)
    requires Durable(b.node) && Counts(b.node.kv, key, n) && Counts(Saved(b.node), key, saved)
    ensures Counts(Next(b, m).node.kv, key, NextCount(b, m, key, n, saved))
  {
    hide LoadText, PrintStore, DeleteHit, AfterRestart, Saved;
    if m.Restart? {
      RestartRestores(b.node);
    } else if m.Delete? {
      assert key in Doomed(b.node.kv, m.key, m.end) <==> key in b.node.kv && DeleteHit(key, m.key, m.end);
    }
  }

  /** Over every interleaving, a key is present exactly when it was inserted since it was last
      absent, and its version is the number of those inserts; the disk agrees as of its flush. */
  lemma {:induction false} VersionsCountInserts(ms: seq<Move>, key: Key)
    ensures Counts(Play(ms).node.kv, key, Inserts(ms, key))
    ensures Counts(Saved(Play(ms).node), key, InsertsSaved(ms, key))
  {
    hide LoadText, PrintStore, Next, Inserts, InsertsSaved, Saved, Counts;
    if |ms| == 0 {
      NoInserts(key);
    } else {
      var before, m := ms[..|ms| - 1], ms[|ms| - 1];
      VersionsCountInserts(before, key);
      RevisionsUnique(before);
      MoveSaved(Play(before), m);
      InsertsNext(before, m, key);
      assert ms == before + [m];
      MoveCounts(Play(before), m, key, Inserts(before, key), InsertsSaved(before, key));
    }
  }

  // ----- creation and modification ----------------------------------------------------------------

  /** The revisions of two puts of a key: the first and the last one inserted since it was last absent. */
  datatype Span = Absent | Span(first: int, last: int)

  function Extended(span: Span, revision: int): Span
  {
    match span
    case Absent => Span(revision, revision)
    case Span(first, _) => Span(first, revision)
  }

  /** The span of `key`, read off the history alone: a delete that hits it forgets it, and a restart
      goes back to what the last flush saw. */
  function SpanOf(ms: seq<Move>, key: Key): Span
    decreases |ms|, 1
  {
    if |ms| == 0 then Absent
    else
      var before := ms[..|ms| - 1];
      match ms[|ms| - 1]
      case TakeTicket(_, _, _) => SpanOf(before, key)
      case Insert(t) =>
        var tickets := Play(before).tickets;
        if t in tickets && tickets[t].key == key then Extended(SpanOf(before, key), tickets[t].revision)
        else SpanOf(before, key)
      case Delete(k, end) => if DeleteHit(key, k, end) then Absent else SpanOf(before, key)
      case Flush => SpanOf(before, key)
      case Restart => SpanSaved(before, key)
  }

  /** The same span as of the last flush. */
  function SpanSaved(ms: seq<Move>, key: Key): Span
    decreases |ms|, 0
  {
    if |ms| == 0 then Absent
    else
      var before := ms[..|ms| - 1];
      if ms[|ms| - 1].Flush? then SpanOf(before, key) else SpanSaved(before, key)
  }

  ghost predicate Spans(kv: KV, key: Key, span: Span)
  {
    if key in kv then span == Span(kv[key].create, kv[key].mod) else span == Absent
  }

  lemma NoSpan(key: Key)
    ensures SpanOf([], key) == SpanSaved([], key) == Absent
    ensures Spans(QUIET.node.kv, key, Absent) && Spans(Saved(QUIET.node), key, Absent)
  {
  }

  /** One more move changes the span as follows. */
  function NextSpan(b: Busy, m: Move, key: Key, span: Span, saved: Span): Span
  {
    match m
    case TakeTicket(_, _, _) => span
    case Insert(t) =>
      if t in b.tickets && b.tickets[t].key == key then Extended(span, b.tickets[t].revision) else span
    case Delete(k, end) => if DeleteHit(key, k, end) then Absent else span
    case Flush => span
    case Restart => saved
  }

  lemma SpanNext(ms: seq<Move>, m: Move, key: Key)
    ensures SpanOf(ms + [m], key) == NextSpan(Play(ms), m, key, SpanOf(ms, key), SpanSaved(ms, key))
    ensures SpanSaved(ms + [m], key) == if m.Flush? then SpanOf(ms, key) else SpanSaved(ms, key)
  {
    hide Play, DeleteHit, Extended;
    assert (ms + [m])[..|ms|] == ms;
  }

  lemma MoveSpans(b: Busy, m: Move, key: Key, span: Span, saved: Span)
    requires Durable(b.node) && Spans(b.node.kv, key, span) && Spans(Saved(b.node), key, saved)
    ensures Spans(Next(b, m).node.kv, key, NextSpan(b, m, key, span, saved))
  {
    hide LoadText, PrintStore, DeleteHit, AfterRestart, Saved;
    if m.Restart? {
      RestartRestores(b.node);
    } else if m.Delete? {
      assert key in Doomed(b.node.kv, m.key, m.end) <==> key in b.node.kv && DeleteHit(key, m.key, m.end);
    }
  }

  /** Over every interleaving, a stored pair was created at the revision of the first put inserted since
      its key was last absent and modified at that of the last; the disk agrees as of its flush. */
  lemma {:induction false} PairsSpanInserts(ms: seq<Move>, key: Key)
    ensures Spans(Play(ms).node.kv, key, SpanOf(ms, key))
    ensures Spans(Saved(Play(ms).node), key, SpanSaved(ms, key))
  {
    hide LoadText, PrintStore, Next, SpanOf, SpanSaved, Saved, Spans;
    if |ms| == 0 {
      NoSpan(key);
    } else {
      var before, m := ms[..|ms| - 1], ms[|ms| - 1];
      PairsSpanInserts(before, key);
      RevisionsUnique(before);
      MoveSaved(Play(before), m);
      SpanNext(before, m, key);
      assert ms == before + [m];
      MoveSpans(Play(before), m, key, SpanOf(before, key), SpanSaved(before, key));
    }
  }

  /** Over every interleaving, a stored pair was created no later than it was modified if and only if,
      of the puts inserted since its key was last absent, the first had a revision no later than the
      last; and it has no more versions than revisions in between if and only if no more puts were
      inserted than that. Overlapping puts that are inserted in the order of their tickets do no harm. */
  lemma OrderedIff(ms: seq<Move>, key: Key)
    requires key in Play(ms).node.kv
    ensures
      var p, span := Play(ms).node.kv[key], SpanOf(ms, key);
      && span.Span?
      && (p.create <= p.mod <==> span.first <= span.last)
      && (p.version <= p.mod - p.create + 1 <==> Inserts(ms, key) <= span.last - span.first + 1)
  {
    hide Play, SpanOf, Inserts;
    PairsSpanInserts(ms, key);
    VersionsCountInserts(ms, key);
  }

  lemma PlayFour(ms: seq<Move>)
    requires |ms| == 4
    ensures Play(ms) == Next(Next(Next(Next(QUIET, ms[0]), ms[1]), ms[2]), ms[3])
  {
    hide Next;
    assert ms[..3][..2] == ms[..2] && ms[..2][..1] == ms[..1] && ms[..1][..0] == [];
    assert Play([]) == QUIET;
    assert Play(ms[..1]) == Next(QUIET, ms[0]);
    assert Play(ms[..2]) == Next(Play(ms[..1]), ms[1]);
    assert Play(ms[..3]) == Next(Play(ms[..2]), ms[2]);
  }

  /** Two overlapping puts of one key, the second ticket inserted first: modified before created. */
  lemma OverlapBreaksOrder(key: Key, v: seq<byte>, w: seq<byte>)
    ensures
      var ms := [TakeTicket(0, key, v), TakeTicket(1, key, w), Insert(1), Insert(0)];
      var kv := Play(ms).node.kv;
      key in kv && kv[key] == Pair(v, 3, 2, 2)
  {
    hide AfterRestart, AfterFlush, AfterDelete;
    var ms := [TakeTicket(0, key, v), TakeTicket(1, key, w), Insert(1), Insert(0)];
    PlayFour(ms);
  }

  /** The same two puts, inserted in the order of their tickets: nothing is out of order. */
  lemma OverlapMayKeepOrder(key: Key, v: seq<byte>, w: seq<byte>)
    ensures
      var ms := [TakeTicket(0, key, v), TakeTicket(1, key, w), Insert(0), Insert(1)];
      var kv := Play(ms).node.kv;
      key in kv && kv[key] == Pair(w, 2, 3, 2)
  {
    hide AfterRestart, AfterFlush, AfterDelete;
    var ms := [TakeTicket(0, key, v), TakeTicket(1, key, w), Insert(0), Insert(1)];
    PlayFour(ms);
  }
}
