/** Recorded histories of a key/value register and what it means for one to be linearizable. */
module LinHistory {
  import opened Wrappers
  import opened Bytes

  type Val = seq<byte>

  /** The request of an operation. */
  datatype Op = Read | Write(value: Val) | Delete | Cas(wanted: Option<Val>, update: Val)

  /** The answer to it, if one came. */
  datatype Outcome = Value(seen: Option<Val>) | Done | Swapped(held: bool) | Unknown

  /** `ret` of an operation that never answered. */
  const NEVER: nat := 0xffff_ffff_ffff_ffff

  datatype Entry = Entry(id: nat, key: string, op: Op, outcome: Outcome, call: nat, ret: nat)
  {
    predicate Answered()
    {
      outcome != Unknown
    }

    /** What a recorder guarantees of the two instants. */
    predicate Recorded()
    {
      call <= ret <= NEVER && (outcome == Unknown ==> ret == NEVER)
    }
  }

  /** An entry as the recorder builds it: without an answer it never returned, whatever it was given. */
  function EntryOf(id: nat, key: string, op: Op, outcome: Outcome, call: nat, ret: nat): (e: Entry)
    requires call <= NEVER && ret <= NEVER
    ensures e.Recorded() <==> outcome == Unknown || call <= ret
    ensures e.id == id && e.key == key && e.op == op && e.call == call
    ensures e.Answered() <==> outcome != Unknown
    ensures e.Answered() ==> e.ret == ret && e.outcome == outcome
  {
    Entry(id, key, op, outcome, call, if outcome == Unknown then NEVER else ret)
  }

  predicate WellRecorded(es: seq<Entry>)
  {
    forall i | 0 <= i < |es| :: es[i].Recorded()
  }

  /** What a key holds at one moment. */
  type State = Option<Val>

  /** The register after one operation; nothing when the recorded answer cannot be. */
  function Step(s: State, e: Entry): Option<State>
  {
    match (e.op, e.outcome)
    case (Read, Value(v)) => if s == v then Some(s) else None
    case (Read, Unknown) => Some(s)
    case (Write(v), Done) => Some(Some(v))
    case (Write(v), Unknown) => Some(Some(v))
    case (Delete, Done) => Some(None)
    case (Delete, Unknown) => Some(None)
    case (Cas(wanted, v), Swapped(held)) =>
      if held then (if s == wanted then Some(Some(v)) else None)
      else (if s != wanted then Some(s) else None)
    case (Cas(wanted, v), Unknown) => Some(if s == wanted then Some(v) else s)
    case _ => None
  }

  /** The state after the operations at the given positions, one after the other. */
  function Exec(es: seq<Entry>, s: State, order: seq<nat>): Option<State>
    requires forall i | 0 <= i < |order| :: order[i] < |es|
    decreases |order|
  {
    if |order| == 0 then Some(s)
    else
      match Step(s, es[order[0]])
      case None => None
      case Some(next) => Exec(es, next, order[1..])
  }

  ghost predicate Distinct(order: seq<nat>)
  {
    forall i, j | 0 <= i < j < |order| :: order[i] != order[j]
  }

  /** Of two operations one of which was over before the other began, that one comes first. */
  ghost predicate RealTime(es: seq<Entry>, order: seq<nat>)
    requires forall i | 0 <= i < |order| :: order[i] < |es|
  {
    forall i, j | 0 <= i < j < |order| :: es[order[i]].call <= es[order[j]].ret
  }

  /** `order` places operations of `pending`, every answered one among them, one after the other
      from state `s`; operations without an answer may be left out. */
  ghost predicate Places(es: seq<Entry>, pending: set<nat>, s: State, order: seq<nat>)
  {
    && (forall i | 0 <= i < |order| :: order[i] < |es| && order[i] in pending)
    && Distinct(order)
    && (forall p | p in pending && p < |es| && es[p].Answered() :: p in order)
    && RealTime(es, order)
    && Exec(es, s, order).Some?
  }

  ghost function Below(n: nat): (r: set<nat>)
    ensures forall p: nat :: p in r <==> p < n
  {
    if n == 0 then {} else Below(n - 1) + {n - 1}
  }

  /** Every position of a history. */
  ghost function All(es: seq<Entry>): set<nat>
  {
    Below(|es|)
  }

  /** Every answered operation can be placed at an instant inside its own window, so that a register
      that starts empty gives exactly the recorded answers. */
  ghost predicate Linearizable(es: seq<Entry>)
  {
    exists order :: Places(es, All(es), None, order)
  }
}
