/** The protocol behind live reconfiguration: a call publishes a new configuration and then sweeps
    the table, while newcomers enter the table and then recheck themselves. The session table follows
    it. */
module PublishSweep {

  datatype Row<I> = Row(item: I, cleared: bool)

  /** The configuration in force, the call that published it and whether that call has swept; the
      calls that have published and not yet swept; the table; and the rows that are being closed. */
  datatype State<C, I> = State(
    current: C,
    publisher: nat,
    pending: map<nat, C>,
    nextCall: nat,
    rows: map<nat, Row<I>>,
    closing: set<nat>,
    nextId: nat)

  datatype Action<C, I> =
    | Publish(next: C)
    | Sweep(call: nat)
    | Enter(item: I)
    | Recheck(id: nat)
    | Leave(id: nat)

  function Start<C, I>(initial: C): State<C, I> { State(initial, 0, map[], 1, map[], {}, 1) }

  predicate Swept<C, I>(s: State<C, I>) { s.publisher !in s.pending }

  /** The rows a sweep by configuration c closes. */
  function Unfit<C, I>(fits: (C, I) -> bool, c: C, rows: map<nat, Row<I>>): set<nat> {
    set id | id in rows && !fits(c, rows[id].item)
  }

  /** One atomic step. A sweep judges by what its own call published, or by what is in force when it
      runs. */
  function Step<C, I>(fits: (C, I) -> bool, byOwn: bool, s: State<C, I>, a: Action<C, I>): State<C, I> {
    match a
    case Publish(next) =>
      s.(current := next, publisher := s.nextCall, pending := s.pending[s.nextCall := next], nextCall := s.nextCall + 1)
    case Sweep(call) =>
      if call !in s.pending then s
      else
        var judge := if byOwn then s.pending[call] else s.current;
        s.(closing := s.closing + Unfit(fits, judge, s.rows), pending := s.pending - {call})
    case Enter(item) =>
      s.(rows := s.rows[s.nextId := Row(item, false)], nextId := s.nextId + 1)
    case Recheck(id) =>
      if id !in s.rows then s
      else if fits(s.current, s.rows[id].item) then s.(rows := s.rows[id := s.rows[id].(cleared := true)])
      else s.(closing := s.closing + {id})
    case Leave(id) => s.(rows := s.rows - {id})
  }

  function Run<C, I>(fits: (C, I) -> bool, byOwn: bool, s: State<C, I>, actions: seq<Action<C, I>>): State<C, I>
    decreases |actions|
  {
    if actions == [] then s else Run(fits, byOwn, Step(fits, byOwn, s, actions[0]), actions[1..])
  }

  /** Rows that passed their recheck and are not being closed. */
  predicate Live<C, I>(s: State<C, I>, id: nat) { id in s.rows && s.rows[id].cleared && id !in s.closing }

  ghost predicate Invariant<C, I>(fits: (C, I) -> bool, s: State<C, I>) {
    && s.publisher < s.nextCall
    && (forall c | c in s.pending :: c < s.nextCall)
    && (!Swept(s) ==> s.pending[s.publisher] == s.current)
    && (Swept(s) ==> forall id | Live(s, id) :: fits(s.current, s.rows[id].item))
    && (forall id | id in s.rows :: id < s.nextId)
    && (forall id | id in s.closing :: id < s.nextId)
  }

  lemma {:induction false} StepKeepsInvariant<C, I>(fits: (C, I) -> bool, byOwn: bool, s: State<C, I>, a: Action<C, I>)
    requires Invariant(fits, s)
    ensures Invariant(fits, Step(fits, byOwn, s, a))
  {
    var t := Step(fits, byOwn, s, a);
    if Swept(t) {
      forall id | Live(t, id) ensures fits(t.current, t.rows[id].item) {
        if a.Sweep? && a.call in s.pending && a.call == s.publisher {
          assert id !in Unfit(fits, s.current, s.rows);
        } else if a.Recheck? && id == a.id {
        } else {
          assert Live(s, id);
        }
      }
    }
  }

  /** In every interleaving of any number of publishers and newcomers, once the call that published
      the configuration in force has swept, every live row fits it. */
  lemma {:induction false} SweptTableFits<C, I>(fits: (C, I) -> bool, byOwn: bool, s: State<C, I>, actions: seq<Action<C, I>>)
    requires Invariant(fits, s)
    ensures var t := Run(fits, byOwn, s, actions);
      Invariant(fits, t) && (Swept(t) ==> forall id | Live(t, id) :: fits(t.current, t.rows[id].item))
    decreases |actions|
  {
    if actions != [] {
      StepKeepsInvariant(fits, byOwn, s, actions[0]);
      SweptTableFits(fits, byOwn, Step(fits, byOwn, s, actions[0]), actions[1..]);
    }
  }

  // ------------------------------------------------------------- nobody else is closed

  /** Every configuration that is in force or still has a sweep to come takes the item. */
  predicate AllTake<C, I>(fits: (C, I) -> bool, s: State<C, I>, item: I) {
    fits(s.current, item) && forall call | call in s.pending :: fits(s.pending[call], item)
  }

  /** The step publishes nothing that would not take the item, and is not the row's own leaving. */
  predicate Spares<C, I>(fits: (C, I) -> bool, id: nat, item: I, a: Action<C, I>) {
    (a.Publish? ==> fits(a.next, item)) && (a.Leave? ==> a.id != id)
  }

  lemma {:induction false} StepKeepsFitting<C, I>(fits: (C, I) -> bool, byOwn: bool, s: State<C, I>, id: nat, item: I, a: Action<C, I>)
    requires Invariant(fits, s) && id in s.rows && s.rows[id].item == item && id !in s.closing
    requires AllTake(fits, s, item) && Spares(fits, id, item, a)
    ensures var t := Step(fits, byOwn, s, a);
      AllTake(fits, t, item) && id in t.rows && t.rows[id].item == item && id !in t.closing && (s.rows[id].cleared ==> t.rows[id].cleared)
  {
  }

  /** A row that every configuration takes is never closed, in any interleaving. */
  lemma {:induction false} FittingRowStays<C, I>(fits: (C, I) -> bool, byOwn: bool, s: State<C, I>, id: nat, item: I, actions: seq<Action<C, I>>)
    requires Invariant(fits, s) && id in s.rows && s.rows[id].item == item && id !in s.closing
    requires AllTake(fits, s, item) && forall i | 0 <= i < |actions| :: Spares(fits, id, item, actions[i])
    ensures var t := Run(fits, byOwn, s, actions); id in t.rows && t.rows[id].item == item && id !in t.closing
    decreases |actions|
  {
    hide Step, Invariant, AllTake, Spares;
    if actions != [] {
      StepKeepsInvariant(fits, byOwn, s, actions[0]);
      StepKeepsFitting(fits, byOwn, s, id, item, actions[0]);
      FittingRowStays(fits, byOwn, Step(fits, byOwn, s, actions[0]), id, item, actions[1..]);
    }
  }

  lemma {:induction false} StartIsInvariant<C, I>(fits: (C, I) -> bool, initial: C)
    ensures Invariant(fits, Start<C, I>(initial))
  {
  }
}
