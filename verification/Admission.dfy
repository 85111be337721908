/** The SSH admission list: SetAllow publishes a list and then goes through the tracked connections,
    loading the list in force anew for each, while new connections are tracked and then check
    themselves again (internal/netconfssh/server.go). */
module Admission {
  import opened Text

  /** A tracked connection; cleared once its second check has passed. */
  datatype Conn<A> = Conn(addr: A, cleared: bool)

  /** A sweep under the mutex: the call it belongs to and the connections it has yet to judge. */
  datatype Sweep = Sweep(call: nat, todo: set<nat>)

  /** The list in force and the call that published it; calls that have published and not begun to
      sweep; the sweep in progress; the connection table; and the connections being closed. */
  datatype State<L, A> = State(
    allow: L,
    publisher: nat,
    waiting: set<nat>,
    sweeping: Option<Sweep>,
    nextCall: nat,
    conns: map<nat, Conn<A>>,
    closing: set<nat>,
    nextConn: nat)

  datatype Action<L, A> =
    | Publish(next: L)
    | BeginSweep(call: nat)
    | Judge(c: nat)
    | EndSweep
    | Track(addr: A)
    | Recheck(c: nat)
    | Untrack(c: nat)

  function Start<L, A>(initial: L): State<L, A> { State(initial, 0, {}, None, 1, map[], {}, 0) }

  /** One atomic step. Publishing and checking take no mutex; tracking waits while a sweep holds it. The
      check before tracking is not needed for what follows, so any address may be tracked. */
  function Step<L, A>(admit: (L, A) -> bool, s: State<L, A>, a: Action<L, A>): State<L, A> {
    match a
    case Publish(next) =>
      s.(allow := next, publisher := s.nextCall, waiting := s.waiting + {s.nextCall}, nextCall := s.nextCall + 1)
    case BeginSweep(call) =>
      if call !in s.waiting || s.sweeping.Some? then s
      else s.(waiting := s.waiting - {call}, sweeping := Some(Sweep(call, s.conns.Keys)))
    case Judge(c) =>
      if s.sweeping.None? || c !in s.sweeping.value.todo || c !in s.conns then s
      else
        var rest := Sweep(s.sweeping.value.call, s.sweeping.value.todo - {c});
        s.(sweeping := Some(rest), closing := if admit(s.allow, s.conns[c].addr) then s.closing else s.closing + {c})
    case EndSweep => if s.sweeping.Some? && s.sweeping.value.todo == {} then s.(sweeping := None) else s
    case Track(addr) =>
      if s.sweeping.Some? then s
      else s.(conns := s.conns[s.nextConn := Conn(addr, false)], nextConn := s.nextConn + 1)
    case Recheck(c) =>
      if c !in s.conns then s
      else if admit(s.allow, s.conns[c].addr) then s.(conns := s.conns[c := s.conns[c].(cleared := true)])
      else s.(closing := s.closing + {c})
    case Untrack(c) => if s.sweeping.Some? then s else s.(conns := s.conns - {c})
  }

  function Run<L, A>(admit: (L, A) -> bool, s: State<L, A>, actions: seq<Action<L, A>>): State<L, A>
    decreases |actions|
  {
    if actions == [] then s else Run(admit, Step(admit, s, actions[0]), actions[1..])
  }

  predicate Sweeping<L, A>(s: State<L, A>, call: nat) { s.sweeping.Some? && s.sweeping.value.call == call }

  /** The call that published the list in force has finished its sweep. */
  predicate Swept<L, A>(s: State<L, A>) { s.publisher !in s.waiting && !Sweeping(s, s.publisher) }

  predicate Live<L, A>(s: State<L, A>, c: nat) { c in s.conns && s.conns[c].cleared && c !in s.closing }

  /** A connection the publisher of the list in force has dealt with. */
  predicate Judged<L, A>(s: State<L, A>, c: nat) {
    Swept(s) || (Sweeping(s, s.publisher) && c !in s.sweeping.value.todo)
  }

  ghost predicate Invariant<L, A>(admit: (L, A) -> bool, s: State<L, A>) {
    && s.publisher < s.nextCall
    && (forall call | call in s.waiting :: call < s.nextCall)
    && (s.sweeping.Some? ==> s.sweeping.value.call < s.nextCall && s.sweeping.value.call !in s.waiting)
    && (forall c | Live(s, c) && Judged(s, c) :: admit(s.allow, s.conns[c].addr))
  }

  lemma {:induction false} StepKeepsInvariant<L, A>(admit: (L, A) -> bool, s: State<L, A>, a: Action<L, A>)
    requires Invariant(admit, s)
    ensures Invariant(admit, Step(admit, s, a))
  {
    var t := Step(admit, s, a);
    forall c | Live(t, c) && Judged(t, c) ensures admit(t.allow, t.conns[c].addr) {
      if a.Judge? && c == a.c && t != s {
      } else if a.Recheck? && c == a.c {
      } else {
        assert Live(s, c) && Judged(s, c);
      }
    }
  }

  /** In every interleaving, with several SetAllow calls at once and the list reloaded for each
      connection of a sweep: once the call that published the list in force has swept, every checked
      connection that is not being closed is admitted by it. */
  lemma {:induction false} SweptAreAdmitted<L, A>(admit: (L, A) -> bool, s: State<L, A>, actions: seq<Action<L, A>>)
    requires Invariant(admit, s)
    ensures var t := Run(admit, s, actions);
      Invariant(admit, t) && (Swept(t) ==> forall c | Live(t, c) :: admit(t.allow, t.conns[c].addr))
    decreases |actions|
  {
    if actions != [] {
      StepKeepsInvariant(admit, s, actions[0]);
      SweptAreAdmitted(admit, Step(admit, s, actions[0]), actions[1..]);
    }
  }

  /** The step publishes no list that shuts the address out, and is not the connection's own end. */
  predicate Spares<L, A>(admit: (L, A) -> bool, c: nat, addr: A, a: Action<L, A>) {
    (a.Publish? ==> admit(a.next, addr)) && (a.Untrack? ==> a.c != c)
  }

  /** A connection that every list admits is never closed, in any interleaving. */
  lemma {:induction false} AdmittedStays<L, A>(admit: (L, A) -> bool, s: State<L, A>, c: nat, addr: A, actions: seq<Action<L, A>>)
    requires c < s.nextConn && c in s.conns && s.conns[c].addr == addr && c !in s.closing && admit(s.allow, addr)
    requires forall i | 0 <= i < |actions| :: Spares(admit, c, addr, actions[i])
    ensures var t := Run(admit, s, actions); c in t.conns && t.conns[c].addr == addr && c !in t.closing && admit(t.allow, addr)
    decreases |actions|
  {
    if actions != [] { AdmittedStays(admit, Step(admit, s, actions[0]), c, addr, actions[1..]); }
  }

  /** A sweep that nothing interrupts closes exactly the connections that SetAllow closes, in whatever
      order it goes through them. */
  lemma {:induction false} WholeSweepIsExact<L, A>(admit: (L, A) -> bool, s: State<L, A>, order: seq<nat>)
    requires s.sweeping.Some? && s.sweeping.value.todo == (set i | 0 <= i < |order| :: order[i])
    requires forall i | 0 <= i < |order| :: order[i] in s.conns
    requires forall i, j | 0 <= i < j < |order| :: order[i] != order[j]
    ensures var t := Run(admit, s, Judges(order));
      && t.sweeping == Some(Sweep(s.sweeping.value.call, {})) && t.conns == s.conns && t.allow == s.allow
      && t.closing == s.closing + set c | c in order && !admit(s.allow, s.conns[c].addr)
    decreases |order|
  {
    if order == [] {
      assert s.sweeping.value.todo == {};
    } else {
      var t := Step(admit, s, Judge(order[0]));
      assert Judges<L, A>(order)[1..] == Judges<L, A>(order[1..]);
      assert order == [order[0]] + order[1..];
      WholeSweepIsExact(admit, t, order[1..]);
    }
  }

  function Judges<L, A>(order: seq<nat>): seq<Action<L, A>> { seq(|order|, i requires 0 <= i < |order| => Judge(order[i])) }

  lemma {:induction false} StartIsInvariant<L, A>(admit: (L, A) -> bool, initial: L)
    ensures Invariant(admit, Start<L, A>(initial))
  {
  }

  class Server<L, A> {
    var allow: L
    var conns: map<nat, A>
    const admit: (L, A) -> bool

    constructor (admit: (L, A) -> bool, allow: L)
      ensures this.admit == admit && this.allow == allow && conns == map[]
    {
      this.admit, this.allow, conns := admit, allow, map[];
    }

    /** SetAllow with nothing in between: exactly the connections the new list does not admit are
        returned, to be closed. */
    method SetAllow(next: L) returns (drop: set<nat>)
      modifies this`allow
      ensures allow == next && drop == set c | c in conns && !admit(next, conns[c])
    {
      allow := next;
      drop := {};
      var todo := conns.Keys;
      while todo != {}
        invariant todo <= conns.Keys && allow == next
        invariant drop == set c | c in conns && c !in todo && !admit(next, conns[c])
      {
        var c :| c in todo;
        if !admit(allow, conns[c]) { drop := drop + {c}; }
        todo := todo - {c};
      }
    }
  }
}
