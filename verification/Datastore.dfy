/** The running/candidate/startup triple with its locks (internal/datastore/datastore.go). */
module Datastore {
  import opened Text
  import opened Paths
  import opened Values
  import opened Schemas
  import opened Edits
  import opened EditValidity
  import opened Diffs
  import opened Nodes

  /** A tree bound to its schema. */
  datatype Tree = Tree(schema: Option<Schema>, root: Fields)

  datatype Store = Running | Candidate | Startup | Unknown

  datatype Reason = Cancelled | UnknownStore | NotEditable | LockDenied | CandidateDirty | BadRequest | Rejected(error: Error)

  datatype Outcome = Done | Refused(reason: Reason)

  datatype State = State(running: Tree, candidate: Tree, startup: Tree, gen: nat, locks: map<Store, string>)

  datatype Call =
    | Edit(store: Store, op: Operation, path: string, value: Value)
    | WriteRunning(op: Operation, path: string, value: Value)
    | Copy(src: Store, dst: Store)
    | DeleteConfig(store: Store)
    | Commit
    | Discard
    | Lock(store: Store, id: string)
    | Unlock(store: Store, id: string)

  /** A call, the session its context names ("" for none), and whether the context is done. */
  datatype Request = Request(session: string, cancelled: bool, call: Call)

  // ------------------------------------------------------------- the state machine

  function Contents(s: State, store: Store): Tree
    requires store != Unknown
  {
    match store
    case Running => s.running
    case Candidate => s.candidate
    case Startup => s.startup
  }

  /** denyIfLocked. */
  predicate Denied(locks: map<Store, string>, store: Store, session: string) {
    store in locks && (session == "" || locks[store] != session)
  }

  /** Node.Apply. */
  function ApplyText(t: Tree, op: Operation, path: string, value: Value): Result<Tree> {
    match Parse(path)
    case None => Err(ValidationFailed)
    case Some(p) =>
      var root :- Apply(t.schema, t.root, op, p, value);
      Ok(t.(root := root))
  }

  predicate Dirty(num: Numeral, s: State) { !Equal(num, Map(s.running.root), Map(s.candidate.root)) }

  function Step(num: Numeral, s: State, req: Request): (State, Outcome) {
    if req.cancelled then (s, Refused(Cancelled))
    else match req.call
      case Edit(store, op, path, value) =>
        if store != Candidate then (s, Refused(NotEditable))
        else if Denied(s.locks, Candidate, req.session) then (s, Refused(LockDenied))
        else (match ApplyText(s.candidate, op, path, value)
              case Err(e) => (s, Refused(Rejected(e)))
              case Ok(t) => (s.(candidate := t), Done))
      case WriteRunning(op, path, value) =>
        if Dirty(num, s) || Candidate in s.locks then (s, Refused(CandidateDirty))
        else if Denied(s.locks, Running, req.session) then (s, Refused(LockDenied))
        else
          var r, c := ApplyText(s.running, op, path, value), ApplyText(s.candidate, op, path, value);
          if r.Err? then (s, Refused(Rejected(r.error)))
          else if c.Err? then (s, Refused(Rejected(c.error)))
          else (s.(running := r.value, candidate := c.value), Done)
      case Copy(src, dst) =>
        if src == Unknown || dst == Unknown then (s, Refused(UnknownStore))
        else if src == dst then (s, Done)
        else if Denied(s.locks, dst, req.session) then (s, Refused(LockDenied))
        else if dst == Running then (s.(running := Contents(s, src), gen := s.gen + 1), Done)
        else if dst == Candidate then (s.(candidate := Contents(s, src)), Done)
        else (s.(startup := Contents(s, src), gen := s.gen + 1), Done)
      case DeleteConfig(store) =>
        if store != Startup then (s, Refused(NotEditable))
        else if Denied(s.locks, Startup, req.session) then (s, Refused(LockDenied))
        else (match Apply(s.startup.schema, s.startup.root, Replace, ROOT, Map(map[]))
              case Err(e) => (s, Refused(Rejected(e)))
              case Ok(root) => (s.(startup := s.startup.(root := root)), Done))
      case Commit =>
        if Denied(s.locks, Candidate, req.session) || Denied(s.locks, Running, req.session) then (s, Refused(LockDenied))
        else if !Validates(s.candidate.schema, s.candidate.root) then (s, Refused(Rejected(ValidationFailed)))
        else (s.(running := s.candidate, gen := s.gen + 1), Done)
      case Discard =>
        if Denied(s.locks, Candidate, req.session) then (s, Refused(LockDenied))
        else (s.(candidate := s.running), Done)
      case Lock(store, id) =>
        if id == "" then (s, Refused(BadRequest))
        else if store == Unknown then (s, Refused(UnknownStore))
        else if store in s.locks && s.locks[store] != id then (s, Refused(LockDenied))
        else (s.(locks := s.locks[store := id]), Done)
      case Unlock(store, id) =>
        if store == Unknown then (s, Refused(UnknownStore))
        else if store !in s.locks || s.locks[store] != id then (s, Refused(LockDenied))
        else (s.(locks := s.locks - {store}), Done)
  }

  function Run(num: Numeral, s: State, reqs: seq<Request>): State
    decreases |reqs|
  {
    if reqs == [] then s else Run(num, Step(num, s, reqs[0]).0, reqs[1..])
  }

  // ---------------------------------------------------------------- stores validate

  ghost predicate AllValid(schema: Option<Schema>, s: State) {
    && s.running.schema == s.candidate.schema == s.startup.schema == schema
    && Validates(schema, s.running.root) && Validates(schema, s.candidate.root) && Validates(schema, s.startup.root)
  }

  ghost predicate CallFits(schema: Option<Schema>, call: Call) {
    && (schema.Some? ==> "" !in schema.value.byPath)
    && (call.Edit? || call.WriteRunning? ==>
          Parse(call.path).Some? ==> EditFits(schema, call.op, Parse(call.path).value))
  }

  lemma {:induction false} ApplyTextKeepsValid(t: Tree, op: Operation, path: string, value: Value)
    requires Validates(t.schema, t.root)
    requires Parse(path).Some? ==> EditFits(t.schema, op, Parse(path).value)
    ensures var r := ApplyText(t, op, path, value); r.Ok? ==> r.value.schema == t.schema && Validates(t.schema, r.value.root)
  {
    hide Apply, Validates, EditFits;
    if Parse(path).Some? { ApplyKeepsValid(t.schema, t.root, op, Parse(path).value, value); }
  }

  lemma {:induction false} ClearedIsValid(t: Tree)
    requires t.schema.Some? ==> "" !in t.schema.value.byPath
    ensures Apply(t.schema, t.root, Replace, ROOT, Map(map[])) == Ok(map[])
    ensures Validates(t.schema, map[])
  {
    assert PlaceOf(ROOT) == TOP && SchemaKey(TOP) == "";
  }

  /** No call takes a validating triple out of validity, and a commit is never refused for it. */
  lemma {:induction false} StepKeepsValid(num: Numeral, schema: Option<Schema>, s: State, req: Request)
    requires AllValid(schema, s) && CallFits(schema, req.call)
    ensures AllValid(schema, Step(num, s, req).0)
    ensures req.call.Commit? ==> Step(num, s, req).1 != Refused(Rejected(ValidationFailed))
  {
    hide Apply, Validates, EditFits, ApplyText, Equal;
    match req.call
    case Edit(_, op, path, value) => ApplyTextKeepsValid(s.candidate, op, path, value);
    case WriteRunning(op, path, value) =>
      ApplyTextKeepsValid(s.running, op, path, value);
      ApplyTextKeepsValid(s.candidate, op, path, value);
    case DeleteConfig(_) => ClearedIsValid(s.startup);
    case _ =>
  }

  /** From validating stores, every run of fitting calls leaves all three stores validating, and no
      commit in it fails validation. */
  lemma {:induction false} RunKeepsValid(num: Numeral, schema: Option<Schema>, s: State, reqs: seq<Request>, n: nat)
    requires AllValid(schema, s) && n <= |reqs|
    requires forall i | 0 <= i < |reqs| :: CallFits(schema, reqs[i].call)
    ensures AllValid(schema, Run(num, s, reqs[..n]))
    ensures n < |reqs| && reqs[n].call.Commit? ==> Step(num, Run(num, s, reqs[..n]), reqs[n]).1 != Refused(Rejected(ValidationFailed))
    decreases n
  {
    hide Step, AllValid, CallFits;
    if n == 0 {
      if n < |reqs| { StepKeepsValid(num, schema, s, reqs[0]); }
    } else {
      StepKeepsValid(num, schema, s, reqs[0]);
      RunKeepsValid(num, schema, Step(num, s, reqs[0]).0, reqs[1..], n - 1);
      assert reqs[..n][1..] == reqs[1..][..n - 1];
    }
  }

  // ---------------------------------------------------------------------- exclusion

  /** The session a call acts for: lock and unlock name it, the others take it from the context. */
  function Actor(req: Request): string {
    if req.call.Lock? || req.call.Unlock? then req.call.id else req.session
  }

  predicate Holds(s: State, store: Store, id: string) { store in s.locks && s.locks[store] == id }

  /** While a session holds a store's lock, a call for another session or none changes neither the
      store nor its lock. */
  lemma {:induction false} LockExcludes(num: Numeral, s: State, store: Store, id: string, req: Request)
    requires store != Unknown && Holds(s, store, id) && Actor(req) != id
    ensures var t := Step(num, s, req).0;
      Holds(t, store, id) && Contents(t, store) == Contents(s, store)
  {
    hide Apply, ApplyText, Equal, Validates;
  }

  /** A call adds no lock but the one it asks for, and an unlock takes its own away. */
  lemma {:induction false} CallLocks(num: Numeral, s: State, req: Request, store: Store)
    ensures var after := Step(num, s, req).0.locks;
      store in after ==>
        || (store in s.locks && after[store] == s.locks[store])
        || (req.call.Lock? && req.call.store == store != Unknown && after[store] == req.call.id)
    ensures var after := Step(num, s, req).0.locks;
      req.call.Unlock? && !req.cancelled && req.call.store == store != Unknown && store in after ==> after[store] != req.call.id
  {
    hide Apply, ApplyText, Equal, Validates;
  }

  lemma {:induction false} LockExcludesOverRun(num: Numeral, s: State, store: Store, id: string, reqs: seq<Request>)
    requires store != Unknown && Holds(s, store, id)
    requires forall i | 0 <= i < |reqs| :: Actor(reqs[i]) != id
    ensures var t := Run(num, s, reqs);
      Holds(t, store, id) && Contents(t, store) == Contents(s, store)
    decreases |reqs|
  {
    hide Step, Holds, Contents;
    if reqs != [] {
      LockExcludes(num, s, store, id, reqs[0]);
      LockExcludesOverRun(num, Step(num, s, reqs[0]).0, store, id, reqs[1..]);
    }
  }

  // --------------------------------------------------------------------- generations

  predicate Publishes(call: Call) {
    call.Commit? || (call.Copy? && call.src != call.dst && (call.dst.Running? || call.dst.Startup?))
  }

  /** How many calls of a run succeed in publishing. */
  function Published(num: Numeral, s: State, reqs: seq<Request>): nat
    decreases |reqs|
  {
    if reqs == [] then 0
    else
      var (t, outcome) := Step(num, s, reqs[0]);
      (if outcome.Done? && Publishes(reqs[0].call) then 1 else 0) + Published(num, t, reqs[1..])
  }

  /** The generation counts exactly the commits and the copies into running or startup. */
  lemma {:induction false} GenerationCountsPublications(num: Numeral, s: State, reqs: seq<Request>)
    ensures Run(num, s, reqs).gen == s.gen + Published(num, s, reqs)
    decreases |reqs|
  {
    if reqs != [] {
      StepGeneration(num, s, reqs[0]);
      GenerationCountsPublications(num, Step(num, s, reqs[0]).0, reqs[1..]);
    }
  }

  lemma {:induction false} StepGeneration(num: Numeral, s: State, req: Request)
    ensures var (t, outcome) := Step(num, s, req);
      t.gen == s.gen + (if outcome.Done? && Publishes(req.call) then 1 else 0)
  {
    hide Apply, ApplyText, Equal, Validates;
  }

  // ------------------------------------------------------- work on the candidate

  predicate WorksOnCandidate(call: Call) {
    call.Edit? || call.Discard? || call.Lock? || call.Unlock? || (call.Copy? && call.dst.Candidate?)
  }

  /** Work on the candidate shows nowhere else. */
  lemma {:induction false} CandidateWorkIsPrivate(num: Numeral, s: State, reqs: seq<Request>)
    requires forall i | 0 <= i < |reqs| :: WorksOnCandidate(reqs[i].call)
    ensures var t := Run(num, s, reqs); t.running == s.running && t.startup == s.startup && t.gen == s.gen
    decreases |reqs|
  {
    hide Step;
    if reqs != [] {
      StepIsPrivate(num, s, reqs[0]);
      CandidateWorkIsPrivate(num, Step(num, s, reqs[0]).0, reqs[1..]);
    }
  }

  lemma {:induction false} StepIsPrivate(num: Numeral, s: State, req: Request)
    requires WorksOnCandidate(req.call)
    ensures var t := Step(num, s, req).0; t.running == s.running && t.startup == s.startup && t.gen == s.gen
  {
    hide Apply, ApplyText, Equal, Validates;
  }

  /** After any work on the candidate, a discard undoes it and a commit publishes it. Both leave the
      candidate equal to running, and clean exactly when it holds no NaN text. */
  lemma {:induction false} CommitOrDiscard(num: Numeral, s: State, reqs: seq<Request>, last: Request)
    requires forall i | 0 <= i < |reqs| :: WorksOnCandidate(reqs[i].call)
    requires (last.call.Commit? || last.call.Discard?) && Step(num, Run(num, s, reqs), last).1.Done?
    ensures var worked, t := Run(num, s, reqs), Step(num, Run(num, s, reqs), last).0;
      && t.running == t.candidate && t.startup == s.startup
      && (!Dirty(num, t) <==> NanFree(num, Map(t.running.root)))
      && (last.call.Commit? ==> t.running == worked.candidate && t.gen == s.gen + 1)
      && (last.call.Discard? ==> t.running == s.running && t.gen == s.gen)
  {
    hide Run, Validates, Equal, NanFree;
    CandidateWorkIsPrivate(num, s, reqs);
    EqualIsReflexiveIff(num, Map(Step(num, Run(num, s, reqs), last).0.running.root));
  }

  /** While running holds a NaN text the candidate counts as dirty, whatever it holds, and no direct write
      to running gets through. */
  lemma {:induction false} NanBlocksWrites(num: Numeral, s: State, req: Request)
    requires !NanFree(num, Map(s.running.root)) && req.call.WriteRunning? && !req.cancelled
    ensures Dirty(num, s) && Step(num, s, req) == (s, Refused(CandidateDirty))
  {
    hide ApplyText, Equal, NanFree;
    NanEqualsNothing(num, Map(s.running.root), Map(s.candidate.root));
  }

  /** For instance the tree whose one module is the text "nan", right after a discard. */
  lemma {:induction false} NanStoreIsDirty(num: Numeral, s: State, reqs: seq<Request>, discard: Request)
    requires num.parse("nan") == Some(NaN) && s.running.root == map["m" := Str("nan")]
    requires forall i | 0 <= i < |reqs| :: WorksOnCandidate(reqs[i].call)
    requires discard.call.Discard? && Step(num, Run(num, s, reqs), discard).1.Done?
    ensures var t := Step(num, Run(num, s, reqs), discard).0;
      t.running == t.candidate && Dirty(num, t)
  {
    CommitOrDiscard(num, s, reqs, discard);
    assert "m" in s.running.root && !NanFree(num, s.running.root["m"]);
  }

  /** A direct write to running keeps a clean candidate clean. */
  lemma {:induction false} WriteRunningKeepsClean(num: Numeral, s: State, req: Request)
    requires req.call.WriteRunning? && s.running.schema == s.candidate.schema
    requires NumeralFree(num, Map(s.running.root)) && NumeralFree(num, Map(s.candidate.root)) && NullFieldFree(Map(s.running.root))
    requires Step(num, s, req).1.Done?
    ensures Step(num, s, req).0.running == Step(num, s, req).0.candidate
  {
    hide Apply, NumeralFree, NullFieldFree;
    EqualIsEquality(num, Map(s.running.root), Map(s.candidate.root));
  }

  // ------------------------------------------------------------------ the live handle

  /** An edit of a clone: the tree itself is only replaced by the caller, on success. */
  method EditClone(t: Tree, op: Operation, path: string, value: Value) returns (r: Result<Tree>)
    ensures r == ApplyText(t, op, path, value)
  {
    hide Apply, Parse;
    var p := ParsePath(path);
    if p.None? { return Err(ValidationFailed); }
    var node := new Node(t.schema, t.root);
    var done := node.Apply(op, p.value, value);
    if done.Err? { return Err(done.error); }
    return Ok(t.(root := node.root));
  }

  class Handle {
    var running: Tree
    var candidate: Tree
    var startup: Tree
    var gen: nat
    var locks: map<Store, string>
    const num: Numeral

    ghost function View(): State
      reads this
    {
      State(running, candidate, startup, gen, locks)
    }

    /** New: a missing candidate or startup starts as a copy of running. */
    constructor (num: Numeral, running: Tree, candidate: Option<Tree>, startup: Option<Tree>)
      ensures View() == State(running,
                              if candidate.Some? then candidate.value else running,
                              if startup.Some? then startup.value else running, 0, map[])
      ensures this.num == num
    {
      this.num := num;
      this.running := running;
      this.candidate := if candidate.Some? then candidate.value else running;
      this.startup := if startup.Some? then startup.value else running;
      gen, locks := 0, map[];
    }

    method Edit(session: string, cancelled: bool, store: Store, op: Operation, path: string, value: Value) returns (r: Outcome)
      modifies this`candidate
      ensures (View(), r) == Step(num, old(View()), Request(session, cancelled, Call.Edit(store, op, path, value)))
    {
      hide Equal, ApplyText;
      if cancelled { return Refused(Cancelled); }
      if store != Candidate { return Refused(NotEditable); }
      if Denied(locks, Candidate, session) { return Refused(LockDenied); }
      var next := EditClone(candidate, op, path, value);
      if next.Err? { return Refused(Rejected(next.error)); }
      candidate := next.value;
      return Done;
    }

    method WriteRunningIfCandidateClean(session: string, cancelled: bool, op: Operation, path: string, value: Value) returns (r: Outcome)
      modifies this`running, this`candidate
      ensures (View(), r) == Step(num, old(View()), Request(session, cancelled, WriteRunning(op, path, value)))
    {
      hide Equal, ApplyText;
      if cancelled { return Refused(Cancelled); }
      if !Equal(num, Map(running.root), Map(candidate.root)) { return Refused(CandidateDirty); }
      if Candidate in locks { return Refused(CandidateDirty); }
      if Denied(locks, Running, session) { return Refused(LockDenied); }
      var nextRunning := EditClone(running, op, path, value);
      if nextRunning.Err? { return Refused(Rejected(nextRunning.error)); }
      var nextCandidate := EditClone(candidate, op, path, value);
      if nextCandidate.Err? { return Refused(Rejected(nextCandidate.error)); }
      running, candidate := nextRunning.value, nextCandidate.value;
      return Done;
    }

    method Copy(session: string, cancelled: bool, src: Store, dst: Store) returns (r: Outcome)
      modifies this`running, this`candidate, this`startup, this`gen
      ensures (View(), r) == Step(num, old(View()), Request(session, cancelled, Call.Copy(src, dst)))
    {
      if cancelled { return Refused(Cancelled); }
      if src == Unknown || dst == Unknown { return Refused(UnknownStore); }
      if src == dst { return Done; }
      if Denied(locks, dst, session) { return Refused(LockDenied); }
      var from := if src == Running then running else if src == Candidate then candidate else startup;
      match dst {
        case Running => running, gen := from, gen + 1;
        case Candidate => candidate := from;
        case Startup => startup, gen := from, gen + 1;
      }
      return Done;
    }

    method Delete(session: string, cancelled: bool, store: Store) returns (r: Outcome)
      modifies this`startup
      ensures (View(), r) == Step(num, old(View()), Request(session, cancelled, DeleteConfig(store)))
    {
      hide Apply;
      if cancelled { return Refused(Cancelled); }
      if store != Startup { return Refused(NotEditable); }
      if Denied(locks, Startup, session) { return Refused(LockDenied); }
      var node := new Node(startup.schema, startup.root);
      var done := node.Apply(Replace, ROOT, Map(map[]));
      if done.Err? { return Refused(Rejected(done.error)); }
      startup := startup.(root := node.root);
      return Done;
    }

    /** Commit also returns what the notification sink is told: the difference it published. */
    method Commit(session: string, cancelled: bool) returns (r: Outcome, changes: seq<Change>)
      modifies this`running, this`gen
      ensures (View(), r) == Step(num, old(View()), Request(session, cancelled, Call.Commit))
      ensures r.Done? ==> forall c :: c in changes <==> c in Diff(num, old(running.root), running.root)
    {
      changes := [];
      if cancelled { return Refused(Cancelled), changes; }
      if Denied(locks, Candidate, session) || Denied(locks, Running, session) { return Refused(LockDenied), changes; }
      if !Validates(candidate.schema, candidate.root) { return Refused(Rejected(ValidationFailed)), changes; }
      changes := DiffWalk(num, ROOT, Map(running.root), Map(candidate.root));
      running, gen := candidate, gen + 1;
      return Done, changes;
    }

    method Discard(session: string, cancelled: bool) returns (r: Outcome)
      modifies this`candidate
      ensures (View(), r) == Step(num, old(View()), Request(session, cancelled, Call.Discard))
    {
      if cancelled { return Refused(Cancelled); }
      if Denied(locks, Candidate, session) { return Refused(LockDenied); }
      candidate := running;
      return Done;
    }

    method Lock(cancelled: bool, store: Store, id: string) returns (r: Outcome)
      modifies this`locks
      ensures forall session :: (View(), r) == Step(num, old(View()), Request(session, cancelled, Call.Lock(store, id)))
    {
      if cancelled { return Refused(Cancelled); }
      if id == "" { return Refused(BadRequest); }
      if store == Unknown { return Refused(UnknownStore); }
      if store in locks && locks[store] != id { return Refused(LockDenied); }
      locks := locks[store := id];
      return Done;
    }

    method Unlock(cancelled: bool, store: Store, id: string) returns (r: Outcome)
      modifies this`locks
      ensures forall session :: (View(), r) == Step(num, old(View()), Request(session, cancelled, Call.Unlock(store, id)))
    {
      if cancelled { return Refused(Cancelled); }
      if store == Unknown { return Refused(UnknownStore); }
      if store !in locks || locks[store] != id { return Refused(LockDenied); }
      locks := locks - {store};
      return Done;
    }
  }
}
