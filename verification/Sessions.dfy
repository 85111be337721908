/** NETCONF sessions: the session table against user replacement, and the datastore locks sessions
    hold (internal/ncserver/server.go, internal/ncserver/dispatch.go). */
module Sessions {
  import opened Text
  import opened Values
  import D = Datastore
  import P = PublishSweep

  /** A user bound to a profile instance; handle names its datastore. */
  datatype User = User(name: string, profile: string, access: string, handle: Option<nat>)

  type Users = map<string, User>

  const READ_WRITE := "read-write"

  // --------------------------------------------------------------- the live table

  /** What both ReplaceUsers and Serve compare. */
  predicate Matches(users: Users, u: User) {
    && u.name in users
    && users[u.name].access == u.access
    && users[u.name].profile == u.profile
    && users[u.name].handle == u.handle
  }

  function WithAccess(u: User): User { if u.access == "" then u.(access := READ_WRITE) else u }

  /** indexUsers: the last entry of a name wins. */
  function Index(users: seq<User>): Users {
    if users == [] then map[]
    else
      var u := WithAccess(users[|users| - 1]);
      Index(users[..|users| - 1])[u.name := u]
  }

  lemma {:induction false} IndexIsByName(users: seq<User>)
    ensures forall k | k in Index(users) :: Index(users)[k].name == k && Index(users)[k].access != ""
    ensures forall i | 0 <= i < |users| :: users[i].name in Index(users)
  {
    if users != [] {
      IndexIsByName(users[..|users| - 1]);
    }
  }

  class Server {
    var users: Users
    var sessions: map<nat, User>
    var nextId: nat

    constructor (users: seq<User>)
      ensures this.users == Index(users) && sessions == map[] && nextId == 0
    {
      this.users := Index(users);
      sessions, nextId := map[], 0;
    }

    method IndexUsers(list: seq<User>) returns (users: Users)
      ensures users == Index(list)
    {
      users := map[];
      var i := 0;
      while i < |list|
        invariant 0 <= i <= |list| && users == Index(list[..i])
      {
        assert list[..i + 1][..i] == list[..i];
        var u := list[i];
        if u.access == "" { u := u.(access := READ_WRITE); }
        users := users[u.name := u];
        i := i + 1;
      }
      assert list[..|list|] == list;
    }

    /** The publishing half of ReplaceUsers. */
    method Publish(next: Users)
      modifies this`users
      ensures users == next
    {
      users := next;
    }

    /** The sweeping half of ReplaceUsers, under the mutex: exactly the sessions that do not match
        leave the table. */
    method Sweep(next: Users) returns (victims: set<nat>)
      modifies this`sessions
      ensures victims == set id | id in old(sessions) && !Matches(next, old(sessions)[id])
      ensures sessions == old(sessions) - victims
    {
      victims := {};
      var before := sessions;
      var todo := sessions.Keys;
      while todo != {}
        invariant before == old(sessions) && todo <= before.Keys && sessions == old(sessions) - victims
        invariant victims == set id | id in old(sessions) && id !in todo && !Matches(next, old(sessions)[id])
      {
        var id :| id in todo;
        if !Matches(next, before[id]) {
          sessions := sessions - {id};
          victims := victims + {id};
        }
        todo := todo - {id};
      }
    }

    /** Serve's registration and recheck, under the mutex. */
    method Register(user: User) returns (id: nat, stale: bool)
      modifies this`sessions, this`nextId
      ensures id == old(nextId) + 1 == nextId && stale == !Matches(users, user)
      ensures sessions == if stale then old(sessions) - {id} else old(sessions)[id := user]
    {
      nextId := nextId + 1;
      id := nextId;
      sessions := sessions[id := user];
      stale := !Matches(users, user);
      if stale { sessions := sessions - {id}; }
      assert old(sessions)[id := user] - {id} == old(sessions) - {id};
    }

    /** drop. */
    method Drop(id: nat)
      modifies this`sessions
      ensures sessions == old(sessions) - {id}
    {
      sessions := sessions - {id};
    }
  }

  // ------------------------------------------------------------------- interleavings

  /** Where one Serve call stands. */
  datatype Pc =
    | Looked(user: User)
    | Serving(id: nat, user: User)
    | Leaving(id: nat, user: User, todo: set<D.Store>)
    | Done

  /** The protocol state of the table, every Serve call, and every datastore handle ever built. */
  datatype State = State(table: P.State<Users, User>, threads: map<nat, Pc>, handles: map<nat, D.State>)

  datatype Action =
    | Replace(next: Users)
    | Sweep(publisher: nat)
    | Connect(t: nat, name: string)
    | Resolve(t: nat, handle: nat)
    | Register(t: nat)
    | Rpc(t: nat, cancelled: bool, call: D.Call)
    | Exit(t: nat)
    | DropLock(t: nat, store: D.Store)
    | Build(h: nat, initial: D.State)
    | Control(h: nat, call: D.Call)

  function Fits(): (Users, User) -> bool { (users: Users, u: User) => Matches(users, u) }

  function SessionName(id: nat): string { Decimal(id) }

  /** The lock and unlock RPCs name the session that sends them. */
  predicate OwnCall(id: nat, call: D.Call) { call.Lock? || call.Unlock? ==> call.id == SessionName(id) }

  function OnHandle(num: Numeral, s: State, h: nat, req: D.Request): map<nat, D.State>
    requires h in s.handles
  {
    s.handles[h := D.Step(num, s.handles[h], req).0]
  }

  function Tell(s: State, a: P.Action<Users, User>): P.State<Users, User> { P.Step(Fits(), true, s.table, a) }

  function Step(num: Numeral, s: State, a: Action): State {
    match a
    case Replace(next) => s.(table := Tell(s, P.Publish(next)))
    case Sweep(call) => s.(table := Tell(s, P.Sweep(call)))
    case Connect(t, name) =>
      if t in s.threads then s
      else s.(threads := s.threads[t := if name in s.table.current then Looked(s.table.current[name]) else Done])
    case Resolve(t, handle) =>
      if t in s.threads && s.threads[t].Looked? then s.(threads := s.threads[t := Looked(s.threads[t].user.(handle := Some(handle)))])
      else s
    case Register(t) =>
      if t !in s.threads || !s.threads[t].Looked? then s
      else
        var u := s.threads[t].user;
        if u.handle.None? || u.handle.value !in s.handles then s.(threads := s.threads[t := Done])
        else
          var id := s.table.nextId;
          var entered := Tell(s, P.Enter(u));
          var checked := P.Step(Fits(), true, entered, P.Recheck(id));
          s.(table := checked, threads := s.threads[t := if Matches(s.table.current, u) then Serving(id, u) else Done])
    case Rpc(t, cancelled, call) =>
      if t !in s.threads || !s.threads[t].Serving? then s
      else
        var pc := s.threads[t];
        if pc.user.access != READ_WRITE || !OwnCall(pc.id, call) || pc.user.handle.None? || pc.user.handle.value !in s.handles then s
        else s.(handles := OnHandle(num, s, pc.user.handle.value, D.Request(SessionName(pc.id), cancelled, call)))
    case Exit(t) =>
      if t in s.threads && s.threads[t].Serving? then
        var pc := s.threads[t];
        s.(table := Tell(s, P.Leave(pc.id)), threads := s.threads[t := Leaving(pc.id, pc.user, {D.Running, D.Candidate, D.Startup})])
      else s
    case DropLock(t, store) =>
      if t !in s.threads || !s.threads[t].Leaving? || store !in s.threads[t].todo then s
      else
        var pc := s.threads[t];
        var left := pc.todo - {store};
        var handles :=
          if pc.user.handle.None? || pc.user.handle.value !in s.handles then s.handles
          else OnHandle(num, s, pc.user.handle.value, D.Request("", false, D.Unlock(store, SessionName(pc.id))));
        s.(handles := handles, threads := s.threads[t := if left == {} then Done else pc.(todo := left)])
    case Build(h, initial) =>
      if h in s.handles then s else s.(handles := s.handles[h := initial.(locks := map[])])
    case Control(h, call) =>
      if h !in s.handles || call.Lock? || call.Unlock? then s
      else s.(handles := OnHandle(num, s, h, D.Request("", false, call)))
  }

  function Run(num: Numeral, s: State, actions: seq<Action>): State
    decreases |actions|
  {
    if actions == [] then s else Run(num, Step(num, s, actions[0]), actions[1..])
  }

  function Start(users: Users): State { State(P.Start(users), map[], map[]) }

  // ----------------------------------------------------------------------- invariant

  /** Thread t is a registered session of this name, on this handle, whose clean-up has not yet
      come to this store. */
  predicate Owns(s: State, t: nat, h: nat, store: D.Store, holder: string) {
    && t in s.threads
    && (s.threads[t].Serving? || (s.threads[t].Leaving? && store in s.threads[t].todo))
    && s.threads[t].user.handle == Some(h)
    && SessionName(s.threads[t].id) == holder
  }

  ghost predicate LockOwned(s: State, h: nat, store: D.Store)
    requires h in s.handles && store in s.handles[h].locks
  {
    store != D.Unknown && exists t :: Owns(s, t, h, store, s.handles[h].locks[store])
  }

  lemma {:induction false} TableStep(s: P.State<Users, User>, a: P.Action<Users, User>)
    requires P.Invariant(Fits(), s)
    ensures P.Invariant(Fits(), P.Step(Fits(), true, s, a))
  {
    P.StepKeepsInvariant(Fits(), true, s, a);
  }

  predicate RowsKept(s: State) {
    && (forall t | t in s.threads && s.threads[t].Serving? ::
          s.threads[t].id in s.table.rows && s.table.rows[s.threads[t].id] == P.Row(s.threads[t].user, true))
    && (forall t, t' | t in s.threads && t' in s.threads && t != t' && s.threads[t].Serving? && s.threads[t'].Serving? ::
          s.threads[t].id != s.threads[t'].id)
  }

  lemma {:induction false} StepKeepsTable(num: Numeral, s: State, a: Action)
    requires P.Invariant(Fits(), s.table) && RowsKept(s)
    ensures P.Invariant(Fits(), Step(num, s, a).table) && RowsKept(Step(num, s, a))
  {
    match a
    case Replace(next) => TableStep(s.table, P.Publish(next));
    case Sweep(call) => TableStep(s.table, P.Sweep(call));
    case Register(t) => RegisterKeepsTable(num, s, t);
    case Exit(t) => ExitKeepsTable(num, s, t);
    case _ => OthersKeepTable(num, s, a);
  }

  lemma {:induction false} OthersKeepTable(num: Numeral, s: State, a: Action)
    requires RowsKept(s) && !a.Replace? && !a.Sweep? && !a.Register? && !a.Exit?
    ensures Step(num, s, a).table == s.table && RowsKept(Step(num, s, a))
  {
    hide OnHandle, Tell;
  }

  lemma {:induction false} RegisterKeepsTable(num: Numeral, s: State, t: nat)
    requires P.Invariant(Fits(), s.table) && RowsKept(s)
    ensures P.Invariant(Fits(), Step(num, s, Register(t)).table) && RowsKept(Step(num, s, Register(t)))
  {
    if t in s.threads && s.threads[t].Looked? {
      var u, id := s.threads[t].user, s.table.nextId;
      assert forall x | x in s.table.rows :: x < id;
      RegisteredRow(s, u);
      RegisteredTable(s, u);
      hide P.Step, P.Invariant, Matches, Tell, P.Unfit;
    }
  }

  lemma {:induction false} RegisteredTable(s: State, u: User)
    requires P.Invariant(Fits(), s.table)
    ensures P.Invariant(Fits(), P.Step(Fits(), true, Tell(s, P.Enter(u)), P.Recheck(s.table.nextId)))
  {
    hide P.Invariant, P.Step;
    TableStep(s.table, P.Enter(u));
    TableStep(Tell(s, P.Enter(u)), P.Recheck(s.table.nextId));
  }

  lemma {:induction false} RegisteredRow(s: State, u: User)
    ensures var checked := P.Step(Fits(), true, Tell(s, P.Enter(u)), P.Recheck(s.table.nextId));
      && (forall x | x in s.table.rows && x != s.table.nextId :: x in checked.rows && checked.rows[x] == s.table.rows[x])
      && s.table.nextId in checked.rows
      && (Matches(s.table.current, u) ==> checked.rows[s.table.nextId] == P.Row(u, true))
  {
    hide Matches;
  }

  lemma {:induction false} ExitKeepsTable(num: Numeral, s: State, t: nat)
    requires P.Invariant(Fits(), s.table) && RowsKept(s)
    ensures P.Invariant(Fits(), Step(num, s, Exit(t)).table) && RowsKept(Step(num, s, Exit(t)))
  {
    hide Matches;
    if t in s.threads && s.threads[t].Serving? { TableStep(s.table, P.Leave(s.threads[t].id)); }
  }

  ghost predicate LocksOwned(s: State) {
    forall h, store | h in s.handles && store in s.handles[h].locks :: LockOwned(s, h, store)
  }

  /** A lock that was there before keeps its owner, unless the owner just gave it up. */
  lemma {:induction false} OwnerStays(s: State, s': State, h: nat, store: D.Store)
    requires LocksOwned(s) && h in s.handles && store in s.handles[h].locks
    requires h in s'.handles && store in s'.handles[h].locks && s'.handles[h].locks[store] == s.handles[h].locks[store]
    requires forall t | Owns(s, t, h, store, s.handles[h].locks[store]) :: Owns(s', t, h, store, s.handles[h].locks[store])
    ensures LockOwned(s', h, store)
  {
    assert LockOwned(s, h, store);
    var t :| Owns(s, t, h, store, s.handles[h].locks[store]);
  }

  lemma {:induction false} StepKeepsLocks(num: Numeral, s: State, a: Action)
    requires LocksOwned(s)
    ensures LocksOwned(Step(num, s, a))
  {
    hide D.Step, Tell, Matches, LocksOwned, P.Step;
    var s' := Step(num, s, a);
    match a
    case Rpc(t, cancelled, call) => RpcKeepsLocks(num, s, t, cancelled, call);
    case DropLock(t, store) => DropKeepsLocks(num, s, t, store);
    case Control(h, call) => ControlKeepsLocks(num, s, h, call);
    case Build(h, initial) => BuildKeepsLocks(num, s, h, initial);
    case _ =>
      assert s'.handles == s.handles;
      ThreadsKeepLocks(s, s');
  }

  /** A step that keeps the handles, and every registered session registered, keeps lock owners. */
  lemma {:induction false} ThreadsKeepLocks(s: State, s': State)
    requires LocksOwned(s) && s'.handles == s.handles
    requires forall t, h, store, holder | Owns(s, t, h, store, holder) && store != D.Unknown :: Owns(s', t, h, store, holder)
    ensures LocksOwned(s')
  {
    forall h, store | h in s'.handles && store in s'.handles[h].locks ensures LockOwned(s', h, store) {
      assert LockOwned(s, h, store);
    }
  }

  lemma {:induction false} RpcKeepsLocks(num: Numeral, s: State, t: nat, cancelled: bool, call: D.Call)
    requires LocksOwned(s)
    ensures LocksOwned(Step(num, s, Rpc(t, cancelled, call)))
    ensures t in s.threads && s.threads[t].Serving? && s.threads[t].user.access != READ_WRITE ==>
      Step(num, s, Rpc(t, cancelled, call)).handles == s.handles
  {
    hide D.Step;
    var s' := Step(num, s, Rpc(t, cancelled, call));
    if s' != s {
      var pc := s.threads[t];
      var own := pc.user.handle.value;
      var req := D.Request(SessionName(pc.id), cancelled, call);
      forall h, store | h in s'.handles && store in s'.handles[h].locks ensures LockOwned(s', h, store) {
        if h == own { D.CallLocks(num, s.handles[own], req, store); }
        if store in s.handles[h].locks && s'.handles[h].locks[store] == s.handles[h].locks[store] {
          OwnerStays(s, s', h, store);
        } else {
          assert Owns(s', t, h, store, SessionName(pc.id));
        }
      }
    }
  }

  lemma {:induction false} ControlKeepsLocks(num: Numeral, s: State, c: nat, call: D.Call)
    requires LocksOwned(s)
    ensures LocksOwned(Step(num, s, Control(c, call)))
  {
    hide D.Step;
    var s' := Step(num, s, Control(c, call));
    if s' != s {
      forall h, store | h in s'.handles && store in s'.handles[h].locks ensures LockOwned(s', h, store) {
        if h == c { D.CallLocks(num, s.handles[c], D.Request("", false, call), store); }
        OwnerStays(s, s', h, store);
      }
    }
  }

  lemma {:induction false} BuildKeepsLocks(num: Numeral, s: State, b: nat, initial: D.State)
    requires LocksOwned(s)
    ensures LocksOwned(Step(num, s, Build(b, initial)))
  {
    var s' := Step(num, s, Build(b, initial));
    forall h, store | h in s'.handles && store in s'.handles[h].locks ensures LockOwned(s', h, store) {
      OwnerStays(s, s', h, store);
    }
  }

  /** A lock that is still there after one unlock of a clean-up was there before, and whoever owned
      it still does. */
  lemma {:induction false} DropLeavesOthers(num: Numeral, s: State, t: nat, drop: D.Store, h: nat, store: D.Store)
    requires t in s.threads && s.threads[t].Leaving? && drop in s.threads[t].todo && store != D.Unknown
    requires var s' := Step(num, s, DropLock(t, drop)); h in s'.handles && store in s'.handles[h].locks
    ensures var s' := Step(num, s, DropLock(t, drop));
      && h in s.handles && store in s.handles[h].locks && s'.handles[h].locks[store] == s.handles[h].locks[store]
      && forall x | Owns(s, x, h, store, s.handles[h].locks[store]) :: Owns(s', x, h, store, s.handles[h].locks[store])
  {
    hide D.Step, Tell;
    var s', pc := Step(num, s, DropLock(t, drop)), s.threads[t];
    var req := D.Request("", false, D.Unlock(drop, SessionName(pc.id)));
    if pc.user.handle == Some(h) { D.CallLocks(num, s.handles[h], req, store); }
    var holder := s.handles[h].locks[store];
    forall x | Owns(s, x, h, store, holder) ensures Owns(s', x, h, store, holder) {
      if x == t { assert store in pc.todo - {drop}; }
    }
  }

  lemma {:induction false} DropKeepsLocks(num: Numeral, s: State, t: nat, drop: D.Store)
    requires LocksOwned(s)
    ensures LocksOwned(Step(num, s, DropLock(t, drop)))
  {
    hide D.Step, LocksOwned, LockOwned, Owns, OnHandle;
    var s' := Step(num, s, DropLock(t, drop));
    if s' != s {
      forall h, store | h in s'.handles && store in s'.handles[h].locks ensures LockOwned(s', h, store) {
        LockIsKnownBefore(num, s, t, drop, h, store);
        DropLeavesOthers(num, s, t, drop, h, store);
        OwnerStays(s, s', h, store);
      }
      AllOwned(s');
    }
  }

  lemma {:induction false} LockIsKnownBefore(num: Numeral, s: State, t: nat, drop: D.Store, h: nat, store: D.Store)
    requires LocksOwned(s)
    requires var s' := Step(num, s, DropLock(t, drop)); h in s'.handles && store in s'.handles[h].locks
    ensures store != D.Unknown
  {
    hide D.Step, LocksOwned, LockOwned, Tell;
    if t in s.threads && s.threads[t].Leaving? && s.threads[t].user.handle == Some(h) {
      D.CallLocks(num, s.handles[h], D.Request("", false, D.Unlock(drop, SessionName(s.threads[t].id))), store);
    }
    LockedIsKnown(s, h, store);
  }

  lemma {:induction false} LockedIsKnown(s: State, h: nat, store: D.Store)
    requires LocksOwned(s) && h in s.handles && store in s.handles[h].locks
    ensures store != D.Unknown
  {
    assert LockOwned(s, h, store);
  }

  lemma {:induction false} AllOwned(s: State)
    requires forall h, store | h in s.handles && store in s.handles[h].locks :: LockOwned(s, h, store)
    ensures LocksOwned(s)
  {
  }

  // --------------------------------------------------- the protocol against the table

  /** The session table: who has been registered and is not being closed. */
  function Table(s: P.State<Users, User>): map<nat, User> {
    map id | id in s.rows && P.Live(s, id) :: s.rows[id].item
  }

  /** A protocol step changes the table as the server's method of that name does. */
  lemma {:induction false} SweepRefines(num: Numeral, s: State, call: nat)
    requires call in s.table.pending
    ensures var before, judge := Table(s.table), s.table.pending[call];
      Table(Step(num, s, Sweep(call)).table) == before - (set id | id in before && !Matches(judge, before[id]))
  {
    hide Matches;
  }

  lemma {:induction false} RegisterRefines(num: Numeral, s: State, t: nat)
    requires P.Invariant(Fits(), s.table) && t in s.threads && s.threads[t].Looked?
    requires s.threads[t].user.handle.Some? && s.threads[t].user.handle.value in s.handles
    ensures var id, u := s.table.nextId, s.threads[t].user;
      && id !in Table(s.table)
      && Table(Step(num, s, Register(t)).table) == if Matches(s.table.current, u) then Table(s.table)[id := u] else Table(s.table)
  {
    hide Matches, LocksOwned;
    var id, u := s.table.nextId, s.threads[t].user;
    assert id !in s.table.rows && id !in s.table.closing;
    var after := Table(Step(num, s, Register(t)).table);
    assert forall x | x != id :: x in after <==> x in Table(s.table);
    assert id in after <==> Matches(s.table.current, u);
  }

  lemma {:induction false} ExitRefines(num: Numeral, s: State, t: nat)
    requires t in s.threads && s.threads[t].Serving?
    ensures Table(Step(num, s, Exit(t)).table) == Table(s.table) - {s.threads[t].id}
  {
  }

  // ------------------------------------------------------------------------ theorems

  ghost predicate AllGood(s: State) { P.Invariant(Fits(), s.table) && RowsKept(s) && LocksOwned(s) }

  lemma {:induction false} RunKeepsAll(num: Numeral, s: State, actions: seq<Action>)
    requires AllGood(s)
    ensures AllGood(Run(num, s, actions))
    decreases |actions|
  {
    hide Step, P.Invariant, RowsKept, LocksOwned;
    if actions != [] {
      StepKeepsTable(num, s, actions[0]);
      StepKeepsLocks(num, s, actions[0]);
      RunKeepsAll(num, Step(num, s, actions[0]), actions[1..]);
    }
  }

  lemma {:induction false} ReachableIsGood(num: Numeral, users: Users, actions: seq<Action>)
    ensures AllGood(Run(num, Start(users), actions))
  {
    P.StartIsInvariant(Fits(), users);
    RunKeepsAll(num, Start(users), actions);
  }

  /** Whatever the interleaving: once the call that published the users in force has swept, every
      session still in the table agrees with them on name, access, profile and handle. */
  lemma {:induction false} SweptSessionsMatch(num: Numeral, users: Users, actions: seq<Action>, s: State, t: nat)
    requires s == Run(num, Start(users), actions) && P.Swept(s.table)
    requires t in s.threads && s.threads[t].Serving? && s.threads[t].id !in s.table.closing
    ensures Matches(s.table.current, s.threads[t].user)
  {
    ReachableIsGood(num, users, actions);
    assert P.Live(s.table, s.threads[t].id);
  }

  /** The same, said of the table itself. */
  lemma {:induction false} SweptTableMatches(num: Numeral, users: Users, actions: seq<Action>, s: State)
    requires s == Run(num, Start(users), actions) && P.Swept(s.table)
    ensures forall id | id in Table(s.table) :: Matches(s.table.current, Table(s.table)[id])
  {
    ReachableIsGood(num, users, actions);
  }

  /** On every handle ever built, each held lock belongs to a session that has registered and whose
      exit has not yet released that store, even when the session was swept from the table or its
      handle was replaced. */
  lemma {:induction false} LocksHaveLiveOwners(num: Numeral, users: Users, actions: seq<Action>, s: State, h: nat, store: D.Store)
    requires s == Run(num, Start(users), actions) && h in s.handles && store in s.handles[h].locks
    ensures exists t :: Owns(s, t, h, store, s.handles[h].locks[store])
  {
    ReachableIsGood(num, users, actions);
    assert LockOwned(s, h, store);
  }

  /** So when every session has finished, nothing is locked anywhere. */
  lemma {:induction false} NoLockOutlivesItsSession(num: Numeral, users: Users, actions: seq<Action>, s: State, h: nat)
    requires s == Run(num, Start(users), actions) && h in s.handles
    requires forall t | t in s.threads :: s.threads[t].Done? || s.threads[t].Looked?
    ensures s.handles[h].locks == map[]
  {
    ReachableIsGood(num, users, actions);
    var locks := s.handles[h].locks;
    assert forall store | store in locks :: LockOwned(s, h, store);
    assert forall t, store, holder :: !Owns(s, t, h, store, holder);
    assert locks.Keys == {};
  }
}
