/** What user replacement and the session table mean for the sessions: which entry of a list counts, who
    is served, who is left alone, and what a session's lock protects (internal/ncserver/server.go,
    internal/ncserver/dispatch.go). */
module SessionLaws {
  import opened Text
  import opened Values
  import D = Datastore
  import P = PublishSweep
  import opened Sessions

  // ------------------------------------------------------------------ the user index

  /** Entry i is the last of its name. */
  predicate IsLast(list: seq<User>, i: nat) { i < |list| && forall j | i < j < |list| :: list[j].name != list[i].name }

  /** The index holds the names of the list and no other. */
  lemma {:induction false} IndexNames(list: seq<User>, name: string)
    ensures name in Index(list) <==> exists i | 0 <= i < |list| :: list[i].name == name
  {
    if list != [] {
      var k := |list| - 1;
      IndexNames(list[..k], name);
      assert list == list[..k] + [list[k]];
    }
  }

  /** Under a name stands the last entry of that name, with read-write for an access left empty. */
  lemma {:induction false} IndexIsLast(list: seq<User>, i: nat)
    requires IsLast(list, i)
    ensures list[i].name in Index(list)
    ensures Index(list)[list[i].name] ==
      User(list[i].name, list[i].profile, if list[i].access == "" then "read-write" else list[i].access, list[i].handle)
  {
    var k := |list| - 1;
    if i < k {
      assert list[..k][i] == list[i];
      IndexIsLast(list[..k], i);
    }
  }

  predicate Keyed(users: Users) { forall k | k in users :: users[k].name == k }

  /** A session matches the users in force exactly when they still hold its very entry. */
  lemma {:induction false} MatchesIsEquality(users: Users, u: User)
    requires Keyed(users)
    ensures Matches(users, u) <==> u.name in users && users[u.name] == u
  {
  }

  // ------------------------------------------------------------------ who is served

  /** A Serve call that nothing interrupts is served with its user's entry and stands in the table,
      under a new id. */
  lemma {:induction false} UndisturbedServe(num: Numeral, s: State, t: nat, name: string)
    requires P.Invariant(Fits(), s.table) && t !in s.threads
    requires Keyed(s.table.current) && name in s.table.current
    requires s.table.current[name].handle.Some? && s.table.current[name].handle.value in s.handles
    ensures var u, id, after := s.table.current[name], s.table.nextId, Step(num, Step(num, s, Connect(t, name)), Register(t));
      && after.threads[t] == Serving(id, u) && u.name == name
      && id !in Table(s.table) && Table(after.table) == Table(s.table)[id := u]
      && after.handles == s.handles
  {
    hide P.Step, Table;
    RegisterRefines(num, Step(num, s, Connect(t, name)), t);
  }

  /** An RPC of a serving read-write session is carried out on the session's own handle, in its name;
      no other handle, no session and no table entry is touched. Any other RPC changes nothing. */
  lemma {:induction false} RpcReachesItsHandle(num: Numeral, s: State, t: nat, cancelled: bool, call: D.Call)
    requires t in s.threads && s.threads[t].Serving?
    ensures var pc, after := s.threads[t], Step(num, s, Rpc(t, cancelled, call));
      var own := pc.user.handle;
      && after == s.(handles := after.handles) && after.handles.Keys == s.handles.Keys
      && (forall h | h in s.handles && own != Some(h) :: after.handles[h] == s.handles[h])
      && (own.Some? && own.value in s.handles ==>
            after.handles[own.value] ==
              if pc.user.access == "read-write" && (call.Lock? || call.Unlock? ==> call.id == Decimal(pc.id))
              then D.Step(num, s.handles[own.value], D.Request(Decimal(pc.id), cancelled, call)).0
              else s.handles[own.value])
  {
    hide D.Step;
  }

  // -------------------------------------------------------------- one owner to a lock

  predicate HasId(pc: Pc) { pc.Serving? || pc.Leaving? }

  /** Sessions have ids of their own, drawn already. */
  ghost predicate IdsDistinct(s: State) {
    && (forall t | t in s.threads && HasId(s.threads[t]) :: s.threads[t].id < s.table.nextId)
    && (forall t, t' | t in s.threads && t' in s.threads && t != t' && HasId(s.threads[t]) && HasId(s.threads[t']) ::
          s.threads[t].id != s.threads[t'].id)
  }

  /** Only a registration draws an id, the next one. */
  lemma {:induction false} IdsDrawn(num: Numeral, s: State, a: Action)
    ensures Step(num, s, a).table.nextId >= s.table.nextId
    ensures forall t | t in Step(num, s, a).threads && HasId(Step(num, s, a).threads[t]) ::
      || (t in s.threads && HasId(s.threads[t]) && s.threads[t].id == Step(num, s, a).threads[t].id)
      || (a == Register(t) && Step(num, s, a).threads[t].id == s.table.nextId < Step(num, s, a).table.nextId)
  {
    hide OnHandle, Matches, D.Step;
  }

  lemma {:induction false} StepKeepsIds(num: Numeral, s: State, a: Action)
    requires IdsDistinct(s)
    ensures IdsDistinct(Step(num, s, a))
  {
    hide Step;
    IdsDrawn(num, s, a);
  }

  lemma {:induction false} RunKeepsIds(num: Numeral, s: State, actions: seq<Action>)
    requires IdsDistinct(s)
    ensures IdsDistinct(Run(num, s, actions))
    decreases |actions|
  {
    hide Step, IdsDistinct;
    if actions != [] {
      StepKeepsIds(num, s, actions[0]);
      RunKeepsIds(num, Step(num, s, actions[0]), actions[1..]);
    }
  }

  lemma {:induction false} NamesAreDistinct(a: nat, b: nat)
    ensures SessionName(a) == SessionName(b) ==> a == b
    ensures SessionName(a) != ""
  {
  }

  /** In every reachable state a lock has exactly one owner. */
  lemma {:induction false} LocksHaveOneOwner(num: Numeral, users: Users, actions: seq<Action>, s: State, h: nat, store: D.Store)
    requires s == Run(num, Start(users), actions) && h in s.handles && store in s.handles[h].locks
    ensures exists t ::
      && Owns(s, t, h, store, s.handles[h].locks[store])
      && forall other | Owns(s, other, h, store, s.handles[h].locks[store]) :: other == t
  {
    LocksHaveLiveOwners(num, users, actions, s, h, store);
    RunKeepsIds(num, Start(users), actions);
    var holder := s.handles[h].locks[store];
    var t :| Owns(s, t, h, store, holder);
    forall other | Owns(s, other, h, store, holder) ensures other == t {
      NamesAreDistinct(s.threads[t].id, s.threads[other].id);
    }
  }

  // ------------------------------------------------------------ what a lock protects

  /** The session holds the store's lock on its handle. */
  predicate HoldsLock(s: State, t: nat, h: nat, store: D.Store) {
    && t in s.threads && s.threads[t].Serving? && s.threads[t].user.handle == Some(h)
    && h in s.handles && D.Holds(s.handles[h], store, SessionName(s.threads[t].id))
  }

  predicate OwnAction(t: nat, a: Action) { (a.Rpc? || a.Exit? || a.DropLock?) && a.t == t }

  /** What a step asks of a handle, if anything. */
  function Asks(s: State, h: nat, a: Action): Option<D.Request>
    requires h in s.handles
  {
    match a
    case Rpc(t, cancelled, call) =>
      if t in s.threads && s.threads[t].Serving? && s.threads[t].user.access == READ_WRITE && OwnCall(s.threads[t].id, call)
         && s.threads[t].user.handle == Some(h)
      then Some(D.Request(SessionName(s.threads[t].id), cancelled, call)) else None
    case DropLock(t, store) =>
      if t in s.threads && s.threads[t].Leaving? && store in s.threads[t].todo && s.threads[t].user.handle == Some(h)
      then Some(D.Request("", false, D.Unlock(store, SessionName(s.threads[t].id)))) else None
    case Control(c, call) => if c == h && !call.Lock? && !call.Unlock? then Some(D.Request("", false, call)) else None
    case _ => None
  }

  lemma {:induction false} HandleTakesWhatIsAsked(num: Numeral, s: State, h: nat, a: Action)
    requires h in s.handles
    ensures var after := Step(num, s, a);
      && h in after.handles
      && after.handles[h] == match Asks(s, h, a) { case None => s.handles[h] case Some(req) => D.Step(num, s.handles[h], req).0 }
  {
    hide D.Step, Matches, Tell, P.Step;
  }

  lemma {:induction false} ServingStays(num: Numeral, s: State, t: nat, a: Action)
    requires t in s.threads && s.threads[t].Serving? && !OwnAction(t, a)
    ensures t in Step(num, s, a).threads && Step(num, s, a).threads[t] == s.threads[t]
  {
    hide D.Step, Matches, Tell, P.Step, OnHandle;
  }

  lemma {:induction false} OthersAct(s: State, t: nat, h: nat, store: D.Store, a: Action)
    requires IdsDistinct(s) && HoldsLock(s, t, h, store) && !OwnAction(t, a) && Asks(s, h, a).Some?
    ensures D.Actor(Asks(s, h, a).value) != SessionName(s.threads[t].id)
  {
    var id := s.threads[t].id;
    NamesAreDistinct(id, id);
    if a.Rpc? || a.DropLock? { NamesAreDistinct(id, s.threads[a.t].id); }
  }

  /** While a session holds a store's lock and does nothing itself, no interleaving of other sessions'
      calls and exits, control-plane calls, user replacements and new handles changes the store or takes
      the lock away. */
  lemma {:induction false} SessionLockProtects(num: Numeral, s: State, t: nat, h: nat, store: D.Store, actions: seq<Action>)
    requires IdsDistinct(s) && store != D.Unknown && HoldsLock(s, t, h, store)
    requires forall i | 0 <= i < |actions| :: !OwnAction(t, actions[i])
    ensures var after := Run(num, s, actions);
      HoldsLock(after, t, h, store) && D.Contents(after.handles[h], store) == D.Contents(s.handles[h], store)
    decreases |actions|
  {
    hide Step, D.Step, D.Contents, IdsDistinct, Asks, OwnAction;
    if actions != [] {
      var a := actions[0];
      HandleTakesWhatIsAsked(num, s, h, a);
      ServingStays(num, s, t, a);
      StepKeepsIds(num, s, a);
      match Asks(s, h, a) {
        case None =>
        case Some(req) =>
          OthersAct(s, t, h, store, a);
          D.LockExcludes(num, s.handles[h], store, SessionName(s.threads[t].id), req);
      }
      SessionLockProtects(num, Step(num, s, a), t, h, store, actions[1..]);
    }
  }

  // --------------------------------------------------------- who agrees and who stays

  /** The users in force hold the session's entry: same name, access, profile and handle. */
  predicate SameEntry(users: Users, u: User) {
    && u.name in users && users[u.name].access == u.access && users[u.name].profile == u.profile && users[u.name].handle == u.handle
  }

  /** Once the users in force have been swept for, exactly their own entries stand in the table. */
  lemma {:induction false} SweptTableAgrees(num: Numeral, users: Users, actions: seq<Action>, s: State)
    requires s == Run(num, Start(users), actions) && P.Swept(s.table)
    ensures forall id | id in Table(s.table) :: SameEntry(s.table.current, Table(s.table)[id])
    ensures forall t | t in s.threads && s.threads[t].Serving? && s.threads[t].id !in s.table.closing ::
      SameEntry(s.table.current, s.threads[t].user)
  {
    hide P.Swept, Table, Run, Start;
    SweptTableMatches(num, users, actions, s);
    forall t | t in s.threads && s.threads[t].Serving? && s.threads[t].id !in s.table.closing
      ensures SameEntry(s.table.current, s.threads[t].user) {
      SweptSessionsMatch(num, users, actions, s, t);
    }
  }

  /** No replacement brings in other data for the user, and the session does not end itself. */
  predicate Spares(t: nat, u: User, a: Action) {
    (a.Replace? ==> SameEntry(a.next, u)) && (a.Exit? ==> a.t != t)
  }

  /** Every set of users in force, or published and not yet swept for, holds the session's entry. */
  predicate AllHold(s: State, u: User) {
    SameEntry(s.table.current, u) && forall call | call in s.table.pending :: SameEntry(s.table.pending[call], u)
  }

  predicate InTable(s: State, t: nat) {
    && t in s.threads && s.threads[t].Serving? && s.threads[t].id in s.table.rows && s.threads[t].id !in s.table.closing
    && s.table.rows[s.threads[t].id] == P.Row(s.threads[t].user, true)
  }

  /** The row of a user stands, and is not being closed. */
  predicate Stands(table: P.State<Users, User>, id: nat, u: User) {
    id in table.rows && id !in table.closing && table.rows[id] == P.Row(u, true)
  }

  lemma {:induction false} TellKeeps(table: P.State<Users, User>, id: nat, u: User, a: P.Action<Users, User>)
    requires P.Invariant(Fits(), table) && Stands(table, id, u) && P.AllTake(Fits(), table, u)
    requires (a.Publish? ==> SameEntry(a.next, u)) && (a.Leave? ==> a.id != id)
    ensures var after := P.Step(Fits(), true, table, a);
      P.Invariant(Fits(), after) && P.AllTake(Fits(), after, u) && Stands(after, id, u)
  {
    assert P.Spares(Fits(), id, u, a);
    RowKeepsShape(table, id, a);
    hide P.Step, P.Invariant, P.AllTake, P.Spares;
    P.StepKeepsInvariant(Fits(), true, table, a);
    P.StepKeepsFitting(Fits(), true, table, id, u, a);
  }

  /** No step takes back that a row was cleared. */
  lemma {:induction false} RowKeepsShape(table: P.State<Users, User>, id: nat, a: P.Action<Users, User>)
    requires P.Invariant(Fits(), table) && id in table.rows && table.rows[id].cleared
    ensures var after := P.Step(Fits(), true, table, a); id in after.rows ==> after.rows[id] == table.rows[id]
  {
  }

  /** A session whose entry every published set of users still holds stays in the table, in every
      interleaving, until it leaves by itself. */
  lemma {:induction false} UnchangedSessionStays(num: Numeral, s: State, t: nat, actions: seq<Action>)
    requires P.Invariant(Fits(), s.table) && RowsKept(s) && InTable(s, t) && AllHold(s, s.threads[t].user)
    requires forall i | 0 <= i < |actions| :: Spares(t, s.threads[t].user, actions[i])
    ensures var after := Run(num, s, actions); InTable(after, t) && after.threads[t] == s.threads[t]
    decreases |actions|
  {
    hide Step, P.Invariant, RowsKept, InTable, AllHold, Spares;
    if actions != [] {
      assert InTable(s, t) && t in s.threads by { InTableMeans(s, t); }
      StepKeepsTable(num, s, actions[0]);
      StepKeepsSession(num, s, t, actions[0]);
      UnchangedSessionStays(num, Step(num, s, actions[0]), t, actions[1..]);
    }
  }

  lemma {:induction false} InTableMeans(s: State, t: nat)
    requires InTable(s, t)
    ensures t in s.threads && s.threads[t].Serving?
  {
  }

  lemma {:induction false} StepKeepsSession(num: Numeral, s: State, t: nat, a: Action)
    requires P.Invariant(Fits(), s.table) && RowsKept(s) && InTable(s, t) && AllHold(s, s.threads[t].user) && Spares(t, s.threads[t].user, a)
    ensures var after := Step(num, s, a); InTable(after, t) && after.threads[t] == s.threads[t] && AllHold(after, s.threads[t].user)
  {
    var id, u := s.threads[t].id, s.threads[t].user;
    assert P.AllTake(Fits(), s.table, u) && Stands(s.table, id, u);
    if a.Exit? && a.t in s.threads && s.threads[a.t].Serving? { assert s.threads[a.t].id != id; }
    TableKeepsRow(num, s, t, a);
    ThreadStays(num, s, t, a);
    hide Step;
  }

  lemma {:induction false} ThreadStays(num: Numeral, s: State, t: nat, a: Action)
    requires t in s.threads && s.threads[t].Serving? && !(a.Exit? && a.t == t)
    ensures t in Step(num, s, a).threads && Step(num, s, a).threads[t] == s.threads[t]
  {
    hide OnHandle, Tell, P.Step, Matches;
  }

  lemma {:induction false} TableKeepsRow(num: Numeral, s: State, t: nat, a: Action)
    requires t in s.threads && s.threads[t].Serving?
    requires P.Invariant(Fits(), s.table) && Stands(s.table, s.threads[t].id, s.threads[t].user) && P.AllTake(Fits(), s.table, s.threads[t].user)
    requires Spares(t, s.threads[t].user, a)
    requires a.Exit? && a.t in s.threads && s.threads[a.t].Serving? ==> s.threads[a.t].id != s.threads[t].id
    ensures var after := Step(num, s, a).table; Stands(after, s.threads[t].id, s.threads[t].user) && P.AllTake(Fits(), after, s.threads[t].user)
  {
    hide OnHandle, P.Invariant, P.AllTake, P.Step, Stands, SameEntry, Matches;
    var id, u := s.threads[t].id, s.threads[t].user;
    match a
    case Replace(next) => TellKeeps(s.table, id, u, P.Publish(next));
    case Sweep(call) => TellKeeps(s.table, id, u, P.Sweep(call));
    case Register(x) =>
      if x in s.threads && s.threads[x].Looked? {
        TellKeeps(s.table, id, u, P.Enter(s.threads[x].user));
        TellKeeps(Tell(s, P.Enter(s.threads[x].user)), id, u, P.Recheck(s.table.nextId));
      }
    case Exit(x) => if x in s.threads && s.threads[x].Serving? { TellKeeps(s.table, id, u, P.Leave(s.threads[x].id)); }
    case _ =>
  }
}
