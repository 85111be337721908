/** What each call on a datastore handle needs and delivers, and what that gives over whole runs
    (internal/datastore/datastore.go). */
module DatastoreLaws {
  import opened Text
  import opened Paths
  import opened Values
  import opened Schemas
  import opened Edits
  import opened EditValidity
  import M = MergeLaws
  import opened ApplyLaws
  import opened Diffs
  import opened Datastore

  // ------------------------------------------------------------------- one call

  /** A session may write a store whose lock is free or its own. */
  predicate MayWrite(s: State, store: Store, session: string) {
    store !in s.locks || (session != "" && s.locks[store] == session)
  }

  /** The stores a call is about to change. */
  function Targets(call: Call): set<Store> {
    match call
    case Edit(_, _, _, _) => {Candidate}
    case WriteRunning(_, _, _) => {Running, Candidate}
    case Copy(src, dst) => if src == dst then {} else {dst}
    case DeleteConfig(_) => {Startup}
    case Commit => {Running}
    case Discard => {Candidate}
    case Lock(_, _) => {}
    case Unlock(_, _) => {}
  }

  /** A refused call changes nothing; a call that is done leaves every store it does not name alone. */
  lemma {:induction false} CallFrame(num: Numeral, s: State, req: Request, store: Store)
    requires store != Unknown
    ensures var (t, outcome) := Step(num, s, req);
      && (outcome.Refused? ==> t == s)
      && (store !in Targets(req.call) ==> Contents(t, store) == Contents(s, store))
      && (!req.call.Lock? && !req.call.Unlock? ==> t.locks == s.locks)
  {
    hide Apply, ApplyText, Equal, Validates;
  }

  /** A cancelled call is refused as such, and only a cancelled one. */
  lemma {:induction false} CancelledIff(num: Numeral, s: State, req: Request)
    ensures Step(num, s, req).1 == Refused(Cancelled) <==> req.cancelled
  {
    hide Apply, ApplyText, Equal, Validates;
  }

  /** A copy delivers the source's contents into the destination, and into no other store. */
  lemma {:induction false} CopyIsExact(num: Numeral, s: State, req: Request)
    requires req.call.Copy?
    ensures var (t, outcome), src, dst := Step(num, s, req), req.call.src, req.call.dst;
      && (outcome.Done? <==>
            !req.cancelled && src != Unknown && dst != Unknown && (src == dst || MayWrite(s, dst, req.session)))
      && (outcome.Done? ==>
            && Contents(t, dst) == Contents(s, src)
            && (forall other | other != Unknown && other != dst :: Contents(t, other) == Contents(s, other))
            && t.locks == s.locks)
  {
  }

  /** An edit takes effect on the candidate alone: the tree there becomes the edited one. */
  lemma {:induction false} EditIsExact(num: Numeral, s: State, req: Request)
    requires req.call.Edit?
    ensures var (t, outcome), c := Step(num, s, req), req.call;
      && (outcome.Done? <==>
            && !req.cancelled && c.store == Candidate && MayWrite(s, Candidate, req.session)
            && Parse(c.path).Some? && Apply(s.candidate.schema, s.candidate.root, c.op, Parse(c.path).value, c.value).Ok?)
      && (outcome.Done? ==>
            && t.candidate.schema == s.candidate.schema
            && Ok(t.candidate.root) == Apply(s.candidate.schema, s.candidate.root, c.op, Parse(c.path).value, c.value)
            && t.running == s.running && t.startup == s.startup && t.locks == s.locks && t.gen == s.gen)
  {
    hide Apply, Parse, Equal;
  }

  /** A direct write needs a clean candidate nobody has locked; it edits running and the candidate. */
  lemma {:induction false} WriteRunningIsExact(num: Numeral, s: State, req: Request)
    requires req.call.WriteRunning?
    ensures var (t, outcome), c := Step(num, s, req), req.call;
      && (outcome.Done? <==>
            && !req.cancelled && Equal(num, Map(s.running.root), Map(s.candidate.root))
            && Candidate !in s.locks && MayWrite(s, Running, req.session)
            && Parse(c.path).Some?
            && Apply(s.running.schema, s.running.root, c.op, Parse(c.path).value, c.value).Ok?
            && Apply(s.candidate.schema, s.candidate.root, c.op, Parse(c.path).value, c.value).Ok?)
      && (outcome.Done? ==>
            && Ok(t.running.root) == Apply(s.running.schema, s.running.root, c.op, Parse(c.path).value, c.value)
            && Ok(t.candidate.root) == Apply(s.candidate.schema, s.candidate.root, c.op, Parse(c.path).value, c.value)
            && t.running.schema == s.running.schema && t.candidate.schema == s.candidate.schema
            && t.startup == s.startup && t.locks == s.locks && t.gen == s.gen)
  {
    hide Apply, Parse, Equal;
  }

  /** Deleting a configuration empties startup, which no schema without a leaf at the root refuses. */
  lemma {:induction false} DeleteConfigIsExact(num: Numeral, s: State, req: Request)
    requires req.call.DeleteConfig? && (s.startup.schema.Some? ==> "" !in s.startup.schema.value.byPath)
    ensures var (t, outcome) := Step(num, s, req);
      && (outcome.Done? <==> !req.cancelled && req.call.store == Startup && MayWrite(s, Startup, req.session))
      && (outcome.Done? ==>
            && t.startup.root == map[] && t.startup.schema == s.startup.schema
            && t.running == s.running && t.candidate == s.candidate && t.locks == s.locks && t.gen == s.gen)
  {
    hide Apply;
    ClearedIsValid(s.startup);
  }

  /** A commit needs both locks and a validating candidate; running becomes the candidate. */
  lemma {:induction false} CommitIsExact(num: Numeral, s: State, req: Request)
    requires req.call.Commit?
    ensures var (t, outcome) := Step(num, s, req);
      && (outcome.Done? <==>
            && !req.cancelled && MayWrite(s, Candidate, req.session) && MayWrite(s, Running, req.session)
            && Validates(s.candidate.schema, s.candidate.root))
      && (outcome.Done? ==>
            && t.running == s.candidate && t.candidate == s.candidate && t.startup == s.startup
            && t.locks == s.locks && t.gen == s.gen + 1)
  {
    hide Validates;
  }

  /** A discard needs the candidate's lock; the candidate becomes running. */
  lemma {:induction false} DiscardIsExact(num: Numeral, s: State, req: Request)
    requires req.call.Discard?
    ensures var (t, outcome) := Step(num, s, req);
      && (outcome.Done? <==> !req.cancelled && MayWrite(s, Candidate, req.session))
      && (outcome.Done? ==>
            && t.candidate == s.running && t.running == s.running && t.startup == s.startup
            && t.locks == s.locks && t.gen == s.gen)
  {
  }

  /** A free or own lock is granted to a named session, and then held by it; no other lock moves. */
  lemma {:induction false} LockIsExact(num: Numeral, s: State, req: Request)
    requires req.call.Lock?
    ensures var (t, outcome), store, id := Step(num, s, req), req.call.store, req.call.id;
      && (outcome.Done? <==> !req.cancelled && id != "" && store != Unknown && (store !in s.locks || Holds(s, store, id)))
      && (outcome.Done? ==>
            && Holds(t, store, id) && t == s.(locks := t.locks)
            && forall other | other != store :: (other in t.locks <==> other in s.locks) && (other in s.locks ==> t.locks[other] == s.locks[other]))
  {
  }

  /** Exactly the holder releases a lock; no other lock moves. */
  lemma {:induction false} UnlockIsExact(num: Numeral, s: State, req: Request)
    requires req.call.Unlock?
    ensures var (t, outcome), store, id := Step(num, s, req), req.call.store, req.call.id;
      && (outcome.Done? <==> !req.cancelled && store != Unknown && Holds(s, store, id))
      && (outcome.Done? ==>
            && store !in t.locks && t == s.(locks := t.locks)
            && forall other | other != store :: (other in t.locks <==> other in s.locks) && (other in s.locks ==> t.locks[other] == s.locks[other]))
  {
  }

  /** Each reason for a refusal is given only where it applies. */
  lemma {:induction false} RefusalHasItsCause(num: Numeral, s: State, req: Request, why: Reason)
    requires Step(num, s, req).1 == Refused(why)
    ensures var c := req.call;
      match why
      case Cancelled => req.cancelled
      case UnknownStore => (c.Copy? && (c.src == Unknown || c.dst == Unknown)) || ((c.Lock? || c.Unlock?) && c.store == Unknown)
      case NotEditable => (c.Edit? && c.store != Candidate) || (c.DeleteConfig? && c.store != Startup)
      case BadRequest => c.Lock? && c.id == ""
      case CandidateDirty => c.WriteRunning? && (Dirty(num, s) || Candidate in s.locks)
      case LockDenied =>
        if c.Lock? then c.store in s.locks && s.locks[c.store] != c.id
        else if c.Unlock? then !Holds(s, c.store, c.id)
        else exists store | store in s.locks ::
          !MayWrite(s, store, req.session) && (store in Targets(c) || (c.Commit? && store == Candidate))
      case Rejected(e) =>
        || (c.Commit? && e == ValidationFailed && !Validates(s.candidate.schema, s.candidate.root))
        || (c.Edit? && ApplyText(s.candidate, c.op, c.path, c.value) == Err(e))
        || (c.WriteRunning? && Err(e) in {ApplyText(s.running, c.op, c.path, c.value), ApplyText(s.candidate, c.op, c.path, c.value)})
        || (c.DeleteConfig? && Apply(s.startup.schema, s.startup.root, Replace, ROOT, Map(map[])) == Err(e))
  {
    hide Apply, ApplyText, Equal, Validates;
  }

  // ------------------------------------------------------------------- whole runs

  /** While a session holds a store's lock, no other session gets a call through that names the store. */
  lemma {:induction false} HeldStoreRefusesOthers(num: Numeral, s: State, store: Store, id: string, req: Request)
    requires store != Unknown && Holds(s, store, id) && Actor(req) != id
    requires store in Targets(req.call) || ((req.call.Lock? || req.call.Unlock?) && req.call.store == store)
    ensures Step(num, s, req).1.Refused?
  {
    hide Apply, ApplyText, Equal, Validates;
  }

  lemma {:induction false} RunFrame(num: Numeral, s: State, reqs: seq<Request>, store: Store)
    requires store != Unknown && forall i | 0 <= i < |reqs| :: store !in Targets(reqs[i].call)
    ensures Contents(Run(num, s, reqs), store) == Contents(s, store)
    decreases |reqs|
  {
    hide Step, Targets, Contents;
    if reqs != [] {
      CallFrame(num, s, reqs[0], store);
      RunFrame(num, Step(num, s, reqs[0]).0, reqs[1..], store);
    }
  }

  /** A backup restores: a store copied elsewhere comes back as it was, whatever happens between to
      everything but the backup. */
  lemma {:induction false} BackupRestores(num: Numeral, s: State, save: Request, reqs: seq<Request>, restore: Request)
    requires save.call.Copy? && restore.call == Copy(save.call.dst, save.call.src)
    requires Step(num, s, save).1.Done?
    requires forall i | 0 <= i < |reqs| :: save.call.dst !in Targets(reqs[i].call)
    requires Step(num, Run(num, Step(num, s, save).0, reqs), restore).1.Done?
    ensures var t := Step(num, Run(num, Step(num, s, save).0, reqs), restore).0;
      save.call.src != Unknown && Contents(t, save.call.src) == Contents(s, save.call.src)
  {
    hide Step, Targets, Contents;
    CopyIsExact(num, s, save);
    var saved := Step(num, s, save).0;
    RunFrame(num, saved, reqs, save.call.dst);
    CopyIsExact(num, Run(num, saved, reqs), restore);
  }

  /** With the backup locked, nothing other sessions do can spoil it. */
  lemma {:induction false} LockedBackupRestores(num: Numeral, s: State, id: string, save: Request, reqs: seq<Request>, restore: Request)
    requires save.call.Copy? && restore.call == Copy(save.call.dst, save.call.src)
    requires Holds(s, save.call.dst, id) && Step(num, s, save).1.Done?
    requires forall i | 0 <= i < |reqs| :: Actor(reqs[i]) != id
    requires Step(num, Run(num, Step(num, s, save).0, reqs), restore).1.Done?
    ensures var t := Step(num, Run(num, Step(num, s, save).0, reqs), restore).0;
      save.call.src != Unknown && Contents(t, save.call.src) == Contents(s, save.call.src)
  {
    hide Step, Contents;
    CopyIsExact(num, s, save);
    var saved := Step(num, s, save).0;
    LockExcludesOverRun(num, saved, save.call.dst, id, reqs);
    CopyIsExact(num, Run(num, saved, reqs), restore);
  }

  lemma {:induction false} EmptyPathIsRoot()
    ensures Parse("") == Some(ROOT)
  {
  }

  /** An edit-config under the candidate's lock, then a commit: whatever other sessions did in between,
      running reads every scalar of the clean configuration that was merged and keeps what the candidate
      held and the configuration is silent about. */
  lemma {:induction false} LockedEditIsPublished(num: Numeral, s: State, id: string, overlay: Fields, edit: Request, others: seq<Request>, commit: Request, p: Path)
    requires Holds(s, Candidate, id) && M.CleanOverlay(Map(overlay))
    requires edit.call == Edit(Candidate, Merge, "", Map(overlay)) && Step(num, s, edit).1.Done?
    requires forall i | 0 <= i < |others| :: Actor(others[i]) != id
    requires commit.call == Commit && Step(num, Run(num, Step(num, s, edit).0, others), commit).1.Done?
    ensures var t := Step(num, Run(num, Step(num, s, edit).0, others), commit).0;
      && t.running == t.candidate
      && (Get(overlay, p).Some? && IsScalar(Get(overlay, p).value) && M.ByOwnKeys(overlay[p.modName], p.segments) ==>
            Get(t.running.root, p) == Get(overlay, p))
      && (Get(s.candidate.root, p).Some? && (p.modName in overlay ==> M.Silent(s.candidate.root[p.modName], overlay[p.modName], p.segments)) ==>
            Get(t.running.root, p) == Get(s.candidate.root, p))
  {
    hide Step, Apply, M.CleanOverlay, GetSteps, M.ByOwnKeys, M.Silent, Parse;
    EmptyPathIsRoot();
    EditIsExact(num, s, edit);
    var edited := Step(num, s, edit).0;
    LockExcludesOverRun(num, edited, Candidate, id, others);
    CommitIsExact(num, Run(num, edited, others), commit);
    if Get(overlay, p).Some? && IsScalar(Get(overlay, p).value) && M.ByOwnKeys(overlay[p.modName], p.segments) {
      RootMergeReadsBack(s.candidate.schema, s.candidate.root, overlay, p);
    }
    if Get(s.candidate.root, p).Some? && (p.modName in overlay ==> M.Silent(s.candidate.root[p.modName], overlay[p.modName], p.segments)) {
      RootMergeKeepsRest(s.candidate.schema, s.candidate.root, overlay, p);
    }
  }
}
