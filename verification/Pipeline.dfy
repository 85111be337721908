/** The control plane: optimistic plan and apply, reset, the idempotency cache, and which live
    datastore handles survive a new snapshot (internal/app/mutate.go, internal/app/reset.go). */
module Pipeline {
  import opened Text
  import opened Values
  import opened Edits
  import opened Diffs
  import opened WalkDiffs
  import I = Idempotency

  /** A compiled device profile; startup may be absent. */
  datatype Profile = Profile(schema: seq<string>, running: Fields, startup: Option<Fields>)

  /** What compilation makes of a state document: the normalised document, the sharing mode, the
      profiles, and each user's profile. */
  datatype Compiled = Compiled(doc: Json, shared: bool, profiles: map<string, Profile>, users: map<string, string>)

  datatype Snapshot = Snapshot(compiled: Compiled, revision: string, bootstrap: string, generation: nat)

  type Ops = seq<string>

  /** Library code: compilation, canonical revision, the edit verbs, the request fingerprint, and
      number syntax. */
  datatype Env = Env(
    compile: Json -> Option<Compiled>,
    revise: Json -> string,
    edit: (Json, Ops) -> Option<Json>,
    fingerprint: Ops -> string,
    num: Numeral)

  /** A live datastore, told apart by when it was built and for whom. */
  datatype Handle = Handle(epoch: nat, forUser: bool, name: string)

  datatype ApplyResult = ApplyResult(previous: string, revision: string, drifted: bool, ops: Ops, generation: nat)

  datatype Failure = Required | NoSnapshot | RevisionMismatch | KeyReused | Invalid

  datatype Reply = Planned(previous: string, candidate: string) | Applied(result: ApplyResult) | WasReset | Refused(why: Failure)

  datatype App = App(
    active: Option<Snapshot>,
    boot: Option<Snapshot>,
    cache: seq<I.Record<ApplyResult>>,
    max: nat,
    profileHandles: map<string, Handle>,
    userHandles: map<string, Handle>,
    epoch: nat)

  // ---------------------------------------------------------------------- handles

  /** profileCompileEqual. */
  predicate SameProfile(num: Numeral, a: Profile, b: Profile) {
    && a.schema == b.schema
    && Equal(num, Map(a.running), Map(b.running))
    && (a.startup.Some? <==> b.startup.Some?)
    && (a.startup.Some? ==> Equal(num, Map(a.startup.value), Map(b.startup.value)))
  }

  /** A change of sharing mode keeps nothing. */
  function Comparable(prev: Option<Compiled>, next: Compiled): Option<Compiled> {
    if prev.Some? && prev.value.shared != next.shared then None else prev
  }

  predicate KeepsProfile(num: Numeral, prev: Option<Compiled>, next: Compiled, p: string)
    requires p in next.profiles
  {
    var base := Comparable(prev, next);
    base.Some? && p in base.value.profiles && SameProfile(num, base.value.profiles[p], next.profiles[p])
  }

  predicate KeepsUser(num: Numeral, prev: Option<Compiled>, next: Compiled, u: string)
    requires u in next.users && next.users[u] in next.profiles
  {
    var base := Comparable(prev, next);
    && KeepsProfile(num, prev, next, next.users[u])
    && u in base.value.users && base.value.users[u] == next.users[u]
  }

  function ProfileHandles(num: Numeral, prev: Option<Compiled>, next: Compiled, held: map<string, Handle>, epoch: nat): map<string, Handle> {
    map p | p in next.profiles ::
      if KeepsProfile(num, prev, next, p) && p in held then held[p] else Handle(epoch, false, p)
  }

  /** One user's handle. A profile that had to be rebuilt rebuilds its users. */
  function UserHandle(num: Numeral, prev: Option<Compiled>, next: Compiled,
                      heldProfiles: map<string, Handle>, heldUsers: map<string, Handle>, epoch: nat, u: string): Handle
    requires u in next.users && next.users[u] in next.profiles
  {
    if next.shared then ProfileHandles(num, prev, next, heldProfiles, epoch)[next.users[u]]
    else if KeepsUser(num, prev, next, u) && next.users[u] in heldProfiles && u in heldUsers then heldUsers[u]
    else Handle(epoch, true, u)
  }

  function UserHandles(num: Numeral, prev: Option<Compiled>, next: Compiled,
                       heldProfiles: map<string, Handle>, heldUsers: map<string, Handle>, epoch: nat): map<string, Handle> {
    map u | u in next.users && next.users[u] in next.profiles :: UserHandle(num, prev, next, heldProfiles, heldUsers, epoch, u)
  }

  /** The profiles' loop of syncHandles. */
  method SyncProfiles(num: Numeral, prev: Option<Compiled>, next: Compiled, held: map<string, Handle>, epoch: nat)
    returns (profiles: map<string, Handle>, rebuilt: set<string>)
    ensures profiles == ProfileHandles(num, prev, next, held, epoch)
    ensures rebuilt == set p | p in next.profiles && !(KeepsProfile(num, prev, next, p) && p in held)
  {
    hide SameProfile;
    var base := Comparable(prev, next);
    profiles, rebuilt := map[], {};
    var todo := next.profiles.Keys;
    while todo != {}
      invariant todo <= next.profiles.Keys && profiles.Keys == next.profiles.Keys - todo
      invariant forall p | p in profiles :: profiles[p] == ProfileHandles(num, prev, next, held, epoch)[p]
      invariant rebuilt == set p | p in profiles && !(KeepsProfile(num, prev, next, p) && p in held)
    {
      var p :| p in todo;
      if base.Some? && p in base.value.profiles && SameProfile(num, base.value.profiles[p], next.profiles[p]) && p in held {
        profiles := profiles[p := held[p]];
      } else {
        profiles := profiles[p := Handle(epoch, false, p)];
        rebuilt := rebuilt + {p};
      }
      todo := todo - {p};
    }
  }

  /** syncHandles. */
  method SyncHandles(num: Numeral, prev: Option<Compiled>, next: Compiled,
                     heldProfiles: map<string, Handle>, heldUsers: map<string, Handle>, epoch: nat)
    returns (profiles: map<string, Handle>, users: map<string, Handle>)
    ensures profiles == ProfileHandles(num, prev, next, heldProfiles, epoch)
    ensures users == UserHandles(num, prev, next, heldProfiles, heldUsers, epoch)
  {
    var rebuilt;
    profiles, rebuilt := SyncProfiles(num, prev, next, heldProfiles, epoch);
    users := map[];
    var todo := next.users.Keys;
    while todo != {}
      invariant todo <= next.users.Keys
      invariant users.Keys == set u | u in next.users && u !in todo && next.users[u] in next.profiles
      invariant forall u | u in users :: users[u] == UserHandle(num, prev, next, heldProfiles, heldUsers, epoch, u)
    {
      hide UserHandle, ProfileHandles;
      var u :| u in todo;
      if next.users[u] in next.profiles {
        var h := SyncUser(num, prev, next, heldProfiles, heldUsers, epoch, profiles, rebuilt, u);
        users := users[u := h];
      }
      todo := todo - {u};
    }
  }

  method SyncUser(num: Numeral, prev: Option<Compiled>, next: Compiled,
                  heldProfiles: map<string, Handle>, heldUsers: map<string, Handle>, epoch: nat,
                  profiles: map<string, Handle>, rebuilt: set<string>, u: string) returns (h: Handle)
    requires u in next.users && next.users[u] in next.profiles
    requires profiles == ProfileHandles(num, prev, next, heldProfiles, epoch)
    requires rebuilt == set p | p in next.profiles && !(KeepsProfile(num, prev, next, p) && p in heldProfiles)
    ensures h == UserHandle(num, prev, next, heldProfiles, heldUsers, epoch, u)
  {
    hide SameProfile;
    var base, q := Comparable(prev, next), next.users[u];
    if next.shared { return profiles[q]; }
    if base.Some? && u in base.value.users && base.value.users[u] == q && q !in rebuilt && u in heldUsers { return heldUsers[u]; }
    return Handle(epoch, true, u);
  }

  // ---------------------------------------------------------------------- requests

  function CompileWith(env: Env, doc: Json, generation: nat, boot: string): Option<Snapshot> {
    match env.compile(doc)
    case None => None
    case Some(c) =>
      var rev := env.revise(c.doc);
      Some(Snapshot(c, rev, if boot == "" then rev else boot, generation))
  }

  datatype Candidate = Candidate(next: Snapshot) | NoCandidate(why: Failure)

  /** buildCandidate and compileCandidate. */
  function BuildCandidate(env: Env, s: App, ops: Ops, expected: string): Candidate {
    if s.active.None? then NoCandidate(NoSnapshot)
    else
      var prev := s.active.value;
      if expected == "" then NoCandidate(Required)
      else if expected != prev.revision then NoCandidate(RevisionMismatch)
      else match env.edit(prev.compiled.doc, ops)
        case None => NoCandidate(Invalid)
        case Some(doc) =>
          match CompileWith(env, doc, prev.generation + 1, prev.bootstrap)
          case None => NoCandidate(Invalid)
          case Some(next) => Candidate(next)
  }

  /** The new snapshot goes live with its handles. */
  function Install(env: Env, s: App, prev: Option<Compiled>, next: Snapshot, heldProfiles: map<string, Handle>, heldUsers: map<string, Handle>): App {
    s.(active := Some(next),
       profileHandles := ProfileHandles(env.num, prev, next.compiled, heldProfiles, s.epoch),
       userHandles := UserHandles(env.num, prev, next.compiled, heldProfiles, heldUsers, s.epoch),
       epoch := s.epoch + 1)
  }

  function Drifted(snap: Snapshot): bool {
    snap.revision != "" && snap.bootstrap != "" && snap.revision != snap.bootstrap
  }

  /** applyLocked. */
  function Apply(env: Env, s: App, ops: Ops, expected: string, key: string): (App, Reply) {
    if key == "" then (s, Refused(Required))
    else
      var fp := env.fingerprint(ops);
      var found := I.LookupFound(s.cache, key, fp);
      var touched := s.(cache := I.AfterLookup(s.cache, key, fp));
      match found
      case Conflict => (touched, Refused(KeyReused))
      case Hit(r) => (touched, Applied(r))
      case Miss =>
        match BuildCandidate(env, s, ops, expected)
        case NoCandidate(why) =>
          (if why == RevisionMismatch then touched.(cache := I.Without(touched.cache, key)) else touched, Refused(why))
        case Candidate(next) =>
          var prev := s.active.value;
          var r := ApplyResult(prev.revision, next.revision, Drifted(next), ops, next.generation);
          var live := Install(env, touched, Some(prev.compiled), next, s.profileHandles, s.userHandles);
          (live.(cache := I.AfterStore(touched.cache, s.max, key, fp, r)), Applied(r))
  }

  /** The bootstrap file: no path is configured, it is missing or malformed, or it loads. */
  datatype BootFile = NotConfigured | Unreadable | Loaded(doc: Json)

  /** loadBootstrapCandidate: a configured file, else the recorded bootstrap snapshot. */
  function BootDocument(s: App, file: BootFile): Option<Json> {
    match file
    case Loaded(doc) => Some(doc)
    case Unreadable => None
    case NotConfigured => if s.boot.Some? then Some(s.boot.value.compiled.doc) else None
  }

  /** resetLocked. */
  function Reset(env: Env, s: App, file: BootFile): (App, Reply) {
    var generation := if s.active.Some? then s.active.value.generation + 1 else 0;
    var doc := BootDocument(s, file);
    if doc.None? then (s, Refused(if file.Unreadable? then Invalid else NoSnapshot))
    else match CompileWith(env, doc.value, generation, "")
      case None => (s, Refused(Invalid))
      case Some(next) =>
        (Install(env, s, None, next, map[], map[]).(boot := Some(next), cache := []), WasReset)
  }

  datatype Call = PlanCall(ops: Ops, expected: string) | ApplyCall(ops: Ops, expected: string, key: string) | ResetCall(file: BootFile)

  function Step(env: Env, s: App, call: Call): (App, Reply) {
    match call
    case PlanCall(ops, expected) =>
      (match BuildCandidate(env, s, ops, expected)
       case NoCandidate(why) => (s, Refused(why))
       case Candidate(next) => (s, Planned(s.active.value.revision, next.revision)))
    case ApplyCall(ops, expected, key) => Apply(env, s, ops, expected, key)
    case ResetCall(file) => Reset(env, s, file)
  }

  function Run(env: Env, s: App, calls: seq<Call>): App
    decreases |calls|
  {
    if calls == [] then s else Run(env, Step(env, s, calls[0]).0, calls[1..])
  }

  // -------------------------------------------------------------- idempotent replies

  /** A call that installs a snapshot: a reset, or an apply that is not a replay. */
  predicate Installs(env: Env, s: App, call: Call) {
    match Step(env, s, call).1
    case WasReset => true
    case Applied(_) => I.LookupFound(s.cache, call.key, env.fingerprint(call.ops)).Miss?
    case _ => false
  }

  /** A repeat of a cached request returns the stored result and leaves snapshot and handles alone; a
      cached key with other operations changes nothing. */
  lemma {:induction false} CachedKeyIsSafe(env: Env, s: App, ops: Ops, expected: string, key: string)
    requires key != "" && I.IndexOf(s.cache, key).Some?
    ensures var (t, reply) := Apply(env, s, ops, expected, key);
      var record := s.cache[I.IndexOf(s.cache, key).value];
      if record.fp == env.fingerprint(ops) then
        && reply == Applied(record.result)
        && t == s.(cache := t.cache) && multiset(t.cache) == multiset(s.cache)
      else reply == Refused(KeyReused) && t == s
  {
    var i := I.IndexOf(s.cache, key).value;
    var record := s.cache[i];
    assert s.cache == s.cache[..i] + [record] + s.cache[i + 1..];
  }

  /** The eviction on a revision conflict finds nothing to evict: no replayable result is lost. */
  lemma {:induction false} ConflictEvictsNothing(env: Env, s: App, ops: Ops, expected: string, key: string)
    requires Apply(env, s, ops, expected, key).1 == Refused(RevisionMismatch)
    ensures Apply(env, s, ops, expected, key).0 == s
  {
  }

  /** A new result names the revision that was active just before it, and is what is active after. */
  lemma {:induction false} AppliedResultIsExact(env: Env, s: App, ops: Ops, expected: string, key: string)
    requires Installs(env, s, ApplyCall(ops, expected, key))
    ensures var (t, reply) := Apply(env, s, ops, expected, key);
      && s.active.Some? && t.active.Some? && reply.Applied?
      && reply.result.previous == s.active.value.revision == expected
      && reply.result.revision == t.active.value.revision
      && reply.result.generation == t.active.value.generation == s.active.value.generation + 1
  {
  }

  // ---------------------------------------------------------------------- generations

  function Installed(env: Env, s: App, calls: seq<Call>): nat
    decreases |calls|
  {
    if calls == [] then 0
    else (if Installs(env, s, calls[0]) then 1 else 0) + Installed(env, Step(env, s, calls[0]).0, calls[1..])
  }

  lemma {:induction false} StepGeneration(env: Env, s: App, call: Call)
    requires s.active.Some?
    ensures var t := Step(env, s, call).0;
      && t.active.Some?
      && t.active.value.generation == s.active.value.generation + (if Installs(env, s, call) then 1 else 0)
      && (!Installs(env, s, call) ==> t.active == s.active && t.profileHandles == s.profileHandles && t.userHandles == s.userHandles)
  {
    hide ProfileHandles, UserHandles, I.AfterLookup, I.AfterStore, I.Without, I.LookupFound, Drifted;
    match call
    case PlanCall(_, _) =>
    case ApplyCall(ops, expected, key) =>
    case ResetCall(file) =>
  }

  /** The generation rises by exactly one per installed snapshot. */
  lemma {:induction false} GenerationCountsInstalls(env: Env, s: App, calls: seq<Call>)
    requires s.active.Some?
    ensures var t := Run(env, s, calls);
      t.active.Some? && t.active.value.generation == s.active.value.generation + Installed(env, s, calls)
    decreases |calls|
  {
    hide Step, Installs;
    if calls != [] {
      StepGeneration(env, s, calls[0]);
      GenerationCountsInstalls(env, Step(env, s, calls[0]).0, calls[1..]);
    }
  }

  // ---------------------------------------------------------------------------- drift

  /** A revision is a digest, so it is never the empty text. */
  ghost predicate Revises(env: Env) { forall doc :: env.revise(doc) != "" }

  lemma {:induction false} AppliesKeepBootstrap(env: Env, s: App, calls: seq<Call>)
    requires Revises(env) && s.active.Some? && s.active.value.revision != "" && s.active.value.bootstrap != ""
    requires forall i | 0 <= i < |calls| :: !calls[i].ResetCall?
    ensures var t := Run(env, s, calls);
      && t.active.Some? && t.active.value.revision != ""
      && t.active.value.bootstrap == s.active.value.bootstrap && t.boot == s.boot
    decreases |calls|
  {
    hide Step, Revises;
    if calls != [] {
      CallKeepsBootstrap(env, s, calls[0]);
      AppliesKeepBootstrap(env, Step(env, s, calls[0]).0, calls[1..]);
    }
  }

  lemma {:induction false} CallKeepsBootstrap(env: Env, s: App, call: Call)
    requires Revises(env) && s.active.Some? && s.active.value.revision != "" && s.active.value.bootstrap != ""
    requires !call.ResetCall?
    ensures var t := Step(env, s, call).0;
      && t.active.Some? && t.active.value.revision != ""
      && t.active.value.bootstrap == s.active.value.bootstrap && t.boot == s.boot
  {
    hide ProfileHandles, UserHandles, I.AfterLookup, I.AfterStore, I.Without, I.LookupFound;
  }

  /** From a reset on, and whatever is applied before the next one, the engine reports drift exactly
      while its revision differs from the one the reset installed. */
  lemma {:induction false} DriftIsSinceReset(env: Env, s: App, file: BootFile, calls: seq<Call>)
    requires Revises(env) && Reset(env, s, file).1.WasReset? && forall i | 0 <= i < |calls| :: !calls[i].ResetCall?
    ensures var base, t := Reset(env, s, file).0, Run(env, Reset(env, s, file).0, calls);
      && base.active.Some? && t.active.Some? && t.boot == base.active
      && (Drifted(t.active.value) <==> t.active.value.revision != base.active.value.revision)
  {
    hide Run, ProfileHandles, UserHandles;
    AppliesKeepBootstrap(env, Reset(env, s, file).0, calls);
  }

  // -------------------------------------------------------------- handles over runs

  /** Every profile and bound user of the active snapshot has a handle, built before now; in shared
      mode a user's is its profile's, otherwise each has its own. */
  ghost predicate HandlesFit(s: App) {
    s.active.Some? ==>
      var c := s.active.value.compiled;
      && s.profileHandles.Keys == c.profiles.Keys
      && (forall u :: u in s.userHandles <==> u in c.users && c.users[u] in c.profiles)
      && (forall p | p in s.profileHandles :: IsFor(s.profileHandles[p], s.epoch, false, p))
      && (if c.shared then forall u | u in s.userHandles :: s.userHandles[u] == s.profileHandles[c.users[u]]
          else forall u | u in s.userHandles :: IsFor(s.userHandles[u], s.epoch, true, u))
  }

  predicate IsFor(h: Handle, epoch: nat, forUser: bool, name: string) {
    h.epoch < epoch && h.forUser == forUser && h.name == name
  }

  lemma {:induction false} InstallFits(env: Env, s: App, prev: Option<Compiled>, next: Snapshot, heldProfiles: map<string, Handle>, heldUsers: map<string, Handle>)
    requires forall p | p in heldProfiles :: IsFor(heldProfiles[p], s.epoch, false, p)
    requires prev.Some? && !prev.value.shared ==> forall u | u in heldUsers :: IsFor(heldUsers[u], s.epoch, true, u)
    requires prev.None? ==> heldUsers == map[]
    ensures HandlesFit(Install(env, s, prev, next, heldProfiles, heldUsers))
  {
    hide SameProfile;
  }

  lemma {:induction false} StepKeepsHandles(env: Env, s: App, call: Call)
    requires HandlesFit(s)
    ensures HandlesFit(Step(env, s, call).0)
  {
    hide SameProfile, ProfileHandles, UserHandles;
    match call
    case PlanCall(_, _) =>
    case ApplyCall(ops, expected, key) =>
      var found := I.LookupFound(s.cache, key, env.fingerprint(ops));
      var cand := BuildCandidate(env, s, ops, expected);
      if key != "" && found.Miss? && cand.Candidate? {
        var touched := s.(cache := I.AfterLookup(s.cache, key, env.fingerprint(ops)));
        InstallFits(env, touched, Some(s.active.value.compiled), cand.next, s.profileHandles, s.userHandles);
      }
    case ResetCall(file) =>
      var t := Step(env, s, call).0;
      if t.active != s.active || t.epoch != s.epoch { InstallFits(env, s, None, t.active.value, map[], map[]); }
  }

  lemma {:induction false} RunKeepsHandles(env: Env, s: App, calls: seq<Call>)
    requires HandlesFit(s)
    ensures HandlesFit(Run(env, s, calls))
    decreases |calls|
  {
    hide Step, HandlesFit;
    if calls != [] {
      StepKeepsHandles(env, s, calls[0]);
      RunKeepsHandles(env, Step(env, s, calls[0]).0, calls[1..]);
    }
  }

  /** After any run: in shared mode a user has its profile's handle, otherwise all profile and user
      handles are different objects. */
  lemma {:induction false} HandlesOverRuns(env: Env, s: App, calls: seq<Call>, t: App)
    requires HandlesFit(s) && t == Run(env, s, calls) && t.active.Some?
    ensures HandlesFit(t)
    ensures var c := t.active.value.compiled;
      && (c.shared ==> forall u | u in t.userHandles :: t.userHandles[u] == t.profileHandles[c.users[u]])
      && (!c.shared ==>
            && (forall u, v | u in t.userHandles && v in t.userHandles && u != v :: t.userHandles[u] != t.userHandles[v])
            && (forall u, p | u in t.userHandles && p in t.profileHandles :: t.userHandles[u] != t.profileHandles[p]))
      && (forall p, q | p in t.profileHandles && q in t.profileHandles && p != q :: t.profileHandles[p] != t.profileHandles[q])
  {
    RunKeepsHandles(env, s, calls);
  }

  // ----------------------------------------------------------- unchanged means unchanged

  /** The trees of a profile hold no number-like texts. */
  predicate PlainProfile(num: Numeral, p: Profile) {
    NumeralFree(num, Map(p.running)) && (p.startup.Some? ==> NumeralFree(num, Map(p.startup.value)))
  }

  /** No map field in the trees of a profile is null. */
  predicate FullProfile(p: Profile) {
    NullFieldFree(Map(p.running)) && (p.startup.Some? ==> NullFieldFree(Map(p.startup.value)))
  }

  lemma {:induction false} SameProfileIff(num: Numeral, a: Profile, b: Profile)
    requires PlainProfile(num, a) && FullProfile(a) && PlainProfile(num, b)
    ensures SameProfile(num, a, b) <==> a == b
  {
    hide NumeralFree, NullFieldFree, Equal;
    EqualIsEquality(num, Map(a.running), Map(b.running));
    if a.startup.Some? && b.startup.Some? { EqualIsEquality(num, Map(a.startup.value), Map(b.startup.value)); }
  }

  /** Among profiles without number-like texts, the comparison tells every changed profile from a given
      old one exactly when no map field of the old one is null. */
  lemma {:induction false} ProfileDecidesIff(num: Numeral, a: Profile)
    requires PlainProfile(num, a)
    ensures (forall b | PlainProfile(num, b) :: SameProfile(num, a, b) <==> a == b) <==> FullProfile(a)
  {
    hide NumeralFree, NullFieldFree, Equal;
    if FullProfile(a) {
      forall b | PlainProfile(num, b) ensures SameProfile(num, a, b) <==> a == b { SameProfileIff(num, a, b); }
    } else {
      var b := ChangedButSame(num, a);
    }
  }

  lemma {:induction false} ChangedButSame(num: Numeral, a: Profile) returns (b: Profile)
    requires PlainProfile(num, a) && !FullProfile(a)
    ensures PlainProfile(num, b) && SameProfile(num, a, b) && a != b
  {
    hide NumeralFree, NullFieldFree, NanFree, Equal;
    NumeralFreeIsNanFree(num, Map(a.running));
    EqualIsReflexiveIff(num, Map(a.running));
    if a.startup.Some? {
      NumeralFreeIsNanFree(num, Map(a.startup.value));
      EqualIsReflexiveIff(num, Map(a.startup.value));
    }
    if !NullFieldFree(Map(a.running)) {
      var v := NullFieldHidesAValue(num, Map(a.running));
      b := a.(running := v.fields);
    } else {
      var v := NullFieldHidesAValue(num, Map(a.startup.value));
      b := a.(startup := Some(v.fields));
    }
  }

  /** A profile that changed and is taken for the old one: its users keep the stale handle. */
  lemma {:induction false} ChangedProfileIsKept(num: Numeral, users: map<string, string>, doc: Json, shared: bool, epoch: nat, held: Handle)
    ensures var old_, new_ := Profile([], map["m" := Null], None), Profile([], map["k" := Num(5)], None);
      var prev, next := Compiled(doc, shared, map["p" := old_], users), Compiled(doc, shared, map["p" := new_], users);
      old_ != new_ && ProfileHandles(num, Some(prev), next, map["p" := held], epoch)["p"] == held
  {
    var a, b := map["m" := Null], map["k" := Num(5)];
    assert "m" != "k" by { assert "m"[0] != "k"[0]; }
    assert |a| == 1 && |b| == 1 && Equal(num, Null, FieldOr(Map(b), "m"));
    assert "m" in a && "m" !in b;
  }

  /** A profile whose running tree holds a NaN text never keeps its handle, not even unchanged. */
  lemma {:induction false} NanProfileIsRebuilt(num: Numeral, prev: Compiled, next: Compiled, p: string)
    requires p in next.profiles && p in prev.profiles && !NanFree(num, Map(prev.profiles[p].running))
    ensures !KeepsProfile(num, Some(prev), next, p)
  {
    hide Equal, NanFree;
    NanEqualsNothing(num, Map(prev.profiles[p].running), Map(next.profiles[p].running));
  }

  predicate PlainProfiles(num: Numeral, c: Compiled) { forall p | p in c.profiles :: PlainProfile(num, c.profiles[p]) }

  predicate FullProfiles(c: Compiled) { forall p | p in c.profiles :: FullProfile(c.profiles[p]) }

  /** The profile was there before, in the same sharing mode, with the same schema, running and startup. */
  predicate ProfileUnchanged(prev: Compiled, next: Compiled, p: string) {
    && prev.shared == next.shared && p in prev.profiles && p in next.profiles
    && prev.profiles[p].schema == next.profiles[p].schema
    && prev.profiles[p].running == next.profiles[p].running
    && prev.profiles[p].startup == next.profiles[p].startup
  }

  lemma {:induction false} KeepsProfileIff(num: Numeral, prev: Compiled, next: Compiled, p: string)
    requires PlainProfiles(num, prev) && FullProfiles(prev) && PlainProfiles(num, next) && p in next.profiles
    ensures KeepsProfile(num, Some(prev), next, p) <==> ProfileUnchanged(prev, next, p)
  {
    hide SameProfile, PlainProfile, FullProfile;
    if p in prev.profiles { SameProfileIff(num, prev.profiles[p], next.profiles[p]); }
  }

  /** From trees without number-like texts and null fields, an apply keeps a profile's handle exactly
      when the sharing mode and the profile's schema, running and startup are unchanged, and an unshared
      user's exactly when the user is bound to the same profile as before as well. */
  lemma {:induction false} ApplyKeepsHandleIff(env: Env, s: App, ops: Ops, expected: string, key: string, t: App)
    requires HandlesFit(s) && Installs(env, s, ApplyCall(ops, expected, key))
    requires t == Apply(env, s, ops, expected, key).0
    requires s.active.Some? ==> PlainProfiles(env.num, s.active.value.compiled) && FullProfiles(s.active.value.compiled)
    requires t.active.Some? ==> PlainProfiles(env.num, t.active.value.compiled)
    ensures s.active.Some? && t.active.Some?
    ensures var prev, next := s.active.value.compiled, t.active.value.compiled;
      && t.profileHandles.Keys == next.profiles.Keys
      && (forall p | p in next.profiles ::
            p in s.profileHandles && t.profileHandles[p] == s.profileHandles[p] <==> ProfileUnchanged(prev, next, p))
      && (!next.shared ==> forall u | u in t.userHandles ::
            u in next.users &&
            (u in s.userHandles && t.userHandles[u] == s.userHandles[u] <==>
              ProfileUnchanged(prev, next, next.users[u]) && u in prev.users && prev.users[u] == next.users[u]))
  {
    ApplyFollowsGuard(env, s, ops, expected, key, t);
    var prev, next := s.active.value.compiled, t.active.value.compiled;
    hide Apply, Installs, SameProfile, ProfileUnchanged, HandlesFit, PlainProfiles, FullProfiles;
    forall p | p in next.profiles ensures KeepsProfile(env.num, Some(prev), next, p) <==> ProfileUnchanged(prev, next, p) {
      KeepsProfileIff(env.num, prev, next, p);
    }
  }

  /** The same in the terms of the comparison that syncHandles makes, for all trees. */
  lemma {:induction false} ApplyFollowsGuard(env: Env, s: App, ops: Ops, expected: string, key: string, t: App)
    requires HandlesFit(s) && Installs(env, s, ApplyCall(ops, expected, key))
    requires t == Apply(env, s, ops, expected, key).0
    ensures s.active.Some? && t.active.Some?
    ensures var prev, next := Some(s.active.value.compiled), t.active.value.compiled;
      && t.profileHandles.Keys == next.profiles.Keys
      && (forall p | p in next.profiles ::
            p in s.profileHandles && t.profileHandles[p] == s.profileHandles[p] <==> KeepsProfile(env.num, prev, next, p))
      && (forall u | u in t.userHandles :: u in next.users && next.users[u] in next.profiles)
      && (!next.shared ==> forall u | u in t.userHandles ::
            u in s.userHandles && t.userHandles[u] == s.userHandles[u] <==> KeepsUser(env.num, prev, next, u))
  {
    hide SameProfile;
  }
}
