/** What plan, apply and reset need and deliver, and how the active document follows from the operations
    that were installed (internal/app/mutate.go, internal/app/reset.go). */
module PipelineLaws {
  import opened Text
  import opened Values
  import W = WalkDiffs
  import opened Pipeline
  import I = Idempotency
  import C = CacheLaws

  // ------------------------------------------------------------------- one call

  /** No result is cached for the key. */
  predicate FreshKey(s: App, key: string) { forall i | 0 <= i < |s.cache| :: s.cache[i].key != key }

  /** What the operations make of a compiled state: the edited document, compiled. */
  function Evolve(env: Env, c: Compiled, ops: Ops): Option<Compiled> {
    match env.edit(c.doc, ops)
    case None => None
    case Some(doc) => env.compile(doc)
  }

  /** The request names the active revision, and its operations make a state that compiles. */
  predicate Buildable(env: Env, s: App, ops: Ops, expected: string) {
    && s.active.Some? && expected != "" && expected == s.active.value.revision
    && Evolve(env, s.active.value.compiled, ops).Some?
  }

  /** The snapshot holds a compiled state under its own revision. */
  predicate Holds(env: Env, snap: Snapshot, c: Compiled) { snap.compiled == c && snap.revision == env.revise(c.doc) }

  lemma {:induction false} FreshIsMissed(s: App, key: string, fp: string)
    ensures I.LookupFound(s.cache, key, fp).Miss? <==> FreshKey(s, key)
    ensures I.LookupFound(s.cache, key, fp).Miss? ==> I.AfterLookup(s.cache, key, fp) == s.cache && I.Without(s.cache, key) == s.cache
  {
  }

  /** When a request can be built, and what is built; and each failure exactly when its cause. */
  lemma {:induction false} BuildIsExact(env: Env, s: App, ops: Ops, expected: string)
    ensures var r := BuildCandidate(env, s, ops, expected);
      && (r.Candidate? <==> Buildable(env, s, ops, expected))
      && (r.Candidate? ==>
            && Holds(env, r.next, Evolve(env, s.active.value.compiled, ops).value)
            && r.next.generation == s.active.value.generation + 1
            && r.next.bootstrap == if s.active.value.bootstrap == "" then r.next.revision else s.active.value.bootstrap)
      && (r == NoCandidate(NoSnapshot) <==> s.active.None?)
      && (r == NoCandidate(Required) <==> s.active.Some? && expected == "")
      && (r == NoCandidate(RevisionMismatch) <==> s.active.Some? && expected != "" && expected != s.active.value.revision)
      && (r == NoCandidate(Invalid) <==>
            && s.active.Some? && expected != "" && expected == s.active.value.revision
            && Evolve(env, s.active.value.compiled, ops).None?)
  {
  }

  /** An apply under a fresh key goes through exactly when it can be built. What is active then is the
      edited document compiled, under the revision of that document; the result says so, and is cached
      under the key. Nothing else but the handles changes. */
  lemma {:induction false} ApplyIsExact(env: Env, s: App, ops: Ops, expected: string, key: string)
    requires key != "" && FreshKey(s, key)
    ensures var (t, reply) := Apply(env, s, ops, expected, key);
      && (reply.Applied? <==> Buildable(env, s, ops, expected))
      && (reply.Applied? ==>
            && t.active.Some? && Holds(env, t.active.value, Evolve(env, s.active.value.compiled, ops).value)
            && t.active.value.generation == s.active.value.generation + 1
            && reply.result.ops == ops
            && reply.result.previous == expected && reply.result.revision == t.active.value.revision
            && reply.result.drifted == Drifted(t.active.value)
            && reply.result.generation == t.active.value.generation
            && (s.max > 0 ==> I.LookupFound(t.cache, key, env.fingerprint(ops)) == I.Hit(reply.result))
            && t.boot == s.boot && t.max == s.max)
      && (!reply.Applied? ==> t == s && reply == Refused(BuildCandidate(env, s, ops, expected).why))
  {
    hide ProfileHandles, UserHandles, Buildable, Evolve, Holds, BuildCandidate, Drifted;
    var fp := env.fingerprint(ops);
    FreshIsMissed(s, key, fp);
    BuildIsExact(env, s, ops, expected);
    var r := BuildCandidate(env, s, ops, expected);
    if Buildable(env, s, ops, expected) {
      BuildableMeans(env, s, ops, expected);
      var result := ApplyResult(expected, r.next.revision, Drifted(r.next), ops, r.next.generation);
      if s.max > 0 { I.StoredIsReplayed(s.cache, s.max, key, fp, result, fp); }
      hide I.AfterStore, I.LookupFound, I.AfterLookup, I.Without;
    }
  }

  lemma {:induction false} BuildableMeans(env: Env, s: App, ops: Ops, expected: string)
    requires Buildable(env, s, ops, expected)
    ensures s.active.Some? && expected == s.active.value.revision
  {
  }

  /** An apply without a key is refused for that, and one whose key is cached builds nothing. */
  lemma {:induction false} KeyedReplies(env: Env, s: App, ops: Ops, expected: string, key: string)
    ensures var (t, reply) := Apply(env, s, ops, expected, key);
      && (key == "" ==> t == s && reply == Refused(Required))
      && (key != "" && !FreshKey(s, key) ==>
            t == s.(cache := t.cache) && (reply.Applied? || reply == Refused(KeyReused)))
      && (reply == Refused(KeyReused) <==>
            key != "" && exists i | 0 <= i < |s.cache| ::
              && s.cache[i].key == key && s.cache[i].fp != env.fingerprint(ops)
              && forall j | 0 <= j < i :: s.cache[j].key != key)
  {
    hide ProfileHandles, UserHandles, Drifted;
    BuildIsExact(env, s, ops, expected);
    ConflictIff(s.cache, key, env.fingerprint(ops));
    FreshIsMissed(s, key, env.fingerprint(ops));
    hide I.LookupFound, I.AfterLookup, I.AfterStore, I.Without, BuildCandidate, FreshKey;
  }

  lemma {:induction false} ConflictIff(cache: seq<I.Record<ApplyResult>>, key: string, fp: string)
    ensures I.LookupFound(cache, key, fp).Conflict? <==>
      exists i | 0 <= i < |cache| ::
        cache[i].key == key && cache[i].fp != fp && forall j | 0 <= j < i :: cache[j].key != key
  {
    FirstIsFound(cache, key);
    hide I.IndexOf;
  }

  lemma {:induction false} FirstIsFound(cache: seq<I.Record<ApplyResult>>, key: string)
    ensures var at := I.IndexOf(cache, key); at.Some? ==> forall j | 0 <= j < at.value :: cache[j].key != key
  {
    if cache != [] && cache[0].key != key { FirstIsFound(cache[1..], key); }
  }

  /** A plan foretells the apply: it succeeds exactly when the same apply under a fresh key would, names
      the revision that apply would install, is refused for the same reason, and changes nothing. */
  lemma {:induction false} PlanForetells(env: Env, s: App, ops: Ops, expected: string, key: string)
    requires key != "" && FreshKey(s, key)
    ensures var (planned, plan) := Step(env, s, PlanCall(ops, expected));
      var (t, reply) := Apply(env, s, ops, expected, key);
      && planned == s
      && (reply.Applied? ==> t.active.Some? && plan == Planned(s.active.value.revision, t.active.value.revision))
      && (!reply.Applied? ==> plan == reply)
  {
    hide Apply;
    ApplyIsExact(env, s, ops, expected, key);
    BuildIsExact(env, s, ops, expected);
  }

  /** The plan still holds after any calls that installed nothing. */
  lemma {:induction false} PlanStillHolds(env: Env, s: App, ops: Ops, expected: string, calls: seq<Call>, key: string)
    requires Step(env, s, PlanCall(ops, expected)).1.Planned? && Installed(env, s, calls) == 0
    requires key != "" && FreshKey(Run(env, s, calls), key)
    ensures var (t, reply) := Apply(env, Run(env, s, calls), ops, expected, key);
      reply.Applied? && t.active.Some? && t.active.value.revision == Step(env, s, PlanCall(ops, expected)).1.candidate
  {
    hide Apply, Run, Installed, Buildable, Holds;
    var later := Run(env, s, calls);
    BuildIsExact(env, s, ops, expected);
    QuietRun(env, s, calls);
    SameActiveBuilds(env, s, later, ops, expected);
    PlanForetells(env, later, ops, expected, key);
    ApplyIsExact(env, later, ops, expected, key);
  }

  lemma {:induction false} SameActiveBuilds(env: Env, s: App, t: App, ops: Ops, expected: string)
    requires s.active == t.active
    ensures Buildable(env, s, ops, expected) <==> Buildable(env, t, ops, expected)
    ensures BuildCandidate(env, s, ops, expected) == BuildCandidate(env, t, ops, expected)
  {
  }

  lemma {:induction false} QuietRun(env: Env, s: App, calls: seq<Call>)
    requires s.active.Some? && Installed(env, s, calls) == 0
    ensures Run(env, s, calls).active == s.active
    decreases |calls|
  {
    hide Step, Installs;
    if calls != [] {
      StepGeneration(env, s, calls[0]);
      QuietRun(env, Step(env, s, calls[0]).0, calls[1..]);
    }
  }

  /** A reset takes the configured file if it loads, else the recorded bootstrap when no file is
      configured, and succeeds exactly when there is one and it compiles. The state it installs is both
      active and the bootstrap, no result is cached, and every handle is new. */
  lemma {:induction false} ResetIsExact(env: Env, s: App, file: BootFile)
    ensures var (t, reply) := Reset(env, s, file);
      var source := if file.Loaded? then Some(file.doc)
                    else if file.NotConfigured? && s.boot.Some? then Some(s.boot.value.compiled.doc) else None;
      && (reply.WasReset? <==> source.Some? && env.compile(source.value).Some?)
      && (reply.WasReset? ==>
            && t.active.Some? && t.boot == t.active && t.cache == []
            && Holds(env, t.active.value, env.compile(source.value).value)
            && t.active.value.bootstrap == t.active.value.revision
            && t.active.value.generation == (if s.active.Some? then s.active.value.generation + 1 else 0))
      && (!reply.WasReset? ==> t == s)
      && (reply == Refused(NoSnapshot) <==> file.NotConfigured? && s.boot.None?)
      && (reply.WasReset? || reply == Refused(NoSnapshot) || reply == Refused(Invalid))
  {
    hide ProfileHandles, UserHandles;
  }

  /** After a reset every profile and every bound user has a handle, built by this reset. */
  lemma {:induction false} ResetRebuilds(env: Env, s: App, file: BootFile)
    requires HandlesFit(s) && Reset(env, s, file).1.WasReset?
    ensures var t := Reset(env, s, file).0;
      && t.active.Some? && t.profileHandles.Keys == t.active.value.compiled.profiles.Keys
      && (forall p | p in t.profileHandles :: t.profileHandles[p].epoch == s.epoch)
      && (forall u | u in t.userHandles :: t.userHandles[u].epoch == s.epoch)
      && (s.active.Some? ==>
            && (forall h | h in t.profileHandles.Values + t.userHandles.Values :: h !in s.profileHandles.Values && h !in s.userHandles.Values))
  {
    hide SameProfile;
  }

  // ------------------------------------------------------------------- whole runs

  /** The operations of a run that were installed, in order. */
  function InstalledOps(env: Env, s: App, calls: seq<Call>): seq<Ops>
    decreases |calls|
  {
    if calls == [] then []
    else
      (if calls[0].ApplyCall? && Installs(env, s, calls[0]) then [calls[0].ops] else [])
      + InstalledOps(env, Step(env, s, calls[0]).0, calls[1..])
  }

  /** The operations one after another, from a compiled state. */
  function Replay(env: Env, c: Compiled, all: seq<Ops>): Option<Compiled>
    decreases |all|
  {
    if all == [] then Some(c)
    else match Evolve(env, c, all[0])
      case None => None
      case Some(next) => Replay(env, next, all[1..])
  }

  lemma {:induction false} InstallEvolves(env: Env, s: App, call: Call)
    requires s.active.Some? && call.ApplyCall? && Installs(env, s, call)
    ensures var t := Step(env, s, call).0;
      t.active.Some? && Evolve(env, s.active.value.compiled, call.ops) == Some(t.active.value.compiled)
        && t.active.value.revision == env.revise(t.active.value.compiled.doc)
  {
    hide Apply, Buildable, Evolve;
    KeyedReplies(env, s, call.ops, call.expected, call.key);
    FreshIsMissed(s, call.key, env.fingerprint(call.ops));
    ApplyIsExact(env, s, call.ops, call.expected, call.key);
    BuildableEvolves(env, s, call.ops, call.expected);
  }

  lemma {:induction false} BuildableEvolves(env: Env, s: App, ops: Ops, expected: string)
    ensures Buildable(env, s, ops, expected) ==> s.active.Some? && Evolve(env, s.active.value.compiled, ops).Some?
  {
  }

  lemma {:induction false} PlansInstallNothing(env: Env, s: App, call: Call)
    ensures call.PlanCall? ==> !Installs(env, s, call)
  {
  }

  /** Over every run without a reset: the active state is what the installed operations make of the
      state before, one after another, whatever was planned, refused or replayed between them. */
  lemma {:induction false} StateIsReplay(env: Env, s: App, calls: seq<Call>)
    requires s.active.Some? && s.active.value.revision == env.revise(s.active.value.compiled.doc)
    requires forall i | 0 <= i < |calls| :: !calls[i].ResetCall?
    ensures var t := Run(env, s, calls);
      && t.active.Some? && t.active.value.revision == env.revise(t.active.value.compiled.doc)
      && Replay(env, s.active.value.compiled, InstalledOps(env, s, calls)) == Some(t.active.value.compiled)
    decreases |calls|
  {
    hide Step, Installs, Evolve;
    if calls != [] {
      var next, rest := Step(env, s, calls[0]).0, InstalledOps(env, Step(env, s, calls[0]).0, calls[1..]);
      StepGeneration(env, s, calls[0]);
      if Installs(env, s, calls[0]) {
        PlansInstallNothing(env, s, calls[0]);
        InstallEvolves(env, s, calls[0]);
        assert ([calls[0].ops] + rest)[1..] == rest;
      } else {
        assert [] + rest == rest;
      }
      StateIsReplay(env, next, calls[1..]);
    }
  }

  /** From a reset on, the active state is the bootstrap document compiled, with the installed operations
      made on it. */
  lemma {:induction false} StateSinceReset(env: Env, s: App, doc: W.Json, calls: seq<Call>)
    requires env.compile(doc).Some? && forall i | 0 <= i < |calls| :: !calls[i].ResetCall?
    ensures var base := Reset(env, s, Loaded(doc)).0;
      var t := Run(env, base, calls);
      t.active.Some? && Replay(env, env.compile(doc).value, InstalledOps(env, base, calls)) == Some(t.active.value.compiled)
  {
    hide Reset, Run, InstalledOps;
    ResetIsExact(env, s, Loaded(doc));
    StateIsReplay(env, Reset(env, s, Loaded(doc)).0, calls);
  }

  /** Two writers that start from the same revision: once one has installed another revision, the other
      is refused and changes nothing. */
  lemma {:induction false} NoLostUpdate(env: Env, s: App, ops: Ops, ops': Ops, expected: string, key: string, key': string)
    requires Installs(env, s, ApplyCall(ops, expected, key)) && key' != "" && key != key' && FreshKey(s, key')
    ensures var t := Apply(env, s, ops, expected, key).0;
      && t.active.Some?
      && (t.active.value.revision != expected ==>
            Apply(env, t, ops', expected, key') == (t, Refused(RevisionMismatch)))
  {
    hide Apply;
    KeyedReplies(env, s, ops, expected, key);
    FreshIsMissed(s, key, env.fingerprint(ops));
    ApplyIsExact(env, s, ops, expected, key);
    BuildableMeans(env, s, ops, expected);
    var t := Apply(env, s, ops, expected, key).0;
    KeyStaysFresh(env, s, ops, expected, key, key');
    ApplyIsExact(env, t, ops', expected, key');
    BuildIsExact(env, t, ops', expected);
  }

  lemma {:induction false} KeyStaysFresh(env: Env, s: App, ops: Ops, expected: string, key: string, other: string)
    requires key != other && FreshKey(s, other)
    ensures FreshKey(Apply(env, s, ops, expected, key).0, other)
  {
    if key != "" {
      var op := CacheEffect(env, s, ApplyCall(ops, expected, key));
      hide Apply;
      C.OpAddsItsKey(s.cache, s.max, op);
    }
  }

  // ------------------------------------------------------------------- replays

  /** What a call does to the cache, as one cache operation. */
  lemma {:induction false} CacheEffect(env: Env, s: App, call: Call) returns (op: I.Operation<ApplyResult>)
    requires call.ApplyCall? && call.key != ""
    ensures !op.Clear? && op.key == call.key && Step(env, s, call).0.max == s.max
    ensures Step(env, s, call).0.cache == I.AfterOp(s.cache, s.max, op)
    ensures !FreshKey(s, call.key) ==> op.Lookup?
  {
    hide ProfileHandles, UserHandles, Drifted, BuildCandidate;
    var fp := env.fingerprint(call.ops);
    FreshIsMissed(s, call.key, fp);
    hide I.LookupFound, I.AfterLookup, I.AfterStore, I.Without;
    op := I.Lookup(call.key, fp);
    if I.LookupFound(s.cache, call.key, fp).Miss? {
      match BuildCandidate(env, s, call.ops, call.expected)
      case Candidate(next) => op := I.Store(call.key, fp, Step(env, s, call).1.result);
      case NoCandidate(why) => if why == RevisionMismatch { op := I.Evict(call.key); }
    }
  }

  /** The call is no reset, and an apply names one of the keys or the record's own. */
  predicate Names(call: Call, r: I.Record<ApplyResult>, keys: set<string>) {
    !call.ResetCall? && (call.ApplyCall? ==> call.key in keys || call.key == r.key || call.key == "")
  }

  lemma {:induction false} CallKeepsAhead(env: Env, s: App, call: Call, r: I.Record<ApplyResult>, keys: set<string>)
    requires I.UniqueKeys(s.cache) && |s.cache| <= s.max && r.key !in keys && |keys| < s.max
    requires C.Ahead(s.cache, r, keys) && Names(call, r, keys)
    ensures var t := Step(env, s, call).0;
      t.max == s.max && I.UniqueKeys(t.cache) && |t.cache| <= t.max && C.Ahead(t.cache, r, keys)
  {
    if call.ApplyCall? && call.key != "" {
      C.AheadIsCached(s.cache, r, keys);
      hide Step, I.UniqueKeys, C.Ahead;
      var op := CacheEffect(env, s, call);
      I.OpKeepsCapacity(s.cache, s.max, op);
      C.OpKeepsAhead(s.cache, s.max, op, r, keys);
    }
  }

  lemma {:induction false} CallsKeepAhead(env: Env, s: App, calls: seq<Call>, r: I.Record<ApplyResult>, keys: set<string>)
    requires I.UniqueKeys(s.cache) && |s.cache| <= s.max && r.key !in keys && |keys| < s.max && C.Ahead(s.cache, r, keys)
    requires forall i | 0 <= i < |calls| :: Names(calls[i], r, keys)
    ensures var t := Run(env, s, calls); I.UniqueKeys(t.cache) && C.Ahead(t.cache, r, keys)
    decreases |calls|
  {
    hide Step, I.UniqueKeys, C.Ahead, Names;
    if calls != [] {
      CallKeepsAhead(env, s, calls[0], r, keys);
      CallsKeepAhead(env, Step(env, s, calls[0]).0, calls[1..], r, keys);
    }
  }

  lemma {:induction false} AppliedIsFirst(env: Env, s: App, ops: Ops, expected: string, key: string)
    requires I.UniqueKeys(s.cache) && |s.cache| <= s.max && s.max > 0
    requires key != "" && Apply(env, s, ops, expected, key).1.Applied?
    ensures var (first, reply) := Apply(env, s, ops, expected, key);
      && first.max == s.max && I.UniqueKeys(first.cache) && |first.cache| <= s.max
      && |first.cache| > 0 && first.cache[0] == I.Record(key, env.fingerprint(ops), reply.result)
  {
    hide ProfileHandles, UserHandles;
    var (first, reply) := Apply(env, s, ops, expected, key);
    I.OpKeepsCapacity(s.cache, s.max, I.Lookup(key, env.fingerprint(ops)));
    I.OpKeepsCapacity(s.cache, s.max, I.Store(key, env.fingerprint(ops), reply.result));
  }

  /** A request is replayed after any number of calls, as long as they use fewer other keys than the
      cache has room for and none is a reset: it gets its first result again and installs nothing. */
  lemma {:induction false} RepeatIsReplayed(env: Env, s: App, ops: Ops, expected: string, key: string, calls: seq<Call>, keys: set<string>, expected': string)
    requires I.UniqueKeys(s.cache) && |s.cache| <= s.max && |keys| < s.max
    requires key != "" && key !in keys && Apply(env, s, ops, expected, key).1.Applied?
    requires forall i | 0 <= i < |calls| :: !calls[i].ResetCall? && (calls[i].ApplyCall? ==> calls[i].key in keys + {key, ""})
    ensures var (first, reply) := Apply(env, s, ops, expected, key);
      var later := Run(env, first, calls);
      Apply(env, later, ops, expected', key).1 == reply && !Installs(env, later, ApplyCall(ops, expected', key))
  {
    var (first, reply) := Apply(env, s, ops, expected, key);
    var record := I.Record(key, env.fingerprint(ops), reply.result);
    AppliedIsFirst(env, s, ops, expected, key);
    assert C.AheadAt(first.cache, record, keys, 0);
    forall i | 0 <= i < |calls| ensures Names(calls[i], record, keys) {}
    var later := Run(env, first, calls);
    CallsKeepAhead(env, first, calls, record, keys);
    C.AheadIsCached(later.cache, record, keys);
    C.EntryIff(later.cache, record);
  }
}
