/** The control plane as an object: snapshots, handle maps and the idempotency cache it updates in
    place (applyLocked in internal/app/mutate.go, resetLocked in internal/app/reset.go). */
module Engines {
  import opened Text
  import opened WalkDiffs
  import opened Pipeline
  import I = Idempotency
  import R = Rings

  class Engine {
    const env: Env
    const cache: I.Cache<ApplyResult>
    const waiter: R.Ring?
    var active: Option<Snapshot>
    var boot: Option<Snapshot>
    var profileHandles: map<string, Handle>
    var userHandles: map<string, Handle>
    var epoch: nat

    ghost predicate Valid()
      reads this, cache, cache.order, waiter
    {
      cache.Valid() && (waiter != null ==> waiter.Valid())
    }

    ghost function View(): App
      reads this, cache
    {
      App(active, boot, cache.records, cache.max, profileHandles, userHandles, epoch)
    }

    constructor (env: Env, max: int, waiter: R.Ring?)
      requires waiter != null ==> waiter.Valid()
      ensures Valid() && fresh(cache) && cache.order == [] && this.env == env && this.waiter == waiter
      ensures View() == App(None, None, [], if max <= 0 then 256 else max, map[], map[], 0)
    {
      this.env, this.waiter := env, waiter;
      cache := new I.Cache(max);
      active, boot, profileHandles, userHandles, epoch := None, None, map[], map[], 0;
      new;
      assert cache.order == [];
    }

    /** buildCandidate, with the diff it computes for the plan. */
    method Build(ops: Ops, expected: string) returns (c: Candidate, diff: seq<DiffEntry>)
      ensures c == BuildCandidate(env, View(), ops, expected)
      ensures c.Candidate? ==> Explains(diff, active.value.compiled.doc, c.next.compiled.doc)
    {
      diff := [];
      c := NoCandidate(Invalid);
      if active.None? { return NoCandidate(NoSnapshot), diff; }
      var prev := active.value;
      if expected == "" { return NoCandidate(Required), diff; }
      if expected != prev.revision { return NoCandidate(RevisionMismatch), diff; }
      var doc := env.edit(prev.compiled.doc, ops);
      if doc.None? { return; }
      var next := CompileWith(env, doc.value, prev.generation + 1, prev.bootstrap);
      if next.None? { return; }
      diff := WalkDiff(prev.compiled.doc, next.value.compiled.doc, []);
      WalkIsAPatch(prev.compiled.doc, next.value.compiled.doc, diff);
      c := Candidate(next.value);
    }

    /** applyLocked. A new result comes with a diff that turns the document before into the one after. */
    method Apply(ops: Ops, expected: string, key: string) returns (reply: Reply, diff: seq<DiffEntry>)
      requires Valid()
      modifies this, cache, cache.order
      ensures Valid()
      ensures (View(), reply) == Pipeline.Apply(env, old(View()), ops, expected, key)
      ensures Installs(env, old(View()), ApplyCall(ops, expected, key)) ==>
        && old(active).Some? && active.Some?
        && Explains(diff, old(active).value.compiled.doc, active.value.compiled.doc)
    {
      hide Explains, Drifted, BuildCandidate, R.Ring.Valid, I.Cache.Valid, I.IndexOf, I.LookupFound, I.AfterStore, I.AfterLookup, I.Without, ProfileHandles, UserHandles;
      diff := [];
      if key == "" { return Refused(Required), diff; }
      var fp := env.fingerprint(ops);
      var found := cache.Lookup(key, fp);
      assert forall i | 0 <= i < |cache.order| :: cache.order[i] in old(cache.order);
      if found.Conflict? { return Refused(KeyReused), diff; }
      if found.Hit? { return Applied(found.result), diff; }
      var c;
      c, diff := Build(ops, expected);
      BuildLooksAtActive(env, old(View()), ops, expected, cache.records);
      if c.NoCandidate? {
        if c.why == RevisionMismatch { cache.Evict(key); }
        return Refused(c.why), diff;
      }
      var r := Commit(c.next, ops, key, fp);
      return Applied(r), diff;
    }

    /** The candidate goes live with its handles, and its result into the cache. */
    method Commit(next: Snapshot, ops: Ops, key: string, fp: string) returns (r: ApplyResult)
      requires Valid() && active.Some? && key != ""
      modifies this`active, this`profileHandles, this`userHandles, this`epoch, cache, cache.order
      ensures Valid()
      ensures var before := old(View());
        var prev := before.active.value;
        && r == ApplyResult(prev.revision, next.revision, Drifted(next), ops, next.generation)
        && View() == Install(env, before, Some(prev.compiled), next, before.profileHandles, before.userHandles).(
             cache := I.AfterStore(before.cache, before.max, key, fp, r))
    {
      hide I.Cache.Valid, I.AfterStore, ProfileHandles, UserHandles;
      var prev := active.value;
      active := Some(next);
      Sync(Some(prev.compiled), next.compiled);
      r := ApplyResult(prev.revision, next.revision, Drifted(next), ops, next.generation);
      cache.StoreApply(key, fp, r);
    }

    /** The new snapshot's handles replace the old ones. */
    method Sync(prev: Option<Compiled>, next: Compiled)
      modifies this`profileHandles, this`userHandles, this`epoch
      ensures profileHandles == ProfileHandles(env.num, prev, next, old(profileHandles), old(epoch))
      ensures userHandles == UserHandles(env.num, prev, next, old(profileHandles), old(userHandles), old(epoch))
      ensures epoch == old(epoch) + 1
    {
      profileHandles, userHandles := SyncHandles(env.num, prev, next, profileHandles, userHandles, epoch);
      epoch := epoch + 1;
    }

    /** resetLocked. A successful reset also wipes the notification ring, and returns the parked waiters
        that are to be told. */
    method Reset(file: BootFile) returns (reply: Reply, told: seq<R.Waiter>)
      requires Valid()
      modifies this, cache, waiter
      ensures Valid()
      ensures (View(), reply) == Pipeline.Reset(env, old(View()), file)
      ensures reply.WasReset? && waiter != null ==> waiter.Items() == [] && waiter.Waiting() == [] && told == old(waiter.Waiting())
      ensures !reply.WasReset? && waiter != null ==> waiter.Items() == old(waiter.Items()) && waiter.Waiting() == old(waiter.Waiting())
      ensures !reply.WasReset? || waiter == null ==> told == []
    {
      hide I.Cache.Valid, ProfileHandles, UserHandles;
      var generation := if active.Some? then active.value.generation + 1 else 0;
      var doc := match file
        case Loaded(d) => Some(d)
        case Unreadable => None
        case NotConfigured => if boot.Some? then Some(boot.value.compiled.doc) else None;
      told := [];
      if doc.None? { return Refused(if file.Unreadable? then Invalid else NoSnapshot), told; }
      var next := CompileWith(env, doc.value, generation, "");
      if next.None? { return Refused(Invalid), told; }
      active, boot, profileHandles, userHandles := next, next, map[], map[];
      Sync(None, next.value.compiled);
      cache.Clear();
      if waiter != null { told := waiter.Wipe(); }
      return WasReset, told;
    }
  }

  lemma {:induction false} BuildLooksAtActive(env: Env, s: App, ops: Ops, expected: string, cache: seq<I.Record<ApplyResult>>)
    ensures BuildCandidate(env, s.(cache := cache), ops, expected) == BuildCandidate(env, s, ops, expected)
    ensures BuildCandidate(env, s, ops, expected).Candidate? ==> s.active.Some?
  {
  }

  /** Read as one patch, the entries turn the first document into the second and back, and there are
      none exactly when the documents are equal. */
  ghost predicate Explains(diff: seq<DiffEntry>, before: Json, after: Json) {
    && DistinctPaths(diff)
    && WalkDiffs.Apply(before, PatchOf(diff), []) == after
    && WalkDiffs.Apply(after, Inverse(PatchOf(diff)), []) == before
    && (diff == [] <==> before == after)
  }
}
