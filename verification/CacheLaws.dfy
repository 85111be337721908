/** The idempotency cache as its users see it: what a lookup answers after each operation, and how long a
    result is kept (internal/app/idempotency.go). */
module CacheLaws {
  import opened Text
  import opened Idempotency

  /** What is cached under a key. */
  function Entry<R>(rs: seq<Record<R>>, key: string): Option<Record<R>> {
    match IndexOf(rs, key)
    case None => None
    case Some(i) => Some(rs[i])
  }

  lemma {:induction false} EntryIs<R>(rs: seq<Record<R>>, i: nat)
    requires UniqueKeys(rs) && i < |rs|
    ensures Entry(rs, rs[i].key) == Some(rs[i])
  {
    IndexIs(rs, i);
  }

  lemma {:induction false} EntryIff<R>(rs: seq<Record<R>>, r: Record<R>)
    requires UniqueKeys(rs)
    ensures r in rs <==> Entry(rs, r.key) == Some(r)
  {
    if r in rs {
      var i :| 0 <= i < |rs| && rs[i] == r;
      EntryIs(rs, i);
    }
  }

  lemma {:induction false} WithoutMembers<R>(rs: seq<Record<R>>, key: string)
    requires UniqueKeys(rs)
    ensures forall r :: r in Without(rs, key) <==> r in rs && r.key != key
  {
    var w := Without(rs, key);
    match IndexOf(rs, key)
    case None =>
    case Some(i) =>
      assert rs == rs[..i] + [rs[i]] + rs[i + 1..];
      WithoutIsUnique(rs, key);
      forall r | r in w ensures r.key != key {
        var j :| 0 <= j < |w| && w[j] == r;
        if IndexOf(w, key).None? {}
      }
  }

  /** Each operation on the records as a set: a lookup keeps them all, an eviction takes away its key's
      and a clearing all, and a store takes away its key's, adds its own, and drops the last record of
      the list if the cache would be over its capacity. */
  lemma {:induction false} OperationIsExact<R>(rs: seq<Record<R>>, max: nat, op: Operation<R>, r: Record<R>)
    requires UniqueKeys(rs) && |rs| <= max && max > 0
    ensures var after := AfterOp(rs, max, op);
      match op
      case Lookup(_, _) => r in after <==> r in rs
      case Evict(key) => r in after <==> r in rs && (r.key != key || key == "")
      case Clear => r !in after
      case Store(key, fp, result) =>
        if key == "" then r in after <==> r in rs
        else if Entry(rs, key).None? && |rs| == max then
          r in after <==> r == Record(key, fp, result) || r in rs[..max - 1]
        else r in after <==> r == Record(key, fp, result) || (r in rs && r.key != key)
  {
    match op
    case Clear =>
    case Lookup(key, fp) =>
      WithoutMembers(rs, key);
      EntryIff(rs, r);
    case Evict(key) => WithoutMembers(rs, key);
    case Store(key, fp, result) =>
      WithoutMembers(rs, key);
      WithoutIsUnique(rs, key);
      if Entry(rs, key).None? && |rs| == max {
        var new_ := Record(key, fp, result);
        assert Take([new_] + rs, max) == [new_] + rs[..max - 1];
      }
  }

  /** No operation brings in a record under another key. */
  lemma {:induction false} OpAddsItsKey<R>(rs: seq<Record<R>>, max: nat, op: Operation<R>)
    ensures forall r | r in AfterOp(rs, max, op) :: r in rs || (!op.Clear? && r.key == op.key)
  {
    if !op.Clear? { WithoutIsPart(rs, op.key); }
    hide Without, IndexOf;
  }

  lemma {:induction false} WithoutIsPart<R>(rs: seq<Record<R>>, key: string)
    ensures forall r | r in Without(rs, key) :: r in rs
  {
  }

  /** A key that was evicted, or any key after a clearing, is missed. */
  lemma {:induction false} GoneIsMissed<R>(rs: seq<Record<R>>, max: nat, key: string, fp: string)
    requires UniqueKeys(rs) && key != ""
    ensures LookupFound(AfterOp(rs, max, Evict(key)), key, fp).Miss?
    ensures LookupFound(AfterOp(rs, max, Clear), key, fp).Miss?
  {
    WithoutIsUnique(rs, key);
  }

  // ------------------------------------------------------------- least recently used

  /** The record is cached, and every record used since has its key among the given ones. */
  ghost predicate Ahead<R>(rs: seq<Record<R>>, r: Record<R>, keys: set<string>) {
    exists i :: AheadAt(rs, r, keys, i)
  }

  ghost predicate AheadAt<R>(rs: seq<Record<R>>, r: Record<R>, keys: set<string>, i: nat) {
    i < |rs| && rs[i] == r && forall j | 0 <= j < i :: rs[j].key in keys
  }

  /** The operation names one of the keys, or looks the record's own key up. */
  predicate Within<R>(op: Operation<R>, r: Record<R>, keys: set<string>) {
    !op.Clear? && (op.key in keys || (op.Lookup? && op.key == r.key))
  }

  /** Records with different keys out of a set are no more than the set has. */
  lemma {:induction false} AtMost<R>(rs: seq<Record<R>>, n: nat, keys: set<string>)
    requires UniqueKeys(rs) && n <= |rs| && forall j | 0 <= j < n :: rs[j].key in keys
    ensures n <= |keys|
    decreases n
  {
    if n > 0 { AtMost(rs, n - 1, keys - {rs[n - 1].key}); }
  }

  lemma {:induction false} WithoutKeepsAhead<R>(rs: seq<Record<R>>, r: Record<R>, keys: set<string>, k: nat, key: string) returns (i: nat)
    requires AheadAt(rs, r, keys, k) && key != r.key
    ensures AheadAt(Without(rs, key), r, keys, i)
  {
    var at := IndexOf(rs, key);
    i := if at.Some? && at.value < k then k - 1 else k;
    WithoutAt(rs, key);
  }

  lemma {:induction false} WithoutAt<R>(rs: seq<Record<R>>, key: string)
    ensures var w, at := Without(rs, key), IndexOf(rs, key);
      && |w| == |rs| - (if at.Some? then 1 else 0)
      && forall j | 0 <= j < |w| :: w[j] == rs[if at.Some? && at.value <= j then j + 1 else j]
  {
  }

  lemma {:induction false} PushKeepsAhead<R>(rs: seq<Record<R>>, r: Record<R>, keys: set<string>, i: nat, first: Record<R>)
    requires AheadAt(rs, r, keys, i) && first.key in keys
    ensures AheadAt([first] + rs, r, keys, i + 1)
  {
  }

  lemma {:induction false} TakeKeepsAhead<R>(rs: seq<Record<R>>, r: Record<R>, keys: set<string>, i: nat, max: nat)
    requires AheadAt(rs, r, keys, i) && UniqueKeys(rs) && |keys| < max
    ensures AheadAt(Take(rs, max), r, keys, i)
  {
    AtMost(rs, i, keys);
  }

  lemma {:induction false} OpKeepsAhead<R>(rs: seq<Record<R>>, max: nat, op: Operation<R>, r: Record<R>, keys: set<string>)
    requires UniqueKeys(rs) && |rs| <= max && r.key !in keys && |keys| < max
    requires Ahead(rs, r, keys) && Within(op, r, keys)
    ensures Ahead(AfterOp(rs, max, op), r, keys)
  {
    var k :| AheadAt(rs, r, keys, k);
    if op.key == r.key {
      OwnLookupKeepsAhead(rs, max, r, op.fp, keys, k);
    } else if op.key != "" {
      hide IndexOf, Without, Take, AheadAt, UniqueKeys;
      var i := WithoutKeepsAhead(rs, r, keys, k, op.key);
      var w := Without(rs, op.key);
      match op
      case Lookup(key, fp) =>
        var found := LookupFound(rs, key, fp);
        if found.Hit? { PushKeepsAhead(w, r, keys, i, Record(key, fp, found.result)); }
      case Evict(key) =>
      case Store(key, fp, result) =>
        var first := Record(key, fp, result);
        PushKeepsAhead(w, r, keys, i, first);
        PushedIsUnique(w, first, rs);
        TakeKeepsAhead([first] + w, r, keys, i + 1, max);
    }
  }

  lemma {:induction false} OwnLookupKeepsAhead<R>(rs: seq<Record<R>>, max: nat, r: Record<R>, fp: string, keys: set<string>, k: nat)
    requires UniqueKeys(rs) && AheadAt(rs, r, keys, k)
    ensures Ahead(AfterOp(rs, max, Lookup(r.key, fp)), r, keys)
  {
    EntryIs(rs, k);
    var after := AfterOp(rs, max, Lookup(r.key, fp));
    if r.key != "" && LookupFound(rs, r.key, fp).Hit? {
      assert AheadAt(after, r, keys, 0);
    } else {
      assert AheadAt(after, r, keys, k);
    }
  }

  lemma {:induction false} PushedIsUnique<R>(w: seq<Record<R>>, r: Record<R>, rs: seq<Record<R>>)
    requires UniqueKeys(rs) && w == Without(rs, r.key)
    ensures UniqueKeys([r] + w)
  {
    WithoutIsUnique(rs, r.key);
    forall j | 0 <= j < |w| ensures w[j].key != r.key { if IndexOf(w, r.key).None? {} }
  }

  lemma {:induction false} OpsKeepAhead<R>(rs: seq<Record<R>>, max: nat, ops: seq<Operation<R>>, r: Record<R>, keys: set<string>)
    requires UniqueKeys(rs) && |rs| <= max && r.key !in keys && |keys| < max && Ahead(rs, r, keys)
    requires forall i | 0 <= i < |ops| :: Within(ops[i], r, keys)
    ensures UniqueKeys(AfterOps(rs, max, ops)) && Ahead(AfterOps(rs, max, ops), r, keys)
    decreases |ops|
  {
    hide Ahead, Within, AfterOp;
    if ops != [] {
      OpKeepsAhead(rs, max, ops[0], r, keys);
      OpKeepsCapacity(rs, max, ops[0]);
      OpsKeepAhead(AfterOp(rs, max, ops[0]), max, ops[1..], r, keys);
    }
  }

  lemma {:induction false} AheadIsCached<R>(rs: seq<Record<R>>, r: Record<R>, keys: set<string>)
    requires Ahead(rs, r, keys)
    ensures r in rs
  {
  }

  /** A replay counts as a use: from then on the result stays just as long. */
  lemma {:induction false} LookedUpStays<R>(rs: seq<Record<R>>, max: nat, r: Record<R>, ops: seq<Operation<R>>, keys: set<string>, fp: string)
    requires UniqueKeys(rs) && |rs| <= max && r in rs && r.key != "" && r.key !in keys && |keys| < max
    requires forall i | 0 <= i < |ops| :: Within(ops[i], r, keys)
    ensures var after := AfterOps(AfterOp(rs, max, Lookup(r.key, r.fp)), max, ops);
      LookupFound(after, r.key, fp) == if fp == r.fp then Hit(r.result) else Conflict
  {
    var used := AfterOp(rs, max, Lookup(r.key, r.fp));
    EntryIff(rs, r);
    OpKeepsCapacity(rs, max, Lookup(r.key, r.fp));
    assert AheadAt(used, r, keys, 0);
    OpsKeepAhead(used, max, ops, r, keys);
    var after := AfterOps(used, max, ops);
    AheadIsCached(after, r, keys);
    EntryIff(after, r);
  }

  /** What least recently used means: a stored result is replayed after any operations, as long as they
      name fewer other keys than the cache has room for, however many operations they are. */
  lemma {:induction false} RecentlyUsedStays<R>(rs: seq<Record<R>>, max: nat, r: Record<R>, ops: seq<Operation<R>>, keys: set<string>, fp: string)
    requires UniqueKeys(rs) && |rs| <= max && r.key != "" && r.key !in keys && |keys| < max
    requires forall i | 0 <= i < |ops| :: Within(ops[i], r, keys)
    ensures var after := AfterOps(AfterStore(rs, max, r.key, r.fp, r.result), max, ops);
      LookupFound(after, r.key, fp) == if fp == r.fp then Hit(r.result) else Conflict
  {
    var stored := AfterStore(rs, max, r.key, r.fp, r.result);
    OpKeepsCapacity(rs, max, Store(r.key, r.fp, r.result));
    assert AheadAt(stored, r, keys, 0);
    OpsKeepAhead(stored, max, ops, r, keys);
    var after := AfterOps(stored, max, ops);
    AheadIsCached(after, r, keys);
    EntryIff(after, r);
  }
}
