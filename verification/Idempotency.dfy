/** The idempotency cache of apply results: a map and a doubly linked list in recency order
    (internal/app/idempotency.go). */
module Idempotency {
  import opened Text

  // ------------------------------------------------------------------ specification

  /** A cached result and the fingerprint of the request that produced it. */
  datatype Record<R> = Record(key: string, fp: string, result: R)

  datatype Found<R> = Miss | Conflict | Hit(result: R)

  predicate UniqueKeys<R>(rs: seq<Record<R>>) {
    forall i, j | 0 <= i < j < |rs| :: rs[i].key != rs[j].key
  }

  function IndexOf<R>(rs: seq<Record<R>>, key: string): (r: Option<nat>)
    ensures r.Some? ==> r.value < |rs| && rs[r.value].key == key
    ensures r.None? ==> forall i | 0 <= i < |rs| :: rs[i].key != key
  {
    if rs == [] then None
    else if rs[0].key == key then Some(0)
    else match IndexOf(rs[1..], key)
      case None => None
      case Some(i) => Some(i + 1)
  }

  function Without<R>(rs: seq<Record<R>>, key: string): seq<Record<R>> {
    match IndexOf(rs, key)
    case None => rs
    case Some(i) => rs[..i] + rs[i + 1..]
  }

  function Take<T>(s: seq<T>, n: nat): seq<T> { if |s| <= n then s else s[..n] }

  function LookupFound<R>(rs: seq<Record<R>>, key: string, fp: string): Found<R> {
    match IndexOf(rs, key)
    case None => Miss
    case Some(i) => if rs[i].fp != fp then Conflict else Hit(rs[i].result)
  }

  /** A hit becomes the most recent record; nothing else moves. */
  function AfterLookup<R>(rs: seq<Record<R>>, key: string, fp: string): seq<Record<R>> {
    match LookupFound(rs, key, fp)
    case Hit(r) => [Record(key, fp, r)] + Without(rs, key)
    case _ => rs
  }

  /** The stored record becomes the most recent; the last falls off over capacity. */
  function AfterStore<R>(rs: seq<Record<R>>, max: nat, key: string, fp: string, r: R): seq<Record<R>> {
    if key == "" then rs else Take([Record(key, fp, r)] + Without(rs, key), max)
  }

  datatype Operation<R> = Lookup(key: string, fp: string) | Store(key: string, fp: string, result: R) | Evict(key: string) | Clear

  function AfterOp<R>(rs: seq<Record<R>>, max: nat, op: Operation<R>): seq<Record<R>> {
    match op
    case Lookup(key, fp) => if key == "" then rs else AfterLookup(rs, key, fp)
    case Store(key, fp, r) => AfterStore(rs, max, key, fp, r)
    case Evict(key) => if key == "" then rs else Without(rs, key)
    case Clear => []
  }

  function AfterOps<R>(rs: seq<Record<R>>, max: nat, ops: seq<Operation<R>>): seq<Record<R>>
    decreases |ops|
  {
    if ops == [] then rs else AfterOps(AfterOp(rs, max, ops[0]), max, ops[1..])
  }

  lemma {:induction false} IndexIs<R>(rs: seq<Record<R>>, i: nat)
    requires UniqueKeys(rs) && i < |rs|
    ensures IndexOf(rs, rs[i].key) == Some(i)
  {
    var r := IndexOf(rs, rs[i].key);
    assert r.Some?;
    assert r.value == i by { assert rs[r.value].key == rs[i].key; }
  }

  lemma {:induction false} WithoutIsUnique<R>(rs: seq<Record<R>>, key: string)
    requires UniqueKeys(rs)
    ensures UniqueKeys(Without(rs, key)) && IndexOf(Without(rs, key), key).None? && |Without(rs, key)| <= |rs|
    ensures IndexOf(rs, key).Some? ==> |Without(rs, key)| == |rs| - 1
  {
    var at := IndexOf(rs, key);
    var w := Without(rs, key);
    if at.Some? {
      assert forall i | 0 <= i < |w| :: w[i] == rs[if i < at.value then i else i + 1];
      forall i | 0 <= i < |w| ensures w[i].key != key { assert rs[at.value].key == key; }
    }
  }

  /** No run of operations repeats a key or exceeds the capacity. */
  lemma {:induction false} RunKeepsCapacity<R>(rs: seq<Record<R>>, max: nat, ops: seq<Operation<R>>)
    requires UniqueKeys(rs) && |rs| <= max
    ensures UniqueKeys(AfterOps(rs, max, ops)) && |AfterOps(rs, max, ops)| <= max
    decreases |ops|
  {
    if ops != [] {
      OpKeepsCapacity(rs, max, ops[0]);
      RunKeepsCapacity(AfterOp(rs, max, ops[0]), max, ops[1..]);
    }
  }

  lemma {:induction false} OpKeepsCapacity<R>(rs: seq<Record<R>>, max: nat, op: Operation<R>)
    requires UniqueKeys(rs) && |rs| <= max
    ensures UniqueKeys(AfterOp(rs, max, op)) && |AfterOp(rs, max, op)| <= max
  {
    if !op.Clear? {
      WithoutIsUnique(rs, op.key);
      var w := Without(rs, op.key);
      forall i | 0 <= i < |w| ensures w[i].key != op.key { if IndexOf(w, op.key).None? {} }
    }
  }

  /** A result just stored is replayed to the same request and refused to another one. */
  lemma {:induction false} StoredIsReplayed<R>(rs: seq<Record<R>>, max: nat, key: string, fp: string, r: R, fp': string)
    requires key != "" && max > 0
    ensures LookupFound(AfterStore(rs, max, key, fp, r), key, fp') == if fp' == fp then Hit(r) else Conflict
  {
    assert AfterStore(rs, max, key, fp, r)[0] == Record(key, fp, r);
  }

  // ------------------------------------------------------------------ linked entries

  class Entry<R> {
    const key: string
    const fp: string
    var result: R
    var prev: Entry?<R>
    var next: Entry?<R>

    constructor (key: string, fp: string, result: R)
      ensures this.key == key && this.fp == fp && this.result == result && prev == null && next == null
    {
      this.key, this.fp, this.result, prev, next := key, fp, result, null, null;
    }
  }

  ghost predicate Distinct<T>(s: seq<T>) { forall i, j | 0 <= i < j < |s| :: s[i] != s[j] }

  ghost predicate IndexedBy<R>(entries: map<string, Entry<R>>, order: seq<Entry<R>>) {
    && (forall i | 0 <= i < |order| :: order[i].key in entries && entries[order[i].key] == order[i])
    && (forall k | k in entries :: entries[k] in order && entries[k].key == k)
  }

  function Drop<T>(s: seq<T>, i: nat): (r: seq<T>)
    requires i < |s|
    ensures |r| == |s| - 1 && forall j | 0 <= j < |r| :: r[j] == s[if j < i then j else j + 1]
  {
    s[..i] + s[i + 1..]
  }

  lemma {:induction false} KeysAreDistinct<R>(entries: map<string, Entry<R>>, order: seq<Entry<R>>, i: nat, j: nat)
    requires IndexedBy(entries, order) && Distinct(order) && i < |order| && j < |order| && i != j
    ensures order[i].key != order[j].key
  {
    assert entries[order[i].key] == order[i] && entries[order[j].key] == order[j];
  }

  lemma {:induction false} IndexedRemove<R>(entries: map<string, Entry<R>>, order: seq<Entry<R>>, i: nat)
    requires IndexedBy(entries, order) && Distinct(order) && i < |order|
    ensures IndexedBy(entries - {order[i].key}, Drop(order, i)) && Distinct(Drop(order, i))
  {
    hide Drop;
    var entries', order' := entries - {order[i].key}, Drop(order, i);
    forall j | 0 <= j < |order'| ensures order'[j].key in entries' && entries'[order'[j].key] == order'[j] {
      KeysAreDistinct(entries, order, i, if j < i then j else j + 1);
    }
    forall k | k in entries' ensures entries'[k] in order' {
      var j :| 0 <= j < |order| && order[j] == entries[k];
      assert order[j] == order'[if j < i then j else j - 1];
    }
  }

  lemma {:induction false} DropForgets<T>(s: seq<T>, i: nat)
    requires Distinct(s) && i < |s|
    ensures s[i] !in Drop(s, i)
  {
  }

  lemma {:induction false} TakeIsPart<T>(s: seq<T>, n: nat)
    ensures forall x | x in Take(s, n) :: x in s
  {
  }

  lemma {:induction false} DropIsPart<T>(s: seq<T>, i: nat)
    requires i < |s|
    ensures forall x | x in Drop(s, i) :: x in s
  {
  }

  lemma {:induction false} DropLast<T>(s: seq<T>)
    requires s != []
    ensures Drop(s, |s| - 1) == s[..|s| - 1]
  {
  }

  lemma {:induction false} SetThenDrop<T>(s: seq<T>, i: nat, x: T)
    requires i < |s|
    ensures Drop(s[i := x], i) == s[..i] + s[i + 1..]
  {
  }

  lemma {:induction false} DropFirst<T>(s: seq<T>)
    requires s != []
    ensures s == [s[0]] + Drop(s, 0)
  {
  }

  lemma {:induction false} EntryIsIndexed<R>(entries: map<string, Entry<R>>, order: seq<Entry<R>>, i: nat)
    requires IndexedBy(entries, order) && i < |order|
    ensures order[i].key in entries && entries[order[i].key] == order[i]
  {
  }

  lemma {:induction false} IndexedPush<R>(entries: map<string, Entry<R>>, order: seq<Entry<R>>, e: Entry<R>)
    requires IndexedBy(entries, order) && Distinct(order) && e.key !in entries
    ensures IndexedBy(entries[e.key := e], [e] + order) && Distinct([e] + order)
  {
    var entries', order' := entries[e.key := e], [e] + order;
    forall k | k in entries' ensures entries'[k] in order' {
      if k != e.key {
        var j :| 0 <= j < |order| && order[j] == entries[k];
        assert order'[j + 1] == entries[k];
      }
    }
  }

  lemma {:induction false} IndexedSize<R>(entries: map<string, Entry<R>>, order: seq<Entry<R>>)
    requires IndexedBy(entries, order) && Distinct(order)
    ensures |entries| == |order|
    decreases |order|
  {
    if order == [] {
      assert entries == map[];
    } else {
      IndexedRemove(entries, order, 0);
      IndexedSize(entries - {order[0].key}, Drop(order, 0));
      assert entries.Keys == (entries - {order[0].key}).Keys + {order[0].key};
    }
  }

  class Cache<R> {
    const max: nat
    var entries: map<string, Entry<R>>
    var head: Entry?<R>
    var tail: Entry?<R>

    /** The entries, most recent first, and what they hold. */
    ghost var order: seq<Entry<R>>
    ghost var records: seq<Record<R>>

    /** The links thread exactly the entries of order, forwards and backwards. */
    ghost predicate Linked()
      reads this`head, this`tail, this`order, order`prev, order`next
    {
      && Distinct(order)
      && (if order == [] then head == null && tail == null else head == order[0] && tail == order[|order| - 1])
      && (forall i {:trigger order[i].prev} | 0 <= i < |order| :: order[i].prev == if i == 0 then null else order[i - 1])
      && (forall i {:trigger order[i].next} | 0 <= i < |order| :: order[i].next == if i + 1 == |order| then null else order[i + 1])
    }

    ghost predicate Tied()
      reads this`order, this`records, order`result
    {
      && |records| == |order|
      && (forall i | 0 <= i < |order| :: records[i] == Record(order[i].key, order[i].fp, order[i].result))
    }

    /** The map holds exactly the entries of order, each under its key. */
    ghost predicate Indexed()
      reads this`entries, this`order
    {
      IndexedBy(entries, order) && Distinct(order)
    }

    ghost predicate Valid()
      reads this, order
    {
      Linked() && Tied() && Indexed() && |order| <= max && max > 0
    }

    constructor (max: int)
      ensures Valid() && records == [] && this.max == (if max <= 0 then 256 else max)
    {
      this.max := if max <= 0 then 256 else max;
      entries, head, tail, order, records := map[], null, null, [], [];
    }

    /** The link updates of unlinkLocked. */
    method Bypass(e: Entry<R>, ghost i: nat)
      requires Linked() && i < |order| && order[i] == e
      modifies this`head, this`tail, this`order, order`prev, order`next
      ensures Linked() && order == old(order)[..i] + old(order)[i + 1..]
    {
      if e.prev != null { e.prev.next := e.next; } else { head := e.next; }
      if e.next != null { e.next.prev := e.prev; } else { tail := e.prev; }
      e.prev := null;
      e.next := null;
      order := order[..i] + order[i + 1..];
    }

    /** unlinkLocked. */
    method Unlink(e: Entry<R>, ghost i: nat)
      requires Linked() && Tied() && i < |order| && order[i] == e
      modifies this`head, this`tail, this`order, this`records, order`prev, order`next
      ensures Linked() && Tied() && order == Drop(old(order), i) && records == Drop(old(records), i)
    {
      hide Linked;
      Bypass(e, i);
      records := Drop(records, i);
    }

    /** The list half of insertFrontLocked and moveFrontLocked. */
    method PushFront(e: Entry<R>)
      requires Linked() && Tied() && e !in order
      modifies this`head, this`tail, this`order, this`records, e`prev, e`next, order`prev
      ensures Linked() && Tied() && order == [e] + old(order)
      ensures records == [Record(e.key, e.fp, e.result)] + old(records)
    {
      e.prev := null;
      e.next := head;
      if head != null { head.prev := e; }
      head := e;
      if tail == null { tail := e; }
      order, records := [e] + order, [Record(e.key, e.fp, e.result)] + records;
    }

    lemma {:induction false} RecordsAreUnique()
      requires Indexed() && Tied()
      ensures UniqueKeys(records)
    {
      forall i, j | 0 <= i < j < |records| ensures records[i].key != records[j].key { KeysAreDistinct(entries, order, i, j); }
    }

    /** Where the map's entry for a key stands in the list. */
    lemma {:induction false} Find(key: string) returns (i: nat)
      requires Indexed() && Tied() && key in entries
      ensures i < |order| && order[i] == entries[key] && IndexOf(records, key) == Some(i)
      ensures order[i].key == key && records[i] == Record(key, order[i].fp, order[i].result)
    {
      i :| 0 <= i < |order| && order[i] == entries[key];
      RecordsAreUnique();
      assert records[i].key == key;
      IndexIs(records, i);
    }

    lemma {:induction false} NotFound(key: string)
      requires Indexed() && Tied() && key !in entries
      ensures IndexOf(records, key) == None
    {
      assert forall i | 0 <= i < |records| :: records[i].key == order[i].key;
    }

    /** removeLocked. */
    method Remove(e: Entry<R>, ghost i: nat)
      requires Linked() && Tied() && Indexed() && i < |order| && order[i] == e
      modifies this`entries, this`head, this`tail, this`order, this`records, order`prev, order`next
      ensures Linked() && Tied() && Indexed() && order == Drop(old(order), i) && records == Drop(old(records), i)
      ensures entries == old(entries) - {e.key}
    {
      hide Linked, Tied, IndexedBy, Distinct, Drop;
      IndexedRemove(entries, order, i);
      entries := entries - {e.key};
      Unlink(e, i);
    }

    /** The entry goes to the front of both map and list. */
    method AddFront(e: Entry<R>)
      requires Linked() && Tied() && Indexed() && e !in order && e.key !in entries
      modifies this`entries, this`head, this`tail, this`order, this`records, order`prev, e`prev, e`next
      ensures Linked() && Tied() && Indexed() && order == [e] + old(order)
      ensures records == [Record(e.key, e.fp, e.result)] + old(records)
    {
      hide Linked, Tied, IndexedBy, Distinct;
      IndexedPush(entries, order, e);
      entries := entries[e.key := e];
      PushFront(e);
    }

    lemma {:induction false} TailIsLast()
      requires Linked() && order != []
      ensures tail == order[|order| - 1]
    {
    }

    /** The eviction loop of insertFrontLocked. */
    method Trim()
      requires Linked() && Tied() && Indexed() && max > 0
      modifies this`entries, this`head, this`tail, this`order, this`records, order`prev, order`next
      ensures Valid() && order == Take(old(order), max) && records == Take(old(records), max)
    {
      hide Linked, Tied, IndexedBy, Distinct, Drop;
      IndexedSize(entries, order);
      Ends();
      ghost var n := |order|;
      while |entries| > max && tail != null
        invariant Linked() && Tied() && Indexed() && |entries| == |order| == |records| == n
        invariant n <= |old(order)| && (n == |old(order)| || n >= max)
        invariant order == old(order)[..n] && records == old(records)[..n]
        invariant order == [] <==> tail == null
        decreases n
      {
        TailIsLast();
        DropLast(order);
        DropLast(records);
        Remove(tail, n - 1);
        n := n - 1;
        IndexedSize(entries, order);
        Ends();
      }
    }

    lemma {:induction false} Ends()
      requires Linked() && Tied()
      ensures |records| == |order| && (order == [] <==> tail == null)
    {
    }

    /** insertFrontLocked. */
    method InsertFront(e: Entry<R>)
      requires Valid() && e !in order
      modifies this`entries, this`head, this`tail, this`order, this`records, order`prev, order`next, e`prev, e`next
      ensures Valid() && (forall x | x in order :: x == e || x in old(order))
      ensures records == Take([Record(e.key, e.fp, e.result)] + Without(old(records), e.key), max)
    {
      hide Linked, Tied, IndexedBy, Distinct, Take;
      if e.key in entries {
        ghost var i := Find(e.key);
        DropIsPart(order, i);
        Remove(entries[e.key], i);
      } else {
        NotFound(e.key);
      }
      assert records == Without(old(records), e.key);
      AddFront(e);
      TakeIsPart(order, max);
      Trim();
    }

    /** moveFrontLocked, past its early return. */
    method Relink(e: Entry<R>, ghost i: nat)
      requires Linked() && Tied() && Indexed() && i < |order| && order[i] == e
      modifies this`head, this`tail, this`order, this`records, order`prev, order`next
      ensures Linked() && Tied() && Indexed() && order == [e] + Drop(old(order), i)
      ensures records == [Record(e.key, e.fp, e.result)] + Drop(old(records), i)
    {
      hide Linked, Tied, IndexedBy, Distinct, Drop;
      IndexedRemove(entries, order, i);
      DropForgets(order, i);
      Unlink(e, i);
      PushFront(e);
      IndexedPush(entries - {e.key}, Drop(old(order), i), e);
      assert (entries - {e.key})[e.key := e] == entries by { EntryIsIndexed(entries, old(order), i); }
    }

    lemma {:induction false} HeadIsFirst(i: nat)
      requires Linked() && Tied() && i < |order| && order[i] == head
      ensures i == 0 && records[0] == Record(head.key, head.fp, head.result)
    {
    }

    /** moveFrontLocked. */
    method MoveFront(e: Entry<R>, ghost i: nat)
      requires Linked() && Tied() && Indexed() && i < |order| && order[i] == e
      modifies this`head, this`tail, this`order, this`records, order`prev, order`next
      ensures Linked() && Tied() && Indexed() && order == [e] + Drop(old(order), i)
      ensures records == [Record(e.key, e.fp, e.result)] + Drop(old(records), i)
    {
      assert |records| == |order|;
      hide Linked, Tied, IndexedBy, Distinct, Drop;
      if e == head {
        HeadIsFirst(i);
        DropFirst(order);
        DropFirst(records);
      } else {
        Relink(e, i);
      }
    }

    /** lookup. */
    method Lookup(key: string, fp: string) returns (r: Found<R>)
      requires Valid()
      modifies this`head, this`tail, this`order, this`records, order`prev, order`next
      ensures Valid() && (forall x | x in order :: x in old(order))
      ensures r == if key == "" then Miss else LookupFound(old(records), key, fp)
      ensures records == AfterOp(old(records), max, Operation.Lookup(key, fp))
    {
      hide Linked, Tied, IndexedBy, Distinct;
      if key == "" { return Miss; }
      if key !in entries {
        NotFound(key);
        return Miss;
      }
      var e := entries[key];
      ghost var i := Find(key);
      if e.fp != fp { return Conflict; }
      r := Hit(e.result);
      DropIsPart(order, i);
      MoveFront(e, i);
    }

    /** storeApply. */
    method StoreApply(key: string, fp: string, r: R)
      requires Valid()
      modifies this, order
      ensures Valid() && (forall x | x in order :: x in old(order) || fresh(x))
      ensures records == AfterOp(old(records), max, Store(key, fp, r))
    {
      if key == "" { return; }
      if key in entries && entries[key].fp == fp {
        Refresh(key, r);
        return;
      }
      hide Linked, Tied, IndexedBy, Distinct;
      var e := new Entry<R>(key, fp, r);
      InsertFront(e);
    }

    /** A repeated store replaces the result and makes it the most recent. */
    method Refresh(key: string, r: R)
      requires Valid() && key != "" && key in entries
      modifies this, order
      ensures Valid() && (forall x | x in order :: x in old(order))
      ensures records == AfterStore(old(records), max, key, old(entries)[key].fp, r)
    {
      hide Linked, Tied, IndexedBy, Distinct, Drop, IndexOf;
      ghost var i := Find(key);
      Ends();
      var e := entries[key];
      SetResult(e, i, r);
      DropIsPart(order, i);
      MoveFront(e, i);
      SetThenDrop(old(records), i, Record(e.key, e.fp, r));
    }

    method SetResult(e: Entry<R>, ghost i: nat, r: R)
      requires Tied() && Distinct(order) && i < |order| && order[i] == e
      modifies this`records, e`result
      ensures Tied() && e.result == r && records == old(records)[i := Record(e.key, e.fp, r)]
    {
      e.result := r;
      records := records[i := Record(e.key, e.fp, r)];
    }

    /** evict. */
    method Evict(key: string)
      requires Valid()
      modifies this`entries, this`head, this`tail, this`order, this`records, order`prev, order`next
      ensures Valid() && (forall x | x in order :: x in old(order))
      ensures records == AfterOp(old(records), max, Operation.Evict(key))
    {
      hide Linked, Tied, IndexedBy, Distinct;
      if key == "" { return; }
      if key in entries {
        ghost var i := Find(key);
        Remove(entries[key], i);
      } else {
        NotFound(key);
      }
    }

    /** clear. */
    method Clear()
      requires Valid()
      modifies this`entries, this`head, this`tail, this`order, this`records
      ensures Valid() && records == AfterOp(old(records), max, Operation.Clear)
    {
      entries, head, tail, order, records := map[], null, null, [], [];
    }

    /** Following next from head visits the records in order. */
    method WalkForward() returns (keys: seq<string>)
      requires Valid()
      ensures |keys| == |records| == |entries| && UniqueKeys(records)
      ensures forall i | 0 <= i < |records| :: keys[i] == records[i].key && records[i].key in entries
    {
      IndexedSize(entries, order);
      RecordsAreUnique();
      keys := [];
      var e := head;
      while e != null
        invariant |keys| <= |order| && e == if |keys| < |order| then order[|keys|] else null
        invariant forall i | 0 <= i < |keys| :: keys[i] == order[i].key
        decreases |order| - |keys|
      {
        keys := keys + [e.key];
        e := e.next;
      }
    }

    /** Following prev from tail visits them in reverse. */
    method WalkBackward() returns (keys: seq<string>)
      requires Valid()
      ensures |keys| == |records| && forall i | 0 <= i < |records| :: keys[i] == records[|records| - 1 - i].key
    {
      keys := [];
      var e := tail;
      while e != null
        invariant |keys| <= |order| && e == if |keys| < |order| then order[|order| - 1 - |keys|] else null
        invariant forall i | 0 <= i < |keys| :: keys[i] == order[|order| - 1 - i].key
        decreases |order| - |keys|
      {
        keys := keys + [e.key];
        e := e.prev;
      }
    }
  }
}
