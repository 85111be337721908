/** The structural difference of two state documents, as shown in plans and audit records
    (walkDiff in internal/app/mutate.go). */
module WalkDiffs {
  import opened Text

  /** A decoded JSON document; numbers keep their text. */
  datatype Json =
    | JNull
    | JBool(b: bool)
    | JNum(text: string)
    | JStr(s: string)
    | JArr(items: seq<Json>)
    | JObj(fields: map<string, Json>)

  datatype Step = Name(k: string) | Index(i: nat)

  type Steps = seq<Step>

  datatype Edit = Add(after: Json) | Remove(before: Json) | Replace(before: Json, after: Json)

  datatype DiffEntry = DiffEntry(path: Steps, edit: Edit)

  // ------------------------------------------------------------------ specification

  function Sub(v: Json, s: Step): Option<Json> {
    match s
    case Name(k) => if v.JObj? && k in v.fields then Some(v.fields[k]) else None
    case Index(i) => if v.JArr? && i < |v.items| then Some(v.items[i]) else None
  }

  predicate SameShape(b: Json, a: Json) { (b.JObj? && a.JObj?) || (b.JArr? && a.JArr?) }

  /** The edit the difference puts at a path relative to b and a, if any. */
  function EditAt(b: Json, a: Json, q: Steps): Option<Edit>
    decreases |q|
  {
    if b == a then None
    else if q == [] then (if SameShape(b, a) then None else Some(Replace(b, a)))
    else if !SameShape(b, a) then None
    else
      match (Sub(b, q[0]), Sub(a, q[0]))
      case (Some(x), Some(y)) => EditAt(x, y, q[1..])
      case (None, Some(y)) => if |q| == 1 then Some(Add(y)) else None
      case (Some(x), None) => if |q| == 1 then Some(Remove(x)) else None
      case (None, None) => None
  }

  type Patch = map<Steps, Edit>

  function AddedNames(e: Patch, p: Steps): set<string> {
    set q: Steps | q in e && e[q].Add? && |q| == |p| + 1 && q[..|p|] == p && q[|p|].Name? :: q[|p|].k
  }

  function AddedIndices(e: Patch, p: Steps): set<nat> {
    set q: Steps | q in e && e[q].Add? && |q| == |p| + 1 && q[..|p|] == p && q[|p|].Index? :: q[|p|].i
  }

  predicate Removed(e: Patch, q: Steps) { q in e && e[q].Remove? }

  function AddedAt(e: Patch, q: Steps): Json { if q in e && e[q].Add? then e[q].after else JNull }

  /** All edits applied at once: every path refers to the document before. Added array elements go
      at the end. */
  function Apply(v: Json, e: Patch, p: Steps): Json
    decreases v, 1
  {
    if p in e && e[p].Replace? then e[p].after
    else match v
      case JObj(fields) =>
        var kept := set k | k in fields && !Removed(e, p + [Name(k)]);
        JObj(map k | k in kept + AddedNames(e, p) ::
          if k in kept then Apply(fields[k], e, p + [Name(k)]) else AddedAt(e, p + [Name(k)]))
      case JArr(items) =>
        JArr(KeptItems(v, e, p, 0) + seq(|AddedIndices(e, p)|, j requires 0 <= j => AddedAt(e, p + [Index(|items| + j)])))
      case _ => v
  }

  function KeptItems(v: Json, e: Patch, p: Steps, i: nat): seq<Json>
    requires v.JArr? && i <= |v.items|
    decreases v, 0, |v.items| - i
  {
    if i == |v.items| then []
    else (if Removed(e, p + [Index(i)]) then [] else [Apply(v.items[i], e, p + [Index(i)])]) + KeptItems(v, e, p, i + 1)
  }

  function Flip(e: Edit): Edit {
    match e
    case Add(v) => Remove(v)
    case Remove(v) => Add(v)
    case Replace(b, a) => Replace(a, b)
  }

  function Inverse(e: Patch): Patch { map q | q in e :: Flip(e[q]) }

  /** The patch holds, below p, exactly the difference of b and a. */
  ghost predicate Describes(e: Patch, p: Steps, b: Json, a: Json) {
    forall q :: EditAt(b, a, q) == if p + q in e then Some(e[p + q]) else None
  }

  // ------------------------------------------------------------------- the patch laws

  lemma {:induction false} DescribesBelow(e: Patch, p: Steps, b: Json, a: Json, s: Step)
    requires Describes(e, p, b, a) && SameShape(b, a) && Sub(b, s).Some? && Sub(a, s).Some?
    ensures Describes(e, p + [s], Sub(b, s).value, Sub(a, s).value)
  {
    forall q ensures EditAt(Sub(b, s).value, Sub(a, s).value, q) == if p + [s] + q in e then Some(e[p + [s] + q]) else None {
      assert p + ([s] + q) == p + [s] + q;
      assert ([s] + q)[1..] == q;
      assert EditAt(b, a, [s] + q) == EditAt(Sub(b, s).value, Sub(a, s).value, q);
    }
  }

  /** What the patch says one step below p. */
  lemma {:induction false} EditOneStepDown(e: Patch, p: Steps, b: Json, a: Json, s: Step)
    requires Describes(e, p, b, a) && SameShape(b, a)
    ensures p !in e
    ensures Sub(b, s).None? && Sub(a, s).Some? ==> p + [s] in e && e[p + [s]] == Add(Sub(a, s).value)
    ensures Sub(b, s).Some? && Sub(a, s).None? ==> p + [s] in e && e[p + [s]] == Remove(Sub(b, s).value)
    ensures Sub(b, s).Some? && Sub(a, s).Some? && p + [s] in e ==> e[p + [s]].Replace?
    ensures Sub(b, s).None? && Sub(a, s).None? ==> p + [s] !in e
  {
    assert p + [] == p;
    assert EditAt(b, a, []) == None;
    assert EditAt(b, a, [s]) == if p + [s] in e then Some(e[p + [s]]) else None;
    assert [s][0] == s && [s][1..] == [];
    if b != a && Sub(b, s).Some? && Sub(a, s).Some? {
      assert EditAt(b, a, [s]) == EditAt(Sub(b, s).value, Sub(a, s).value, []);
    }
  }

  /** Applying the patch to what it was computed from gives what it was computed towards. */
  lemma {:induction false} PatchGivesAfter(e: Patch, p: Steps, b: Json, a: Json)
    requires Describes(e, p, b, a)
    ensures Apply(b, e, p) == a
    decreases b
  {
    hide EditAt, Describes;
    if !SameShape(b, a) {
      EditHere(e, p, b, a);
    } else if b.JObj? {
      ObjectsPatched(e, p, b, a);
    } else {
      EditOneStepDown(e, p, b, a, Index(0));
      ItemsPatched(e, p, b, a, 0);
      TailPatched(e, p, b, a);
      ArraysPatched(e, p, b, a);
    }
  }

  lemma {:induction false} ArraysPatched(e: Patch, p: Steps, b: Json, a: Json)
    requires b.JArr? && a.JArr? && p !in e
    requires KeptItems(b, e, p, 0) == a.items[..Min(|a.items|, |b.items|)]
    requires |AddedIndices(e, p)| == if |b.items| < |a.items| then |a.items| - |b.items| else 0
    requires forall i | |b.items| <= i < |a.items| :: AddedAt(e, p + [Index(i)]) == a.items[i]
    ensures Apply(b, e, p) == a
  {
    hide KeptItems, AddedIndices;
    assert Apply(b, e, p).items == a.items;
  }

  lemma {:induction false} EditHere(e: Patch, p: Steps, b: Json, a: Json)
    requires Describes(e, p, b, a) && !SameShape(b, a)
    ensures if b == a then p !in e else p in e && e[p] == Replace(b, a)
  {
    assert p + [] == p;
    assert EditAt(b, a, []) == if b == a then None else Some(Replace(b, a));
  }

  lemma {:induction false} ObjectsPatched(e: Patch, p: Steps, b: Json, a: Json)
    requires Describes(e, p, b, a) && b.JObj? && a.JObj?
    ensures Apply(b, e, p) == a
    decreases b, 0
  {
    hide EditAt, Describes;
    EditOneStepDown(e, p, b, a, Name(""));
    var r := Apply(b, e, p);
    forall k
      ensures k in r.fields <==> k in a.fields
      ensures k in a.fields ==> r.fields[k] == a.fields[k]
    {
      EditOneStepDown(e, p, b, a, Name(k));
      AddedNameIs(e, p, k);
      if k in b.fields && k in a.fields {
        DescribesBelow(e, p, b, a, Name(k));
        PatchGivesAfter(e, p + [Name(k)], b.fields[k], a.fields[k]);
      }
    }
    assert r.fields == a.fields;
  }

  lemma {:induction false} AddedNameIs(e: Patch, p: Steps, k: string)
    ensures k in AddedNames(e, p) <==> p + [Name(k)] in e && e[p + [Name(k)]].Add?
  {
    var q := p + [Name(k)];
    assert q[..|p|] == p && q[|p|] == Name(k);
    if k in AddedNames(e, p) {
      var r: Steps :| r in e && e[r].Add? && |r| == |p| + 1 && r[..|p|] == p && r[|p|].Name? && r[|p|].k == k;
      assert r == q;
    }
  }

  lemma {:induction false} AddedIndexIs(e: Patch, p: Steps, i: nat)
    ensures i in AddedIndices(e, p) <==> p + [Index(i)] in e && e[p + [Index(i)]].Add?
  {
    var q := p + [Index(i)];
    assert q[..|p|] == p && q[|p|] == Index(i);
    if i in AddedIndices(e, p) {
      var r: Steps :| r in e && e[r].Add? && |r| == |p| + 1 && r[..|p|] == p && r[|p|].Index? && r[|p|].i == i;
      assert r == q;
    }
  }

  function Min(x: nat, y: nat): nat { if x < y then x else y }

  /** Elements both arrays have are patched in place; the rest of the first are dropped. */
  lemma {:induction false} ItemsPatched(e: Patch, p: Steps, b: Json, a: Json, i: nat)
    requires Describes(e, p, b, a) && b.JArr? && a.JArr? && i <= |b.items|
    ensures KeptItems(b, e, p, i) == if i <= |a.items| then a.items[i..Max(i, Min(|a.items|, |b.items|))] else []
    decreases b, 0, |b.items| - i
  {
    hide EditAt, Describes;
    if i < |b.items| {
      EditOneStepDown(e, p, b, a, Index(i));
      ItemsPatched(e, p, b, a, i + 1);
      if i < |a.items| {
        DescribesBelow(e, p, b, a, Index(i));
        PatchGivesAfter(e, p + [Index(i)], b.items[i], a.items[i]);
      }
    }
  }

  function Max(x: nat, y: nat): nat { if x < y then y else x }

  function Range(lo: nat, hi: nat): (r: set<nat>)
    ensures |r| == if lo < hi then hi - lo else 0
    ensures forall i :: i in r <==> lo <= i < hi
    decreases hi - lo
  {
    if lo >= hi then {} else {lo} + Range(lo + 1, hi)
  }

  lemma {:induction false} TailPatched(e: Patch, p: Steps, b: Json, a: Json)
    requires Describes(e, p, b, a) && b.JArr? && a.JArr?
    ensures |AddedIndices(e, p)| == if |b.items| < |a.items| then |a.items| - |b.items| else 0
    ensures forall i | |b.items| <= i < |a.items| :: AddedAt(e, p + [Index(i)]) == a.items[i]
  {
    hide EditAt, Describes, AddedIndices;
    forall i: nat ensures i in AddedIndices(e, p) <==> |b.items| <= i < |a.items| {
      AddedIndexIs(e, p, i);
      EditOneStepDown(e, p, b, a, Index(i));
    }
    assert AddedIndices(e, p) == Range(|b.items|, |a.items|);
    forall i | |b.items| <= i < |a.items| ensures AddedAt(e, p + [Index(i)]) == a.items[i] {
      EditOneStepDown(e, p, b, a, Index(i));
    }
  }

  lemma {:induction false} EditIsSymmetric(b: Json, a: Json, q: Steps)
    ensures EditAt(a, b, q) == match EditAt(b, a, q) { case None => None case Some(e) => Some(Flip(e)) }
    decreases |q|
  {
    if q != [] && SameShape(b, a) && Sub(b, q[0]).Some? && Sub(a, q[0]).Some? {
      EditIsSymmetric(Sub(b, q[0]).value, Sub(a, q[0]).value, q[1..]);
    }
  }

  lemma {:induction false} InverseDescribes(e: Patch, p: Steps, b: Json, a: Json)
    requires Describes(e, p, b, a)
    ensures Describes(Inverse(e), p, a, b)
  {
    forall q ensures EditAt(a, b, q) == if p + q in Inverse(e) then Some(Inverse(e)[p + q]) else None {
      EditIsSymmetric(b, a, q);
    }
  }

  /** The difference turns before into after, its inverse turns after into before, and it is empty
      exactly when they are equal. */
  lemma {:induction false} DiffIsAPatch(e: Patch, b: Json, a: Json)
    requires Describes(e, [], b, a)
    ensures Apply(b, e, []) == a && Apply(a, Inverse(e), []) == b
    ensures e == map[] <==> b == a
  {
    PatchGivesAfter(e, [], b, a);
    InverseDescribes(e, [], b, a);
    PatchGivesAfter(Inverse(e), [], a, b);
    if e == map[] {
      EmptyPatch(b, []);
    }
    if b == a {
      forall q ensures q !in e { assert [] + q == q; assert EditAt(b, a, q) == None; }
    }
  }

  lemma {:induction false} EmptyPatch(v: Json, p: Steps)
    ensures Apply(v, map[], p) == v
  {
    forall q ensures EditAt(v, v, q) == None {}
    assert Describes(map[], p, v, v);
    PatchGivesAfter(map[], p, v, v);
  }

  // ------------------------------------------------------------------ the source's walk

  predicate Emitted(p: Steps, b: Json, a: Json, e: DiffEntry) {
    |p| <= |e.path| && e.path[..|p|] == p && EditAt(b, a, e.path[|p|..]) == Some(e.edit)
  }

  predicate Via(p: Steps, s: Step, e: DiffEntry) { |e.path| > |p| && e.path[|p|] == s }

  predicate DistinctPaths(out: seq<DiffEntry>) { forall i, j | 0 <= i < j < |out| :: out[i].path != out[j].path }

  predicate EmittedByStep(p: Steps, b: Json, a: Json, s: Step, e: DiffEntry) {
    var x, y := Sub(b, s), Sub(a, s);
    if x.Some? && y.Some? then Emitted(p + [s], x.value, y.value, e)
    else if y.Some? then e == DiffEntry(p + [s], Add(y.value))
    else x.Some? && e == DiffEntry(p + [s], Remove(x.value))
  }

  /** What is emitted through one step of an object or array. */
  lemma {:induction false} EmittedVia(p: Steps, b: Json, a: Json, s: Step, e: DiffEntry)
    requires b != a && SameShape(b, a)
    ensures Emitted(p, b, a, e) && Via(p, s, e) <==> EmittedByStep(p, b, a, s, e)
  {
    var n := |p|;
    if |e.path| > n && e.path[..n] == p && e.path[n] == s {
      assert e.path[n..][0] == s && e.path[n..][1..] == e.path[n + 1..];
      assert e.path[..n + 1] == p + [s];
      if |e.path[n..]| == 1 { assert e.path == p + [s]; }
    }
    var q := p + [s];
    assert q[..n] == p && q[n] == s && q[n..] == [s] && |q[n..]| == 1;
    if |e.path| >= n + 1 && e.path[..n + 1] == q {
      assert e.path[..n] == q[..n] && e.path[n] == q[n];
    }
  }

  /** One key or index of walkDiff's loops. */
  method DiffStep(b: Json, a: Json, p: Steps, s: Step) returns (out: seq<DiffEntry>)
    requires b != a && SameShape(b, a)
    ensures forall e :: e in out <==> Emitted(p, b, a, e) && Via(p, s, e)
    ensures DistinctPaths(out)
    decreases b, 0, 0
  {
    var x, y := Sub(b, s), Sub(a, s);
    forall e ensures Emitted(p, b, a, e) && Via(p, s, e) <==> EmittedByStep(p, b, a, s, e) {
      EmittedVia(p, b, a, s, e);
    }
    hide Emitted, Via;
    if x.None? && y.Some? {
      out := [DiffEntry(p + [s], Add(y.value))];
    } else if x.Some? && y.None? {
      out := [DiffEntry(p + [s], Remove(x.value))];
    } else if x.Some? && y.Some? {
      out := WalkDiff(x.value, y.value, p + [s]);
    } else {
      out := [];
    }
  }

  /** The steps below a pair of objects or arrays, in the order walkDiff takes them. */
  function StepsBelow(b: Json, a: Json): (ss: seq<Step>)
    requires SameShape(b, a)
    ensures forall i, j | 0 <= i < j < |ss| :: ss[i] != ss[j]
    ensures forall s | Sub(b, s).Some? || Sub(a, s).Some? :: s in ss
  {
    if b.JObj? then
      var ks := Sorted(b.fields.Keys + a.fields.Keys);
      var ss := seq(|ks|, i requires 0 <= i < |ks| => Name(ks[i]));
      assert forall k | k in b.fields || k in a.fields :: Name(k) in ss by {
        forall k | k in b.fields || k in a.fields ensures Name(k) in ss {
          var i :| 0 <= i < |ks| && ks[i] == k;
          assert ss[i] == Name(k);
        }
      }
      ss
    else
      var ss := seq(Max(|b.items|, |a.items|), i requires 0 <= i => Index(i));
      assert forall i: nat | i < |ss| :: ss[i] == Index(i);
      ss
  }

  /** walkDiff. */
  method WalkDiff(b: Json, a: Json, p: Steps) returns (out: seq<DiffEntry>)
    ensures forall e :: e in out <==> Emitted(p, b, a, e)
    ensures DistinctPaths(out)
    decreases b, 1
  {
    out := [];
    if b == a { return; }
    if !SameShape(b, a) {
      forall e ensures Emitted(p, b, a, e) <==> e == DiffEntry(p, Replace(b, a)) {
        assert |e.path| == |p| && e.path[..|p|] == p ==> e.path == p;
      }
      return [DiffEntry(p, Replace(b, a))];
    }
    out := DiffSteps(b, a, p, StepsBelow(b, a));
    forall e | Emitted(p, b, a, e) ensures e in out {
      var s := EmittedHasStep(p, b, a, e);
    }
  }

  /** walkDiff's loop over the keys or indices. */
  method DiffSteps(b: Json, a: Json, p: Steps, ss: seq<Step>) returns (out: seq<DiffEntry>)
    requires b != a && SameShape(b, a) && forall i, j | 0 <= i < j < |ss| :: ss[i] != ss[j]
    ensures forall e :: e in out <==> exists j | 0 <= j < |ss| :: Emitted(p, b, a, e) && Via(p, ss[j], e)
    ensures DistinctPaths(out)
    decreases b, 0, 1
  {
    hide Emitted, SameShape;
    out := [];
    var i := 0;
    while i < |ss|
      invariant 0 <= i <= |ss| && DistinctPaths(out)
      invariant forall e :: e in out <==> exists j | 0 <= j < i :: Emitted(p, b, a, e) && Via(p, ss[j], e)
    {
      var sub := DiffStep(b, a, p, ss[i]);
      assert forall e, f | e in out && f in sub :: e.path != f.path;
      DistinctConcat(out, sub);
      out := out + sub;
      i := i + 1;
    }
  }

  lemma {:induction false} DistinctConcat(a: seq<DiffEntry>, b: seq<DiffEntry>)
    requires DistinctPaths(a) && DistinctPaths(b) && forall e, f | e in a && f in b :: e.path != f.path
    ensures DistinctPaths(a + b)
  {
  }

  lemma {:induction false} EmittedHasStep(p: Steps, b: Json, a: Json, e: DiffEntry) returns (s: Step)
    requires b != a && SameShape(b, a) && Emitted(p, b, a, e)
    ensures Via(p, s, e) && (Sub(b, s).Some? || Sub(a, s).Some?)
  {
    s := e.path[|p|..][0];
  }

  /** The entries of a walk, read as one patch. */
  ghost function PatchOf(out: seq<DiffEntry>): Patch
    requires DistinctPaths(out)
  {
    map e | e in out :: e.path := e.edit
  }

  /** A walk from the root emits a patch that turns before into after and back. */
  lemma {:induction false} WalkIsAPatch(b: Json, a: Json, out: seq<DiffEntry>)
    requires DistinctPaths(out) && (forall e :: e in out <==> Emitted([], b, a, e))
    ensures Apply(b, PatchOf(out), []) == a && Apply(a, Inverse(PatchOf(out)), []) == b
    ensures out == [] <==> b == a
  {
    var e := PatchOf(out);
    if out != [] { assert out[0].path in e; }
    forall q ensures EditAt(b, a, q) == if [] + q in e then Some(e[[] + q]) else None {
      assert [] + q == q;
      PatchIsEmitted(b, a, out, q);
    }
    hide Apply, Inverse, EditAt, PatchOf, Emitted;
    DiffIsAPatch(e, b, a);
  }

  lemma {:induction false} PatchIsEmitted(b: Json, a: Json, out: seq<DiffEntry>, q: Steps)
    requires DistinctPaths(out) && (forall e :: e in out <==> Emitted([], b, a, e))
    ensures EditAt(b, a, q) == if q in PatchOf(out) then Some(PatchOf(out)[q]) else None
  {
    hide EditAt;
    assert q[0..] == q && q[..0] == [];
    if EditAt(b, a, q).Some? {
      assert Emitted([], b, a, DiffEntry(q, EditAt(b, a, q).value));
    }
  }
}
