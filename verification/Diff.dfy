/** Equality and difference of configuration trees (equal in internal/yangtree/value.go, Diff and
    diffWalk in internal/yangtree/node.go). */
module Diffs {
  import opened Text
  import opened Paths
  import opened Values
  import opened Edits

  datatype ChangeKind = Create | Remove | Modify

  datatype Change = Change(path: Path, kind: ChangeKind)

  // -------------------------------------------------------------------- equality

  function FloatOf(num: Numeral, v: Value): Option<Number> {
    match v
    case Num(n) => Some(Finite(num.float(n)))
    case Str(s) => num.parse(s)
    case _ => None
  }

  /** Both are numbers, not both integers, and compare as equal floats. */
  predicate SameFloat(num: Numeral, a: Value, b: Value) {
    && !(a.Num? && b.Num?)
    && FloatOf(num, a).Some? && FloatOf(num, a) == FloatOf(num, b) && FloatOf(num, a) != Some(NaN)
  }

  function FieldOr(v: Value, k: string): Value
    requires v.Map?
  {
    if k in v.fields then v.fields[k] else Null
  }

  /** equal. A missing field of b reads as null. */
  predicate Equal(num: Numeral, a: Value, b: Value)
    decreases a
  {
    if a.Map? then
      b.Map? && |a.fields| == |b.fields| && forall k | k in a.fields :: Equal(num, a.fields[k], FieldOr(b, k))
    else if a.List? then
      b.List? && |a.items| == |b.items| && forall i | 0 <= i < |a.items| :: Equal(num, a.items[i], b.items[i])
    else if a.Num? && b.Num? then a.n == b.n
    else if FloatOf(num, a).Some? && FloatOf(num, b).Some? then SameFloat(num, a, b)
    else a == b
  }

  // ------------------------------------------------------------------ difference

  function ChildPath(p: Path, k: string): Path {
    if p.modName == "" then Path(k, p.segments) else Path(p.modName, p.segments + [Segment(k, [])])
  }

  /** The path of a list entry: the predicates go on the last step, if there is one. */
  function EntryPath(p: Path, keys: seq<Key>): Path {
    if p.segments == [] || keys == [] then p
    else
      var n := |p.segments| - 1;
      Path(p.modName, p.segments[..n] + [Segment(p.segments[n].name, keys)])
  }

  /** What tells list entries apart: their printed path. Only the suffix differs within a list. */
  function EntryId(p: Path, item: Value): string {
    var keys := if item.Map? then KeysForItem(item.fields) else [];
    if keys == [] then "#" + Stringify(item)
    else if p.segments == [] then ""
    else PrintKeys(keys)
  }

  function EntryIds(p: Path, items: seq<Value>): (ids: seq<string>)
    ensures |ids| == |items| && forall i | 0 <= i < |ids| :: ids[i] == EntryId(p, items[i])
  {
    seq(|items|, i requires 0 <= i < |items| => EntryId(p, items[i]))
  }

  function LastIndex(ids: seq<string>, id: string): (r: Option<nat>)
    ensures r.Some? ==> r.value < |ids| && ids[r.value] == id
    ensures r.Some? ==> forall i | r.value < i < |ids| :: ids[i] != id
    ensures r.None? ==> id !in ids
  {
    if ids == [] then None
    else if ids[|ids| - 1] == id then Some(|ids| - 1)
    else LastIndex(ids[..|ids| - 1], id)
  }

  /** The entry a later one with the same id would have overwritten. */
  function LastWith(p: Path, items: seq<Value>, id: string): (r: Option<nat>)
    ensures r.Some? ==> r.value < |items|
  {
    LastIndex(EntryIds(p, items), id)
  }

  function FirstIndex(ids: seq<string>, id: string): (i: nat)
    requires id in ids
    ensures i < |ids| && ids[i] == id && id !in ids[..i]
  {
    if ids[0] == id then 0 else 1 + FirstIndex(ids[1..], id)
  }

  /** The predicates of the first entry with the id. */
  function KeysOfFirst(p: Path, items: seq<Value>, id: string): seq<Key>
    requires id in EntryIds(p, items)
  {
    var item := items[FirstIndex(EntryIds(p, items), id)];
    if item.Map? then KeysForItem(item.fields) else []
  }

  function One(num: Numeral, p: Path, a: Value, b: Value): set<Change> {
    if Equal(num, a, b) then {}
    else {Change(p, if a.Null? then Create else if b.Null? then Remove else Modify)}
  }

  /** diffWalk, as the set of changes it appends. */
  ghost function Changes(num: Numeral, p: Path, a: Value, b: Value): set<Change>
    decreases a, 1
  {
    if Equal(num, a, b) then {}
    else if a.Map? && b.Map? then
      set k, c | k in a.fields.Keys + b.fields.Keys && c in FieldChanges(num, p, a, b, k) :: c
    else if a.List? && b.List? then
      set id, c | id in EntryIds(p, a.items + b.items) && c in EntryChanges(num, p, a, b, id) :: c
    else One(num, p, a, b)
  }

  ghost function FieldChanges(num: Numeral, p: Path, a: Value, b: Value, k: string): set<Change>
    requires a.Map? && b.Map?
    decreases a, 0
  {
    if k in a.fields && k in b.fields then Changes(num, ChildPath(p, k), a.fields[k], b.fields[k])
    else One(num, ChildPath(p, k), FieldOr(a, k), FieldOr(b, k))
  }

  ghost function EntryChanges(num: Numeral, p: Path, a: Value, b: Value, id: string): set<Change>
    requires a.List? && b.List? && id in EntryIds(p, a.items + b.items)
    decreases a, 0
  {
    var at := EntryPath(p, KeysOfFirst(p, a.items + b.items, id));
    var i, j := LastWith(p, a.items, id), LastWith(p, b.items, id);
    if i.Some? && j.Some? then Changes(num, at, a.items[i.value], b.items[j.value])
    else One(num, at, if i.Some? then a.items[i.value] else Null, if j.Some? then b.items[j.value] else Null)
  }

  /** Diff, on the stored trees. */
  ghost function Diff(num: Numeral, a: Fields, b: Fields): set<Change> {
    Changes(num, ROOT, Map(a), Map(b))
  }

  // ----------------------------------------------------------- the source's loops

  /** The distinct ids, in the order diffWalk first meets them. */
  method Distinct(ids: seq<string>) returns (order: seq<string>)
    ensures forall id :: id in order <==> id in ids
  {
    order := [];
    var i := 0;
    while i < |ids|
      invariant 0 <= i <= |ids|
      invariant forall id :: id in order <==> id in ids[..i]
    {
      if ids[i] !in order { order := order + [ids[i]]; }
      i := i + 1;
    }
  }

  method Report(num: Numeral, p: Path, a: Value, b: Value) returns (out: seq<Change>)
    ensures forall c :: c in out <==> c in One(num, p, a, b)
  {
    if Equal(num, a, b) { return []; }
    return [Change(p, if a.Null? then Create else if b.Null? then Remove else Modify)];
  }

  /** diffWalk. */
  method DiffWalk(num: Numeral, p: Path, a: Value, b: Value) returns (out: seq<Change>)
    ensures forall c :: c in out <==> c in Changes(num, p, a, b)
    decreases a, 2
  {
    if Equal(num, a, b) { return []; }
    if a.Map? && b.Map? {
      out := DiffFields(num, p, a, b);
    } else if a.List? && b.List? {
      out := DiffEntries(num, p, a, b);
    } else {
      out := Report(num, p, a, b);
    }
  }

  method DiffFields(num: Numeral, p: Path, a: Value, b: Value) returns (out: seq<Change>)
    requires a.Map? && b.Map?
    ensures forall c :: c in out <==> exists k | k in a.fields.Keys + b.fields.Keys :: c in FieldChanges(num, p, a, b, k)
    decreases a, 0
  {
    hide Equal, One, Changes;
    out := [];
    var all := a.fields.Keys + b.fields.Keys;
    var todo := all;
    while todo != {}
      invariant todo <= all
      invariant forall c :: c in out <==> exists k | k in all - todo :: c in FieldChanges(num, p, a, b, k)
    {
      var k :| k in todo;
      var sub;
      if k in a.fields && k in b.fields {
        sub := DiffWalk(num, ChildPath(p, k), a.fields[k], b.fields[k]);
      } else {
        sub := Report(num, ChildPath(p, k), FieldOr(a, k), FieldOr(b, k));
      }
      assert forall c :: c in sub <==> c in FieldChanges(num, p, a, b, k);
      assert all - (todo - {k}) == (all - todo) + {k};
      out, todo := out + sub, todo - {k};
    }
  }

  method DiffEntries(num: Numeral, p: Path, a: Value, b: Value) returns (out: seq<Change>)
    requires a.List? && b.List?
    ensures forall c :: c in out <==> exists id | id in EntryIds(p, a.items + b.items) :: c in EntryChanges(num, p, a, b, id)
    decreases a, 1
  {
    hide EntryChanges, EntryIds, EntryId;
    out := [];
    var order := Distinct(EntryIds(p, a.items + b.items));
    var i := 0;
    while i < |order|
      invariant 0 <= i <= |order|
      invariant forall c :: c in out <==> exists j | 0 <= j < i :: c in EntryChanges(num, p, a, b, order[j])
    {
      var sub := DiffEntry(num, p, a, b, order[i]);
      out := out + sub;
      i := i + 1;
    }
  }

  method DiffEntry(num: Numeral, p: Path, a: Value, b: Value, id: string) returns (out: seq<Change>)
    requires a.List? && b.List? && id in EntryIds(p, a.items + b.items)
    ensures forall c :: c in out <==> c in EntryChanges(num, p, a, b, id)
    decreases a, 0, 0
  {
    hide Equal, EntryIds, EntryPath, One, KeysOfFirst, LastWith, Changes;
    var at := EntryPath(p, KeysOfFirst(p, a.items + b.items, id));
    var i, j := LastWith(p, a.items, id), LastWith(p, b.items, id);
    if i.Some? && j.Some? {
      out := DiffWalk(num, at, a.items[i.value], b.items[j.value]);
    } else {
      out := Report(num, at, if i.Some? then a.items[i.value] else Null, if j.Some? then b.items[j.value] else Null);
    }
  }

  // ---------------------------------------------------------------------- domain

  /** No text of the tree parses as a number. */
  predicate NumeralFree(num: Numeral, v: Value) {
    match v
    case Str(s) => num.parse(s).None?
    case List(items) => forall i | 0 <= i < |items| :: NumeralFree(num, items[i])
    case Map(fields) => forall k | k in fields :: NumeralFree(num, fields[k])
    case _ => true
  }

  /** No text of the tree parses as a NaN. */
  predicate NanFree(num: Numeral, v: Value) {
    match v
    case Str(s) => num.parse(s) != Some(NaN)
    case List(items) => forall i | 0 <= i < |items| :: NanFree(num, items[i])
    case Map(fields) => forall k | k in fields :: NanFree(num, fields[k])
    case _ => true
  }

  /** No map field of the tree is null. */
  predicate NullFieldFree(v: Value) {
    match v
    case List(items) => forall i | 0 <= i < |items| :: NullFieldFree(items[i])
    case Map(fields) => forall k | k in fields :: !fields[k].Null? && NullFieldFree(fields[k])
    case _ => true
  }

  /** Null-free trees whose texts are not numbers and whose lists hold entries with distinct
      quote-free names. */
  predicate Plain(num: Numeral, v: Value) {
    match v
    case Null => false
    case Str(s) => num.parse(s).None?
    case List(items) =>
      && DistinctlyNamed(items)
      && (forall i | 0 <= i < |items| :: '\'' !in NameOf(items[i]))
      && (forall i | 0 <= i < |items| :: Plain(num, items[i]))
    case Map(fields) => forall k | k in fields :: Plain(num, fields[k])
    case _ => true
  }

  /** The lists of a tree lie below the top level of its modules. */
  predicate PlainTree(num: Numeral, root: Fields) {
    Plain(num, Map(root)) && forall k | k in root :: k != "" && !root[k].List?
  }

  /** Where a value may stand: a list needs a step of its own to carry predicates. */
  predicate Placed(p: Path, v: Value) {
    && (v.List? ==> p.segments != [] && p.segments[|p.segments| - 1].keys == [])
    && (p.IsRoot() ==> v.Map? && forall k | k in v.fields :: k != "" && !v.fields[k].List?)
    && (p.modName == "" ==> p.segments == [])
  }

  /** Agreement up to the order of list entries. */
  ghost predicate Agree(a: Value, b: Value)
    decreases a, 1
  {
    if a.Map? then b.Map? && a.fields.Keys == b.fields.Keys && forall k | k in a.fields :: Agree(a.fields[k], b.fields[k])
    else if a.List? then
      && b.List?
      && (forall i | 0 <= i < |a.items| :: AgreesWithSome(a.items[i], b.items))
      && (forall j | 0 <= j < |b.items| :: SomeAgrees(a, b.items[j]))
    else a == b
  }

  ghost predicate AgreesWithSome(v: Value, items: seq<Value>)
    decreases v, 2
  {
    exists j | 0 <= j < |items| :: Agree(v, items[j])
  }

  ghost predicate SomeAgrees(a: Value, w: Value)
    requires a.List?
    decreases a, 0
  {
    exists i | 0 <= i < |a.items| :: Agree(a.items[i], w)
  }

  // -------------------------------------------------------------- equal is equality

  lemma {:induction false} SubsetOfSameSize<T>(x: set<T>, y: set<T>)
    requires x <= y && |x| == |y|
    ensures x == y
  {
    assert |y - x| == 0;
  }

  /** On trees without number-like texts equal decides equality with a tree whose fields are not null.
      The second tree may hold nulls, and lists may hold anything. */
  lemma {:induction false} EqualIsEquality(num: Numeral, a: Value, b: Value)
    requires NumeralFree(num, a) && NullFieldFree(a) && NumeralFree(num, b)
    ensures Equal(num, a, b) <==> a == b
    decreases a
  {
    match a
    case Map(fields) =>
      if b.Map? {
        forall k | k in fields ensures Equal(num, fields[k], FieldOr(b, k)) <==> fields[k] == FieldOr(b, k) {
          EqualIsEquality(num, fields[k], FieldOr(b, k));
        }
        if Equal(num, a, b) {
          assert fields.Keys <= b.fields.Keys && |fields.Keys| == |b.fields.Keys|;
          SubsetOfSameSize(fields.Keys, b.fields.Keys);
          assert fields == b.fields;
        }
      }
    case List(items) =>
      if b.List? && |items| == |b.items| {
        forall i | 0 <= i < |items| ensures Equal(num, items[i], b.items[i]) <==> items[i] == b.items[i] {
          EqualIsEquality(num, items[i], b.items[i]);
        }
      }
    case _ =>
  }

  lemma {:induction false} LongerThanAll(keys: set<string>) returns (n: nat)
    ensures forall k | k in keys :: |k| < n
  {
    if keys == {} {
      n := 0;
    } else {
      var k :| k in keys;
      var m := LongerThanAll(keys - {k});
      n := if m <= |k| then |k| + 1 else m;
    }
  }

  lemma {:induction false} UnusedName(keys: set<string>) returns (k: string)
    ensures k !in keys
  {
    var n := LongerThanAll(keys);
    k := seq(n, _ => 'x');
  }

  /** A tree equals itself exactly when no text of it parses as a NaN. */
  lemma {:induction false} EqualIsReflexiveIff(num: Numeral, v: Value)
    ensures Equal(num, v, v) <==> NanFree(num, v)
    decreases v
  {
    if v.Map? {
      forall k | k in v.fields ensures Equal(num, v.fields[k], v.fields[k]) <==> NanFree(num, v.fields[k]) {
        EqualIsReflexiveIff(num, v.fields[k]);
      }
    } else if v.List? {
      forall i | 0 <= i < |v.items| ensures Equal(num, v.items[i], v.items[i]) <==> NanFree(num, v.items[i]) {
        EqualIsReflexiveIff(num, v.items[i]);
      }
    }
  }

  /** A tree that holds a NaN text equals nothing. */
  lemma {:induction false} NanEqualsNothing(num: Numeral, a: Value, b: Value)
    requires !NanFree(num, a)
    ensures !Equal(num, a, b)
    decreases a
  {
    if a.Map? && b.Map? {
      var k :| k in a.fields && !NanFree(num, a.fields[k]);
      NanEqualsNothing(num, a.fields[k], FieldOr(b, k));
    } else if a.List? && b.List? && |a.items| == |b.items| {
      var i :| 0 <= i < |a.items| && !NanFree(num, a.items[i]);
      NanEqualsNothing(num, a.items[i], b.items[i]);
    }
  }

  lemma {:induction false} NumeralFreeIsNanFree(num: Numeral, v: Value)
    requires NumeralFree(num, v)
    ensures NanFree(num, v)
    decreases v
  {
    if v.Map? {
      forall k | k in v.fields ensures NanFree(num, v.fields[k]) { NumeralFreeIsNanFree(num, v.fields[k]); }
    } else if v.List? {
      forall i | 0 <= i < |v.items| ensures NanFree(num, v.items[i]) { NumeralFreeIsNanFree(num, v.items[i]); }
    }
  }

  /** Putting an equal value in one place gives an equal tree, and one that is equal the other way
      round only if the values are. */
  lemma {:induction false} FieldSwapped(num: Numeral, fields: Fields, k: string, c: Value)
    requires k in fields && Equal(num, fields[k], c) && NanFree(num, Map(fields))
    ensures Equal(num, Map(fields), Map(fields[k := c]))
    ensures !Equal(num, c, fields[k]) ==> !Equal(num, Map(fields[k := c]), Map(fields))
    ensures c != fields[k] ==> fields[k := c] != fields
  {
    var b := Map(fields[k := c]);
    assert b.fields.Keys == fields.Keys && |b.fields.Keys| == |fields.Keys| && b.fields[k] == c;
    forall j | j in fields ensures Equal(num, fields[j], FieldOr(b, j)) {
      if j != k { EqualIsReflexiveIff(num, fields[j]); }
    }
    assert FieldOr(Map(fields), k) == fields[k];
  }

  lemma {:induction false} ItemSwapped(num: Numeral, items: seq<Value>, i: nat, c: Value)
    requires i < |items| && Equal(num, items[i], c) && NanFree(num, List(items))
    ensures Equal(num, List(items), List(items[i := c]))
    ensures !Equal(num, c, items[i]) ==> !Equal(num, List(items[i := c]), List(items))
    ensures c != items[i] ==> items[i := c] != items
  {
    var b := items[i := c];
    assert b[i] == c;
    forall j | 0 <= j < |items| ensures Equal(num, items[j], b[j]) {
      if j != i { EqualIsReflexiveIff(num, items[j]); }
    }
  }

  lemma {:induction false} NullDropped(num: Numeral, fields: Fields, k: string, name: string)
    requires k in fields && fields[k].Null? && name !in fields && NanFree(num, Map(fields))
    ensures var b := (fields - {k})[name := Num(5)];
      Equal(num, Map(fields), Map(b)) && !Equal(num, Map(b), Map(fields))
  {
    var rest := fields - {k};
    var b := Map(rest[name := Num(5)]);
    assert rest.Keys == fields.Keys - {k} && b.fields.Keys == rest.Keys + {name};
    assert |b.fields.Keys| == |fields.Keys|;
    forall j | j in fields ensures Equal(num, fields[j], FieldOr(b, j)) {
      if j != k { EqualIsReflexiveIff(num, fields[j]); }
    }
    assert name in b.fields && !Equal(num, Num(5), FieldOr(Map(fields), name));
  }

  /** A tree with a null field and no NaN equals another tree: the null can be dropped for a value under a
      name that was not there. The other tree does not equal the first. */
  lemma {:induction false} NullFieldHidesAValue(num: Numeral, a: Value) returns (b: Value)
    requires !NullFieldFree(a) && NanFree(num, a)
    ensures Equal(num, a, b) && a != b && !Equal(num, b, a)
    ensures NumeralFree(num, a) ==> NumeralFree(num, b)
    ensures a.Map? ==> b.Map?
    decreases a
  {
    hide Equal;
    if a.Map? {
      var k :| k in a.fields && (a.fields[k].Null? || !NullFieldFree(a.fields[k]));
      if a.fields[k].Null? {
        var name := UnusedName(a.fields.Keys);
        NullDropped(num, a.fields, k, name);
        b := Map((a.fields - {k})[name := Num(5)]);
        assert name in b.fields && name !in a.fields;
      } else {
        var c := NullFieldHidesAValue(num, a.fields[k]);
        FieldSwapped(num, a.fields, k, c);
        b := Map(a.fields[k := c]);
      }
    } else {
      var i :| 0 <= i < |a.items| && !NullFieldFree(a.items[i]);
      var c := NullFieldHidesAValue(num, a.items[i]);
      ItemSwapped(num, a.items, i, c);
      b := List(a.items[i := c]);
    }
  }

  /** Among trees without number-like texts, equal decides equality with a given first tree exactly when
      no map field of that tree is null. */
  lemma {:induction false} EqualDecidesIff(num: Numeral, a: Value)
    requires NumeralFree(num, a)
    ensures (forall b | NumeralFree(num, b) :: Equal(num, a, b) <==> a == b) <==> NullFieldFree(a)
  {
    hide Equal, NullFieldFree, NumeralFree, NanFree;
    if NullFieldFree(a) {
      forall b | NumeralFree(num, b) ensures Equal(num, a, b) <==> a == b { EqualIsEquality(num, a, b); }
    } else {
      NumeralFreeIsNanFree(num, a);
      var b := NullFieldHidesAValue(num, a);
    }
  }

  // ----------------------------------------------------------------------- symmetry

  lemma {:induction false} EqualTurnsRound(num: Numeral, a: Value, b: Value)
    requires Equal(num, a, b) && NullFieldFree(a)
    ensures Equal(num, b, a)
    decreases a
  {
    if a.Map? {
      forall k | k in a.fields ensures k in b.fields && Equal(num, b.fields[k], a.fields[k]) {
        EqualTurnsRound(num, a.fields[k], FieldOr(b, k));
        assert !Equal(num, a.fields[k], Null);
      }
      assert a.fields.Keys <= b.fields.Keys && |a.fields.Keys| == |b.fields.Keys|;
      SubsetOfSameSize(a.fields.Keys, b.fields.Keys);
      forall k | k in b.fields ensures Equal(num, b.fields[k], FieldOr(a, k)) {}
    } else if a.List? {
      forall i | 0 <= i < |a.items| ensures Equal(num, b.items[i], a.items[i]) { EqualTurnsRound(num, a.items[i], b.items[i]); }
    }
  }

  /** The comparison with a given first tree can be turned round exactly when no map field of it is null,
      or it holds a NaN and equals nothing. */
  lemma {:induction false} EqualIsSymmetricIff(num: Numeral, a: Value)
    ensures (forall b | Equal(num, a, b) :: Equal(num, b, a)) <==> NullFieldFree(a) || !NanFree(num, a)
  {
    hide Equal, NullFieldFree, NanFree;
    if !NanFree(num, a) {
      forall b ensures !Equal(num, a, b) { NanEqualsNothing(num, a, b); }
    } else if NullFieldFree(a) {
      forall b | Equal(num, a, b) ensures Equal(num, b, a) { EqualTurnsRound(num, a, b); }
    } else {
      var b := NullFieldHidesAValue(num, a);
    }
  }

  // ------------------------------------------------------------------- all trees

  /** Two different scalars compare as equal exactly when both parse as numbers, not both integers, and as
      the same number, which is not a NaN. */
  lemma {:induction false} ScalarsEqualIff(num: Numeral, a: Value, b: Value)
    requires IsScalar(a) && IsScalar(b) && a != b
    ensures Equal(num, a, b) <==> SameFloat(num, a, b)
  {
  }

  /** A scalar that is not a NaN and shares its number with no other scalar. */
  ghost predicate Alone(num: Numeral, x: Value) {
    FloatOf(num, x) != Some(NaN) && forall y | IsScalar(y) && y != x :: !SameFloat(num, x, y)
  }

  /** No field is null, no text is a NaN, and no leaf shares its number with another scalar. */
  ghost predicate Unmistakable(num: Numeral, v: Value) {
    match v
    case List(items) => forall i | 0 <= i < |items| :: Unmistakable(num, items[i])
    case Map(fields) => forall k | k in fields :: !fields[k].Null? && Unmistakable(num, fields[k])
    case _ => Alone(num, v)
  }

  lemma {:induction false} UnmistakableIsDecided(num: Numeral, a: Value, b: Value)
    requires Unmistakable(num, a)
    ensures Equal(num, a, b) <==> a == b
    decreases a
  {
    match a
    case Map(fields) =>
      if b.Map? {
        forall k | k in fields ensures Equal(num, fields[k], FieldOr(b, k)) <==> fields[k] == FieldOr(b, k) {
          UnmistakableIsDecided(num, fields[k], FieldOr(b, k));
        }
        if Equal(num, a, b) {
          assert fields.Keys <= b.fields.Keys && |fields.Keys| == |b.fields.Keys|;
          SubsetOfSameSize(fields.Keys, b.fields.Keys);
          assert fields == b.fields;
        }
      }
    case List(items) =>
      if b.List? && |items| == |b.items| {
        forall i | 0 <= i < |items| ensures Equal(num, items[i], b.items[i]) <==> items[i] == b.items[i] {
          UnmistakableIsDecided(num, items[i], b.items[i]);
        }
      }
    case _ =>
      if IsScalar(b) && a != b { ScalarsEqualIff(num, a, b); }
      EqualIsReflexiveIff(num, a);
  }

  lemma {:induction false} MistakenFor(num: Numeral, a: Value) returns (b: Value)
    requires !Unmistakable(num, a) && NullFieldFree(a) && NanFree(num, a)
    ensures Equal(num, a, b) && a != b
    decreases a
  {
    hide Equal;
    if a.Map? {
      var k :| k in a.fields && !Unmistakable(num, a.fields[k]);
      var c := MistakenFor(num, a.fields[k]);
      FieldSwapped(num, a.fields, k, c);
      b := Map(a.fields[k := c]);
    } else if a.List? {
      var i :| 0 <= i < |a.items| && !Unmistakable(num, a.items[i]);
      var c := MistakenFor(num, a.items[i]);
      ItemSwapped(num, a.items, i, c);
      b := List(a.items[i := c]);
    } else {
      b :| IsScalar(b) && b != a && SameFloat(num, a, b);
      ScalarsEqualIff(num, a, b);
    }
  }

  /** With no restriction on either tree: equal decides equality with a given first tree exactly when no
      field of it is null, no text of it is a NaN, and no leaf of it shares its number with another
      scalar. */
  lemma {:induction false} EqualDecidesAllIff(num: Numeral, a: Value)
    ensures (forall b :: Equal(num, a, b) <==> a == b) <==> Unmistakable(num, a)
  {
    hide Equal, NullFieldFree, Unmistakable, NanFree;
    EqualIsReflexiveIff(num, a);
    if Unmistakable(num, a) {
      forall b ensures Equal(num, a, b) <==> a == b { UnmistakableIsDecided(num, a, b); }
    } else if !NanFree(num, a) {
      assert !Equal(num, a, a);
    } else if NullFieldFree(a) {
      var b := MistakenFor(num, a);
    } else {
      var b := NullFieldHidesAValue(num, a);
    }
  }

  lemma {:induction false} PlainIsDecided(num: Numeral, v: Value)
    requires Plain(num, v)
    ensures NumeralFree(num, v) && NullFieldFree(v)
    decreases v
  {
    match v
    case Map(fields) => forall k | k in fields ensures NumeralFree(num, fields[k]) && NullFieldFree(fields[k]) { PlainIsDecided(num, fields[k]); }
    case List(items) => forall i | 0 <= i < |items| ensures NumeralFree(num, items[i]) && NullFieldFree(items[i]) { PlainIsDecided(num, items[i]); }
    case _ =>
  }

  lemma {:induction false} NullIsUnequal(num: Numeral, v: Value)
    requires Plain(num, v)
    ensures !Equal(num, v, Null) && !Equal(num, Null, v)
  {
  }

  lemma {:induction false} AgreeIsReflexive(a: Value)
    ensures Agree(a, a)
    decreases a
  {
    if a.Map? {
      forall k | k in a.fields ensures Agree(a.fields[k], a.fields[k]) { AgreeIsReflexive(a.fields[k]); }
    } else if a.List? {
      forall i | 0 <= i < |a.items| ensures AgreesWithSome(a.items[i], a.items) && SomeAgrees(a, a.items[i]) {
        AgreeIsReflexive(a.items[i]);
      }
    }
  }

  // --------------------------------------------------------------- entries by name

  function IdOf(n: string): string { PrintKeys(ByName(n)) }

  lemma {:induction false} NamedEntryId(p: Path, item: Value)
    requires p.segments != [] && IsNamed(item)
    ensures EntryId(p, item) == IdOf(NameOf(item))
  {
    NamedItemKeys(item);
  }

  lemma {:induction false} IdIsInjective(m: string, n: string)
    requires '\'' !in m && '\'' !in n && IdOf(m) == IdOf(n)
    ensures m == n
  {
    ReadKeyBack(Key("name", m), "");
    ReadKeyBack(Key("name", n), "");
    IdText(m);
    IdText(n);
    hide ReadKey, IdOf, PrintKey;
    assert ReadKey(IdOf(m)) == Parsed(Key("name", m), "");
    assert ReadKey(IdOf(n)) == Parsed(Key("name", n), "");
  }

  lemma {:induction false} IdText(n: string)
    ensures IdOf(n) == PrintKey(Key("name", n)) + ""
  {
    assert ByName(n)[0] == Key("name", n) && PrintKeys(ByName(n)[1..]) == "";
  }

  predicate Entries(items: seq<Value>) {
    DistinctlyNamed(items) && forall i | 0 <= i < |items| :: '\'' !in NameOf(items[i])
  }

  predicate HasName(items: seq<Value>, n: string)
    requires forall i | 0 <= i < |items| :: IsNamed(items[i])
  {
    exists i | 0 <= i < |items| :: NameOf(items[i]) == n
  }

  /** The ids of named entries tell the names apart. */
  lemma {:induction false} NamedIds(p: Path, items: seq<Value>)
    requires p.segments != []
    requires forall i | 0 <= i < |items| :: IsNamed(items[i]) && '\'' !in NameOf(items[i])
    ensures forall i | 0 <= i < |items| :: EntryIds(p, items)[i] == IdOf(NameOf(items[i]))
    ensures forall i, n | 0 <= i < |items| && '\'' !in n :: EntryIds(p, items)[i] == IdOf(n) <==> NameOf(items[i]) == n
  {
    hide EntryId, IdOf;
    forall i | 0 <= i < |items| ensures EntryIds(p, items)[i] == IdOf(NameOf(items[i])) {
      NamedEntryId(p, items[i]);
    }
    forall i, n | 0 <= i < |items| && '\'' !in n ensures EntryIds(p, items)[i] == IdOf(n) <==> NameOf(items[i]) == n {
      if EntryIds(p, items)[i] == IdOf(n) { IdIsInjective(NameOf(items[i]), n); }
    }
  }

  /** On a list of distinctly named entries the id finds the entry of that name. */
  lemma {:induction false} LastWithName(p: Path, items: seq<Value>, n: string)
    requires p.segments != [] && Entries(items) && '\'' !in n
    ensures var r := LastWith(p, items, IdOf(n));
      && (r.Some? ==> NameOf(items[r.value]) == n)
      && (r.None? ==> !HasName(items, n))
    ensures forall i | 0 <= i < |items| && NameOf(items[i]) == n :: LastWith(p, items, IdOf(n)) == Some(i)
  {
    hide EntryIds, IdOf;
    NamedIds(p, items);
  }

  lemma {:induction false} KeysOfFirstByName(p: Path, items: seq<Value>, n: string)
    requires p.segments != [] && '\'' !in n
    requires forall i | 0 <= i < |items| :: IsNamed(items[i]) && '\'' !in NameOf(items[i])
    requires HasName(items, n)
    ensures IdOf(n) in EntryIds(p, items) && KeysOfFirst(p, items, IdOf(n)) == ByName(n)
  {
    hide EntryIds, IdOf;
    NamedIds(p, items);
    var j :| 0 <= j < |items| && NameOf(items[j]) == n;
    assert EntryIds(p, items)[j] == IdOf(n);
    var i := FirstIndex(EntryIds(p, items), IdOf(n));
    NamedItemKeys(items[i]);
  }
}
