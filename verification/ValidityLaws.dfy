/** What validation promises a reader, type by type: whatever is read at a declared place of a validating
    tree is of the declared type; and validity of a whole tree is nothing but that, place by place. */
module ValidityLaws {
  import opened Text
  import opened Paths
  import opened Values
  import opened Schemas
  import opened Edits
  import opened EditValidity
  import opened EditLaws
  import opened ApplyLaws

  // ------------------------------------------------------------- what a type means

  /** The values of each declared type. */
  predicate IsOfType(s: Schema, typ: LeafType, v: Value) {
    match typ
    case String | Identityref | Enumeration => v.Str?
    case Boolean => v == Bool(true) || v == Bool(false)
    case Int32 => v.Num? && -2147483648 <= v.n <= 2147483647
    case Int64 => v.Num? && -9223372036854775808 <= v.n <= 9223372036854775807
    case Uint32 => v.Num? && 0 <= v.n <= 4294967295
    case Uint64 => v.Num? && 0 <= v.n <= 18446744073709551615
    case Decimal64 => v.Num? || (v.Str? && s.numeral(v.s) != None)
    case Empty => v == Null || v == Bool(true) || v == Map(map[]) || v == List([]) || v == List([Null])
    case LeafList => v.List? && forall i | 0 <= i < |v.items| :: !v.items[i].Map? && !v.items[i].List?
    case ListOf => v.List? || v.Map?
    case Container => v.Map? || v == Null
  }

  /** A pattern is for texts and a range for numbers, texts that parse as numbers included. */
  predicate MeetsLimits(s: Schema, e: Entry, v: Value) {
    && (e.pattern.Some? ==> v.Str? && e.pattern.value(v.s))
    && (e.range.Some? ==> (v.Num? || (v.Str? && s.numeral(v.s) != None)) && e.range.value(v))
  }

  /** What validation asks of the value at a declared place. A computed leaf may hold anything, and
      pattern and range of a list are not looked at. */
  predicate Fits(s: Schema, e: Entry, v: Value) {
    || (e.computed && IsLeaf(e.typ))
    || (IsOfType(s, e.typ, v) && (e.typ.ListOf? || MeetsLimits(s, e, v)))
  }

  lemma {:induction false} CheckedIsTyped(s: Schema, e: Entry, v: Value)
    ensures CheckValue(s, e, v) <==> IsOfType(s, e.typ, v) && MeetsLimits(s, e, v)
  {
  }

  /** The value at a declared place of a validating tree fits. */
  lemma {:induction false} PlaceFits(s: Schema, at: Place, v: Value)
    requires SchemaKey(at) in s.byPath && Valid(s, at, v)
    ensures Fits(s, s.byPath[SchemaKey(at)], v)
  {
    CheckedIsTyped(s, s.byPath[SchemaKey(at)], v);
  }

  // ------------------------------------------------------------------ typed reads

  /** No place above the end of the path is declared as a computed leaf, below which nothing is
      validated. */
  predicate OpenToValidation(s: Schema, p: Path) { forall i | 0 <= i < |p.segments| :: !Shielded(s, At(p, i)) }

  /** A step of a read from a map keeps within validated children. */
  lemma {:induction false} StepStaysValid(s: Schema, at: Place, cur: Value, seg: Segment)
    requires cur.Map? && ValidChildren(s, at, cur) && GetStep(cur, seg).Some?
    requires GetStep(cur, seg).value.Map? && GetStep(cur, seg).value.fields != map[] && !Shielded(s, Child(at, seg.name))
    ensures ValidChildren(s, Child(at, seg.name), GetStep(cur, seg).value)
  {
    var to, w := Child(at, seg.name), cur.fields[seg.name];
    assert Valid(s, to, w);
    if seg.keys == [] {
      MapValidIff(s, to, w);
    } else {
      ListValidIff(s, to, w.items, ListIndex(w.items, seg.keys).value);
    }
  }

  /** What a path may read at a declared place: a value that fits, and an entry if it asks for one. */
  predicate ReadFits(s: Schema, e: Entry, keyed: bool, v: Value) {
    Fits(s, e, v) && (keyed && !(e.computed && IsLeaf(e.typ)) ==> e.typ.ListOf? && v.Map?)
  }

  /** The last step, which ends on the declared place. */
  lemma {:induction false} LastReadFits(s: Schema, at: Place, cur: Value, seg: Segment)
    requires cur.Map? && ValidChildren(s, at, cur) && SchemaKey(Child(at, seg.name)) in s.byPath && GetStep(cur, seg).Some?
    ensures ReadFits(s, s.byPath[SchemaKey(Child(at, seg.name))], seg.keys != [], GetStep(cur, seg).value)
  {
    var to, w := Child(at, seg.name), cur.fields[seg.name];
    var e := s.byPath[SchemaKey(to)];
    assert Valid(s, to, w);
    PlaceFits(s, to, w);
    hide Valid, MeetsLimits, SchemaKey;
    if seg.keys != [] && !(e.computed && IsLeaf(e.typ)) {
      var i := ListIndex(w.items, seg.keys).value;
      assert w.List? && w.items[i].Map?;
      assert !e.typ.LeafList? && !e.typ.Empty?;
    }
  }

  lemma {:induction false} ReadBelowFits(s: Schema, p: Path, i: nat, cur: Value)
    requires p.modName != "" && OpenToValidation(s, p) && SchemaKey(PlaceOf(p)) in s.byPath && i < |p.segments|
    requires cur.Map? && ValidChildren(s, At(p, i), cur)
    requires AvoidsLists(cur, p.segments[i..]) && GetSteps(cur, p.segments[i..]).Some?
    ensures ReadFits(s, s.byPath[SchemaKey(PlaceOf(p))], p.segments[|p.segments| - 1].keys != [], GetSteps(cur, p.segments[i..]).value)
    decreases |p.segments| - i
  {
    hide Valid, ValidChildren, At, ReadFits, Shielded, StepInto, SchemaKey;
    var seg, rest := p.segments[i], p.segments[i + 1..];
    assert p.segments[i..][0] == seg && p.segments[i..][1..] == rest;
    ChildOfPrefix(p, i);
    var next := GetStep(cur, seg).value;
    if i + 1 == |p.segments| {
      hide GetStep;
      LastReadFits(s, At(p, i), cur, seg);
    } else {
      StepIntoReads(cur.fields, seg);
      assert next.Map? && rest[0].name in next.fields;
      hide GetStep;
      StepStaysValid(s, At(p, i), cur, seg);
      ReadBelowFits(s, p, i + 1, next);
    }
  }

  lemma {:induction false} ReadFitsWhole(s: Schema, root: Fields, p: Path)
    requires "" !in s.byPath && Valid(s, TOP, Map(root))
    requires p.modName != "" && OpenToValidation(s, p) && SchemaKey(PlaceOf(p)) in s.byPath
    requires Get(root, p).Some? && AvoidsLists(root[p.modName], p.segments)
    ensures ReadFits(s, s.byPath[SchemaKey(PlaceOf(p))], p.segments != [] && p.segments[|p.segments| - 1].keys != [], Get(root, p).value)
  {
    hide ReadFits, ValidChildren, Valid, Shielded, Fits, SchemaKey;
    var v := root[p.modName];
    ModuleIsValid(s, root, p);
    if p.segments == [] {
      PlaceFits(s, PlaceOf(p), v);
      UnkeyedFits(s, s.byPath[SchemaKey(PlaceOf(p))], v);
    } else {
      assert v.Map? && p.segments[0].name in v.fields;
      MapIsInside(s, At(p, 0), v);
      assert p.segments[0..] == p.segments;
      ReadBelowFits(s, p, 0, v);
    }
  }

  lemma {:induction false} UnkeyedFits(s: Schema, e: Entry, v: Value)
    requires Fits(s, e, v)
    ensures ReadFits(s, e, false, v)
  {
  }

  /** In a validating tree, whatever a path reads at a declared place that is not a computed leaf is of
      the declared type, meets pattern and range if the type is not a list, and is a map if the path asks
      for a list entry. */
  lemma {:induction false} ReadIsTyped(s: Schema, root: Fields, p: Path)
    requires "" !in s.byPath && Valid(s, TOP, Map(root))
    requires p.modName != "" && OpenToValidation(s, p) && Declared(s, p) && !Shielded(s, PlaceOf(p))
    requires Get(root, p).Some? && AvoidsLists(root[p.modName], p.segments)
    ensures var e, v := Declaration(s, p), Get(root, p).value;
      && IsOfType(s, e.typ, v)
      && (!e.typ.ListOf? ==> MeetsLimits(s, e, v))
      && (p.segments != [] && p.segments[|p.segments| - 1].keys != [] ==> e.typ.ListOf? && v.Map?)
  {
    hide Valid, IsOfType, MeetsLimits, SchemaKey;
    ReadFitsWhole(s, root, p);
  }

  /** A write to a declared writable leaf or leaf-list succeeds exactly when the value is of its type and
      meets its pattern and range; if the path puts a predicate on the leaf, a map is not taken. */
  lemma {:induction false} LeafReplaceSucceedsIff(s: Schema, root: Fields, p: Path, value: Value)
    requires p.modName != "" && Declared(s, p)
    requires var e := Declaration(s, p); (IsLeaf(e.typ) || e.typ.LeafList?) && !e.computed && !e.readAccess
    ensures var r, e := Apply(Some(s), root, Replace, p, value), Declaration(s, p);
      var keyed := p.segments != [] && p.segments[|p.segments| - 1].keys != [];
      && (r.Ok? <==> IsOfType(s, e.typ, value) && MeetsLimits(s, e, value) && (keyed ==> IsLeaf(e.typ) && !value.Map?))
      && (r.Err? ==> r == Err(ValidationFailed))
  {
    var e, stored := Declaration(s, p), Stored(root, p, value, false);
    var keyed := p.segments != [] && p.segments[|p.segments| - 1].keys != [];
    OutcomeIsExact(Some(s), root, Replace, p, value);
    LeafTakes(s, p, stored);
    CheckedIsTyped(s, e, value);
    hide SchemaKey, Apply, Known, MeetsLimits, CheckValue, Takes;
    if keyed && value.Map? {
      MergedOverlay(value.fields, p.segments[|p.segments| - 1].keys);
      hide Overlay;
      LeafIsNoMap(s, p, stored);
    } else {
      assert stored == value;
    }
  }

  lemma {:induction false} LeafTakes(s: Schema, p: Path, v: Value)
    requires Declared(s, p) && !Declaration(s, p).computed && (IsLeaf(Declaration(s, p).typ) || Declaration(s, p).typ.LeafList?)
    ensures Takes(Some(s), p, v) <==> CheckValue(s, Declaration(s, p), v)
  {
    hide CheckValue, SchemaKey;
  }

  lemma {:induction false} LeafIsNoMap(s: Schema, p: Path, v: Value)
    requires Declared(s, p) && !Declaration(s, p).computed && (IsLeaf(Declaration(s, p).typ) || Declaration(s, p).typ.LeafList?)
    requires v.Map? && v.fields != map[]
    ensures !Takes(Some(s), p, v)
  {
    hide SchemaKey;
  }

  lemma {:induction false} ModuleIsValid(s: Schema, root: Fields, p: Path)
    requires "" !in s.byPath && Valid(s, TOP, Map(root)) && p.modName in root
    ensures Valid(s, At(p, 0), root[p.modName])
    ensures p.segments == [] ==> At(p, 0) == PlaceOf(p)
  {
    assert SchemaKey(TOP) == "" && ValidChildren(s, TOP, Map(root));
    assert Child(TOP, p.modName) == At(p, 0) by { assert StripKeys(p.segments)[..0] == []; }
  }

  lemma {:induction false} MapIsInside(s: Schema, at: Place, v: Value)
    requires Valid(s, at, v) && v.Map? && v.fields != map[] && !Shielded(s, at)
    ensures ValidChildren(s, at, v)
  {
    MapValidIff(s, at, v);
  }

  // ------------------------------------------------------- validity, place by place

  /** One step into a value: a map field, or an item of a list, which keeps the list's place. */
  datatype Pos = Field(k: string) | Item(i: nat)

  function Sub(v: Value, pos: Pos): Option<Value> {
    match pos
    case Field(k) => if v.Map? && k in v.fields then Some(v.fields[k]) else None
    case Item(i) => if v.List? && i < |v.items| then Some(v.items[i]) else None
  }

  function Below(at: Place, pos: Pos): Place { if pos.Field? then Child(at, pos.k) else at }

  function ValueAt(v: Value, q: seq<Pos>): Option<Value> {
    if q == [] then Some(v)
    else match Sub(v, q[0])
      case None => None
      case Some(w) => ValueAt(w, q[1..])
  }

  function PlaceAt(at: Place, q: seq<Pos>): Place
    decreases |q|
  {
    if q == [] then at else PlaceAt(Below(at, q[0]), q[1..])
  }

  /** Nothing below a leaf or a leaf-list is looked at. */
  predicate Closed(s: Schema, at: Place) {
    SchemaKey(at) in s.byPath && (IsLeaf(s.byPath[SchemaKey(at)].typ) || s.byPath[SchemaKey(at)].typ.LeafList?)
  }

  /** The way to a position passes no closed place. */
  predicate Open(s: Schema, at: Place, q: seq<Pos>)
    decreases |q|
  {
    q == [] || (!Closed(s, at) && Open(s, Below(at, q[0]), q[1..]))
  }

  predicate FitsAt(s: Schema, at: Place, v: Value) { SchemaKey(at) in s.byPath ==> Fits(s, s.byPath[SchemaKey(at)], v) }

  /** Positions whose value stands at its place as a whole. The items of a list do not; those of a list
      that is itself an item do again. */
  predicate Stands(q: seq<Pos>)
    decreases |q|
  {
    if q == [] then true
    else if q[0].Field? then Stands(q[1..])
    else |q| > 1 && Stands(q[2..])
  }

  ghost predicate AllFit(s: Schema, at: Place, v: Value) {
    forall q: seq<Pos> | ValueAt(v, q).Some? && Open(s, at, q) && Stands(q) :: FitsAt(s, PlaceAt(at, q), ValueAt(v, q).value)
  }

  /** What is one step below a value that is entered all fits. */
  ghost predicate ChildrenFit(s: Schema, at: Place, v: Value) {
    forall pos | Sub(v, pos).Some? :: AllFit(s, Below(at, pos), Sub(v, pos).value)
  }

  /** A value that holds nothing, or stands at a closed place, needs only fit itself. */
  lemma {:induction false} ClosedFits(s: Schema, at: Place, v: Value)
    requires Closed(s, at) || IsScalar(v)
    ensures AllFit(s, at, v) <==> FitsAt(s, at, v)
  {
    hide FitsAt, Closed;
    assert ValueAt(v, []) == Some(v) && PlaceAt(at, []) == at;
    if FitsAt(s, at, v) {
      forall q: seq<Pos> | ValueAt(v, q).Some? && Open(s, at, q) && Stands(q) ensures FitsAt(s, PlaceAt(at, q), ValueAt(v, q).value) {}
    } else {
      assert Open(s, at, []) && Stands([]);
    }
  }

  lemma {:induction false} OneDown(s: Schema, at: Place, v: Value, pos: Pos, q: seq<Pos>)
    requires Sub(v, pos).Some?
    ensures ValueAt(v, [pos] + q) == ValueAt(Sub(v, pos).value, q) && PlaceAt(at, [pos] + q) == PlaceAt(Below(at, pos), q)
    ensures Open(s, at, [pos] + q) <==> !Closed(s, at) && Open(s, Below(at, pos), q)
    ensures pos.Field? ==> (Stands([pos] + q) <==> Stands(q))
    ensures pos.Item? ==> (Stands([pos] + q) <==> q != [] && Stands(q[1..]))
  {
    assert ([pos] + q)[1..] == q && (q != [] ==> ([pos] + q)[2..] == q[1..]);
  }

  lemma {:induction false} MapFits(s: Schema, at: Place, v: Value)
    requires v.Map? && !Closed(s, at)
    ensures AllFit(s, at, v) <==> FitsAt(s, at, v) && ChildrenFit(s, at, v)
  {
    hide FitsAt, Closed, ValueAt, PlaceAt, Open, Stands;
    Here(s, at, v);
    if AllFit(s, at, v) {
      forall pos, q: seq<Pos> | Sub(v, pos).Some? && ValueAt(Sub(v, pos).value, q).Some? && Open(s, Below(at, pos), q) && Stands(q)
        ensures FitsAt(s, PlaceAt(Below(at, pos), q), ValueAt(Sub(v, pos).value, q).value)
      {
        OneDown(s, at, v, pos, q);
      }
    }
    if FitsAt(s, at, v) && ChildrenFit(s, at, v) {
      forall q: seq<Pos> | ValueAt(v, q).Some? && Open(s, at, q) && Stands(q) ensures FitsAt(s, PlaceAt(at, q), ValueAt(v, q).value) {
        if q != [] {
          ReadsSub(v, q);
          assert q == [q[0]] + q[1..];
          OneDown(s, at, v, q[0], q[1..]);
          assert AllFit(s, Below(at, q[0]), Sub(v, q[0]).value);
        }
      }
    }
  }

  lemma {:induction false} ReadsSub(v: Value, q: seq<Pos>)
    requires q != [] && ValueAt(v, q).Some?
    ensures Sub(v, q[0]).Some?
  {
  }

  lemma {:induction false} Here(s: Schema, at: Place, v: Value)
    ensures ValueAt(v, []) == Some(v) && PlaceAt(at, []) == at && Open(s, at, []) && Stands([])
  {
  }

  lemma {:induction false} ListFits(s: Schema, at: Place, v: Value)
    requires v.List? && !Closed(s, at)
    ensures AllFit(s, at, v) <==> FitsAt(s, at, v) && forall i | 0 <= i < |v.items| :: ChildrenFit(s, at, v.items[i])
  {
    hide FitsAt, Closed, AllFit, ChildrenFit;
    if AllFit(s, at, v) {
      AllFitHere(s, at, v);
      forall i | 0 <= i < |v.items| ensures ChildrenFit(s, at, v.items[i]) { BelowItemsFit(s, at, v, i); }
    }
    if FitsAt(s, at, v) && forall i | 0 <= i < |v.items| :: ChildrenFit(s, at, v.items[i]) { ItemsFit(s, at, v); }
  }

  lemma {:induction false} AllFitHere(s: Schema, at: Place, v: Value)
    requires AllFit(s, at, v)
    ensures FitsAt(s, at, v)
  {
    Here(s, at, v);
  }

  lemma {:induction false} BelowItemsFit(s: Schema, at: Place, v: Value, i: nat)
    requires v.List? && !Closed(s, at) && AllFit(s, at, v) && i < |v.items|
    ensures ChildrenFit(s, at, v.items[i])
  {
    hide FitsAt, Closed, ValueAt, PlaceAt, Open, Stands;
    var item := v.items[i];
    forall pos, q: seq<Pos> | Sub(item, pos).Some? && ValueAt(Sub(item, pos).value, q).Some? && Open(s, Below(at, pos), q) && Stands(q)
      ensures FitsAt(s, PlaceAt(Below(at, pos), q), ValueAt(Sub(item, pos).value, q).value)
    {
      OneDown(s, at, item, pos, q);
      OneDown(s, at, v, Item(i), [pos] + q);
      assert ([pos] + q)[1..] == q;
    }
  }

  lemma {:induction false} ItemsFit(s: Schema, at: Place, v: Value)
    requires v.List? && !Closed(s, at) && FitsAt(s, at, v) && forall i | 0 <= i < |v.items| :: ChildrenFit(s, at, v.items[i])
    ensures AllFit(s, at, v)
  {
    hide FitsAt, Closed, ValueAt, PlaceAt, Open, Stands, ChildrenFit;
    Here(s, at, v);
    forall q: seq<Pos> | ValueAt(v, q).Some? && Open(s, at, q) && Stands(q) ensures FitsAt(s, PlaceAt(at, q), ValueAt(v, q).value) {
      if q != [] { BelowItemFits(s, at, v, q); }
    }
  }

  lemma {:induction false} BelowItemFits(s: Schema, at: Place, v: Value, q: seq<Pos>)
    requires v.List? && !Closed(s, at) && forall i | 0 <= i < |v.items| :: ChildrenFit(s, at, v.items[i])
    requires q != [] && ValueAt(v, q).Some? && Open(s, at, q) && Stands(q)
    ensures FitsAt(s, PlaceAt(at, q), ValueAt(v, q).value)
  {
    hide FitsAt, Closed, ValueAt, PlaceAt, Open, Stands;
    ReadsSub(v, q);
    var item, rest := v.items[q[0].i], q[1..];
    assert q == [q[0]] + rest;
    OneDown(s, at, v, q[0], rest);
    ReadsSub(item, rest);
    assert rest == [rest[0]] + rest[1..];
    OneDown(s, at, item, rest[0], rest[1..]);
    assert ChildrenFit(s, at, item);
    assert AllFit(s, Below(at, rest[0]), Sub(item, rest[0]).value);
  }

  /** A value validates exactly when the value at every declared place it reaches fits that place. */
  lemma {:induction false} ValidIffAllFit(s: Schema, at: Place, v: Value)
    ensures Valid(s, at, v) <==> AllFit(s, at, v)
    decreases v, 1
  {
    hide AllFit, ChildrenFit, Fits;
    if Closed(s, at) || IsScalar(v) {
      ClosedFits(s, at, v);
      ClosedIsValid(s, at, v);
    } else if v.Map? {
      MapFits(s, at, v);
      ChildrenValidIff(s, at, v);
      MapIsValidIff(s, at, v);
    } else {
      ListFits(s, at, v);
      forall i | 0 <= i < |v.items| ensures ValidChildren(s, at, v.items[i]) <==> ChildrenFit(s, at, v.items[i]) {
        ChildrenValidIff(s, at, v.items[i]);
      }
      ListIsValidIff(s, at, v);
    }
  }

  lemma {:induction false} ChildrenValidIff(s: Schema, at: Place, v: Value)
    ensures ValidChildren(s, at, v) <==> ChildrenFit(s, at, v)
    decreases v, 0
  {
    hide AllFit, Valid;
    match v
    case Map(fields) =>
      forall k | k in fields ensures Valid(s, Child(at, k), fields[k]) <==> AllFit(s, Child(at, k), fields[k]) {
        ValidIffAllFit(s, Child(at, k), fields[k]);
      }
      forall k | k in fields ensures Sub(v, Field(k)) == Some(fields[k]) {}
    case List(items) =>
      forall i | 0 <= i < |items| ensures Valid(s, at, items[i]) <==> AllFit(s, at, items[i]) {
        ValidIffAllFit(s, at, items[i]);
      }
      forall i | 0 <= i < |items| ensures Sub(v, Item(i)) == Some(items[i]) {}
    case _ =>
  }

  /** Why it is every other level of lists that stands: a declared list takes scalars, but not a list of
      scalars. */
  lemma {:induction false} NestedScalarsAreRefused(s: Schema, at: Place, v: Value)
    requires DeclaredAs(s, at, ListOf) && IsScalar(v)
    ensures Valid(s, at, List([v])) && !Valid(s, at, List([List([v])]))
  {
    var inner := List([v]);
    assert ValidChildren(s, at, v) && List([inner]).items[0] == inner;
    assert !Valid(s, at, v) && inner.items[0] == v;
    assert !ValidChildren(s, at, inner);
  }

  lemma {:induction false} ClosedIsValid(s: Schema, at: Place, v: Value)
    requires Closed(s, at) || IsScalar(v)
    ensures Valid(s, at, v) <==> FitsAt(s, at, v)
  {
    if SchemaKey(at) in s.byPath { CheckedIsTyped(s, s.byPath[SchemaKey(at)], v); }
  }

  lemma {:induction false} MapIsValidIff(s: Schema, at: Place, v: Value)
    requires v.Map? && !Closed(s, at)
    ensures Valid(s, at, v) <==> FitsAt(s, at, v) && ValidChildren(s, at, v)
  {
    if SchemaKey(at) in s.byPath { CheckedIsTyped(s, s.byPath[SchemaKey(at)], v); }
  }

  lemma {:induction false} ListIsValidIff(s: Schema, at: Place, v: Value)
    requires v.List? && !Closed(s, at)
    ensures Valid(s, at, v) <==> FitsAt(s, at, v) && forall i | 0 <= i < |v.items| :: ValidChildren(s, at, v.items[i])
  {
    if SchemaKey(at) in s.byPath {
      CheckedIsTyped(s, s.byPath[SchemaKey(at)], v);
    } else {
      assert Valid(s, at, v) == ValidChildren(s, at, v);
      assert forall i | 0 <= i < |v.items| :: Valid(s, at, v.items[i]) == ValidChildren(s, at, v.items[i]);
    }
  }

  // ------------------------------------------- why no step may start from a list

  const MISREAD := Path("m", [Segment("l", []), Segment("x", [Key("k", "1")])])

  /** A keyed step that stands on a list picks its entry whatever the step is called: the path of a text
      leaf reads a map. */
  lemma {:induction false} MisnamedStepReadsAnEntry()
    ensures var root := map["m" := Map(map["l" := List([Map(map["k" := Str("1")])])])];
      Get(root, MISREAD) == Some(Map(map["k" := Str("1")]))
      && forall s: Schema | s.byPath == map["m:l" := Entry(ListOf, false, false, None, None), "m:l/x" := Entry(String, false, false, None, None)] ::
           Valid(s, TOP, Map(root)) && Declared(s, MISREAD) && !IsOfType(s, Declaration(s, MISREAD).typ, Get(root, MISREAD).value)
  {
    var entry := Map(map["k" := Str("1")]);
    var list := List([entry]);
    var root := map["m" := Map(map["l" := list])];
    var step, keys := MISREAD.segments[1], [Key("k", "1")];
    assert IsMatch(entry, keys);
    ListIndexIs([entry], keys, 0);
    assert MISREAD.segments[1..] == [step] && [step][1..] == [];
    assert GetStep(list, step) == Some(entry);
    assert GetSteps(list, [step]) == Some(entry);
    forall s: Schema | s.byPath == map["m:l" := Entry(ListOf, false, false, None, None), "m:l/x" := Entry(String, false, false, None, None)]
      ensures Valid(s, TOP, Map(root)) && Declared(s, MISREAD) && !IsOfType(s, Declaration(s, MISREAD).typ, entry)
    {
      MisreadTreeIsValid(s);
    }
  }

  lemma {:induction false} MisreadTreeIsValid(s: Schema)
    requires s.byPath == map["m:l" := Entry(ListOf, false, false, None, None), "m:l/x" := Entry(String, false, false, None, None)]
    ensures SchemaKey(PlaceOf(MISREAD)) == "m:l/x" && s.byPath["m:l/x"].typ == String
    ensures Valid(s, TOP, Map(map["m" := Map(map["l" := List([Map(map["k" := Str("1")])])])]))
  {
    MisreadPlaces(s);
    hide SchemaKey, Join;
    var entry := Map(map["k" := Str("1")]);
    assert ValidChildren(s, Place("m", ["l"]), entry);
    assert Valid(s, Place("m", ["l"]), List([entry]));
    assert ValidChildren(s, Place("m", []), Map(map["l" := List([entry])]));
    assert Valid(s, Place("m", []), Map(map["l" := List([entry])]));
    assert Child(TOP, "m") == Place("m", []);
  }

  lemma {:induction false} MisreadPlaces(s: Schema)
    requires s.byPath == map["m:l" := Entry(ListOf, false, false, None, None), "m:l/x" := Entry(String, false, false, None, None)]
    ensures SchemaKey(PlaceOf(MISREAD)) == "m:l/x" && s.byPath["m:l/x"].typ == String
    ensures DeclaredAs(s, Place("m", ["l"]), ListOf) && Child(Place("m", []), "l") == Place("m", ["l"])
    ensures Undeclared(s, TOP) && Undeclared(s, Place("m", []))
    ensures Child(Place("m", ["l"]), "k") == Place("m", ["l", "k"]) && Undeclared(s, Place("m", ["l", "k"]))
  {
    assert PlaceOf(MISREAD).names == ["l", "x"] && ["l", "x"][..1] == ["l"] && ["l", "k"][..1] == ["l"];
    assert Join(["l"]) == "l" && Join(["l", "k"]) == "l/k" && Join(["l", "x"]) == "l/x";
    assert SchemaKey(Place("m", ["l"])) == "m:l" && SchemaKey(Place("m", ["l", "x"])) == "m:l/x";
    assert SchemaKey(Place("m", ["l", "k"])) == "m:l/k" && "m:l/k"[4] != "m:l/x"[4] && |"m:l/k"| == 5;
    assert |"m:l/x"| == 5 && |"m:l"| == 3 && |SchemaKey(Place("m", []))| == 2 && |SchemaKey(TOP)| == 0;
  }
}
