/** When an edit keeps a validating tree validating. A write that succeeds has only checked the
    value at its own path; what it creates or overwrites on the way down is not checked. */
module EditValidity {
  import opened Text
  import opened Paths
  import opened Values
  import opened Schemas
  import opened Edits
  import opened EditLaws

  predicate Undeclared(s: Schema, at: Place) { SchemaKey(at) !in s.byPath }

  predicate DeclaredAs(s: Schema, at: Place, typ: LeafType) {
    SchemaKey(at) in s.byPath && s.byPath[SchemaKey(at)].typ == typ
  }

  predicate IsLeaf(typ: LeafType) { !typ.LeafList? && !typ.ListOf? && !typ.Container? }

  /** A computed leaf: validation never looks at what is stored there. */
  predicate Shielded(s: Schema, at: Place) {
    SchemaKey(at) in s.byPath && s.byPath[SchemaKey(at)].computed && IsLeaf(s.byPath[SchemaKey(at)].typ)
  }

  predicate TakesList(s: Schema, at: Place) { Undeclared(s, at) || DeclaredAs(s, at, ListOf) }

  predicate TakesMap(s: Schema, at: Place) {
    || TakesList(s, at)
    || (DeclaredAs(s, at, Container) && s.byPath[SchemaKey(at)].pattern.None? && s.byPath[SchemaKey(at)].range.None?)
  }

  /** The place of the first i steps of a path. */
  function At(p: Path, i: nat): Place
    requires i <= |p.segments|
  {
    Place(p.modName, StripKeys(p.segments)[..i])
  }

  /** A list entry that the descent creates keeps its predicate values, except one the next
      step overwrites; the schema must take them. */
  predicate NewEntryFits(s: Schema, at: Place, m: Fields, seg: Segment, nextName: string) {
    ListIndex(ArrayAt(m, seg.name), seg.keys).None? ==>
      forall k | k in EntryWithKeys(seg.keys) && k != nextName :: Valid(s, Child(at, k), EntryWithKeys(seg.keys)[k])
  }

  /** A predicate on a scalar leaf turns the leaf into a list. Only a leaf of type empty takes one, and
      only a list of one null. */
  predicate TakesNullEntry(s: Schema, at: Place, arr: seq<Value>, value: Value) {
    DeclaredAs(s, at, Empty) && arr == [] && value.Null?
  }

  /** Every place on the way from step i to the end of p takes what a write of the value puts there.
      This looks only at the schema, the path, the value and the tree before the write. */
  predicate Accommodates(s: Schema, p: Path, i: nat, cur: Value, value: Value)
    requires i < |p.segments|
    decreases |p.segments| - i
  {
    var m, seg, to := FieldsOf(cur), p.segments[i], At(p, i + 1);
    var last := i + 1 == |p.segments|;
    if seg.keys == [] then
      last || Shielded(s, to) || (TakesMap(s, to) && Accommodates(s, p, i + 1, StepInto(m, seg), value))
    else
      || Shielded(s, to)
      || (last && TakesNullEntry(s, to, ArrayAt(m, seg.name), value))
      || (TakesList(s, to)
          && (last || (NewEntryFits(s, to, m, seg, p.segments[i + 1].name) && Accommodates(s, p, i + 1, StepInto(m, seg), value))))
  }

  // ------------------------------------------------------- validity step by step

  /** The fields of cur validate, save that the next step may find the text of a predicate. */
  predicate Ready(s: Schema, at: Place, cur: Value, name: string) {
    forall k | k in FieldsOf(cur) ::
      Valid(s, Child(at, k), FieldsOf(cur)[k]) || (k == name && FieldsOf(cur)[k].Str?)
  }

  /** A non-empty map validates exactly where maps are taken and its children validate. */
  lemma {:induction false} MapValidIff(s: Schema, at: Place, v: Value)
    requires v.Map? && v.fields != map[]
    ensures Valid(s, at, v) <==> Shielded(s, at) || (TakesMap(s, at) && ValidChildren(s, at, v))
  {
  }

  /** A list that holds a map validates exactly where lists are taken and the children of its
      elements validate. */
  lemma {:induction false} ListValidIff(s: Schema, at: Place, items: seq<Value>, i: nat)
    requires i < |items| && items[i].Map?
    ensures Valid(s, at, List(items)) <==>
      Shielded(s, at) || (TakesList(s, at) && forall j | 0 <= j < |items| :: ValidChildren(s, at, items[j]))
  {
    if Undeclared(s, at) {
      assert Valid(s, at, List(items)) == ValidChildren(s, at, List(items));
      assert forall j | 0 <= j < |items| :: Valid(s, at, items[j]) == ValidChildren(s, at, items[j]);
    } else {
      assert DeclaredAs(s, at, LeafList) ==> !IsScalar(items[i]);
    }
  }

  lemma {:induction false} SetFieldValidIff(s: Schema, at: Place, cur: Value, name: string, v: Value)
    requires Ready(s, at, cur, name)
    ensures ValidChildren(s, at, Map(FieldsOf(cur)[name := v])) <==> Valid(s, Child(at, name), v)
  {
    var m := FieldsOf(cur)[name := v];
    assert m[name] == v;
  }

  /** Elements of a list found in a ready parent have valid children. */
  lemma {:induction false} OldItemsValid(s: Schema, at: Place, cur: Value, name: string)
    requires Ready(s, at, cur, name) && TakesList(s, Child(at, name))
    ensures forall i | 0 <= i < |ArrayAt(FieldsOf(cur), name)| ::
      ValidChildren(s, Child(at, name), ArrayAt(FieldsOf(cur), name)[i])
  {
    var to, arr := Child(at, name), ArrayAt(FieldsOf(cur), name);
    if arr != [] {
      assert Valid(s, to, List(arr));
      if Undeclared(s, to) {
        assert ValidChildren(s, to, List(arr));
        assert forall j | 0 <= j < |arr| :: Valid(s, to, arr[j]) == ValidChildren(s, to, arr[j]);
      }
    }
  }

  /** Setting a map under a keyed step: the parent validates exactly where the list and the new
      element do. */
  lemma {:induction false} SetEntryValidIff(s: Schema, at: Place, cur: Value, seg: Segment, v: Value)
    requires seg.keys != [] && v.Map? && Ready(s, at, cur, seg.name)
    ensures var to := Child(at, seg.name);
      ValidChildren(s, at, Map(StepSet(FieldsOf(cur), seg, v))) <==>
        Shielded(s, to) || (TakesList(s, to) && ValidChildren(s, to, v))
  {
    hide Valid, ValidChildren, Shielded;
    var m, to := FieldsOf(cur), Child(at, seg.name);
    var arr := ArrayAt(m, seg.name);
    var found := ListIndex(arr, seg.keys);
    var i := if found.Some? then found.value else |arr|;
    var items := if found.Some? then arr[i := v] else arr + [v];
    assert StepSet(m, seg, v) == m[seg.name := List(items)];
    SetFieldValidIff(s, at, cur, seg.name, List(items));
    ListValidIff(s, to, items, i);
    if TakesList(s, to) {
      OldItemsValid(s, at, cur, seg.name);
      assert items[i] == v;
      assert forall j | 0 <= j < |items| && j != i :: items[j] == arr[j];
    }
  }

  /** Descending one step keeps the cursor ready for the next. */
  lemma {:induction false} StepIntoIsReady(s: Schema, at: Place, cur: Value, seg: Segment, nextName: string)
    requires Ready(s, at, cur, seg.name)
    requires var to := Child(at, seg.name);
      if seg.keys == [] then TakesMap(s, to)
      else TakesList(s, to) && NewEntryFits(s, to, FieldsOf(cur), seg, nextName)
    ensures Ready(s, Child(at, seg.name), StepInto(FieldsOf(cur), seg), nextName)
  {
    var m, to := FieldsOf(cur), Child(at, seg.name);
    if seg.keys == [] {
      if seg.name in m && m[seg.name].Map? { assert Valid(s, to, m[seg.name]); }
    } else {
      OldItemsValid(s, at, cur, seg.name);
      if ListIndex(ArrayAt(m, seg.name), seg.keys).None? {
        forall k | k in EntryWithKeys(seg.keys) ensures EntryWithKeys(seg.keys)[k].Str? {
          OverlayFields(map[], seg.keys, k);
        }
      }
    }
  }

  lemma {:induction false} ChildOfPrefix(p: Path, i: nat)
    requires p.modName != "" && i < |p.segments|
    ensures At(p, i + 1) == Child(At(p, i), p.segments[i].name)
    ensures At(p, |p.segments|) == PlaceOf(p)
  {
    assert StripKeys(p.segments)[..|p.segments|] == StripKeys(p.segments);
  }

  lemma {:induction false} LastIsChecked(s: Schema, p: Path, m: Fields, seg: Segment, value: Value, merge: bool)
    requires LastValue(Some(s), p, m, seg, value, merge).Ok?
    requires CheckWritten(Some(s), p, LastValue(Some(s), p, m, seg, value, merge).value).Ok?
    ensures var v := LastValue(Some(s), p, m, seg, value, merge).value;
      Valid(s, PlaceOf(p), v) && !Shielded(s, PlaceOf(p))
      && (v.Map? && TakesList(s, PlaceOf(p)) ==> ValidChildren(s, PlaceOf(p), v))
  {
  }

  /** The write validates exactly when every place on its way takes what it is given. */
  lemma {:induction false} PutStepsValidIff(s: Schema, p: Path, i: nat, cur: Value, value: Value, merge: bool)
    requires p.modName != "" && i < |p.segments|
    requires Ready(s, At(p, i), cur, p.segments[i].name)
    ensures var r := PutSteps(Some(s), p, cur, p.segments[i..], value, merge);
      r.Ok? ==> (ValidChildren(s, At(p, i), r.value) <==> Accommodates(s, p, i, cur, value))
    decreases |p.segments| - i
  {
    hide Valid, ValidChildren, StepSet, StepInto, LastValue, CheckWritten, Shielded, TakesMap, TakesList, At, NewEntryFits, Ready, IsScalarLeaf;
    var m, seg, at, to := FieldsOf(cur), p.segments[i], At(p, i), At(p, i + 1);
    var r := PutSteps(Some(s), p, cur, p.segments[i..], value, merge);
    ChildOfPrefix(p, i);
    if r.Ok? {
      if i + 1 == |p.segments| {
        PutLastValidIff(s, p, cur, value, merge);
      } else {
        assert p.segments[i..][1..] == p.segments[i + 1..];
        var next := PutSteps(Some(s), p, StepInto(m, seg), p.segments[i + 1..], value, merge).value;
        PutInnerValidIff(s, p, i, cur, value, merge, next);
      }
    }
  }

  lemma {:induction false} PutLastValidIff(s: Schema, p: Path, cur: Value, value: Value, merge: bool)
    requires p.modName != "" && p.segments != []
    requires var i := |p.segments| - 1; Ready(s, At(p, i), cur, p.segments[i].name)
    ensures var i := |p.segments| - 1;
      var r := PutSteps(Some(s), p, cur, p.segments[i..], value, merge);
      r.Ok? ==> (ValidChildren(s, At(p, i), r.value) <==> Accommodates(s, p, i, cur, value))
  {
    hide Valid, ValidChildren, StepInto, CheckWritten, Shielded, TakesMap, TakesList, At, NewEntryFits, Ready, IsScalarLeaf;
    var i := |p.segments| - 1;
    var m, seg := FieldsOf(cur), p.segments[i];
    ChildOfPrefix(p, i);
    if PutSteps(Some(s), p, cur, p.segments[i..], value, merge).Ok? {
      var next := LastValue(Some(s), p, m, seg, value, merge).value;
      LastIsChecked(s, p, m, seg, value, merge);
      if seg.keys == [] {
        SetFieldValidIff(s, At(p, i), cur, seg.name, next);
      } else if IsScalarLeaf(s, p) {
        PutOnLeafValidIff(s, p, cur, value, merge);
      } else {
        ListedIsNotALeaf(s, p);
        SetEntryValidIff(s, At(p, i), cur, seg, next);
      }
    }
  }

  lemma {:induction false} ListedIsNotALeaf(s: Schema, p: Path)
    requires !IsScalarLeaf(s, p)
    ensures !DeclaredAs(s, PlaceOf(p), Empty)
  {
  }

  /** A leaf that takes a list is of type empty, and the list is empty or holds one null. */
  lemma {:induction false} LeafListValidIff(s: Schema, at: Place, items: seq<Value>)
    requires SchemaKey(at) in s.byPath && IsLeaf(s.byPath[SchemaKey(at)].typ) && !s.byPath[SchemaKey(at)].computed
    ensures var e := s.byPath[SchemaKey(at)];
      Valid(s, at, List(items)) <==> e.typ.Empty? && e.pattern.None? && e.range.None? && (items == [] || items == [Null])
  {
  }

  /** What a write with a predicate stores at a leaf is a scalar; a null only where it was asked for. */
  lemma {:induction false} WrittenAtLeaf(s: Schema, p: Path, m: Fields, seg: Segment, value: Value, merge: bool)
    requires seg.keys != [] && IsScalarLeaf(s, p) && LastValue(Some(s), p, m, seg, value, merge).Ok?
    requires CheckWritten(Some(s), p, LastValue(Some(s), p, m, seg, value, merge).value).Ok?
    ensures var v, e := LastValue(Some(s), p, m, seg, value, merge).value, s.byPath[SchemaKey(PlaceOf(p))];
      && !v.Map? && !e.computed && (v.Null? <==> value.Null?)
      && (e.typ.Empty? ==> e.pattern.None? && e.range.None?)
  {
    var v := LastValue(Some(s), p, m, seg, value, merge).value;
    var next := if merge then MergeValues(StepInto(m, seg), value) else value;
    if next.Map? {
      MergedOverlay(next.fields, seg.keys);
    }
    hide Overlay;
    EntryIsMap(m, seg);
  }

  lemma {:induction false} EntryIsMap(m: Fields, seg: Segment)
    requires seg.keys != []
    ensures StepInto(m, seg).Map?
  {
  }

  lemma {:induction false} MergedOverlay(m: Fields, keys: seq<Key>)
    requires keys != []
    ensures Overlay(m, keys) != map[]
  {
    assert keys[|keys| - 1].name in Overlay(m, keys);
  }

  lemma {:induction false} PutOnLeafValidIff(s: Schema, p: Path, cur: Value, value: Value, merge: bool)
    requires p.modName != "" && p.segments != [] && IsScalarLeaf(s, p)
    requires var i := |p.segments| - 1;
      p.segments[i].keys != [] && Ready(s, At(p, i), cur, p.segments[i].name)
    requires PutSteps(Some(s), p, cur, p.segments[|p.segments| - 1..], value, merge).Ok?
    ensures var i := |p.segments| - 1;
      var r := PutSteps(Some(s), p, cur, p.segments[i..], value, merge);
      ValidChildren(s, At(p, i), r.value) <==> TakesNullEntry(s, PlaceOf(p), ArrayAt(FieldsOf(cur), p.segments[i].name), value)
    ensures !Shielded(s, PlaceOf(p)) && !TakesList(s, PlaceOf(p))
  {
    var i := |p.segments| - 1;
    var m, seg, to := FieldsOf(cur), p.segments[i], PlaceOf(p);
    var arr, next := ArrayAt(m, seg.name), LastValue(Some(s), p, m, seg, value, merge).value;
    ChildOfPrefix(p, i);
    WrittenAtLeaf(s, p, m, seg, value, merge);
    LeafHoldsNoEntry(s, At(p, i), cur, seg);
    hide Valid, ValidChildren, LastValue, CheckWritten, At, Ready, ListIndex;
    var items := arr + [next];
    assert StepSet(m, seg, next) == m[seg.name := List(items)];
    SetFieldValidIff(s, At(p, i), cur, seg.name, List(items));
    LeafListValidIff(s, to, items);
    assert items == [Null] <==> arr == [] && next.Null? by {
      if items == [Null] { assert |arr| == 0 && items[0] == next; }
    }
  }

  /** A leaf of a validating parent holds no entry that predicates could find. */
  lemma {:induction false} LeafHoldsNoEntry(s: Schema, at: Place, cur: Value, seg: Segment)
    requires Ready(s, at, cur, seg.name)
    requires var to := Child(at, seg.name);
      SchemaKey(to) in s.byPath && IsLeaf(s.byPath[SchemaKey(to)].typ) && !s.byPath[SchemaKey(to)].computed
    ensures ListIndex(ArrayAt(FieldsOf(cur), seg.name), seg.keys).None?
  {
    var arr := ArrayAt(FieldsOf(cur), seg.name);
    if arr != [] {
      assert Valid(s, Child(at, seg.name), List(arr));
      LeafListValidIff(s, Child(at, seg.name), arr);
      assert arr == [Null];
    }
  }

  lemma {:induction false} PutInnerValidIff(s: Schema, p: Path, i: nat, cur: Value, value: Value, merge: bool, next: Value)
    requires p.modName != "" && i + 1 < |p.segments|
    requires Ready(s, At(p, i), cur, p.segments[i].name)
    requires PutSteps(Some(s), p, StepInto(FieldsOf(cur), p.segments[i]), p.segments[i + 1..], value, merge) == Ok(next)
    ensures ValidChildren(s, At(p, i), Map(StepSet(FieldsOf(cur), p.segments[i], next))) <==> Accommodates(s, p, i, cur, value)
    decreases |p.segments| - i, 0
  {
    hide Valid, ValidChildren, StepSet, StepInto, LastValue, CheckWritten, Shielded, TakesMap, TakesList, At, NewEntryFits, Ready, IsScalarLeaf;
    var m, seg, at, to := FieldsOf(cur), p.segments[i], At(p, i), At(p, i + 1);
    var name := p.segments[i + 1].name;
    ChildOfPrefix(p, i);
    PutChangesOneField(Some(s), p, StepInto(m, seg), p.segments[i + 1..], value, merge);
    if seg.keys == [] {
      SetFieldValid(s, at, cur, seg, next);
      MapValidIff(s, to, next);
      if TakesMap(s, to) {
        StepIntoIsReady(s, at, cur, seg, name);
        PutStepsValidIff(s, p, i + 1, StepInto(m, seg), value, merge);
      }
    } else {
      SetEntryValidIff(s, at, cur, seg, next);
      if TakesList(s, to) {
        if ValidChildren(s, to, next) { NewEntryNeedsFit(s, to, m, seg, name, next); }
        if NewEntryFits(s, to, m, seg, name) {
          StepIntoIsReady(s, at, cur, seg, name);
          PutStepsValidIff(s, p, i + 1, StepInto(m, seg), value, merge);
        }
      }
    }
  }

  lemma {:induction false} SetFieldValid(s: Schema, at: Place, cur: Value, seg: Segment, v: Value)
    requires seg.keys == [] && Ready(s, at, cur, seg.name)
    ensures ValidChildren(s, at, Map(StepSet(FieldsOf(cur), seg, v))) <==> Valid(s, Child(at, seg.name), v)
  {
    SetFieldValidIff(s, at, cur, seg.name, v);
  }

  /** The predicates of a created entry survive to the result, so they must validate. */
  lemma {:induction false} NewEntryNeedsFit(s: Schema, at: Place, m: Fields, seg: Segment, name: string, next: Value)
    requires seg.keys != [] && next.Map? && ValidChildren(s, at, next)
    requires KeepsOthers(FieldsOf(StepInto(m, seg)), next.fields, name)
    ensures NewEntryFits(s, at, m, seg, name)
  {
  }

  // -------------------------------------------------------------------- deletion

  /** Deletion keeps validity on every schema. */
  lemma {:induction false} DeleteStepsKeepsValid(s: Schema, at: Place, cur: Value, segs: seq<Segment>)
    requires segs != [] && cur.Map? && ValidChildren(s, at, cur)
    ensures var r := DeleteSteps(cur, segs); r.Ok? ==> ValidChildren(s, at, r.value)
    decreases |segs|
  {
    hide Valid, Shielded, TakesMap, TakesList;
    var m, seg, to := cur.fields, segs[0], Child(at, segs[0].name);
    if DeleteSteps(cur, segs).Ok? {
      assert Valid(s, to, m[seg.name]);
      if |segs| == 1 {
        if seg.keys != [] { RemoveItemIsValid(s, to, m[seg.name].items, ListIndex(m[seg.name].items, seg.keys).value); }
      } else if seg.keys == [] {
        var next := DeleteSteps(m[seg.name], segs[1..]).value;
        assert segs[1].name in m[seg.name].fields;
        MapValidIff(s, to, m[seg.name]);
        if !Shielded(s, to) { DeleteStepsKeepsValid(s, to, m[seg.name], segs[1..]); }
        MapIsValid(s, to, next);
      } else {
        var arr := m[seg.name].items;
        var i := ListIndex(arr, seg.keys).value;
        var next := DeleteSteps(arr[i], segs[1..]).value;
        ListValidIff(s, to, arr, i);
        if !Shielded(s, to) { DeleteStepsKeepsValid(s, to, arr[i], segs[1..]); }
        ListValidIff(s, to, arr[i := next], i);
      }
    }
  }

  lemma {:induction false} MapIsValid(s: Schema, at: Place, v: Value)
    requires v.Map? && (Shielded(s, at) || (TakesMap(s, at) && ValidChildren(s, at, v)))
    ensures Valid(s, at, v)
  {
  }

  lemma {:induction false} RemoveItemIsValid(s: Schema, at: Place, arr: seq<Value>, i: nat)
    requires i < |arr| && arr[i].Map? && Valid(s, at, List(arr))
    ensures Valid(s, at, List(arr[..i] + arr[i + 1..]))
  {
    var rest := arr[..i] + arr[i + 1..];
    ListValidIff(s, at, arr, i);
    assert forall j | 0 <= j < |rest| :: rest[j] == if j < i then arr[j] else arr[j + 1];
    if Undeclared(s, at) {
      assert forall j | 0 <= j < |rest| :: Valid(s, at, rest[j]) == ValidChildren(s, at, rest[j]);
      assert ValidChildren(s, at, List(rest));
    }
  }

  // ----------------------------------------------------------------- whole trees

  predicate Validates(schema: Option<Schema>, root: Fields) {
    schema.Some? ==> Valid(schema.value, TOP, Map(root))
  }

  /** Whether the tree takes a write at p, read off schema, path, value and tree beforehand. */
  predicate TreeTakes(s: Schema, root: Fields, p: Path, value: Value) {
    p.segments == [] || Shielded(s, At(p, 0)) || (TakesMap(s, At(p, 0)) && Accommodates(s, p, 0, ModuleValue(root, p), value))
  }

  lemma {:induction false} TopValidIff(s: Schema, root: Fields, name: string, v: Value)
    requires "" !in s.byPath && Valid(s, TOP, Map(root))
    ensures Valid(s, TOP, Map(root[name := v])) <==> Valid(s, Child(TOP, name), v)
  {
    assert SchemaKey(TOP) == "";
    assert ValidChildren(s, TOP, Map(root));
    var m := root[name := v];
    assert Valid(s, TOP, Map(m)) == ValidChildren(s, TOP, Map(m));
    assert m[name] == v;
  }

  /** A successful merge or replace below the root of a validating tree leaves a validating tree if
      and only if the tree takes the write. */
  lemma {:induction false} WriteValidIff(s: Schema, root: Fields, p: Path, value: Value, merge: bool)
    requires "" !in s.byPath && Valid(s, TOP, Map(root))
    requires p.modName != ""
    ensures var r := Put(Some(s), root, p, value, merge);
      r.Ok? ==> (Valid(s, TOP, Map(r.value)) <==> TreeTakes(s, root, p, value))
  {
    hide Valid, Shielded, TakesMap, Accommodates, PutSteps;
    var r := Put(Some(s), root, p, value, merge);
    if r.Ok? {
      var next := r.value[p.modName];
      TopValidIff(s, root, p.modName, next);
      assert StripKeys(p.segments)[..0] == [] && p.segments[0..] == p.segments;
      assert Child(TOP, p.modName) == At(p, 0);
      if p.segments == [] {
        assert PlaceOf(p) == At(p, 0);
      } else {
        var cur := ModuleValue(root, p);
        PutChangesOneField(Some(s), p, cur, p.segments, value, merge);
        MapValidIff(s, At(p, 0), next);
        if TakesMap(s, At(p, 0)) {
          ModuleIsReady(s, root, p);
          PutStepsValidIff(s, p, 0, cur, value, merge);
        }
      }
    }
  }

  lemma {:induction false} ModuleIsReady(s: Schema, root: Fields, p: Path)
    requires "" !in s.byPath && Valid(s, TOP, Map(root)) && p.modName != "" && p.segments != []
    requires TakesMap(s, At(p, 0))
    ensures Ready(s, At(p, 0), ModuleValue(root, p), p.segments[0].name)
  {
    assert SchemaKey(TOP) == "" && StripKeys(p.segments)[..0] == [];
    assert ValidChildren(s, TOP, Map(root));
    if p.modName in root { assert Valid(s, At(p, 0), root[p.modName]); }
  }

  lemma {:induction false} DeleteKeepsValid(s: Schema, root: Fields, p: Path)
    requires "" !in s.byPath && Valid(s, TOP, Map(root))
    ensures var r := DeleteAt(root, p); r.Ok? ==> Valid(s, TOP, Map(r.value))
  {
    assert SchemaKey(TOP) == "";
    assert ValidChildren(s, TOP, Map(root));
    var r := DeleteAt(root, p);
    if r.Ok? && !p.IsRoot() {
      if p.segments == [] {
        assert ValidChildren(s, TOP, Map(r.value));
      } else {
        DeleteInModuleKeepsValid(s, Child(TOP, p.modName), root[p.modName], p.segments);
        TopValidIff(s, root, p.modName, r.value[p.modName]);
      }
    }
  }

  lemma {:induction false} DeleteInModuleKeepsValid(s: Schema, at: Place, cur: Value, segs: seq<Segment>)
    requires segs != [] && Valid(s, at, cur)
    ensures var r := DeleteSteps(cur, segs); r.Ok? ==> Valid(s, at, r.value)
  {
    hide Valid, Shielded, TakesMap;
    var r := DeleteSteps(cur, segs);
    if r.Ok? {
      assert segs[0].name in cur.fields;
      MapValidIff(s, at, cur);
      if !Shielded(s, at) { DeleteStepsKeepsValid(s, at, cur, segs); }
      MapIsValid(s, at, r.value);
    }
  }

  // ------------------------------------------------ a static sufficient condition

  /** Schema string a lies strictly above schema string b. */
  predicate Above(a: string, b: string) {
    HasPrefix(b, a + "/") || (a != "" && a[|a| - 1] == ':' && a < b)
  }

  /** The root is not declared, every declared proper ancestor is a container or a list, and
      containers carry no pattern or range. */
  predicate WellShaped(s: Schema) {
    && "" !in s.byPath
    && (forall a, b | a in s.byPath && b in s.byPath && Above(a, b) ::
          s.byPath[a].typ.Container? || s.byPath[a].typ.ListOf?)
    && (forall a | a in s.byPath && s.byPath[a].typ.Container? ::
          s.byPath[a].pattern.None? && s.byPath[a].range.None?)
  }

  predicate IsText(typ: LeafType) { typ.String? || typ.Identityref? || typ.Enumeration? }

  /** A place that holds whatever text is written there. */
  predicate AcceptsText(s: Schema, at: Place) {
    || Undeclared(s, at)
    || Shielded(s, at)
    || (IsText(s.byPath[SchemaKey(at)].typ)
        && s.byPath[SchemaKey(at)].pattern.None? && s.byPath[SchemaKey(at)].range.None?)
  }

  /** Predicates sit on lists, declared or not; where a write may have to create the entry on its
      way down, the keys are plain text. */
  predicate KeysFit(s: Schema, p: Path) {
    forall i | 0 <= i < |p.segments| && p.segments[i].keys != [] ::
      && TakesList(s, At(p, i + 1))
      && (i + 1 < |p.segments| ==>
            forall j | 0 <= j < |p.segments[i].keys| :: AcceptsText(s, Child(At(p, i + 1), p.segments[i].keys[j].name)))
  }

  lemma {:induction false} JoinPrefix(names: seq<string>, i: nat)
    requires 0 < i < |names|
    ensures HasPrefix(Join(names), Join(names[..i]) + "/")
  {
    var front := names[..|names| - 1];
    if i < |front| {
      JoinPrefix(front, i);
      assert front[..i] == names[..i];
    } else {
      assert front == names[..i];
    }
  }

  lemma {:induction false} PrefixIsAbove(m: string, names: seq<string>, i: nat)
    requires m != "" && i < |names|
    requires forall j | 0 <= j < |names| :: names[j] != ""
    ensures Above(SchemaKey(Place(m, names[..i])), SchemaKey(Place(m, names)))
  {
    var a, b := SchemaKey(Place(m, names[..i])), SchemaKey(Place(m, names));
    if i > 0 {
      JoinPrefix(names, i);
      assert a + "/" == m + ":" + (Join(names[..i]) + "/");
    } else {
      assert names[..0] == [] && a == m + ":";
      assert b == a + Join(names);
      assert Join(names) != "" by {
        if |names| > 1 { JoinPrefix(names, 1); }
      }
    }
  }

  lemma {:induction false} AboveIsTransitive(a: string, b: string, c: string)
    requires Above(a, b) && HasPrefix(c, b + "/")
    ensures Above(a, c)
  {
    assert b <= b + "/";
  }

  lemma {:induction false} KnownPrefixTakesMaps(s: Schema, p: Path, i: nat)
    requires WellShaped(s) && WellFormed(p) && Known(s, p) && i < |p.segments|
    ensures TakesMap(s, At(p, i))
  {
    var names := StripKeys(p.segments);
    var a, b := SchemaKey(At(p, i)), SchemaKey(PlaceOf(p));
    forall j | 0 <= j < |names| ensures names[j] != "" {
      assert WellFormedSegment(p.segments[j]);
    }
    PrefixIsAbove(p.modName, names, i);
    if b !in s.byPath {
      var key :| key in s.byPath && HasPrefix(key, b + "/");
      AboveIsTransitive(a, b, key);
    }
  }

  lemma {:induction false} NewEntryIsText(s: Schema, at: Place, m: Fields, seg: Segment, name: string)
    requires forall j | 0 <= j < |seg.keys| :: AcceptsText(s, Child(at, seg.keys[j].name))
    ensures NewEntryFits(s, at, m, seg, name)
  {
    var entry := EntryWithKeys(seg.keys);
    forall k | k in entry ensures Valid(s, Child(at, k), entry[k]) {
      OverlayFields(map[], seg.keys, k);
      var j :| 0 <= j < |seg.keys| && seg.keys[j].name == k;
      assert AcceptsText(s, Child(at, k));
    }
  }

  lemma {:induction false} FittingPathIsAccommodated(s: Schema, p: Path, i: nat, cur: Value, value: Value)
    requires WellShaped(s) && WellFormed(p) && Known(s, p) && KeysFit(s, p) && i < |p.segments|
    ensures Accommodates(s, p, i, cur, value)
    decreases |p.segments| - i
  {
    hide Known, WellShaped, WellFormed, TakesMap, TakesList, At, NewEntryFits, StepInto, Shielded, AcceptsText;
    if i + 1 < |p.segments| {
      KnownPrefixTakesMaps(s, p, i + 1);
      FittingPathIsAccommodated(s, p, i + 1, StepInto(FieldsOf(cur), p.segments[i]), value);
      if p.segments[i].keys != [] {
        NewEntryIsText(s, At(p, i + 1), FieldsOf(cur), p.segments[i], p.segments[i + 1].name);
      }
    }
  }

  predicate EditFits(schema: Option<Schema>, op: Operation, p: Path) {
    && WellFormed(p)
    && (schema.Some? ==> "" !in schema.value.byPath)
    && (schema.Some? && op != Delete ==> WellShaped(schema.value) && KeysFit(schema.value, p))
  }

  /** A successful edit that fits its schema keeps a validating tree validating. */
  lemma {:induction false} ApplyKeepsValid(schema: Option<Schema>, root: Fields, op: Operation, p: Path, value: Value)
    requires Validates(schema, root) && EditFits(schema, op, p)
    ensures var r := Apply(schema, root, op, p, value);
      r.Ok? ==> Validates(schema, r.value)
  {
    hide KeysFit, Known, PutSteps, DeleteSteps, WellShaped, Valid, Accommodates;
    if schema.Some? && Apply(schema, root, op, p, value).Ok? {
      var s := schema.value;
      if op == Delete {
        DeleteKeepsValid(s, root, p);
      } else if p.IsRoot() {
        assert PlaceOf(p) == TOP;
      } else {
        if p.segments != [] {
          KnownPrefixTakesMaps(s, p, 0);
          FittingPathIsAccommodated(s, p, 0, ModuleValue(root, p), value);
        }
        WriteValidIff(s, root, p, value, op == Merge);
      }
    }
  }

  /** A list keyed by a number, with one text leaf. */
  ghost predicate NumericallyKeyed(s: Schema) {
    s.byPath == map["m:l" := Entry(ListOf, false, false, None, None),
                    "m:l/id" := Entry(Int32, false, false, None, None),
                    "m:l/x" := Entry(String, false, false, None, None)]
  }

  const NEW_ENTRY := Path("m", [Segment("l", [Key("id", "1")]), Segment("x", [])])

  /** Why list keys must be plain text: with a number for a list key, an edit that has to create the
      entry succeeds and leaves text in the key. */
  lemma {:induction false} NumericKeyIsBroken(s: Schema, text: string)
    requires NumericallyKeyed(s)
    ensures var r := Apply(Some(s), map[], Replace, NEW_ENTRY, Str(text));
      Validates(Some(s), map[]) && r.Ok? && !Validates(Some(s), r.value)
  {
    hide PutSteps, TreeTakes;
    NumericKeyWriteSucceeds(s, text);
    NumericKeyPlaces(s);
    KeyIsNotANumber(s, NEW_ENTRY, NEW_ENTRY.segments[0], Str(text));
    WriteValidIff(s, map[], NEW_ENTRY, Str(text), false);
  }

  lemma {:induction false} NumericKeyPlaces(s: Schema)
    requires NumericallyKeyed(s)
    ensures "" !in s.byPath && SchemaKey(TOP) == ""
    ensures SchemaKey(Place("m", ["l", "id"])) == "m:l/id" && s.byPath["m:l/id"].typ == Int32
    ensures SchemaKey(Place("m", ["l"])) == "m:l" && s.byPath["m:l"].typ == ListOf
    ensures Undeclared(s, Place("m", []))
  {
    assert ["l", "id"][..1] == ["l"];
    assert SchemaKey(Place("m", [])) == "m:" && |"m:"| == 2;
    assert |"m:l/id"| == 6 && |"m:l/x"| == 5 && |"m:l"| == 3;
  }

  lemma {:induction false} NumericKeyWriteSucceeds(s: Schema, text: string)
    requires NumericallyKeyed(s)
    ensures Known(s, NEW_ENTRY) && !ReadOnly(s, NEW_ENTRY)
    ensures Put(Some(s), map[], NEW_ENTRY, Str(text), false).Ok?
  {
    var p, l, x := NEW_ENTRY, NEW_ENTRY.segments[0], NEW_ENTRY.segments[1];
    assert PlaceOf(p).names == ["l", "x"] && ["l", "x"][..1] == ["l"];
    assert SchemaKey(PlaceOf(p)) == "m:l/x";
    assert p.segments[1..] == [x];
    assert PutSteps(Some(s), p, StepInto(map[], l), [x], Str(text), false).Ok?;
  }

  lemma {:induction false} KeyIsNotANumber(s: Schema, p: Path, l: Segment, value: Value)
    requires l == Segment("l", [Key("id", "1")]) && p == Path("m", [l, Segment("x", [])])
    requires SchemaKey(Place("m", ["l", "id"])) in s.byPath && s.byPath[SchemaKey(Place("m", ["l", "id"]))] == Entry(Int32, false, false, None, None)
    requires SchemaKey(Place("m", ["l"])) in s.byPath && !s.byPath[SchemaKey(Place("m", ["l"]))].computed
    requires Undeclared(s, Place("m", []))
    ensures !TreeTakes(s, map[], p, value)
  {
    assert StripKeys(p.segments) == ["l", "x"];
    assert At(p, 1) == Place("m", ["l"]) && At(p, 0) == Place("m", []);
    assert Child(At(p, 1), "id") == Place("m", ["l", "id"]);
    assert EntryWithKeys(l.keys) == map["id" := Str("1")];
    assert !Valid(s, Child(At(p, 1), "id"), Str("1"));
    assert "id" != "x" by { assert |"id"| != |"x"|; }
    assert "id" in EntryWithKeys(l.keys);
    assert !NewEntryFits(s, At(p, 1), map[], l, "x");
  }

  /** Why predicates must sit on lists: a predicate on a text leaf is accepted and makes the leaf a
      list. */
  lemma {:induction false} KeyedLeafIsBroken(s: Schema, root: Fields, k: Key, text: string)
    requires "" !in s.byPath && "m:" !in s.byPath && Valid(s, TOP, Map(root))
    requires "m:x" in s.byPath && s.byPath["m:x"] == Entry(String, false, false, None, None)
    ensures var p := Path("m", [Segment("x", [k])]);
      var r := Apply(Some(s), root, Replace, p, Str(text));
      r.Ok? && !Validates(Some(s), r.value)
  {
    var p := Path("m", [Segment("x", [k])]);
    assert PlaceOf(p).names == ["x"] && SchemaKey(PlaceOf(p)) == "m:x" && SchemaKey(Place("m", [])) == "m:";
    assert At(p, 1) == PlaceOf(p) && At(p, 0) == Place("m", []);
    assert p.segments[0].keys == [k] && [k] != [];
    WriteValidIff(s, root, p, Str(text), false);
  }
}
