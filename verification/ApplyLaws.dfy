/** What an edit as a whole does: when it is refused and why, and edits of the root, which is where
    every edit-config starts (apply and put in internal/yangtree/edit.go). */
module ApplyLaws {
  import opened Text
  import opened Paths
  import opened Values
  import opened Schemas
  import opened Edits
  import opened EditLaws
  import opened DeleteLaws
  import opened MergeLaws

  // ------------------------------------------------------------------- refusals

  predicate Declared(s: Schema, p: Path) { SchemaKey(PlaceOf(p)) in s.byPath }

  function Declaration(s: Schema, p: Path): Entry requires Declared(s, p) { s.byPath[SchemaKey(PlaceOf(p))] }

  /** What a write puts at its path, with the predicates of its own entry. */
  function Stored(root: Fields, p: Path, value: Value, merge: bool): Value {
    if p.IsRoot() then if merge then MergeValues(Map(root), value) else value
    else if p.segments == [] then if merge then MergeValues(ModuleValue(root, p), value) else value
    else Written(p.segments[|p.segments| - 1], Next(ModuleValue(root, p), p.segments, value, merge))
  }

  /** The root takes a map, and so does a list entry, unless the schema has a scalar leaf there. */
  predicate HasShape(schema: Option<Schema>, p: Path, value: Value, stored: Value) {
    && (p.IsRoot() ==> value.Map?)
    && (p.segments != [] && p.segments[|p.segments| - 1].keys != [] ==>
          stored.Map? || (schema.Some? && IsScalarLeaf(schema.value, p)))
  }

  /** The schema takes a value at a path: the declaration there, if any, and everything below. */
  predicate Takes(schema: Option<Schema>, p: Path, v: Value) {
    schema.Some? ==>
      var s := schema.value;
      && (Declared(s, p) ==> !Declaration(s, p).computed && CheckValue(s, Declaration(s, p), v))
      && Valid(s, PlaceOf(p), v)
  }

  lemma {:induction false} CheckedIff(schema: Option<Schema>, p: Path, v: Value)
    ensures CheckWritten(schema, p, v).Ok? <==> Takes(schema, p, v)
    ensures CheckWritten(schema, p, v) == Err(NotWritable) <==>
      schema.Some? && Declared(schema.value, p) && Declaration(schema.value, p).computed
    ensures CheckWritten(schema, p, v).Err? ==> CheckWritten(schema, p, v).error in {NotWritable, ValidationFailed}
  {
    hide Valid, CheckValue, SchemaKey;
  }

  lemma {:induction false} PutStepsSucceedsIff(schema: Option<Schema>, p: Path, cur: Value, segs: seq<Segment>, value: Value, merge: bool)
    requires segs != []
    ensures var r, next, last := PutSteps(schema, p, cur, segs, value, merge), Next(cur, segs, value, merge), segs[|segs| - 1];
      && (r.Ok? <==>
            && (last.keys != [] ==> next.Map? || (schema.Some? && IsScalarLeaf(schema.value, p)))
            && CheckWritten(schema, p, Written(last, next)).Ok?)
      && (r.Err? ==> r.error == ValidationFailed || CheckWritten(schema, p, Written(last, next)) == Err(r.error))
    decreases |segs|
  {
    hide CheckWritten, MergeValues, Overlay, IsScalarLeaf, StepInto, StepSet, LastValue, Next, Written;
    if |segs| == 1 {
      LastSucceedsIff(schema, p, cur, segs[0], value, merge);
      assert segs == [segs[0]];
    } else {
      assert segs[1..][|segs| - 2] == segs[|segs| - 1];
      NextBelow(cur, segs, value, merge);
      PutStepsSucceedsIff(schema, p, StepInto(FieldsOf(cur), segs[0]), segs[1..], value, merge);
    }
  }

  lemma {:induction false} NextBelow(cur: Value, segs: seq<Segment>, value: Value, merge: bool)
    requires |segs| > 1
    ensures Next(cur, segs, value, merge) == Next(StepInto(FieldsOf(cur), segs[0]), segs[1..], value, merge)
  {
    hide MergeValues, StepInto;
  }

  lemma {:induction false} LastSucceedsIff(schema: Option<Schema>, p: Path, cur: Value, seg: Segment, value: Value, merge: bool)
    ensures var r, next := LastValue(schema, p, FieldsOf(cur), seg, value, merge), Next(cur, [seg], value, merge);
      if seg.keys != [] && !next.Map? && !(schema.Some? && IsScalarLeaf(schema.value, p)) then r == Err(ValidationFailed)
      else r == Ok(Written(seg, next))
  {
    hide MergeValues, Overlay, IsScalarLeaf;
  }

  predicate AtComputed(schema: Option<Schema>, p: Path) {
    schema.Some? && Declared(schema.value, p) && Declaration(schema.value, p).computed
  }

  /** When a write succeeds: exactly when what it stores has the shape its path asks for and the schema
      takes it there. Otherwise it is refused as invalid, or as not writable at a computed leaf. */
  lemma {:induction false} WriteSucceedsIff(schema: Option<Schema>, root: Fields, p: Path, value: Value, merge: bool)
    ensures var r, stored := Put(schema, root, p, value, merge), Stored(root, p, value, merge);
      && (r.Ok? <==> HasShape(schema, p, value, stored) && Takes(schema, p, stored))
      && (r.Err? ==> r.error == ValidationFailed || (r.error == NotWritable && AtComputed(schema, p)))
  {
    hide PutSteps, CheckWritten, MergeValues, Takes, IsScalarLeaf, Overlay, Next, SchemaKey;
    var cur := ModuleValue(root, p);
    CheckedIff(schema, p, Stored(root, p, value, merge));
    if !p.IsRoot() && p.segments != [] { PutStepsSucceedsIff(schema, p, cur, p.segments, value, merge); }
  }

  /** Every outcome of an edit. It is refused as unknown exactly at paths the schema does not know, then
      as not writable exactly at declared leaves that are computed or for reading, if it is no deletion;
      otherwise a deletion succeeds exactly where the path reads without starting from a list and says
      not found elsewhere, and a write succeeds exactly when its shape fits and the schema takes it. */
  lemma {:induction false} OutcomeIsExact(schema: Option<Schema>, root: Fields, op: Operation, p: Path, value: Value)
    ensures var r, s, stored := Apply(schema, root, op, p, value), schema, Stored(root, p, value, op == Merge);
      if s.Some? && !Known(s.value, p) then r == Err(UnknownPath)
      else if op != Delete && s.Some? && Declared(s.value, p) && (Declaration(s.value, p).computed || Declaration(s.value, p).readAccess)
        then r == Err(NotWritable)
      else if op == Delete then
        if p.IsRoot() || (Get(root, p).Some? && AvoidsLists(root[p.modName], p.segments)) then r.Ok? else r == Err(NotFound)
      else if op != Unsupported && HasShape(s, p, value, stored) && Takes(s, p, stored) then r.Ok?
      else r == Err(ValidationFailed)
  {
    hide Known, Put, Takes, Stored, HasShape, SchemaKey, DeleteSteps, AvoidsLists;
    if op == Delete {
      if !p.IsRoot() && p.modName in root && p.segments != [] {
        DeleteSucceedsIff(root[p.modName], p.segments);
        DeleteFailsAsNotFound(root[p.modName], p.segments);
      } else if p.segments == [] {
        NoStepsAvoidLists(root, p);
      }
    } else {
      WriteSucceedsIff(schema, root, p, value, op == Merge);
    }
  }

  lemma {:induction false} NoStepsAvoidLists(root: Fields, p: Path)
    requires p.segments == []
    ensures p.modName in root ==> AvoidsLists(root[p.modName], p.segments)
  {
  }

  lemma {:induction false} DeleteFailsAsNotFound(cur: Value, segs: seq<Segment>)
    requires segs != []
    ensures DeleteSteps(cur, segs).Err? ==> DeleteSteps(cur, segs) == Err(NotFound)
    decreases |segs|
  {
    hide ListIndex, StepInto, StepSet;
    if cur.Map? && |segs| > 1 { DeleteFailsAsNotFound(StepInto(cur.fields, segs[0]), segs[1..]); }
  }

  // ------------------------------------------------------------ edits of the root

  /** A merge at the root, module by module: what only the tree has stays, what only the value has is
      taken over, what both have is merged, and there is nothing else. */
  lemma {:induction false} RootMergeIsByModule(schema: Option<Schema>, root: Fields, value: Value, q: Path)
    requires Apply(schema, root, Merge, ROOT, value).Ok?
    ensures value.Map?
    ensures var r := Apply(schema, root, Merge, ROOT, value).value;
      && r.Keys == root.Keys + value.fields.Keys
      && Get(r, q) ==
           if q.modName !in value.fields then Get(root, q)
           else if q.modName !in root then Get(value.fields, q)
           else GetSteps(MergeValues(root[q.modName], value.fields[q.modName]), q.segments)
  {
    hide CheckWritten, GetSteps, Known, ReadOnly;
  }

  /** Every scalar of a clean overlay reads back after it is merged at the root. */
  lemma {:induction false} RootMergeReadsBack(schema: Option<Schema>, root: Fields, overlay: Fields, p: Path)
    requires Apply(schema, root, Merge, ROOT, Map(overlay)).Ok? && CleanOverlay(Map(overlay))
    requires Get(overlay, p).Some? && IsScalar(Get(overlay, p).value) && ByOwnKeys(overlay[p.modName], p.segments)
    ensures Get(Apply(schema, root, Merge, ROOT, Map(overlay)).value, p) == Get(overlay, p)
  {
    hide CheckWritten, Known, ReadOnly, CleanOverlay, GetSteps, ByOwnKeys, MergeValues;
    RootMergeIs(schema, root, overlay);
    OverlayScalarReadsBack(root, overlay, p);
  }

  lemma {:induction false} RootMergeIs(schema: Option<Schema>, root: Fields, overlay: Fields)
    requires Apply(schema, root, Merge, ROOT, Map(overlay)).Ok?
    ensures MergeValues(Map(root), Map(overlay)) == Map(Apply(schema, root, Merge, ROOT, Map(overlay)).value)
  {
    hide CheckWritten, Known, ReadOnly;
  }

  /** A merge at the root keeps every value the overlay is silent about. */
  lemma {:induction false} RootMergeKeepsRest(schema: Option<Schema>, root: Fields, overlay: Fields, q: Path)
    requires Apply(schema, root, Merge, ROOT, Map(overlay)).Ok? && Get(root, q).Some?
    requires q.modName in overlay ==> Silent(root[q.modName], overlay[q.modName], q.segments)
    ensures Get(Apply(schema, root, Merge, ROOT, Map(overlay)).value, q) == Get(root, q)
  {
    hide Apply, GetSteps, Silent, MergeValues;
    RootMergeIsByModule(schema, root, Map(overlay), q);
    if q.modName in overlay { MergeKeepsRest(root[q.modName], overlay[q.modName], q.segments); }
  }

  /** Merging a clean overlay at the root a second time is accepted and changes nothing. */
  lemma {:induction false} RootMergeIsIdempotent(schema: Option<Schema>, root: Fields, overlay: Fields)
    requires Apply(schema, root, Merge, ROOT, Map(overlay)).Ok? && CleanOverlay(Map(overlay))
    ensures var r := Apply(schema, root, Merge, ROOT, Map(overlay)).value;
      Apply(schema, r, Merge, ROOT, Map(overlay)) == Ok(r)
  {
    hide CheckWritten, Known, ReadOnly, CleanOverlay, MergeValues;
    RootMergeIs(schema, root, overlay);
    MergeIsIdempotent(Map(root), Map(overlay));
  }

  /** After a replace at the root every path reads what the value holds there, and nothing of the old
      tree is left. */
  lemma {:induction false} RootReplaceIsTheValue(schema: Option<Schema>, root: Fields, value: Value, q: Path)
    requires Apply(schema, root, Replace, ROOT, value).Ok?
    ensures value.Map? && Get(Apply(schema, root, Replace, ROOT, value).value, q) == Get(value.fields, q)
  {
    hide CheckWritten, GetSteps, Known, ReadOnly;
  }

  /** A deletion of the root always succeeds, and then nothing reads. */
  lemma {:induction false} RootDeleteLeavesNothing(schema: Option<Schema>, root: Fields, value: Value, q: Path)
    ensures var r := Apply(schema, root, Delete, ROOT, value); r.Ok? && Get(r.value, q) == None
  {
  }
}
