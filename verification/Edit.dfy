/** Path-addressed edits of a configuration tree: merge, replace and delete
    (internal/yangtree/edit.go). */
module Edits {
  import opened Text
  import opened Paths
  import opened Values
  import opened Schemas

  datatype Error = UnknownPath | NotWritable | ValidationFailed | NotFound

  datatype Result<+T> = Ok(value: T) | Err(error: Error) {
    predicate IsFailure() { Err? }
    function PropagateFailure<U>(): Result<U> requires Err? { Err(error) }
    function Extract(): T requires Ok? { value }
  }

  datatype Operation = Merge | Replace | Delete | Unsupported

  type Fields = map<string, Value>

  // ------------------------------------------------------------------- merge

  /** mergeValues, with mergeMaps inlined. */
  function MergeValues(dst: Value, src: Value): Value
    decreases src, 1
  {
    if src.Null? then dst
    else if dst.Map? && src.Map? then
      Map(map k | k in dst.fields.Keys + src.fields.Keys ::
        if k !in src.fields then dst.fields[k]
        else if k in dst.fields then MergeValues(dst.fields[k], src.fields[k])
        else src.fields[k])
    else if src.List? then List(MergeLists(if dst.List? then dst.items else [], src.items))
    else src
  }

  /** One turn of the loop in mergeLists. */
  function MergeItem(out: seq<Value>, item: Value): seq<Value>
    decreases item, 2
  {
    if !item.Map? || KeysForItem(item.fields) == [] then out + [item]
    else match ListIndex(out, KeysForItem(item.fields))
      case None => out + [item]
      case Some(i) => out[i := MergeValues(out[i], item)]
  }

  function MergeLists(dst: seq<Value>, src: seq<Value>): seq<Value>
    decreases src, 0
  {
    if src == [] then dst else MergeLists(MergeItem(dst, src[0]), src[1..])
  }

  // -------------------------------------------------------------------- read

  /** One step of walkGet. A keyed step also accepts a list it already stands on. */
  function GetStep(cur: Value, seg: Segment): Option<Value> {
    if seg.keys != [] then
      var arr :=
        if !cur.Map? then cur
        else if seg.name in cur.fields then cur.fields[seg.name] else Null;
      if !arr.List? then None
      else match ListIndex(arr.items, seg.keys)
        case None => None
        case Some(i) => Some(arr.items[i])
    else if cur.Map? && seg.name in cur.fields then Some(cur.fields[seg.name])
    else None
  }

  function GetSteps(cur: Value, segs: seq<Segment>): Option<Value> {
    if segs == [] then Some(cur)
    else match GetStep(cur, segs[0])
      case None => None
      case Some(next) => GetSteps(next, segs[1..])
  }

  /** walkGet. */
  function Get(root: Fields, p: Path): Option<Value> {
    if p.modName in root then GetSteps(root[p.modName], p.segments) else None
  }

  method WalkGet(root: Fields, p: Path) returns (r: Option<Value>)
    ensures r == Get(root, p)
  {
    if p.modName !in root { return None; }
    var cur := root[p.modName];
    var i := 0;
    assert p.segments[0..] == p.segments;
    while i < |p.segments|
      invariant 0 <= i <= |p.segments|
      invariant GetSteps(root[p.modName], p.segments) == GetSteps(cur, p.segments[i..])
    {
      assert p.segments[i..][1..] == p.segments[i + 1..];
      var seg := p.segments[i];
      if seg.keys != [] {
        if cur.Map? { cur := if seg.name in cur.fields then cur.fields[seg.name] else Null; }
        if !cur.List? { return None; }
        var idx := FindEntry(cur.items, seg.keys);
        if idx.None? { return None; }
        cur := cur.items[idx.value];
      } else {
        if !cur.Map? || seg.name !in cur.fields { return None; }
        cur := cur.fields[seg.name];
      }
      i := i + 1;
    }
    return Some(cur);
  }

  // ------------------------------------------------------------------- write

  function FieldsOf(v: Value): Fields { if v.Map? then v.fields else map[] }

  function ArrayAt(m: Fields, name: string): seq<Value> {
    if name in m && m[name].List? then m[name].items else []
  }

  /** Where descend stops: the value under one step, created when it is missing. */
  function StepInto(m: Fields, seg: Segment): Value {
    if seg.keys == [] then
      if seg.name in m then m[seg.name] else Map(map[])
    else
      var arr := ArrayAt(m, seg.name);
      match ListIndex(arr, seg.keys)
      case None => Map(EntryWithKeys(seg.keys))
      case Some(i) => arr[i]
  }

  /** The parent after the value under one step is set. */
  function StepSet(m: Fields, seg: Segment, v: Value): Fields {
    if seg.keys == [] then m[seg.name := v]
    else
      var arr := ArrayAt(m, seg.name);
      match ListIndex(arr, seg.keys)
      case None => m[seg.name := List(arr + [v])]
      case Some(i) => m[seg.name := List(arr[i := v])]
  }

  /** checkWritten. */
  function CheckWritten(schema: Option<Schema>, p: Path, v: Value): Result<()> {
    if schema.None? then Ok(())
    else
      var s, at := schema.value, PlaceOf(p);
      if SchemaKey(at) in s.byPath && s.byPath[SchemaKey(at)].computed then Err(NotWritable)
      else if SchemaKey(at) in s.byPath && !CheckValue(s, s.byPath[SchemaKey(at)], v) then Err(ValidationFailed)
      else if !Valid(s, at, v) then Err(ValidationFailed)
      else Ok(())
  }

  /** What applyLast stores at the last step. */
  function LastValue(schema: Option<Schema>, p: Path, m: Fields, seg: Segment, value: Value, merge: bool): Result<Value> {
    if seg.keys != [] then
      var next := if merge then MergeValues(StepInto(m, seg), value) else value;
      if next.Map? then Ok(Map(Overlay(next.fields, seg.keys)))
      else if schema.Some? && IsScalarLeaf(schema.value, p) then Ok(next)
      else Err(ValidationFailed)
    else if merge then Ok(MergeValues(if seg.name in m then m[seg.name] else Null, value))
    else Ok(value)
  }

  /** The descend loop of put, and applyLast. */
  function PutSteps(schema: Option<Schema>, p: Path, cur: Value, segs: seq<Segment>, value: Value, merge: bool): (r: Result<Value>)
    requires segs != []
    ensures r.Ok? ==> r.value.Map?
    decreases |segs|
  {
    var m, seg := FieldsOf(cur), segs[0];
    if |segs| == 1 then
      var next :- LastValue(schema, p, m, seg, value, merge);
      var _ :- CheckWritten(schema, p, next);
      Ok(Map(StepSet(m, seg, next)))
    else
      var next :- PutSteps(schema, p, StepInto(m, seg), segs[1..], value, merge);
      Ok(Map(StepSet(m, seg, next)))
  }

  /** The module's value, created when it is missing. */
  function ModuleValue(root: Fields, p: Path): Value {
    if p.modName in root then root[p.modName] else Map(map[])
  }

  /** put. */
  function Put(schema: Option<Schema>, root: Fields, p: Path, value: Value, merge: bool): Result<Fields> {
    if p.IsRoot() then
      if !value.Map? then Err(ValidationFailed)
      else
        var next := if merge then MergeValues(Map(root), value) else value;
        var _ :- CheckWritten(schema, p, next);
        Ok(FieldsOf(next))
    else
      var cur := ModuleValue(root, p);
      if p.segments == [] then
        var next := if merge then MergeValues(cur, value) else value;
        var _ :- CheckWritten(schema, p, next);
        Ok(root[p.modName := next])
      else
        var next :- PutSteps(schema, p, cur, p.segments, value, merge);
        Ok(root[p.modName := next])
  }

  // ------------------------------------------------------------------ delete

  /** The descend loop of deleteAt, and the removal at its last step. */
  function DeleteSteps(cur: Value, segs: seq<Segment>): (r: Result<Value>)
    requires segs != []
    ensures r.Ok? ==> r.value.Map?
    decreases |segs|
  {
    if !cur.Map? then Err(NotFound)
    else
      var m, seg := cur.fields, segs[0];
      if seg.keys == [] && seg.name !in m then Err(NotFound)
      else if seg.keys != [] && ListIndex(ArrayAt(m, seg.name), seg.keys).None? then Err(NotFound)
      else if |segs| == 1 then
        if seg.keys == [] then Ok(Map(m - {seg.name}))
        else
          var arr := ArrayAt(m, seg.name);
          var i := ListIndex(arr, seg.keys).value;
          Ok(Map(m[seg.name := List(arr[..i] + arr[i + 1..])]))
      else if StepInto(m, seg).Null? then Err(NotFound)
      else
        var next :- DeleteSteps(StepInto(m, seg), segs[1..]);
        Ok(Map(StepSet(m, seg, next)))
  }

  /** deleteAt. */
  function DeleteAt(root: Fields, p: Path): Result<Fields> {
    if p.IsRoot() then Ok(map[])
    else if p.modName !in root then Err(NotFound)
    else if p.segments == [] then Ok(root - {p.modName})
    else
      var next :- DeleteSteps(root[p.modName], p.segments);
      Ok(root[p.modName := next])
  }

  /** apply. */
  function Apply(schema: Option<Schema>, root: Fields, op: Operation, p: Path, value: Value): Result<Fields> {
    if schema.Some? && !Known(schema.value, p) then Err(UnknownPath)
    else if op != Delete && schema.Some? && ReadOnly(schema.value, p) then Err(NotWritable)
    else match op
      case Merge => Put(schema, root, p, value, true)
      case Replace => Put(schema, root, p, value, false)
      case Delete => DeleteAt(root, p)
      case Unsupported => Err(ValidationFailed)
  }

  // ------------------------------------------------- the source's merge loops

  /** mergeValues and mergeMaps: the map is walked in any order. */
  method MergeInto(dst: Value, src: Value) returns (r: Value)
    ensures r == MergeValues(dst, src)
    decreases src, 1
  {
    if src.Null? { return dst; }
    if dst.Map? && src.Map? {
      var out, todo := dst.fields, src.fields.Keys;
      ghost var want := MergeValues(dst, src).fields;
      while todo != {}
        invariant todo <= src.fields.Keys
        invariant out.Keys == dst.fields.Keys + (src.fields.Keys - todo)
        invariant forall k | k in out :: out[k] == if k in todo then dst.fields[k] else want[k]
      {
        var k :| k in todo;
        if k in out {
          var merged := MergeInto(out[k], src.fields[k]);
          out := out[k := merged];
        } else {
          out := out[k := src.fields[k]];
        }
        todo := todo - {k};
      }
      assert out == want;
      return Map(out);
    }
    if src.List? {
      var items := MergeListInto(if dst.List? then dst.items else [], src.items);
      return List(items);
    }
    return src;
  }

  /** mergeLists. */
  method MergeListInto(dst: seq<Value>, src: seq<Value>) returns (out: seq<Value>)
    ensures out == MergeLists(dst, src)
    decreases src, 0
  {
    out := dst;
    var i := 0;
    assert src[0..] == src;
    while i < |src|
      invariant 0 <= i <= |src|
      invariant MergeLists(dst, src) == MergeLists(out, src[i..])
    {
      var item := src[i];
      assert src[i..][1..] == src[i + 1..];
      if !item.Map? || KeysForItem(item.fields) == [] {
        out := out + [item];
      } else {
        var idx := FindEntry(out, KeysForItem(item.fields));
        if idx.None? {
          out := out + [item];
        } else {
          var merged := MergeInto(out[idx.value], item);
          out := out[idx.value := merged];
        }
      }
      i := i + 1;
    }
  }

  // ------------------------------------------------- the source's edit loops

  /** One cursor the descent has passed: the container it stood on and the step it took. */
  datatype Cursor = Cursor(at: Fields, step: Segment)

  /** A result below the last cursor, carried back up to where the descent began. */
  function Rebuilt(trail: seq<Cursor>, r: Result<Value>): Result<Value> {
    if trail == [] || r.Err? then r
    else
      var last := trail[|trail| - 1];
      Rebuilt(trail[..|trail| - 1], Ok(Map(StepSet(last.at, last.step, r.value))))
  }

  method WriteBack(trail: seq<Cursor>, v: Value) returns (r: Value)
    ensures Rebuilt(trail, Ok(v)) == Ok(r)
  {
    r := v;
    var i := |trail|;
    assert trail[..i] == trail;
    while i > 0
      invariant 0 <= i <= |trail|
      invariant Rebuilt(trail, Ok(v)) == Rebuilt(trail[..i], Ok(r))
    {
      i := i - 1;
      assert trail[..i + 1][..i] == trail[..i];
      r := Map(StepSet(trail[i].at, trail[i].step, r));
    }
  }

  lemma {:induction false} RebuiltThrough(trail: seq<Cursor>, c: Cursor, r: Result<Value>)
    ensures Rebuilt(trail + [c], r) == Rebuilt(trail, if r.Ok? then Ok(Map(StepSet(c.at, c.step, r.value))) else r)
  {
    assert (trail + [c])[..|trail|] == trail;
  }

  /** The loop of put over all but the last step, then applyLast. */
  method PutLoop(schema: Option<Schema>, p: Path, start: Value, value: Value, merge: bool) returns (r: Result<Value>)
    requires p.segments != []
    ensures r == PutSteps(schema, p, start, p.segments, value, merge)
  {
    hide LastValue, CheckWritten, StepInto, StepSet;
    var cur, trail, i := start, [], 0;
    assert p.segments[0..] == p.segments;
    while i < |p.segments| - 1
      invariant 0 <= i < |p.segments|
      invariant PutSteps(schema, p, start, p.segments, value, merge)
             == Rebuilt(trail, PutSteps(schema, p, cur, p.segments[i..], value, merge))
    {
      var c := Cursor(FieldsOf(cur), p.segments[i]);
      assert p.segments[i..][1..] == p.segments[i + 1..];
      cur := StepInto(c.at, c.step);
      RebuiltThrough(trail, c, PutSteps(schema, p, cur, p.segments[i + 1..], value, merge));
      trail := trail + [c];
      i := i + 1;
    }
    var m, seg := FieldsOf(cur), p.segments[i];
    var next := LastValue(schema, p, m, seg, value, merge);
    if next.Err? { return Err(next.error); }
    var checked := CheckWritten(schema, p, next.value);
    if checked.Err? { return Err(checked.error); }
    var written := WriteBack(trail, Map(StepSet(m, seg, next.value)));
    return Ok(written);
  }

  /** The loop of deleteAt over all but the last step, then the removal. */
  method DeleteLoop(start: Value, segs: seq<Segment>) returns (r: Result<Value>)
    requires segs != []
    ensures r == DeleteSteps(start, segs)
  {
    hide StepInto, StepSet, ListIndex;
    var cur, trail, i := start, [], 0;
    assert segs[0..] == segs;
    while i < |segs| - 1
      invariant 0 <= i < |segs|
      invariant DeleteSteps(start, segs) == Rebuilt(trail, DeleteSteps(cur, segs[i..]))
    {
      if !cur.Map? { return Err(NotFound); }
      var c := Cursor(cur.fields, segs[i]);
      assert segs[i..][1..] == segs[i + 1..];
      if c.step.keys == [] && c.step.name !in c.at { return Err(NotFound); }
      if c.step.keys != [] && ListIndex(ArrayAt(c.at, c.step.name), c.step.keys).None? { return Err(NotFound); }
      cur := StepInto(c.at, c.step);
      if cur.Null? { return Err(NotFound); }
      RebuiltThrough(trail, c, DeleteSteps(cur, segs[i + 1..]));
      trail := trail + [c];
      i := i + 1;
    }
    var removed := RemoveLast(cur, segs[i]);
    assert segs[i..] == [segs[i]];
    if removed.Err? { return removed; }
    var written := WriteBack(trail, removed.value);
    return Ok(written);
  }

  /** The removal at the last step of deleteAt. */
  method RemoveLast(cur: Value, seg: Segment) returns (r: Result<Value>)
    ensures r == DeleteSteps(cur, [seg])
  {
    if !cur.Map? { return Err(NotFound); }
    var m := cur.fields;
    if seg.keys == [] {
      if seg.name !in m { return Err(NotFound); }
      return Ok(Map(m - {seg.name}));
    }
    var arr := ArrayAt(m, seg.name);
    var idx := FindEntry(arr, seg.keys);
    if idx.None? { return Err(NotFound); }
    return Ok(Map(m[seg.name := List(arr[..idx.value] + arr[idx.value + 1..])]));
  }
}
