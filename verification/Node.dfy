/** The tree object whose root an edit replaces (internal/yangtree/edit.go, node.go). */
module Nodes {
  import opened Text
  import opened Paths
  import opened Values
  import opened Schemas
  import opened Edits

  /** A tree with the schema that governs it. A failed edit leaves the tree as it was. */
  class Node {
    const schema: Option<Schema>
    var root: Fields

    constructor (schema: Option<Schema>, root: Fields)
      ensures this.schema == schema && this.root == root
    {
      this.schema := schema;
      this.root := root;
    }

    method Put(p: Path, value: Value, merge: bool) returns (r: Result<()>)
      modifies this`root
      ensures match Edits.Put(schema, old(root), p, value, merge)
              case Ok(after) => r == Ok(()) && root == after
              case Err(e) => r == Err(e) && root == old(root)
    {
      hide MergeValues, CheckWritten, PutSteps;
      if p.IsRoot() {
        if !value.Map? { return Err(ValidationFailed); }
        var next := value;
        if merge { next := MergeInto(Map(root), value); }
        var checked := CheckWritten(schema, p, next);
        if checked.Err? { return checked; }
        root := FieldsOf(next);
        return Ok(());
      }
      var cur := if p.modName in root then root[p.modName] else Map(map[]);
      if p.segments == [] {
        var next := value;
        if merge { next := MergeInto(cur, value); }
        var checked := CheckWritten(schema, p, next);
        if checked.Err? { return checked; }
        root := root[p.modName := next];
        return Ok(());
      }
      var next := PutLoop(schema, p, cur, value, merge);
      if next.Err? { return Err(next.error); }
      root := root[p.modName := next.value];
      return Ok(());
    }

    method DeleteAt(p: Path) returns (r: Result<()>)
      modifies this`root
      ensures match Edits.DeleteAt(old(root), p)
              case Ok(after) => r == Ok(()) && root == after
              case Err(e) => r == Err(e) && root == old(root)
    {
      hide DeleteSteps;
      if p.IsRoot() { root := map[]; return Ok(()); }
      if p.modName !in root { return Err(NotFound); }
      if p.segments == [] { root := root - {p.modName}; return Ok(()); }
      var next := DeleteLoop(root[p.modName], p.segments);
      if next.Err? { return Err(next.error); }
      root := root[p.modName := next.value];
      return Ok(());
    }

    method Apply(op: Operation, p: Path, value: Value) returns (r: Result<()>)
      modifies this`root
      ensures match Edits.Apply(schema, old(root), op, p, value)
              case Ok(after) => r == Ok(()) && root == after
              case Err(e) => r == Err(e) && root == old(root)
    {
      hide Edits.Put, Edits.DeleteAt, Known, ReadOnly;
      if schema.Some? && !Known(schema.value, p) { return Err(UnknownPath); }
      if op != Delete && schema.Some? && ReadOnly(schema.value, p) { return Err(NotWritable); }
      match op
      case Merge => r := Put(p, value, true);
      case Replace => r := Put(p, value, false);
      case Delete => r := DeleteAt(p);
      case Unsupported => r := Err(ValidationFailed);
    }
  }
}
