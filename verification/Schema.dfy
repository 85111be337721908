/** The compact schema and the validation of trees against it
    (internal/yangtree/schema.go and the Validate family of internal/yangtree/node.go). */
module Schemas {
  import opened Text
  import opened Paths
  import opened Values

  datatype LeafType =
    | String | Identityref | Enumeration | Boolean
    | Int32 | Int64 | Uint32 | Uint64 | Decimal64 | Empty
    | LeafList | ListOf | Container

  /** One declared path. Regular expressions and numeric ranges are opaque predicates. */
  datatype Entry = Entry(
    typ: LeafType,
    readAccess: bool,
    computed: bool,
    pattern: Option<string -> bool>,
    range: Option<Value -> bool>)

  /** byPath is keyed by the schema string; numeral is strconv.ParseFloat. */
  datatype Schema = Schema(byPath: map<string, Entry>, numeral: string -> Option<Number>)

  // --------------------------------------------------------- schema strings

  /** A path with its predicates stripped: what the schema can tell apart. */
  datatype Place = Place(modName: string, names: seq<string>)

  const TOP := Place("", [])

  function Join(names: seq<string>): string {
    if names == [] then ""
    else if |names| == 1 then names[0]
    else Join(names[..|names| - 1]) + "/" + names[|names| - 1]
  }

  /** SchemaString. */
  function SchemaKey(at: Place): string {
    if at == TOP then "" else at.modName + ":" + Join(at.names)
  }

  function Child(at: Place, k: string): Place {
    if at.modName == "" then Place(k, at.names) else Place(at.modName, at.names + [k])
  }

  function StripKeys(segs: seq<Segment>): (names: seq<string>)
    ensures |names| == |segs| && forall i | 0 <= i < |segs| :: names[i] == segs[i].name
  {
    if segs == [] then [] else StripKeys(segs[..|segs| - 1]) + [segs[|segs| - 1].name]
  }

  function PlaceOf(p: Path): Place { Place(p.modName, StripKeys(p.segments)) }

  // ----------------------------------------------------------- leaf checking

  const MAX_INT32 := 0x7fff_ffff
  const MIN_INT32 := -0x8000_0000
  const MAX_INT64 := 0x7fff_ffff_ffff_ffff
  const MIN_INT64 := -0x8000_0000_0000_0000
  const MAX_UINT32 := 0xffff_ffff
  const MAX_UINT64 := 0xffff_ffff_ffff_ffff

  predicate IsEmptyType(v: Value) {
    match v
    case Null => true
    case Bool(b) => b
    case Map(fields) => fields == map[]
    case List(items) => items == [] || items == [Null]
    case _ => false
  }

  predicate IsFloat(s: Schema, v: Value) {
    v.Num? || (v.Str? && s.numeral(v.s).Some?)
  }

  /** checkType. */
  predicate CheckType(s: Schema, typ: LeafType, v: Value) {
    match typ
    case String | Identityref | Enumeration => v.Str?
    case Boolean => v.Bool?
    case Int32 => v.Num? && MIN_INT32 <= v.n <= MAX_INT32
    case Int64 => v.Num? && MIN_INT64 <= v.n <= MAX_INT64
    case Uint32 => v.Num? && 0 <= v.n <= MAX_UINT32
    case Uint64 => v.Num? && 0 <= v.n <= MAX_UINT64
    case Decimal64 => IsFloat(s, v)
    case Empty => IsEmptyType(v)
    case LeafList => v.List? && forall i | 0 <= i < |v.items| :: IsScalar(v.items[i])
    case ListOf => v.List? || v.Map?
    case Container => v.Map? || v.Null?
  }

  /** checkValue. */
  predicate CheckValue(s: Schema, e: Entry, v: Value) {
    && CheckType(s, e.typ, v)
    && (e.pattern.Some? ==> v.Str? && e.pattern.value(v.s))
    && (e.range.Some? ==> IsFloat(s, v) && e.range.value(v))
  }

  // -------------------------------------------------------------- validation

  /** validateValue. */
  predicate Valid(s: Schema, at: Place, v: Value)
    decreases v, 1
  {
    if SchemaKey(at) in s.byPath then
      var e := s.byPath[SchemaKey(at)];
      match e.typ
      case ListOf =>
        if v.List? then forall i | 0 <= i < |v.items| :: ValidChildren(s, at, v.items[i])
        else if v.Map? then ValidChildren(s, at, v)
        else CheckValue(s, e, v)
      case Container => CheckValue(s, e, v) && ValidChildren(s, at, v)
      case LeafList => CheckValue(s, e, v)
      case _ => e.computed || CheckValue(s, e, v)
    else ValidChildren(s, at, v)
  }

  /** validateChildren. */
  predicate ValidChildren(s: Schema, at: Place, v: Value)
    decreases v, 0
  {
    match v
    case Map(fields) => forall k | k in fields :: Valid(s, Child(at, k), fields[k])
    case List(items) => forall i | 0 <= i < |items| :: Valid(s, at, items[i])
    case _ => true
  }

  // ---------------------------------------------------------------- lookups

  predicate HasPrefix(s: string, prefix: string) { prefix <= s }

  /** known: a declared path, an ancestor of one, or a module that has one. */
  predicate Known(s: Schema, p: Path) {
    || p.IsRoot()
    || SchemaKey(PlaceOf(p)) in s.byPath
    || (exists key | key in s.byPath ::
          || HasPrefix(key, SchemaKey(PlaceOf(p)) + "/")
          || (p.segments == [] && HasPrefix(key, SchemaKey(PlaceOf(p)))))
  }

  /** readOnly. */
  predicate ReadOnly(s: Schema, p: Path) {
    var key := SchemaKey(PlaceOf(p));
    key in s.byPath && (s.byPath[key].computed || s.byPath[key].readAccess)
  }

  /** isScalarLeaf. */
  predicate IsScalarLeaf(s: Schema, p: Path) {
    var key := SchemaKey(PlaceOf(p));
    key in s.byPath && !s.byPath[key].typ.ListOf? && !s.byPath[key].typ.Container? && !s.byPath[key].typ.LeafList?
  }
}
