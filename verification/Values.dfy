/** Configuration values, and how list entries are found by key
    (internal/yangtree/value.go). */
module Values {
  import opened Text
  import opened Paths

  datatype Value =
    | Null
    | Bool(b: bool)
    | Num(n: int)
    | Str(s: string)
    | List(items: seq<Value>)
    | Map(fields: map<string, Value>)

  /** A floating-point number, as strconv.ParseFloat yields them. */
  datatype Number = NaN | Infinite(positive: bool) | Finite(r: real)

  /** How the program reads numbers: texts with ParseFloat, integers by conversion to a float. */
  datatype Numeral = Numeral(parse: string -> Option<Number>, float: int -> real)

  predicate IsScalar(v: Value) { !v.List? && !v.Map? }

  // ------------------------------------------------------------- rendering

  /** Go's default formatting: maps print with sorted keys. */
  function Stringify(v: Value): string
    decreases v, 1
  {
    match v
    case Null => "<nil>"
    case Bool(b) => if b then "true" else "false"
    case Num(n) => Itoa(n)
    case Str(s) => s
    case List(items) => "[" + StringifyItems(items) + "]"
    case Map(fields) => "map[" + StringifyFields(v, Sorted(fields.Keys)) + "]"
  }

  function StringifyItems(items: seq<Value>): string
    decreases items, 0
  {
    if items == [] then ""
    else if |items| == 1 then Stringify(items[0])
    else Stringify(items[0]) + " " + StringifyItems(items[1..])
  }

  function StringifyFields(v: Value, keys: seq<string>): string
    requires v.Map? && forall k | k in keys :: k in v.fields
    decreases v, 0, |keys|
  {
    if keys == [] then ""
    else
      var head := keys[0] + ":" + Stringify(v.fields[keys[0]]);
      if |keys| == 1 then head else head + " " + StringifyFields(v, keys[1..])
  }

  // ------------------------------------------------------- entries and keys

  predicate MatchKeys(m: map<string, Value>, keys: seq<Key>) {
    forall i | 0 <= i < |keys| :: keys[i].name in m && Stringify(m[keys[i].name]) == keys[i].value
  }

  predicate IsMatch(v: Value, keys: seq<Key>) { v.Map? && MatchKeys(v.fields, keys) }

  /** listIndex: the first map entry that carries all the keys. */
  function ListIndex(arr: seq<Value>, keys: seq<Key>): (r: Option<nat>)
    ensures r.Some? ==> r.value < |arr| && IsMatch(arr[r.value], keys)
    ensures r.Some? ==> forall i | 0 <= i < r.value :: !IsMatch(arr[i], keys)
    ensures r.None? ==> forall i | 0 <= i < |arr| :: !IsMatch(arr[i], keys)
  {
    if arr == [] then None
    else if IsMatch(arr[0], keys) then Some(0)
    else match ListIndex(arr[1..], keys)
      case None => None
      case Some(i) => Some(i + 1)
  }

  /** The characterisation that pins ListIndex: any first match is the one returned. */
  lemma {:induction false} ListIndexIs(arr: seq<Value>, keys: seq<Key>, i: nat)
    requires i < |arr| && IsMatch(arr[i], keys)
    requires forall j | 0 <= j < i :: !IsMatch(arr[j], keys)
    ensures ListIndex(arr, keys) == Some(i)
  {
    var r := ListIndex(arr, keys);
    assert r.Some? && !(r.value < i) && !(i < r.value);
  }

  lemma {:induction false} ListIndexNone(arr: seq<Value>, keys: seq<Key>)
    requires forall j | 0 <= j < |arr| :: !IsMatch(arr[j], keys)
    ensures ListIndex(arr, keys) == None
  {
  }

  /** The loop of listIndex. */
  method FindEntry(arr: seq<Value>, keys: seq<Key>) returns (r: Option<nat>)
    ensures r == ListIndex(arr, keys)
  {
    var i := 0;
    while i < |arr|
      invariant 0 <= i <= |arr|
      invariant forall j | 0 <= j < i :: !IsMatch(arr[j], keys)
    {
      if IsMatch(arr[i], keys) {
        ListIndexIs(arr, keys, i);
        return Some(i);
      }
      i := i + 1;
    }
    return None;
  }

  function Overlay(m: map<string, Value>, keys: seq<Key>): map<string, Value> {
    if keys == [] then m
    else Overlay(m, keys[..|keys| - 1])[keys[|keys| - 1].name := Str(keys[|keys| - 1].value)]
  }

  /** entryWithKeys. */
  function EntryWithKeys(keys: seq<Key>): map<string, Value> { Overlay(map[], keys) }

  /** No two predicates ask for different values of one field. */
  predicate Consistent(keys: seq<Key>) {
    forall i, j | 0 <= i < j < |keys| && keys[i].name == keys[j].name :: keys[i].value == keys[j].value
  }

  predicate NamesKey(keys: seq<Key>, name: string) {
    exists i | 0 <= i < |keys| :: keys[i].name == name
  }

  lemma {:induction false} OverlayFrame(m: map<string, Value>, keys: seq<Key>, name: string)
    requires !NamesKey(keys, name)
    ensures name in Overlay(m, keys) <==> name in m
    ensures name in m ==> Overlay(m, keys)[name] == m[name]
  {
    if keys != [] {
      var front := keys[..|keys| - 1];
      assert keys[|keys| - 1].name != name;
      assert forall i | 0 <= i < |front| :: front[i] == keys[i];
      OverlayFrame(m, front, name);
    }
  }

  /** Every field of an overlaid map is an old field or a predicate value. */
  lemma {:induction false} OverlayFields(m: map<string, Value>, keys: seq<Key>, name: string)
    requires name in Overlay(m, keys)
    ensures (Overlay(m, keys)[name].Str? && NamesKey(keys, name)) || (name in m && Overlay(m, keys)[name] == m[name])
  {
    if keys != [] {
      var front := keys[..|keys| - 1];
      if keys[|keys| - 1].name != name {
        OverlayFields(m, front, name);
        assert forall i | 0 <= i < |front| :: front[i] == keys[i];
      }
    }
  }

  lemma {:induction false} OverlayValue(m: map<string, Value>, keys: seq<Key>, i: nat)
    requires Consistent(keys) && i < |keys|
    ensures keys[i].name in Overlay(m, keys) && Overlay(m, keys)[keys[i].name] == Str(keys[i].value)
  {
    var front, last := keys[..|keys| - 1], keys[|keys| - 1];
    if i < |front| && keys[i].name != last.name {
      assert Consistent(front) by {
        forall a, b | 0 <= a < b < |front| && front[a].name == front[b].name ensures front[a].value == front[b].value {
          assert keys[a].name == keys[b].name;
        }
      }
      OverlayValue(m, front, i);
    }
  }

  /** Some entry can carry the predicates exactly when they are consistent, and then the entry
      written with them does. */
  lemma {:induction false} MatchNeedsConsistent(m: map<string, Value>, keys: seq<Key>)
    ensures MatchKeys(m, keys) ==> Consistent(keys)
    ensures Consistent(keys) ==> MatchKeys(Overlay(m, keys), keys)
  {
    if Consistent(keys) {
      forall i | 0 <= i < |keys| ensures keys[i].name in Overlay(m, keys) && Stringify(Overlay(m, keys)[keys[i].name]) == keys[i].value {
        OverlayValue(m, keys, i);
      }
    }
  }

  predicate IsNamed(v: Value) { v.Map? && "name" in v.fields && v.fields["name"].Str? }

  function NameOf(v: Value): string requires IsNamed(v) { v.fields["name"].s }

  function ByName(n: string): seq<Key> { [Key("name", n)] }

  /** keysForItem. Go's fallback takes whichever string field the map yields first; here it
      is the alphabetically first one. */
  function KeysForItem(m: map<string, Value>): seq<Key> {
    var texts := set k | k in m && m[k].Str?;
    if "name" in m then [Key("name", Stringify(m["name"]))]
    else if "id" in m then [Key("id", Stringify(m["id"]))]
    else if "index" in m then [Key("index", Stringify(m["index"]))]
    else if "key" in m then [Key("key", Stringify(m["key"]))]
    else if texts != {} then [Key(First(texts), m[First(texts)].s)]
    else []
  }

  /** The names that keysForItem tries, in order. */
  const PREFERRED := ["name", "id", "index", "key"]

  /** The first preferred field an item has is its key, whatever it holds. Without one, its key is some
      text field it has, and there is none exactly when it has no text field. */
  lemma {:induction false} KeysForItemPrefers(m: map<string, Value>)
    ensures forall i | 0 <= i < |PREFERRED| && PREFERRED[i] in m && (forall j | 0 <= j < i :: PREFERRED[j] !in m) ::
      KeysForItem(m) == [Key(PREFERRED[i], Stringify(m[PREFERRED[i]]))]
    ensures (forall i | 0 <= i < |PREFERRED| :: PREFERRED[i] !in m) ==>
      && (KeysForItem(m) == [] <==> forall k | k in m :: !m[k].Str?)
      && (KeysForItem(m) != [] ==> exists k | k in m :: m[k].Str? && KeysForItem(m) == [Key(k, m[k].s)])
  {
    hide Stringify, First;
    assert PREFERRED[0] == "name" && PREFERRED[1] == "id" && PREFERRED[2] == "index" && PREFERRED[3] == "key";
    var texts := set k | k in m && m[k].Str?;
    if texts == {} {
      forall k | k in m ensures !m[k].Str? { assert k !in texts; }
    } else {
      assert First(texts) in texts;
    }
  }

  /** What text finds a scalar key: a number by its decimal numeral, a text by itself. */
  lemma {:induction false} ScalarKeyMatches(m: map<string, Value>, k: string, text: string)
    requires k in m && IsScalar(m[k])
    ensures MatchKeys(m, [Key(k, text)]) <==>
      match m[k] {
        case Num(n) => Denotes(text, n)
        case Str(s) => text == s
        case Bool(b) => text == if b then "true" else "false"
        case _ => text == "<nil>"
      }
  {
    assert [Key(k, text)][0] == Key(k, text);
    if m[k].Num? { ItoaDenotes(text, m[k].n); }
  }

  predicate MatchesName(v: Value, n: string) { v.Map? && "name" in v.fields && Stringify(v.fields["name"]) == n }

  lemma {:induction false} NamedItemKeys(item: Value)
    requires IsNamed(item)
    ensures KeysForItem(item.fields) == ByName(NameOf(item))
  {
    assert Stringify(item.fields["name"]) == item.fields["name"].s;
  }

  lemma {:induction false} MatchIsByName(v: Value, n: string)
    ensures IsMatch(v, ByName(n)) <==> MatchesName(v, n)
  {
    assert ByName(n)[0] == Key("name", n);
  }

  lemma {:induction false} NameMatches(v: Value)
    requires IsNamed(v)
    ensures forall n :: IsMatch(v, ByName(n)) <==> n == NameOf(v)
  {
    forall n ensures IsMatch(v, ByName(n)) <==> n == NameOf(v) { MatchIsByName(v, n); }
  }

  /** The first entry of a name. */
  function EntryNamed(items: seq<Value>, n: string): Option<Value> {
    match ListIndex(items, ByName(n))
    case None => None
    case Some(i) => Some(items[i])
  }

  // ------------------------------------------------------------ restrictions

  predicate NullFree(v: Value) {
    match v
    case Null => false
    case List(items) => forall i | 0 <= i < |items| :: NullFree(items[i])
    case Map(fields) => forall k | k in fields :: NullFree(fields[k])
    case _ => true
  }

  predicate DistinctlyNamed(items: seq<Value>) {
    && (forall i | 0 <= i < |items| :: IsNamed(items[i]))
    && (forall i, j | 0 <= i < j < |items| :: NameOf(items[i]) != NameOf(items[j]))
  }

  /** Every list below v holds map entries with pairwise distinct string names. */
  predicate NamedLists(v: Value) {
    match v
    case List(items) => DistinctlyNamed(items) && forall i | 0 <= i < |items| :: NamedLists(items[i])
    case Map(fields) => forall k | k in fields :: NamedLists(fields[k])
    case _ => true
  }
}
