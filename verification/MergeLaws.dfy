/** Merging an overlay: doing it twice is doing it once, the overlay's scalars read back, and what the
    overlay is silent about is kept. */
module MergeLaws {
  import opened Text
  import opened Paths
  import opened Values
  import opened Edits

  // -------------------------------------------------------------- keyed entries

  function ByKey(f: string, n: string): seq<Key> { [Key(f, n)] }

  predicate HasText(v: Value, f: string, n: string) { v.Map? && f in v.fields && v.fields[f] == Str(n) }

  /** keysForItem tells the item apart by the text in field f. */
  predicate KeyedBy(v: Value, f: string) {
    v.Map? && f in v.fields && v.fields[f].Str? && KeysForItem(v.fields) == ByKey(f, v.fields[f].s)
  }

  function KeyOf(v: Value, f: string): string requires KeyedBy(v, f) { v.fields[f].s }

  /** The entries are told apart by different texts in one field. */
  predicate DistinctlyKeyedBy(items: seq<Value>, f: string) {
    && (forall i | 0 <= i < |items| :: KeyedBy(items[i], f))
    && (forall i, j | 0 <= i < j < |items| :: KeyOf(items[i], f) != KeyOf(items[j], f))
  }

  ghost predicate DistinctlyKeyed(items: seq<Value>) { exists f :: DistinctlyKeyedBy(items, f) }

  /** Every list below v holds entries told apart by one field, which may be another one in each list. */
  ghost predicate KeyedLists(v: Value) {
    match v
    case List(items) => DistinctlyKeyed(items) && forall i | 0 <= i < |items| :: KeyedLists(items[i])
    case Map(fields) => forall k | k in fields :: KeyedLists(fields[k])
    case _ => true
  }

  /** A null-free overlay whose lists hold distinctly keyed entries. */
  ghost predicate CleanOverlay(v: Value) { NullFree(v) && KeyedLists(v) }

  /** Lists of distinctly named entries are such lists. */
  lemma {:induction false} NamedIsKeyed(v: Value)
    requires NamedLists(v)
    ensures KeyedLists(v)
    decreases v
  {
    match v
    case List(items) =>
      forall i | 0 <= i < |items| ensures KeyedBy(items[i], "name") && KeyOf(items[i], "name") == NameOf(items[i]) {
        NamedItemKeys(items[i]);
      }
      assert DistinctlyKeyedBy(items, "name");
      forall i | 0 <= i < |items| ensures KeyedLists(items[i]) { NamedIsKeyed(items[i]); }
    case Map(fields) => forall k | k in fields ensures KeyedLists(fields[k]) { NamedIsKeyed(fields[k]); }
    case _ =>
  }

  lemma {:induction false} OverlayParts(v: Value)
    requires CleanOverlay(v)
    ensures v.Map? ==> forall k | k in v.fields :: CleanOverlay(v.fields[k])
    ensures v.List? ==> DistinctlyKeyed(v.items) && forall i | 0 <= i < |v.items| :: CleanOverlay(v.items[i])
  {
  }

  lemma {:induction false} TextMatches(v: Value, f: string, n: string)
    requires HasText(v, f, n)
    ensures forall m :: IsMatch(v, ByKey(f, m)) <==> m == n
  {
    forall m ensures IsMatch(v, ByKey(f, m)) <==> m == n {
      assert ByKey(f, m)[0] == Key(f, m);
      assert Stringify(v.fields[f]) == v.fields[f].s;
    }
  }

  /** Merging an entry with a text into anything yields an entry with that text. */
  lemma {:induction false} MergedText(dst: Value, item: Value, f: string, n: string)
    requires HasText(item, f, n)
    ensures HasText(MergeValues(dst, item), f, n)
  {
    var r := MergeValues(dst, item);
    if dst.Map? && f in dst.fields {
      assert r.fields[f] == MergeValues(dst.fields[f], item.fields[f]);
    } else if dst.Map? {
      assert r.fields[f] == item.fields[f];
    }
  }

  // ------------------------------------------------------- every item is merged in

  ghost predicate IsMergeOf(v: Value, item: Value) { exists d: Value :: v == MergeValues(d, item) }

  /** The first entry with the item's key is the item merged into something. */
  ghost predicate Holds(out: seq<Value>, item: Value, f: string)
    requires KeyedBy(item, f)
  {
    var at := ListIndex(out, ByKey(f, KeyOf(item, f)));
    at.Some? && IsMergeOf(out[at.value], item)
  }

  lemma {:induction false} MergeOfHasText(v: Value, item: Value, f: string, n: string)
    requires HasText(item, f, n) && IsMergeOf(v, item)
    ensures HasText(v, f, n)
  {
    var d :| v == MergeValues(d, item);
    MergedText(d, item, f, n);
  }

  lemma {:induction false} FreshMerge(item: Value)
    requires item.Map?
    ensures MergeValues(Null, item) == item
  {
  }

  /** One turn of mergeLists makes the list hold its item. */
  lemma {:induction false} MergeItemHolds(out: seq<Value>, item: Value, f: string)
    requires KeyedBy(item, f)
    ensures Holds(MergeItem(out, item), item, f)
  {
    hide MergeValues, KeysForItem, Stringify;
    var n := KeyOf(item, f);
    var found := ListIndex(out, ByKey(f, n));
    var i := if found.Some? then found.value else |out|;
    var v := if found.Some? then MergeValues(out[i], item) else item;
    var r := MergeItem(out, item);
    FreshMerge(item);
    assert v == MergeValues(if found.Some? then out[i] else Null, item);
    assert r == if found.Some? then out[i := v] else out + [v];
    assert r[i] == v && forall j | 0 <= j < i :: r[j] == out[j];
    MergeOfHasText(v, item, f, n);
    TextMatches(v, f, n);
    ListIndexIs(r, ByKey(f, n), i);
  }

  /** One turn with an item of another key leaves the first entry of a key where and as it is. */
  lemma {:induction false} MergeItemKeepsEntry(out: seq<Value>, item: Value, f: string, n: string)
    requires KeyedBy(item, f) && KeyOf(item, f) != n && ListIndex(out, ByKey(f, n)).Some?
    ensures var i, r := ListIndex(out, ByKey(f, n)).value, MergeItem(out, item);
      ListIndex(r, ByKey(f, n)) == Some(i) && r[i] == out[i]
  {
    hide MergeValues, KeysForItem, Stringify;
    var i, found, r := ListIndex(out, ByKey(f, n)).value, ListIndex(out, ByKey(f, KeyOf(item, f))), MergeItem(out, item);
    if found.Some? {
      var j := found.value;
      MergedText(out[j], item, f, KeyOf(item, f));
      TextMatches(r[j], f, KeyOf(item, f));
      assert i != j by { assert ByKey(f, n)[0] == Key(f, n) && ByKey(f, KeyOf(item, f))[0] == Key(f, KeyOf(item, f)); }
      assert forall k | 0 <= k < |r| && k != j :: r[k] == out[k];
    } else {
      assert r == out + [item];
    }
    ListIndexIs(r, ByKey(f, n), i);
  }

  ghost predicate HoldsAll(out: seq<Value>, src: seq<Value>, f: string)
    requires forall i | 0 <= i < |src| :: KeyedBy(src[i], f)
  {
    forall i | 0 <= i < |src| :: Holds(out, src[i], f)
  }

  /** After mergeLists the result holds every item it was given, and every one it held before. */
  lemma {:induction false} MergeListsHolds(out: seq<Value>, src: seq<Value>, done: seq<Value>, f: string)
    requires DistinctlyKeyedBy(done + src, f) && DistinctlyKeyedBy(src, f) && DistinctlyKeyedBy(done, f) && HoldsAll(out, done, f)
    ensures HoldsAll(MergeLists(out, src), done, f) && HoldsAll(MergeLists(out, src), src, f)
    decreases |src|
  {
    hide MergeValues, MergeItem, KeysForItem, IsMergeOf, ListIndex;
    if src != [] {
      var item, next := src[0], MergeItem(out, src[0]);
      MergeItemHolds(out, item, f);
      forall i | 0 <= i < |done| ensures Holds(next, done[i], f) {
        assert (done + src)[i] == done[i] && (done + src)[|done|] == item;
        assert Holds(out, done[i], f);
        MergeItemKeepsEntry(out, item, f, KeyOf(done[i], f));
      }
      hide Holds, KeyOf, KeyedBy;
      assert (done + [item]) + src[1..] == done + src;
      DistinctPrefix(done + src, |done| + 1, f);
      assert (done + src)[..|done| + 1] == done + [item];
      MergeListsHolds(next, src[1..], done + [item], f);
      var r := MergeLists(next, src[1..]);
      forall i | 0 <= i < |done| ensures Holds(r, done[i], f) { assert (done + [item])[i] == done[i]; }
      assert (done + [item])[|done|] == item;
      forall i | 0 <= i < |src| ensures Holds(r, src[i], f) {
        if i > 0 { assert src[1..][i - 1] == src[i]; }
      }
    }
  }

  lemma {:induction false} DistinctPrefix(items: seq<Value>, n: nat, f: string)
    requires DistinctlyKeyedBy(items, f) && n <= |items|
    ensures DistinctlyKeyedBy(items[..n], f)
  {
  }

  lemma {:induction false} MergedListHolds(dst: Value, items: seq<Value>, f: string)
    requires DistinctlyKeyedBy(items, f)
    ensures HoldsAll(MergeValues(dst, List(items)).items, items, f)
  {
    assert [] + items == items;
    MergeListsHolds(if dst.List? then dst.items else [], items, [], f);
  }

  lemma {:induction false} HeldListChangesNothing(out: seq<Value>, src: seq<Value>, f: string)
    requires DistinctlyKeyedBy(src, f) && HoldsAll(out, src, f)
    requires forall i, d: Value | 0 <= i < |src| :: MergeValues(MergeValues(d, src[i]), src[i]) == MergeValues(d, src[i])
    ensures MergeLists(out, src) == out
  {
    hide MergeValues, KeysForItem;
    if src != [] {
      assert Holds(out, src[0], f);
      assert MergeItem(out, src[0]) == out;
      HeldListChangesNothing(out, src[1..], f);
    }
  }

  lemma {:induction false} MergeIntoFresh(out: seq<Value>, src: seq<Value>, f: string)
    requires DistinctlyKeyedBy(out + src, f)
    ensures MergeLists(out, src) == out + src
    decreases |src|
  {
    hide KeysForItem, MergeValues, Stringify;
    if src == [] {
      assert out + src == out;
    } else {
      var all := out + src;
      var item := src[0];
      assert all[|out|] == item && forall i | 0 <= i < |out| :: all[i] == out[i];
      forall i | 0 <= i < |out| ensures !IsMatch(out[i], ByKey(f, KeyOf(item, f))) {
        assert KeyOf(all[i], f) != KeyOf(all[|out|], f);
        TextMatches(out[i], f, KeyOf(all[i], f));
      }
      ListIndexNone(out, ByKey(f, KeyOf(item, f)));
      assert (out + [item]) + src[1..] == all;
      MergeIntoFresh(out + [item], src[1..], f);
    }
  }

  /** Merging into nothing copies the overlay. */
  lemma {:induction false} NullMerge(v: Value)
    requires CleanOverlay(v)
    ensures MergeValues(Null, v) == v
  {
    if v.List? {
      var f :| DistinctlyKeyedBy(v.items, f);
      assert [] + v.items == v.items;
      MergeIntoFresh([], v.items, f);
    }
  }

  /** Merging a clean overlay twice is merging it once, whatever the destination. */
  lemma {:induction false} MergeIsIdempotent(dst: Value, src: Value)
    requires CleanOverlay(src)
    ensures MergeValues(MergeValues(dst, src), src) == MergeValues(dst, src)
    decreases src
  {
    OverlayParts(src);
    var once := MergeValues(dst, src);
    var twice := MergeValues(once, src);
    match src
    case Map(fields) =>
      forall k | k in fields ensures twice.fields[k] == once.fields[k] {
        MergeIsIdempotent(if dst.Map? && k in dst.fields then dst.fields[k] else Null, fields[k]);
        NullMerge(fields[k]);
      }
      assert twice.fields == once.fields;
    case List(items) =>
      forall i, d: Value | 0 <= i < |items| ensures MergeValues(MergeValues(d, items[i]), items[i]) == MergeValues(d, items[i]) {
        MergeIsIdempotent(d, items[i]);
      }
      var f :| DistinctlyKeyedBy(items, f);
      MergedListHolds(dst, items, f);
      HeldListChangesNothing(once.items, items, f);
    case _ =>
  }

  // ------------------------------------------------------------------- read back

  /** The path finds each list entry of the overlay by the entry's own key. */
  predicate ByOwnKeys(src: Value, segs: seq<Segment>)
    decreases |segs|
  {
    segs != [] && GetStep(src, segs[0]).Some? ==>
      && OwnKeys(GetStep(src, segs[0]).value, segs[0].keys)
      && ByOwnKeys(GetStep(src, segs[0]).value, segs[1..])
  }

  predicate OwnKeys(entry: Value, keys: seq<Key>) { keys != [] ==> entry.Map? && KeysForItem(entry.fields) == keys }

  /** One step into the overlay has its counterpart in the merged tree. */
  lemma {:induction false} StepReadsBack(dst: Value, src: Value, seg: Segment) returns (d: Value)
    requires CleanOverlay(src) && GetStep(src, seg).Some? && OwnKeys(GetStep(src, seg).value, seg.keys)
    ensures CleanOverlay(GetStep(src, seg).value)
    ensures GetStep(MergeValues(dst, src), seg) == Some(MergeValues(d, GetStep(src, seg).value))
  {
    hide NullFree, KeyedLists, Stringify, KeysForItem;
    OverlayParts(src);
    var merged := MergeValues(dst, src);
    if seg.keys == [] {
      NullMerge(src.fields[seg.name]);
      d := if dst.Map? && seg.name in dst.fields then dst.fields[seg.name] else Null;
    } else if src.Map? {
      var list := src.fields[seg.name];
      OverlayParts(list);
      NullMerge(list);
      var d0 := if dst.Map? && seg.name in dst.fields then dst.fields[seg.name] else Null;
      assert merged.fields[seg.name] == MergeValues(d0, list);
      d := EntryReadsBack(d0, list.items, seg.keys);
    } else {
      d := EntryReadsBack(dst, src.items, seg.keys);
    }
  }

  lemma {:induction false} EntryReadsBack(dst: Value, items: seq<Value>, keys: seq<Key>) returns (d: Value)
    requires DistinctlyKeyed(items) && ListIndex(items, keys).Some? && keys != []
    requires OwnKeys(items[ListIndex(items, keys).value], keys)
    ensures MergeValues(dst, List(items)).List?
    ensures var merged := MergeValues(dst, List(items)).items;
      var at := ListIndex(merged, keys);
      at.Some? && merged[at.value] == MergeValues(d, items[ListIndex(items, keys).value])
  {
    MergedIsList(dst, items);
    hide MergeValues, KeysForItem;
    var i := ListIndex(items, keys).value;
    var f :| DistinctlyKeyedBy(items, f);
    MergedListHolds(dst, items, f);
    var merged := MergeValues(dst, List(items)).items;
    assert KeyedBy(items[i], f) && keys == ByKey(f, KeyOf(items[i], f));
    assert Holds(merged, items[i], f);
    d :| merged[ListIndex(merged, keys).value] == MergeValues(d, items[i]);
  }

  lemma {:induction false} MergedIsList(dst: Value, items: seq<Value>)
    ensures MergeValues(dst, List(items)).List?
  {
  }

  /** What the overlay holds at a path, the merged tree holds there merged into something. */
  lemma {:induction false} OverlayReadsBack(dst: Value, src: Value, segs: seq<Segment>) returns (d: Value)
    requires CleanOverlay(src) && ByOwnKeys(src, segs) && GetSteps(src, segs).Some?
    ensures GetSteps(MergeValues(dst, src), segs) == Some(MergeValues(d, GetSteps(src, segs).value))
    decreases |segs|
  {
    hide MergeValues, GetStep, CleanOverlay, OwnKeys;
    if segs == [] {
      d := dst;
    } else {
      d := StepReadsBack(dst, src, segs[0]);
      d := OverlayReadsBack(d, GetStep(src, segs[0]).value, segs[1..]);
    }
  }

  /** So every scalar of the overlay reads back at its own path. */
  lemma {:induction false} OverlayScalarReadsBack(root: Fields, overlay: Fields, p: Path)
    requires CleanOverlay(Map(overlay)) && Get(overlay, p).Some? && IsScalar(Get(overlay, p).value)
    requires ByOwnKeys(overlay[p.modName], p.segments)
    ensures Get(MergeValues(Map(root), Map(overlay)).fields, p) == Get(overlay, p)
  {
    var src := overlay[p.modName];
    OverlayParts(Map(overlay));
    ScalarIsNotNull(src, p.segments);
    NullMerge(src);
    var d := OverlayReadsBack(if p.modName in root then root[p.modName] else Null, src, p.segments);
  }

  lemma {:induction false} ScalarIsNotNull(src: Value, segs: seq<Segment>)
    requires NullFree(src) && GetSteps(src, segs).Some?
    ensures NullFree(GetSteps(src, segs).value)
    decreases |segs|
  {
    if segs != [] { ScalarIsNotNull(GetStep(src, segs[0]).value, segs[1..]); }
  }

  // ------------------------------------------------------------------ what is kept

  /** The first entry with a text in a field. */
  function EntryWith(items: seq<Value>, f: string, n: string): Option<Value> {
    match ListIndex(items, ByKey(f, n))
    case None => None
    case Some(i) => Some(items[i])
  }

  /** After mergeLists the first entry of a key is where it was, merged with the overlay's entry of that
      key if there is one and unchanged otherwise. */
  lemma {:induction false} MergeListsEntry(out: seq<Value>, src: seq<Value>, f: string, n: string)
    requires DistinctlyKeyedBy(src, f) && ListIndex(out, ByKey(f, n)).Some?
    ensures var i, r := ListIndex(out, ByKey(f, n)).value, MergeLists(out, src);
      && ListIndex(r, ByKey(f, n)) == Some(i)
      && r[i] == match EntryWith(src, f, n) { case None => out[i] case Some(s) => MergeValues(out[i], s) }
    decreases |src|
  {
    hide MergeValues, KeysForItem, Stringify;
    if src != [] {
      var item, rest, i := src[0], src[1..], ListIndex(out, ByKey(f, n)).value;
      EntryWithCons(src, f, n);
      if KeyOf(item, f) == n {
        MergedText(out[i], item, f, n);
        TextMatches(MergeValues(out[i], item), f, n);
        ListIndexIs(out[i := MergeValues(out[i], item)], ByKey(f, n), i);
      } else {
        MergeItemKeepsEntry(out, item, f, n);
      }
      MergeListsEntry(MergeItem(out, item), rest, f, n);
    }
  }

  lemma {:induction false} EntryWithCons(src: seq<Value>, f: string, n: string)
    requires DistinctlyKeyedBy(src, f) && src != []
    ensures KeyOf(src[0], f) == n ==> EntryWith(src, f, n) == Some(src[0]) && EntryWith(src[1..], f, n) == None
    ensures KeyOf(src[0], f) != n ==> EntryWith(src, f, n) == EntryWith(src[1..], f, n)
  {
    hide KeysForItem, Stringify;
    TextMatches(src[0], f, KeyOf(src[0], f));
    var rest := src[1..];
    if KeyOf(src[0], f) == n {
      forall j | 0 <= j < |rest| ensures !IsMatch(rest[j], ByKey(f, n)) { TextMatches(src[j + 1], f, KeyOf(src[j + 1], f)); }
      ListIndexNone(rest, ByKey(f, n));
    }
  }

  /** The predicates address the entries of a list by the one field that tells them apart. */
  predicate Addresses(keys: seq<Key>, items: seq<Value>) {
    items == [] || (|keys| == 1 && DistinctlyKeyedBy(items, keys[0].name))
  }

  /** The overlay has the shape of the destination where the step goes. */
  predicate Passes(dst: Value, src: Value, seg: Segment) {
    if seg.keys == [] then dst.Map? && src.Map?
    else if dst.List? then src.List? && Addresses(seg.keys, src.items)
    else
      && dst.Map? && src.Map?
      && (seg.name in src.fields ==>
            src.fields[seg.name].Null? || (src.fields[seg.name].List? && Addresses(seg.keys, src.fields[seg.name].items)))
  }

  /** One step of a read after a merge: the destination's value, merged with the overlay's value under
      the same step if it has one. */
  lemma {:induction false} MergedStep(dst: Value, src: Value, seg: Segment)
    requires GetStep(dst, seg).Some? && Passes(dst, src, seg)
    ensures GetStep(MergeValues(dst, src), seg) == Some(
      match GetStep(src, seg) { case None => GetStep(dst, seg).value case Some(s) => MergeValues(GetStep(dst, seg).value, s) })
  {
    hide KeysForItem, Stringify;
    if seg.keys != [] {
      if dst.List? {
        MergedEntry(dst.items, src.items, seg.keys);
      } else if seg.name in src.fields && src.fields[seg.name].List? {
        MergedEntry(dst.fields[seg.name].items, src.fields[seg.name].items, seg.keys);
      }
    }
  }

  lemma {:induction false} MergedEntry(out: seq<Value>, src: seq<Value>, keys: seq<Key>)
    requires Addresses(keys, src) && keys != [] && ListIndex(out, keys).Some?
    ensures var i, r := ListIndex(out, keys).value, MergeLists(out, src);
      && ListIndex(r, keys) == Some(i)
      && r[i] == match ListIndex(src, keys) { case None => out[i] case Some(j) => MergeValues(out[i], src[j]) }
  {
    hide MergeValues, KeysForItem, Stringify;
    if src != [] {
      assert keys == ByKey(keys[0].name, keys[0].value);
      MergeListsEntry(out, src, keys[0].name, keys[0].value);
    }
  }

  /** The overlay says nothing about a path that reads in the destination. */
  predicate Silent(dst: Value, src: Value, segs: seq<Segment>)
    requires GetSteps(dst, segs).Some?
    decreases |segs|
  {
    || src.Null?
    || (&& segs != [] && Passes(dst, src, segs[0])
        && (GetStep(src, segs[0]).Some? ==> Silent(GetStep(dst, segs[0]).value, GetStep(src, segs[0]).value, segs[1..])))
  }

  /** A merge keeps every value of the destination that the overlay is silent about. */
  lemma {:induction false} MergeKeepsRest(dst: Value, src: Value, segs: seq<Segment>)
    requires GetSteps(dst, segs).Some? && Silent(dst, src, segs)
    ensures GetSteps(MergeValues(dst, src), segs) == GetSteps(dst, segs)
    decreases |segs|
  {
    if !src.Null? {
      hide MergeValues, GetStep, Passes;
      MergedStep(dst, src, segs[0]);
      if GetStep(src, segs[0]).Some? { MergeKeepsRest(GetStep(dst, segs[0]).value, GetStep(src, segs[0]).value, segs[1..]); }
    }
  }

  // --------------------------------------------------------------- lists of any kind

  /** An item that mergeLists only appends: a scalar, a list, or a map without a key. */
  predicate Unkeyed(item: Value) { !item.Map? || KeysForItem(item.fields) == [] }

  /** Some keyed item of src would be merged into v. */
  predicate Hits(src: seq<Value>, v: Value) {
    exists i | 0 <= i < |src| :: !Unkeyed(src[i]) && IsMatch(v, KeysForItem(src[i].fields))
  }

  /** Leaf-lists: merging scalars or keyless maps appends them. */
  lemma {:induction false} MergeListsAppends(dst: seq<Value>, src: seq<Value>)
    requires forall i | 0 <= i < |src| :: Unkeyed(src[i])
    ensures MergeLists(dst, src) == dst + src
    decreases |src|
  {
    hide Unkeyed;
    if src == [] {
      assert dst + src == dst;
    } else {
      assert Unkeyed(src[0]);
      AppendsUnkeyed(dst, src[0]);
      MergeListsAppends(dst + [src[0]], src[1..]);
      assert (dst + [src[0]]) + src[1..] == dst + src;
    }
  }

  lemma {:induction false} AppendsUnkeyed(out: seq<Value>, item: Value)
    requires Unkeyed(item)
    ensures MergeItem(out, item) == out + [item]
  {
  }

  /** A keyed item merged into anything that carries its key is still keyed. */
  lemma {:induction false} MergedIsKeyed(d: Value, item: Value)
    requires !Unkeyed(item)
    ensures !Unkeyed(MergeValues(d, item))
  {
    var r := MergeValues(d, item);
    KeysForItemPrefers(item.fields);
    KeysForItemPrefers(r.fields);
    hide KeysForItem;
    assert forall k | k in item.fields :: k in r.fields;
    if exists i | 0 <= i < |PREFERRED| :: PREFERRED[i] in item.fields {
      var i :| 0 <= i < |PREFERRED| && PREFERRED[i] in item.fields;
      PreferredIsKeyed(r.fields, PREFERRED[i]);
    } else {
      var k :| k in item.fields && item.fields[k].Str?;
      MergedText(d, item, k, item.fields[k].s);
      if exists i | 0 <= i < |PREFERRED| :: PREFERRED[i] in r.fields {
        var i :| 0 <= i < |PREFERRED| && PREFERRED[i] in r.fields;
        PreferredIsKeyed(r.fields, PREFERRED[i]);
      }
    }
  }

  lemma {:induction false} PreferredIsKeyed(m: Fields, k: string)
    requires k in PREFERRED && k in m
    ensures KeysForItem(m) != []
  {
  }

  /** What one turn does to any list: nothing moves, and only the first match of a keyed item changes. */
  lemma {:induction false} MergeItemPlaces(out: seq<Value>, item: Value)
    ensures var r := MergeItem(out, item);
      && |out| <= |r| <= |out| + 1
      && (forall i | 0 <= i < |out| && !Hits([item], out[i]) :: r[i] == out[i])
  {
    hide MergeValues, KeysForItem;
    if !Unkeyed(item) && ListIndex(out, KeysForItem(item.fields)).Some? {
      var i := ListIndex(out, KeysForItem(item.fields)).value;
      assert Hits([item], out[i]) by { assert [item][0] == item; }
    }
  }

  /** Whatever the lists hold, mergeLists keeps the destination's entries in their places, and unchanged
      unless a keyed item of the overlay matches them. */
  lemma {:induction false} MergeListsPlaces(dst: seq<Value>, src: seq<Value>)
    ensures var r := MergeLists(dst, src);
      && |dst| <= |r| <= |dst| + |src|
      && (forall i | 0 <= i < |dst| && !Hits(src, dst[i]) :: r[i] == dst[i])
    decreases |src|
  {
    hide MergeItem, Unkeyed, IsMatch;
    if src != [] {
      var next := MergeItem(dst, src[0]);
      MergeItemPlaces(dst, src[0]);
      MergeListsPlaces(next, src[1..]);
      forall i | 0 <= i < |dst| && !Hits(src, dst[i]) ensures MergeLists(dst, src)[i] == dst[i] {
        HitsParts(src, dst[i]);
      }
    }
  }

  lemma {:induction false} HitsParts(src: seq<Value>, v: Value)
    requires src != []
    ensures Hits(src, v) <==> Hits([src[0]], v) || Hits(src[1..], v)
  {
    hide IsMatch;
    assert src == [src[0]] + src[1..];
    if Hits(src, v) {
      var i :| 0 <= i < |src| && !Unkeyed(src[i]) && IsMatch(v, KeysForItem(src[i].fields));
      if i > 0 { assert src[1..][i - 1] == src[i]; } else { assert [src[0]][0] == src[i]; }
    }
    if Hits([src[0]], v) { assert [src[0]][0] == src[0]; }
  }

  /** The items of xs that are only ever appended and that nothing in src is merged into. */
  function Loose(xs: seq<Value>, src: seq<Value>): seq<Value> {
    if xs == [] then []
    else
      var n := |xs| - 1;
      Loose(xs[..n], src) + if Unkeyed(xs[n]) && !Hits(src, xs[n]) then [xs[n]] else []
  }

  lemma {:induction false} LooseSnoc(xs: seq<Value>, x: Value, src: seq<Value>)
    ensures Loose(xs + [x], src) == Loose(xs, src) + if Unkeyed(x) && !Hits(src, x) then [x] else []
  {
    assert (xs + [x])[..|xs|] == xs;
  }

  lemma {:induction false} LooseSet(xs: seq<Value>, i: nat, x: Value, src: seq<Value>)
    requires i < |xs| && !(Unkeyed(xs[i]) && !Hits(src, xs[i])) && !(Unkeyed(x) && !Hits(src, x))
    ensures Loose(xs[i := x], src) == Loose(xs, src)
    decreases |xs|
  {
    hide Unkeyed, Hits;
    var n := |xs| - 1;
    if i < n {
      LooseSet(xs[..n], i, x, src);
      assert xs[i := x][..n] == xs[..n][i := x];
    } else {
      assert xs[i := x][..n] == xs[..n];
    }
  }

  lemma {:induction false} LooseCons(x: Value, xs: seq<Value>, src: seq<Value>)
    ensures Loose([x] + xs, src) == Loose([x], src) + Loose(xs, src)
    decreases |xs|
  {
    hide Unkeyed, Hits, Loose;
    LooseNone(src);
    if xs == [] {
      assert [x] + xs == [x];
    } else {
      var n := |xs| - 1;
      LooseCons(x, xs[..n], src);
      LooseSnoc(xs[..n], xs[n], src);
      LooseSnoc([x] + xs[..n], xs[n], src);
      assert [x] + xs[..n] + [xs[n]] == [x] + xs && xs[..n] + [xs[n]] == xs;
    }
  }

  /** One turn appends a loose item and otherwise leaves the loose items as they are. */
  lemma {:induction false} MergeItemIsLoose(out: seq<Value>, item: Value, src: seq<Value>)
    requires item in src
    ensures Loose(MergeItem(out, item), src) == Loose(out, src) + Loose([item], src)
  {
    hide MergeValues, KeysForItem, Loose;
    LooseSnoc([], item, src);
    LooseSnoc(out, item, src);
    assert [] + [item] == [item] && Loose([], src) == [] by { LooseNone(src); }
    if !Unkeyed(item) && ListIndex(out, KeysForItem(item.fields)).Some? {
      var i := ListIndex(out, KeysForItem(item.fields)).value;
      MergedIsKeyed(out[i], item);
      assert Hits(src, out[i]);
      LooseSet(out, i, MergeValues(out[i], item), src);
    }
  }

  lemma {:induction false} LooseNone(src: seq<Value>)
    ensures Loose([], src) == []
  {
  }

  /** Whatever the lists hold, the scalars, lists and keyless maps that no keyed item of the overlay
      matches stand in the result exactly as often as in both lists together: those of the destination
      in order, then those of the overlay in order. */
  lemma {:induction false} MergeListsKeepsLoose(dst: seq<Value>, src: seq<Value>)
    ensures Loose(MergeLists(dst, src), src) == Loose(dst, src) + Loose(src, src)
  {
    LooseOverRun(dst, src, src);
  }

  lemma {:induction false} LooseOverRun(out: seq<Value>, todo: seq<Value>, src: seq<Value>)
    requires forall i | 0 <= i < |todo| :: todo[i] in src
    ensures Loose(MergeLists(out, todo), src) == Loose(out, src) + Loose(todo, src)
    decreases |todo|
  {
    hide MergeItem, Loose;
    LooseNone(src);
    if todo != [] {
      MergeItemIsLoose(out, todo[0], src);
      LooseOverRun(MergeItem(out, todo[0]), todo[1..], src);
      LooseCons(todo[0], todo[1..], src);
      assert todo == [todo[0]] + todo[1..];
    }
  }

  /** A scalar or a list is loose in every merge. */
  lemma {:induction false} ScalarsAreLoose(v: Value, src: seq<Value>)
    requires !v.Map?
    ensures Loose([v], src) == [v]
  {
    LooseSnoc([], v, src);
    LooseNone(src);
    assert [] + [v] == [v];
  }

  /** A keyless map is not: a later item keyed by the text of its number takes its place. */
  lemma {:induction false} KeylessMapIsAbsorbed()
    ensures MergeLists([], [Map(map["k" := Num(5)]), Map(map["k" := Str("5")])]) == [Map(map["k" := Str("5")])]
  {
    var a, b := Map(map["k" := Num(5)]), Map(map["k" := Str("5")]);
    LoneFieldKeys(a.fields);
    assert MergeItem([], a) == [a];
    NumberTakesText();
    hide KeysForItem, MergeItem;
    assert [a, b][1..] == [b] && [b][1..] == [];
    assert MergeLists([a], [b]) == MergeLists([b], []);
  }

  lemma {:induction false} NumberTakesText()
    ensures MergeItem([Map(map["k" := Num(5)])], Map(map["k" := Str("5")])) == [Map(map["k" := Str("5")])]
  {
    var a, b, keys := Map(map["k" := Num(5)]), Map(map["k" := Str("5")]), [Key("k", "5")];
    LoneFieldKeys(b.fields);
    assert b.fields["k"].Str? && KeysForItem(b.fields) == keys;
    hide KeysForItem;
    assert IsMatch(a, keys) by { assert keys[0] == Key("k", "5") && Stringify(Num(5)) == "5"; }
    ListIndexIs([a], keys, 0);
    assert MergeValues(a, b).fields == b.fields;
    assert [a][0 := b] == [b];
  }

  lemma {:induction false} LoneFieldKeys(m: Fields)
    requires m.Keys == {"k"}
    ensures KeysForItem(m) == if m["k"].Str? then [Key("k", m["k"].s)] else []
  {
    KeysForItemPrefers(m);
    hide KeysForItem;
    assert forall i | 0 <= i < |PREFERRED| :: PREFERRED[i] != "k" by {
      assert |"k"| == 1 && |"name"| == 4 && |"id"| == 2 && |"index"| == 5 && |"key"| == 3;
    }
    assert "k" in m;
  }
}
