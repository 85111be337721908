/** What a write does to later reads: the written value reads back, and values on diverging paths
    keep theirs. */
module EditLaws {
  import opened Text
  import opened Paths
  import opened Values
  import opened Schemas
  import opened Edits

  // ------------------------------------------------------------------ conditions

  /** No step is named like a predicate of the step before it: the write cannot overwrite a key. */
  predicate KeepsItsKeys(segs: seq<Segment>) {
    forall i | 0 <= i < |segs| - 1 :: !NamesKey(segs[i].keys, segs[i + 1].name)
  }

  predicate AllConsistent(segs: seq<Segment>) { forall i | 0 <= i < |segs| :: Consistent(segs[i].keys) }

  /** What a replace stores at its last step. */
  function Written(seg: Segment, value: Value): Value {
    if seg.keys != [] && value.Map? then Map(Overlay(value.fields, seg.keys)) else value
  }

  predicate Conflict(a: seq<Key>, b: seq<Key>) {
    exists i, j | 0 <= i < |a| && 0 <= j < |b| :: a[i].name == b[j].name && a[i].value != b[j].value
  }

  /** After a common prefix the paths take differently named steps, or step to entries of one list
      that differ in some predicate. */
  predicate Diverge(a: seq<Segment>, b: seq<Segment>) {
    && a != [] && b != []
    && (|| a[0].name != b[0].name
        || Conflict(a[0].keys, b[0].keys)
        || (a[0] == b[0] && Diverge(a[1..], b[1..])))
  }

  /** No step of the write starts from a list, which it would overwrite with a map. */
  predicate AvoidsLists(cur: Value, segs: seq<Segment>)
    decreases |segs|
  {
    segs == [] || (!cur.List? && AvoidsLists(StepInto(FieldsOf(cur), segs[0]), segs[1..]))
  }

  // ------------------------------------------------------------------- one step

  predicate KeepsOthers(m: Fields, m': Fields, name: string) {
    forall k | k in m && k != name :: k in m' && m'[k] == m[k]
  }

  /** A write changes one field of the map it starts from. */
  lemma {:induction false} PutChangesOneField(schema: Option<Schema>, p: Path, cur: Value, segs: seq<Segment>, value: Value, merge: bool)
    requires segs != []
    ensures var r := PutSteps(schema, p, cur, segs, value, merge);
      r.Ok? ==>
        && segs[0].name in r.value.fields && KeepsOthers(FieldsOf(cur), r.value.fields, segs[0].name)
        && (forall k | k in r.value.fields && k != segs[0].name :: k in FieldsOf(cur))
  {
    hide LastValue, CheckWritten, StepInto;
  }

  /** On a map, the step an edit takes is the step a read takes. */
  lemma {:induction false} StepIntoReads(m: Fields, seg: Segment)
    requires GetStep(Map(m), seg).Some?
    ensures StepInto(m, seg) == GetStep(Map(m), seg).value
  {
  }

  lemma {:induction false} StepIntoMatches(m: Fields, seg: Segment)
    requires seg.keys != [] && Consistent(seg.keys)
    ensures IsMatch(StepInto(m, seg), seg.keys)
  {
    MatchNeedsConsistent(map[], seg.keys);
  }

  /** An entry still carries its predicates after a write below it. */
  lemma {:induction false} EntryStillMatches(keys: seq<Key>, v: Value, v': Value, name: string)
    requires IsMatch(v, keys) && v'.Map? && KeepsOthers(v.fields, v'.fields, name) && !NamesKey(keys, name)
    ensures IsMatch(v', keys)
  {
    hide Stringify;
    forall i | 0 <= i < |keys| ensures keys[i].name in v'.fields && Stringify(v'.fields[keys[i].name]) == keys[i].value {
      assert keys[i].name != name;
    }
  }

  lemma {:induction false} GetAfterSet(m: Fields, seg: Segment, v: Value)
    requires seg.keys != [] ==> IsMatch(v, seg.keys)
    ensures GetStep(Map(StepSet(m, seg, v)), seg) == Some(v)
  {
    hide MatchKeys;
    if seg.keys != [] {
      var arr := ArrayAt(m, seg.name);
      var found := ListIndex(arr, seg.keys);
      var i := if found.Some? then found.value else |arr|;
      var items := if found.Some? then arr[i := v] else arr + [v];
      assert forall j | 0 <= j < i :: items[j] == arr[j];
      ListIndexIs(items, seg.keys, i);
    }
  }

  lemma {:induction false} InconsistentReadsNothing(cur: Value, seg: Segment)
    requires !Consistent(seg.keys)
    ensures GetStep(cur, seg) == None
  {
    forall m: Fields ensures !MatchKeys(m, seg.keys) { MatchNeedsConsistent(m, seg.keys); }
  }

  /** Writing below an existing or created step leaves that step readable, as the new value. */
  lemma {:induction false} GetAfterInnerPut(schema: Option<Schema>, p: Path, m: Fields, seg: Segment, rest: seq<Segment>, value: Value, merge: bool)
    requires Consistent(seg.keys) && rest != [] && !NamesKey(seg.keys, rest[0].name)
    ensures var r := PutSteps(schema, p, StepInto(m, seg), rest, value, merge);
      r.Ok? ==>
        && GetStep(Map(StepSet(m, seg, r.value)), seg) == Some(r.value)
        && (seg.keys != [] ==> IsMatch(r.value, seg.keys))
  {
    hide PutSteps, StepSet, GetStep, NamesKey, Consistent, MatchKeys, StepInto;
    var r := PutSteps(schema, p, StepInto(m, seg), rest, value, merge);
    if r.Ok? {
      PutChangesOneField(schema, p, StepInto(m, seg), rest, value, merge);
      if seg.keys != [] {
        StepIntoMatches(m, seg);
        EntryStillMatches(seg.keys, StepInto(m, seg), r.value, rest[0].name);
      }
      GetAfterSet(m, seg, r.value);
    }
  }

  // ------------------------------------------------------------------- read back

  /** What the descent finds at the last step of a path, created entries included. */
  function Standing(cur: Value, segs: seq<Segment>): Value
    requires segs != []
    decreases |segs|
  {
    var m, seg := FieldsOf(cur), segs[0];
    if |segs| > 1 then Standing(StepInto(m, seg), segs[1..])
    else if seg.keys != [] then StepInto(m, seg)
    else if seg.name in m then m[seg.name] else Null
  }

  /** What a write is about to store at its last step, before predicates are overlaid. */
  function Next(cur: Value, segs: seq<Segment>, value: Value, merge: bool): Value
    requires segs != []
  {
    if merge then MergeValues(Standing(cur, segs), value) else value
  }

  /** The text of a map or a list starts like this. */
  predicate LooksRendered(text: string) { "map[" <= text || "[" <= text }

  /** The write may put a scalar over a key: its last step is a field named like a predicate of the
      step before. */
  predicate Rekeys(segs: seq<Segment>, i: nat)
    requires i + 1 < |segs|
  {
    NamesKey(segs[i].keys, segs[i + 1].name) && i + 2 == |segs| && segs[i + 1].keys == []
  }

  /** A predicate that a later step descends through does not itself look like a map or a list. */
  predicate PlainKeys(segs: seq<Segment>) {
    forall i, j | 0 <= i < |segs| - 1 && 0 <= j < |segs[i].keys| && segs[i].keys[j].name == segs[i + 1].name && !Rekeys(segs, i) ::
      !LooksRendered(segs[i].keys[j].value)
  }

  predicate KeyAgrees(keys: seq<Key>, name: string, value: Value) {
    forall j | 0 <= j < |keys| && keys[j].name == name :: Stringify(value) == keys[j].value
  }

  /** A step may be named like a predicate of the step before it only to write the predicate's own
      text. */
  predicate StepReadsBack(segs: seq<Segment>, i: nat, value: Value)
    requires i + 1 < |segs|
  {
    NamesKey(segs[i].keys, segs[i + 1].name) ==> Rekeys(segs, i) && KeyAgrees(segs[i].keys, segs[i + 1].name, value)
  }

  /** When a write of a value reads back: predicates of each step are consistent, a list entry is
      given a map, and no key is written over with another text. */
  predicate ReadsBack(segs: seq<Segment>, value: Value)
    requires segs != []
  {
    && AllConsistent(segs)
    && (segs[|segs| - 1].keys != [] ==> value.Map?)
    && (forall i | 0 <= i < |segs| - 1 :: StepReadsBack(segs, i, value))
  }

  lemma {:induction false} LastReadsBackIff(m: Fields, seg: Segment, value: Value)
    requires Consistent(seg.keys)
    ensures var v := Written(seg, value);
      GetStep(Map(StepSet(m, seg, v)), seg) == Some(v) <==> (seg.keys != [] ==> value.Map?)
  {
    if seg.keys == [] || value.Map? {
      if value.Map? { MatchNeedsConsistent(value.fields, seg.keys); }
      GetAfterSet(m, seg, Written(seg, value));
    }
  }

  lemma {:induction false} RenderedLooks(v: Value)
    requires !LooksRendered(Stringify(v))
    ensures IsScalar(v)
  {
  }

  /** A key that is not rendered is a scalar, so no path reads anything below it. */
  lemma {:induction false} NothingBelowAKey(m: Fields, segs: seq<Segment>)
    requires |segs| > 1 && NamesKey(segs[0].keys, segs[1].name) && !Rekeys(segs, 0) && PlainKeys(segs)
    ensures GetSteps(Map(m), segs) == None
  {
    hide Stringify, LooksRendered;
    var seg, rest := segs[0], segs[1..];
    var j :| 0 <= j < |seg.keys| && seg.keys[j].name == segs[0 + 1].name;
    var found := GetStep(Map(m), seg);
    if found.Some? {
      var x := found.value;
      assert IsMatch(x, seg.keys);
      var y := x.fields[seg.keys[j].name];
      RenderedLooks(y);
      assert rest[0] == segs[1];
      if rest[0].keys == [] {
        assert GetStep(x, rest[0]) == Some(y) && rest[1..] != [];
        assert GetStep(y, rest[1..][0]) == None;
        assert GetSteps(y, rest[1..]) == None;
        assert GetSteps(x, rest) == GetSteps(y, rest[1..]);
      }
    }
  }

  lemma {:induction false} RekeyedMatchesIff(e: Fields, keys: seq<Key>, name: string, value: Value)
    requires MatchKeys(e, keys)
    ensures MatchKeys(e[name := value], keys) <==> KeyAgrees(keys, name, value)
  {
    hide Stringify;
    var e' := e[name := value];
    if MatchKeys(e', keys) {
      forall j | 0 <= j < |keys| && keys[j].name == name ensures Stringify(value) == keys[j].value { assert e'[keys[j].name] == value; }
    }
    if KeyAgrees(keys, name, value) {
      forall j | 0 <= j < |keys| ensures keys[j].name in e' && Stringify(e'[keys[j].name]) == keys[j].value {}
    }
  }

  /** Writing a field over a predicate of its own entry reads back exactly when the texts agree. */
  lemma {:induction false} RekeyReadsBackIff(m: Fields, seg: Segment, name: string, value: Value)
    requires Consistent(seg.keys) && NamesKey(seg.keys, name)
    ensures var r := Map(StepSet(m, seg, Map(FieldsOf(StepInto(m, seg))[name := value])));
      GetSteps(r, [seg, Segment(name, [])]) == Some(value) <==> KeyAgrees(seg.keys, name, value)
  {
    var e := StepInto(m, seg);
    StepIntoMatches(m, seg);
    RekeyedMatchesIff(e.fields, seg.keys, name, value);
    hide Stringify, Consistent, StepInto;
    var e' := Map(e.fields[name := value]);
    var r := Map(StepSet(m, seg, e'));
    var last := Segment(name, []);
    assert [seg, last][1..] == [last] && [last][1..] == [];
    assert GetSteps(e', [last]) == Some(value);
    if KeyAgrees(seg.keys, name, value) {
      GetAfterSet(m, seg, e');
      assert GetSteps(r, [seg, last]) == GetSteps(e', [last]);
    } else {
      var j :| 0 <= j < |seg.keys| && seg.keys[j].name == name && Stringify(value) != seg.keys[j].value;
      var found := GetStep(r, seg);
      if found.Some? {
        assert IsMatch(found.value, seg.keys);
        assert Stringify(found.value.fields[seg.keys[j].name]) == seg.keys[j].value;
        assert GetSteps(r, [seg, last]) == GetSteps(found.value, [last]) == Some(found.value.fields[name]);
      }
    }
  }

  lemma {:induction false} PutLast(schema: Option<Schema>, p: Path, cur: Value, seg: Segment, value: Value, merge: bool)
    ensures var r := PutSteps(schema, p, cur, [seg], value, merge);
      r.Ok? ==> r.value == Map(StepSet(FieldsOf(cur), seg, Written(seg, Next(cur, [seg], value, merge))))
  {
    hide MergeValues, Overlay, CheckWritten;
  }

  lemma {:induction false} ReadsBackTail(segs: seq<Segment>, value: Value)
    requires |segs| > 1 && Consistent(segs[0].keys) && !NamesKey(segs[0].keys, segs[1].name)
    ensures ReadsBack(segs, value) <==> ReadsBack(segs[1..], value)
  {
    hide Consistent, NamesKey, KeyAgrees;
    var rest := segs[1..];
    ConsistentTail(segs);
    assert forall i | 0 <= i < |rest| :: rest[i] == segs[i + 1];
    assert StepReadsBack(segs, 0, value);
    forall i | 0 <= i < |rest| - 1 ensures StepReadsBack(rest, i, value) == StepReadsBack(segs, i + 1, value) {}
    hide StepReadsBack, AllConsistent;
    if forall i | 0 <= i < |rest| - 1 :: StepReadsBack(rest, i, value) {
      forall i | 0 <= i < |segs| - 1 ensures StepReadsBack(segs, i, value) {
        if i > 0 { assert StepReadsBack(rest, i - 1, value); }
      }
    }
  }

  lemma {:induction false} PlainKeysTail(segs: seq<Segment>)
    requires |segs| > 1 && PlainKeys(segs)
    ensures PlainKeys(segs[1..])
  {
    hide LooksRendered;
    var rest := segs[1..];
    assert forall i | 0 <= i < |rest| :: rest[i] == segs[i + 1];
    forall i, j | 0 <= i < |rest| - 1 && 0 <= j < |rest[i].keys| && rest[i].keys[j].name == rest[i + 1].name && !Rekeys(rest, i)
      ensures !LooksRendered(rest[i].keys[j].value)
    {
      assert segs[i + 1].keys[j].name == segs[i + 1 + 1].name && !Rekeys(segs, i + 1);
    }
  }

  /** A merged or replaced value reads back, with the predicates of its own entry overlaid, if and
      only if ReadsBack says so. */
  lemma {:induction false} WriteReadsBackIff(schema: Option<Schema>, p: Path, cur: Value, segs: seq<Segment>, value: Value, merge: bool)
    requires segs != [] && PlainKeys(segs)
    ensures var r := PutSteps(schema, p, cur, segs, value, merge);
      var next := Next(cur, segs, value, merge);
      r.Ok? ==> (GetSteps(r.value, segs) == Some(Written(segs[|segs| - 1], next)) <==> ReadsBack(segs, next))
    decreases |segs|
  {
    hide Consistent, NamesKey, StepInto, StepSet, CheckWritten, LastValue, GetStep, PlainKeys, ReadsBack, KeyAgrees, MergeValues;
    var m, seg, rest := FieldsOf(cur), segs[0], segs[1..];
    var next := Next(cur, segs, value, merge);
    var r := PutSteps(schema, p, cur, segs, value, merge);
    if r.Ok? {
      if !Consistent(seg.keys) {
        InconsistentReadsNothing(r.value, seg);
        assert !ReadsBack(segs, next) by { InconsistentFails(segs, next); }
      } else if rest == [] {
        assert segs == [seg];
        PutLast(schema, p, cur, seg, value, merge);
        LastReadsBackIff(m, seg, next);
        OneStepReadsBack(seg, next);
      } else if !NamesKey(seg.keys, segs[1].name) {
        assert rest[0] == segs[1] && rest[|rest| - 1] == segs[|segs| - 1];
        GetAfterInnerPut(schema, p, m, seg, rest, value, merge);
        ReadsBackTail(segs, next);
        PlainKeysTail(segs);
        WriteReadsBackIff(schema, p, StepInto(m, seg), rest, value, merge);
      } else if !Rekeys(segs, 0) {
        NothingBelowAKey(r.value.fields, segs);
        assert !ReadsBack(segs, next) by { NamedStepFails(segs, next); }
      } else {
        assert rest == [segs[1]] && segs == [seg, Segment(segs[1].name, [])];
        RekeyingPut(schema, p, cur, segs, value, merge);
        RekeyReadsBackIff(m, seg, segs[1].name, next);
        RekeyedReadsBack(segs, next);
      }
    }
  }

  lemma {:induction false} InconsistentFails(segs: seq<Segment>, value: Value)
    requires segs != [] && !Consistent(segs[0].keys)
    ensures !ReadsBack(segs, value)
  {
    hide Consistent;
  }

  lemma {:induction false} NamedStepFails(segs: seq<Segment>, value: Value)
    requires |segs| > 1 && NamesKey(segs[0].keys, segs[1].name) && !Rekeys(segs, 0)
    ensures !ReadsBack(segs, value)
  {
    assert !StepReadsBack(segs, 0, value);
  }

  lemma {:induction false} OneStepReadsBack(seg: Segment, value: Value)
    requires Consistent(seg.keys)
    ensures ReadsBack([seg], value) <==> (seg.keys != [] ==> value.Map?)
  {
    hide Consistent;
  }

  lemma {:induction false} RekeyedReadsBack(segs: seq<Segment>, value: Value)
    requires |segs| == 2 && Rekeys(segs, 0) && Consistent(segs[0].keys)
    ensures ReadsBack(segs, value) <==> KeyAgrees(segs[0].keys, segs[1].name, value)
  {
    hide NamesKey;
    assert Consistent([]);
    hide Consistent, KeyAgrees;
    assert StepReadsBack(segs, 0, value) <==> KeyAgrees(segs[0].keys, segs[1].name, value);
  }

  lemma {:induction false} RekeyingPut(schema: Option<Schema>, p: Path, cur: Value, segs: seq<Segment>, value: Value, merge: bool)
    requires |segs| == 2 && segs[1].keys == []
    ensures var r := PutSteps(schema, p, cur, segs, value, merge);
      var m, e := FieldsOf(cur), StepInto(FieldsOf(cur), segs[0]);
      r.Ok? ==> r.value == Map(StepSet(m, segs[0], Map(FieldsOf(e)[segs[1].name := Next(cur, segs, value, merge)])))
  {
    hide StepInto, LastValue, CheckWritten;
    assert segs[1..] == [segs[1]];
    PutLast(schema, p, StepInto(FieldsOf(cur), segs[0]), segs[1], value, merge);
  }

  lemma {:induction false} ConsistentTail(segs: seq<Segment>)
    requires segs != [] && Consistent(segs[0].keys)
    ensures AllConsistent(segs) <==> AllConsistent(segs[1..])
  {
    hide Consistent;
    var rest := segs[1..];
    assert segs == [segs[0]] + rest;
    if AllConsistent(segs) {
      forall i | 0 <= i < |rest| ensures Consistent(rest[i].keys) { assert Consistent(segs[i + 1].keys); }
    }
  }

  /** The same law for whole trees, module paths included. */
  lemma {:induction false} WriteReadsBack(schema: Option<Schema>, root: Fields, p: Path, value: Value, merge: bool)
    requires !p.IsRoot() && PlainKeys(p.segments)
    ensures var r, cur := Put(schema, root, p, value, merge), ModuleValue(root, p);
      r.Ok? ==>
        if p.segments == [] then Get(r.value, p) == Some(if merge then MergeValues(cur, value) else value)
        else
          var next := Next(cur, p.segments, value, merge);
          Get(r.value, p) == Some(Written(p.segments[|p.segments| - 1], next)) <==> ReadsBack(p.segments, next)
  {
    hide PutSteps, ReadsBack, MergeValues, Next, Written, PlainKeys;
    if p.segments != [] { WriteReadsBackIff(schema, p, ModuleValue(root, p), p.segments, value, merge); }
  }

  lemma {:induction false} FreshReadsNothing(m: Fields, seg: Segment, rest: seq<Segment>)
    requires GetStep(Map(m), seg).None? && rest != [] && !NamesKey(seg.keys, rest[0].name)
    ensures GetSteps(StepInto(m, seg), rest).None?
  {
    if seg.keys != [] { OverlayFrame(map[], seg.keys, rest[0].name); }
  }

  /** What a write finds is what reads at its path; where nothing reads, nothing, or an entry that
      holds just its predicates. */
  lemma {:induction false} StandingIsRead(cur: Value, segs: seq<Segment>)
    requires segs != [] && AvoidsLists(cur, segs)
    ensures GetSteps(cur, segs).Some? ==> Standing(cur, segs) == GetSteps(cur, segs).value
    ensures GetSteps(cur, segs).None? && KeepsItsKeys(segs) ==>
      var last := segs[|segs| - 1];
      Standing(cur, segs) == if last.keys == [] then Null else Map(EntryWithKeys(last.keys))
    decreases |segs|
  {
    hide NamesKey, ListIndex;
    var m, rest := FieldsOf(cur), segs[1..];
    assert GetStep(cur, segs[0]) == GetStep(Map(m), segs[0]);
    if |segs| == 1 {
      assert rest == [] && GetSteps(cur, segs) == GetStep(cur, segs[0]);
    } else {
      assert rest[0] == segs[0 + 1] && rest[|rest| - 1] == segs[|segs| - 1];
      assert forall i | 0 <= i < |rest| :: rest[i] == segs[i + 1];
      StandingIsRead(StepInto(m, segs[0]), rest);
      if GetStep(Map(m), segs[0]).None? {
        if KeepsItsKeys(segs) { FreshReadsNothing(m, segs[0], rest); }
      } else {
        assert StepInto(m, segs[0]) == GetStep(cur, segs[0]).value;
      }
    }
  }

  /** The smallest write that does not read back: another text over the key of a new entry makes the
      entry unreadable at the path just written. */
  lemma {:induction false} RekeyedEntryIsLost(p: Path, m: Fields, name: string, k: Key, text: string)
    requires text != k.value && ListIndex(ArrayAt(m, name), [k]).None?
    ensures var segs := [Segment(name, [k]), Segment(k.name, [])];
      var r := PutSteps(None, p, Map(m), segs, Str(text), false);
      r.Ok? && GetSteps(r.value, segs) == None
  {
    var segs := [Segment(name, [k]), Segment(k.name, [])];
    var entry := Map(EntryWithKeys([k])[k.name := Str(text)]);
    assert StepInto(m, segs[0]) == Map(EntryWithKeys([k]));
    assert segs[1..] == [segs[1]] && segs[1..][0] == segs[1];
    assert PutSteps(None, p, Map(EntryWithKeys([k])), segs[1..], Str(text), false) == Ok(entry);
    var items := ArrayAt(m, name) + [entry];
    assert !IsMatch(entry, [k]) by { assert [k][0] == k; }
    ListIndexNone(items, [k]);
    assert PutSteps(None, p, Map(m), segs, Str(text), false) == Ok(Map(m[name := List(items)]));
  }

  // ----------------------------------------------------------------------- frame

  lemma {:induction false} ConflictExcludes(v: Value, a: seq<Key>, b: seq<Key>)
    requires Conflict(a, b) && IsMatch(v, a)
    ensures !IsMatch(v, b)
  {
  }

  /** Setting an entry does not disturb an entry that another predicate selects. */
  lemma {:induction false} ConflictFrame(m: Fields, seg: Segment, other: Segment, v: Value)
    requires seg.name == other.name && Conflict(seg.keys, other.keys)
    requires ListIndex(ArrayAt(m, seg.name), seg.keys).Some? ==> !IsMatch(v, other.keys)
    ensures GetStep(Map(m), other).Some? ==> GetStep(Map(StepSet(m, seg, v)), other) == GetStep(Map(m), other)
  {
    assert other.keys != [];
    hide MatchKeys, Conflict;
    if GetStep(Map(m), other).Some? {
      var arr := ArrayAt(m, seg.name);
      var j := ListIndex(arr, other.keys).value;
      var found := ListIndex(arr, seg.keys);
      var i := if found.Some? then found.value else |arr|;
      var items := if found.Some? then arr[i := v] else arr + [v];
      if found.Some? { ConflictExcludes(arr[i], seg.keys, other.keys); }
      assert items[j] == arr[j];
      assert forall k | 0 <= k < j :: items[k] == arr[k] || (found.Some? && items[k] == v);
      ListIndexIs(items, other.keys, j);
    }
  }

  lemma {:induction false} LastMatches(schema: Option<Schema>, p: Path, m: Fields, seg: Segment, value: Value, merge: bool)
    requires seg.keys != [] && Consistent(seg.keys)
    ensures var r := LastValue(schema, p, m, seg, value, merge);
      r.Ok? && r.value.Map? ==> IsMatch(r.value, seg.keys)
  {
    var next := if merge then MergeValues(StepInto(m, seg), value) else value;
    if next.Map? { MatchNeedsConsistent(next.fields, seg.keys); }
  }

  /** What a write stores under its first step carries that step's predicates, if it is a map. */
  lemma {:induction false} StoredMatches(schema: Option<Schema>, p: Path, cur: Value, segs: seq<Segment>, value: Value, merge: bool) returns (v: Value)
    requires segs != [] && segs[0].keys != [] && KeepsItsKeys(segs)
    requires PutSteps(schema, p, cur, segs, value, merge).Ok?
    ensures PutSteps(schema, p, cur, segs, value, merge).value == Map(StepSet(FieldsOf(cur), segs[0], v))
    ensures v.Map? && Consistent(segs[0].keys) ==> IsMatch(v, segs[0].keys)
  {
    hide StepSet, StepInto, NamesKey, Consistent, MatchKeys, LastValue;
    var m, seg, rest := FieldsOf(cur), segs[0], segs[1..];
    if rest == [] {
      v := LastValue(schema, p, m, seg, value, merge).value;
      if Consistent(seg.keys) { LastMatches(schema, p, m, seg, value, merge); }
    } else {
      v := PutSteps(schema, p, StepInto(m, seg), rest, value, merge).value;
      assert rest[0] == segs[0 + 1];
      if Consistent(seg.keys) { GetAfterInnerPut(schema, p, m, seg, rest, value, merge); }
    }
  }

  /** A value that was readable on a diverging path is still there after the write. */
  lemma {:induction false} PutStepsFrame(schema: Option<Schema>, p: Path, cur: Value, segs: seq<Segment>, value: Value, merge: bool, q: seq<Segment>)
    requires segs != [] && KeepsItsKeys(segs)
    requires Diverge(segs, q) && AvoidsLists(cur, segs)
    requires GetSteps(cur, q).Some?
    ensures var r := PutSteps(schema, p, cur, segs, value, merge);
      r.Ok? ==> GetSteps(r.value, q) == GetSteps(cur, q)
    decreases |segs|
  {
    var m, seg, rest := FieldsOf(cur), segs[0], segs[1..];
    assert Conflict(seg.keys, q[0].keys) ==> seg.keys != [];
    hide Consistent, NamesKey, MatchKeys, LastValue, CheckWritten, Conflict;
    var r := PutSteps(schema, p, cur, segs, value, merge);
    if r.Ok? {
      if seg.name != q[0].name {
        NameFrame(schema, p, cur, segs, value, merge, q[0]);
      } else if Conflict(seg.keys, q[0].keys) {
        var v := StoredMatches(schema, p, cur, segs, value, merge);
        FoundIsConsistent(m, seg);
        if v.Map? && Consistent(seg.keys) { ConflictExcludes(v, seg.keys, q[0].keys); }
        ConflictFrame(m, seg, q[0], v);
      } else {
        assert forall i | 0 <= i < |rest| :: rest[i] == segs[i + 1];
        assert rest[0] == segs[0 + 1];
        FoundIsConsistent(m, seg);
        GetAfterInnerPut(schema, p, m, seg, rest, value, merge);
        assert GetStep(cur, seg) == Some(StepInto(m, seg));
        PutStepsFrame(schema, p, StepInto(m, seg), rest, value, merge, q[1..]);
      }
    }
  }

  /** Predicates that some entry carries are consistent. */
  lemma {:induction false} FoundIsConsistent(m: Fields, seg: Segment)
    ensures seg.keys == [] || ListIndex(ArrayAt(m, seg.name), seg.keys).Some? ==> Consistent(seg.keys)
  {
    var found := ListIndex(ArrayAt(m, seg.name), seg.keys);
    if found.Some? { MatchNeedsConsistent(ArrayAt(m, seg.name)[found.value].fields, seg.keys); }
  }

  lemma {:induction false} NameFrame(schema: Option<Schema>, p: Path, cur: Value, segs: seq<Segment>, value: Value, merge: bool, other: Segment)
    requires segs != [] && segs[0].name != other.name && !cur.List?
    ensures var r := PutSteps(schema, p, cur, segs, value, merge);
      r.Ok? ==> GetStep(r.value, other) == GetStep(cur, other)
  {
    PutChangesOneField(schema, p, cur, segs, value, merge);
  }

  lemma {:induction false} ConflictFrameExact(m: Fields, seg: Segment, other: Segment, v: Value)
    requires seg.name == other.name && Conflict(seg.keys, other.keys) && !IsMatch(v, other.keys)
    ensures GetStep(Map(StepSet(m, seg, v)), other) == GetStep(Map(m), other)
  {
    assert other.keys != [] && seg.keys != [];
    ConflictFrame(m, seg, other, v);
    hide MatchKeys, Conflict;
    if GetStep(Map(m), other).None? {
      var arr := ArrayAt(m, seg.name);
      var found := ListIndex(arr, seg.keys);
      var items := if found.Some? then arr[found.value := v] else arr + [v];
      assert StepSet(m, seg, v) == m[seg.name := List(items)];
      assert forall k | 0 <= k < |items| :: items[k] == v || (k < |arr| && items[k] == arr[k]);
      ListIndexNone(items, other.keys);
    }
  }

  predicate PartAtOnce(seg: Segment, other: Segment) { seg.name != other.name || Conflict(seg.keys, other.keys) }

  /** What a diverging path reads in the tree the descent stands on, with what it creates. */
  function Seen(cur: Value, segs: seq<Segment>, q: seq<Segment>): Option<Value>
    requires Diverge(segs, q)
    decreases |segs|
  {
    if PartAtOnce(segs[0], q[0]) then GetSteps(cur, q)
    else Seen(StepInto(FieldsOf(cur), segs[0]), segs[1..], q[1..])
  }

  lemma {:induction false} PutIsSeen(schema: Option<Schema>, p: Path, cur: Value, segs: seq<Segment>, value: Value, merge: bool, q: seq<Segment>)
    requires segs != [] && KeepsItsKeys(segs) && AllConsistent(segs)
    requires Diverge(segs, q) && AvoidsLists(cur, segs)
    ensures var r := PutSteps(schema, p, cur, segs, value, merge);
      r.Ok? ==> GetSteps(r.value, q) == Seen(cur, segs, q)
    decreases |segs|
  {
    var m, seg, rest := FieldsOf(cur), segs[0], segs[1..];
    hide Consistent, NamesKey, LastValue, CheckWritten, Conflict, StepInto, StepSet, GetStep;
    assert Consistent(seg.keys);
    var r := PutSteps(schema, p, cur, segs, value, merge);
    if r.Ok? {
      if PartAtOnce(seg, q[0]) {
        PartingStepFrame(schema, p, cur, segs, value, merge, q[0]);
      } else {
        assert forall i | 0 <= i < |rest| :: rest[i] == segs[i + 1];
        assert rest[0] == segs[0 + 1];
        GetAfterInnerPut(schema, p, m, seg, rest, value, merge);
        ConsistentTail(segs);
        PutIsSeen(schema, p, StepInto(m, seg), rest, value, merge, q[1..]);
      }
    }
  }

  lemma {:induction false} PartingStepFrame(schema: Option<Schema>, p: Path, cur: Value, segs: seq<Segment>, value: Value, merge: bool, other: Segment)
    requires segs != [] && KeepsItsKeys(segs) && Consistent(segs[0].keys) && !cur.List? && PartAtOnce(segs[0], other)
    requires PutSteps(schema, p, cur, segs, value, merge).Ok?
    ensures GetStep(PutSteps(schema, p, cur, segs, value, merge).value, other) == GetStep(cur, other)
  {
    var seg := segs[0];
    assert Conflict(seg.keys, other.keys) ==> seg.keys != [];
    hide Consistent, KeepsItsKeys, MatchKeys, Conflict, StepSet, PutSteps, GetStep;
    if seg.name != other.name {
      NameFrame(schema, p, cur, segs, value, merge, other);
    } else {
      var v := StoredMatches(schema, p, cur, segs, value, merge);
      if v.Map? { ConflictExcludes(v, seg.keys, other.keys); }
      ConflictFrameExact(FieldsOf(cur), seg, other, v);
      NotAListReads(cur, other);
    }
  }

  lemma {:induction false} NotAListReads(cur: Value, seg: Segment)
    requires !cur.List?
    ensures GetStep(cur, seg) == GetStep(Map(FieldsOf(cur)), seg)
  {
  }

  /** The path names a predicate of an entry that the write has to create. */
  predicate OpensKey(cur: Value, segs: seq<Segment>, q: seq<Segment>)
    requires Diverge(segs, q)
    decreases |segs|
  {
    && !PartAtOnce(segs[0], q[0])
    && (|| (&& segs[0].keys != [] && ListIndex(ArrayAt(FieldsOf(cur), segs[0].name), segs[0].keys).None?
            && |q| == 2 && q[1].keys == [] && NamesKey(segs[0].keys, q[1].name))
        || OpensKey(StepInto(FieldsOf(cur), segs[0]), segs[1..], q[1..]))
  }

  /** A new entry holds texts under its predicates and nothing else. */
  lemma {:induction false} NewEntryReads(keys: seq<Key>, q: seq<Segment>)
    requires q != []
    ensures var r := GetSteps(Map(EntryWithKeys(keys)), q);
      && (r.Some? <==> |q| == 1 && q[0].keys == [] && NamesKey(keys, q[0].name))
      && (r.Some? ==> r.value.Str?)
  {
    var e, name := EntryWithKeys(keys), q[0].name;
    if NamesKey(keys, name) { OverlayHas(map[], keys, name); } else { OverlayFrame(map[], keys, name); }
    if name in e {
      OverlayFields(map[], keys, name);
      if q[0].keys == [] {
        assert GetStep(Map(e), q[0]) == Some(e[name]);
        if |q| > 1 { assert GetStep(e[name], q[1..][0]) == None; }
      }
    }
  }

  lemma {:induction false} OverlayHas(m: Fields, keys: seq<Key>, name: string)
    requires NamesKey(keys, name)
    ensures name in Overlay(m, keys)
  {
    var front := keys[..|keys| - 1];
    if keys[|keys| - 1].name != name {
      var i :| 0 <= i < |keys| && keys[i].name == name;
      assert front[i] == keys[i];
      OverlayHas(m, front, name);
    }
  }

  lemma {:induction false} SeenIsReadOrOpened(cur: Value, segs: seq<Segment>, q: seq<Segment>)
    requires Diverge(segs, q) && AvoidsLists(cur, segs)
    ensures GetSteps(cur, q).Some? ==> Seen(cur, segs, q) == GetSteps(cur, q)
    ensures GetSteps(cur, q).None? ==> (Seen(cur, segs, q).Some? <==> OpensKey(cur, segs, q))
    ensures GetSteps(cur, q).None? && Seen(cur, segs, q).Some? ==> Seen(cur, segs, q).value.Str?
    decreases |segs|
  {
    hide NamesKey, ListIndex, Conflict;
    var m, seg := FieldsOf(cur), segs[0];
    if !PartAtOnce(seg, q[0]) {
      NotAListReads(cur, seg);
      SeenIsReadOrOpened(StepInto(m, seg), segs[1..], q[1..]);
      if seg.keys != [] && ListIndex(ArrayAt(m, seg.name), seg.keys).None? {
        NewEntryReads(seg.keys, q[1..]);
        assert GetSteps(cur, q).None?;
      } else if GetStep(cur, seg).Some? {
        assert StepInto(m, seg) == GetStep(cur, seg).value;
      }
    }
  }

  /** The exact frame of a write with consistent predicates. What a diverging path read before it reads
      after; where it read nothing it reads something exactly when it names a predicate of an entry the
      write created, and then that predicate's text. */
  lemma {:induction false} PutFrameIsExact(schema: Option<Schema>, p: Path, cur: Value, segs: seq<Segment>, value: Value, merge: bool, q: seq<Segment>)
    requires segs != [] && KeepsItsKeys(segs) && AllConsistent(segs)
    requires Diverge(segs, q) && AvoidsLists(cur, segs)
    ensures var r, before := PutSteps(schema, p, cur, segs, value, merge), GetSteps(cur, q);
      r.Ok? ==>
        && (before.Some? ==> GetSteps(r.value, q) == before)
        && (before.None? ==> (GetSteps(r.value, q).Some? <==> OpensKey(cur, segs, q)))
        && (before.None? && GetSteps(r.value, q).Some? ==> GetSteps(r.value, q).value.Str?)
  {
    hide PutSteps, GetSteps, Seen, OpensKey, Diverge, AvoidsLists, KeepsItsKeys, AllConsistent;
    PutIsSeen(schema, p, cur, segs, value, merge, q);
    SeenIsReadOrOpened(cur, segs, q);
  }

  /** A keyed step of a write changes or appends one entry; every other item of its list, of whatever
      kind, stays in its place. */
  lemma {:induction false} PutTouchesOneEntry(schema: Option<Schema>, p: Path, cur: Value, segs: seq<Segment>, value: Value, merge: bool)
    requires segs != [] && segs[0].keys != [] && PutSteps(schema, p, cur, segs, value, merge).Ok?
    ensures var arr, items := ArrayAt(FieldsOf(cur), segs[0].name), ArrayAt(PutSteps(schema, p, cur, segs, value, merge).value.fields, segs[0].name);
      var found := ListIndex(arr, segs[0].keys);
      var i := if found.Some? then found.value else |arr|;
      && |items| == (if found.Some? then |arr| else |arr| + 1)
      && forall j | 0 <= j < |arr| && j != i :: items[j] == arr[j]
  {
    hide LastValue, CheckWritten, StepInto;
  }

  /** The frame of a write, for whole trees: other modules read as before, and so do readable paths of
      the same module that diverge. */
  lemma {:induction false} WriteFrame(schema: Option<Schema>, root: Fields, p: Path, value: Value, merge: bool, q: Path)
    requires !p.IsRoot()
    requires q.modName == p.modName ==>
      && Diverge(p.segments, q.segments) && Get(root, q).Some?
      && KeepsItsKeys(p.segments) && AvoidsLists(ModuleValue(root, p), p.segments)
    ensures var r := Put(schema, root, p, value, merge);
      r.Ok? ==> Get(r.value, q) == Get(root, q)
  {
    hide PutSteps, GetSteps, KeepsItsKeys, AvoidsLists;
    if q.modName == p.modName {
      PutStepsFrame(schema, p, root[p.modName], p.segments, value, merge, q.segments);
    }
  }
}
