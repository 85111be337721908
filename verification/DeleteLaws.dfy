/** What a deletion does: when it succeeds, what is gone afterwards, and what stays. */
module DeleteLaws {
  import opened Text
  import opened Paths
  import opened Values
  import opened Schemas
  import opened Edits
  import opened EditLaws

  // ------------------------------------------------------------------- success

  /** A deletion succeeds exactly when its path reads and no step of it starts from a list. */
  lemma {:induction false} DeleteSucceedsIff(cur: Value, segs: seq<Segment>)
    requires segs != []
    ensures DeleteSteps(cur, segs).Ok? <==> GetSteps(cur, segs).Some? && AvoidsLists(cur, segs)
    decreases |segs|
  {
    hide ListIndex;
    if cur.Map? && GetStep(cur, segs[0]).Some? {
      StepIntoReads(cur.fields, segs[0]);
      if |segs| > 1 { DeleteSucceedsIff(StepInto(cur.fields, segs[0]), segs[1..]); }
    }
  }

  // ------------------------------------------------------------------- removal

  /** Entries of a list that carry the keys. */
  function Matching(arr: seq<Value>, keys: seq<Key>): nat {
    if arr == [] then 0 else (if IsMatch(arr[0], keys) then 1 else 0) + Matching(arr[1..], keys)
  }

  /** The path ends by taking a key away from the entry it goes through. */
  predicate Unkeys(segs: seq<Segment>) { |segs| > 1 && Rekeys(segs, |segs| - 2) }

  /** The path names one thing: its last step is a field, or the only entry with its keys; if it takes a
      key away from its entry, that is the only entry with those keys. */
  predicate NamesOne(cur: Value, segs: seq<Segment>)
    requires segs != []
    decreases |segs|
  {
    if |segs| == 2 && Unkeys(segs) then Matching(ArrayAt(FieldsOf(cur), segs[0].name), segs[0].keys) == 1
    else if |segs| > 1 then NamesOne(StepInto(FieldsOf(cur), segs[0]), segs[1..])
    else segs[0].keys == [] || Matching(ArrayAt(FieldsOf(cur), segs[0].name), segs[0].keys) == 1
  }

  lemma {:induction false} MatchingNone(arr: seq<Value>, keys: seq<Key>)
    ensures Matching(arr, keys) == 0 <==> ListIndex(arr, keys).None?
  {
    hide IsMatch;
    if arr != [] { MatchingNone(arr[1..], keys); }
  }

  lemma {:induction false} MatchingConcat(a: seq<Value>, b: seq<Value>, keys: seq<Key>)
    ensures Matching(a + b, keys) == Matching(a, keys) + Matching(b, keys)
  {
    hide IsMatch;
    if a == [] {
      assert a + b == b;
    } else {
      assert (a + b)[1..] == a[1..] + b;
      MatchingConcat(a[1..], b, keys);
    }
  }

  lemma {:induction false} RemovalMatches(arr: seq<Value>, keys: seq<Key>, i: nat)
    requires ListIndex(arr, keys) == Some(i)
    ensures Matching(arr[..i] + arr[i + 1..], keys) == Matching(arr, keys) - 1
  {
    hide IsMatch, Matching;
    assert arr == arr[..i] + ([arr[i]] + arr[i + 1..]);
    MatchingConcat(arr[..i], [arr[i]] + arr[i + 1..], keys);
    MatchingConcat([arr[i]], arr[i + 1..], keys);
    MatchingConcat(arr[..i], arr[i + 1..], keys);
    OneMatch(arr[i], keys);
  }

  lemma {:induction false} OneMatch(v: Value, keys: seq<Key>)
    ensures Matching([v], keys) == if IsMatch(v, keys) then 1 else 0
  {
    assert [v][1..] == [] && Matching([], keys) == 0;
  }

  lemma {:induction false} LastIsGoneIff(cur: Value, seg: Segment)
    requires DeleteSteps(cur, [seg]).Ok?
    ensures GetStep(DeleteSteps(cur, [seg]).value, seg).None? <==> NamesOne(cur, [seg])
  {
    if seg.keys != [] {
      var arr := ArrayAt(cur.fields, seg.name);
      var i := ListIndex(arr, seg.keys).value;
      RemovalMatches(arr, seg.keys, i);
      MatchingNone(arr[..i] + arr[i + 1..], seg.keys);
    }
  }

  /** A deletion changes one field of the map it starts from. */
  lemma {:induction false} DeleteChangesOneField(cur: Value, segs: seq<Segment>)
    requires segs != [] && DeleteSteps(cur, segs).Ok?
    ensures var r := DeleteSteps(cur, segs).value;
      && KeepsOthers(cur.fields, r.fields, segs[0].name)
      && forall k | k in r.fields && k != segs[0].name :: k in cur.fields
  {
  }

  /** Below an entry whose keys the path leaves alone, the entry still carries them and reads as the new
      value. */
  lemma {:induction false} GetAfterInnerDelete(cur: Value, segs: seq<Segment>)
    requires |segs| > 1 && !NamesKey(segs[0].keys, segs[1].name) && DeleteSteps(cur, segs).Ok?
    ensures var r, next := DeleteSteps(cur, segs).value, DeleteSteps(StepInto(cur.fields, segs[0]), segs[1..]);
      && next.Ok? && GetStep(r, segs[0]) == Some(next.value)
      && (segs[0].keys != [] ==> IsMatch(next.value, segs[0].keys))
  {
    hide NamesKey, MatchKeys;
    var m, seg, rest := cur.fields, segs[0], segs[1..];
    var next := DeleteSteps(StepInto(m, seg), rest).value;
    DeleteChangesOneField(StepInto(m, seg), rest);
    assert rest[0] == segs[1];
    hide DeleteSteps, StepSet;
    if seg.keys != [] { EntryStillMatches(seg.keys, StepInto(m, seg), next, rest[0].name); }
    GetAfterSet(m, seg, next);
  }

  /** A successful deletion touches a key only by ending on it. */
  lemma {:induction false} KeyIsLast(cur: Value, segs: seq<Segment>)
    requires |segs| > 1 && PlainKeys(segs) && DeleteSteps(cur, segs).Ok? && NamesKey(segs[0].keys, segs[1].name)
    ensures |segs| == 2 && Unkeys(segs)
  {
    hide PlainKeys, NamesKey;
    DeleteSucceedsIff(cur, segs);
    if !Rekeys(segs, 0) { NothingBelowAKey(cur.fields, segs); }
  }

  /** What a deletion of its own entry's key leaves: the entry in its place, without the key. */
  lemma {:induction false} UnkeyedEntry(cur: Value, seg: Segment, name: string) returns (i: nat, e: Value)
    requires seg.keys != [] && NamesKey(seg.keys, name) && DeleteSteps(cur, [seg, Segment(name, [])]).Ok?
    ensures cur.Map? && ListIndex(ArrayAt(cur.fields, seg.name), seg.keys) == Some(i)
    ensures e.Map? && ArrayAt(cur.fields, seg.name)[i].Map? && e.fields == ArrayAt(cur.fields, seg.name)[i].fields - {name}
    ensures DeleteSteps(cur, [seg, Segment(name, [])]).value == Map(cur.fields[seg.name := List(ArrayAt(cur.fields, seg.name)[i := e])])
    ensures !IsMatch(e, seg.keys)
  {
    var last := Segment(name, []);
    assert [seg, last][1..] == [last];
    var arr := ArrayAt(cur.fields, seg.name);
    i := ListIndex(arr, seg.keys).value;
    e := Map(arr[i].fields - {name});
    var j :| 0 <= j < |seg.keys| && seg.keys[j].name == name;
    assert seg.keys[j].name !in e.fields;
  }

  /** Putting an entry that does not match in the place of the first match is, for a search, as good as
      removing it. */
  lemma {:induction false} HiddenIsRemoved(arr: seq<Value>, keys: seq<Key>, i: nat, e: Value)
    requires ListIndex(arr, keys) == Some(i) && !IsMatch(e, keys)
    ensures var hidden, removed := arr[i := e], arr[..i] + arr[i + 1..];
      match ListIndex(removed, keys)
      case None => ListIndex(hidden, keys).None?
      case Some(j) => ListIndex(hidden, keys).Some? && hidden[ListIndex(hidden, keys).value] == removed[j]
  {
    hide IsMatch;
    var hidden, removed := arr[i := e], arr[..i] + arr[i + 1..];
    assert forall k | 0 <= k < |removed| :: removed[k] == hidden[if k < i then k else k + 1];
    match ListIndex(removed, keys)
    case None =>
      forall k | 0 <= k < |hidden| ensures !IsMatch(hidden[k], keys) {
        if k != i { assert removed[if k < i then k else k - 1] == hidden[k]; }
      }
      ListIndexNone(hidden, keys);
    case Some(j) =>
      var h := if j < i then j else j + 1;
      forall k | 0 <= k < h ensures !IsMatch(hidden[k], keys) {
        if k != i { assert removed[if k < i then k else k - 1] == hidden[k]; }
      }
      ListIndexIs(hidden, keys, h);
  }

  /** One step to the entry whose key was deleted finds what it would find had the entry been deleted. */
  lemma {:induction false} UnkeyedStep(cur: Value, seg: Segment, name: string)
    requires NamesKey(seg.keys, name) && DeleteSteps(cur, [seg, Segment(name, [])]).Ok?
    ensures DeleteSteps(cur, [seg]).Ok?
    ensures GetStep(DeleteSteps(cur, [seg, Segment(name, [])]).value, seg) == GetStep(DeleteSteps(cur, [seg]).value, seg)
  {
    assert seg.keys != [];
    var i, e := UnkeyedEntry(cur, seg, name);
    hide IsMatch, NamesKey;
    HiddenIsRemoved(ArrayAt(cur.fields, seg.name), seg.keys, i, e);
  }

  /** The entry that moves up carries the key itself, so the path reads again. */
  lemma {:induction false} UnkeyedIsGoneIff(cur: Value, seg: Segment, name: string)
    requires NamesKey(seg.keys, name) && DeleteSteps(cur, [seg, Segment(name, [])]).Ok?
    ensures GetSteps(DeleteSteps(cur, [seg, Segment(name, [])]).value, [seg, Segment(name, [])]).None? <==>
      Matching(ArrayAt(cur.fields, seg.name), seg.keys) == 1
  {
    var last := Segment(name, []);
    var r := DeleteSteps(cur, [seg, last]).value;
    assert [seg, last][1..] == [last] && [last][1..] == [] && seg.keys != [];
    UnkeyedStep(cur, seg, name);
    LastIsGoneIff(cur, seg);
    var found := GetStep(r, seg);
    if found.Some? {
      var j :| 0 <= j < |seg.keys| && seg.keys[j].name == name;
      assert IsMatch(found.value, seg.keys);
      assert seg.keys[j].name in found.value.fields;
      assert GetSteps(found.value, [last]) == Some(found.value.fields[name]);
      assert GetSteps(r, [seg, last]) == GetSteps(found.value, [last]);
    }
  }

  /** After a successful deletion the path no longer reads exactly when it named one thing; a second
      entry with the same keys moves up. */
  lemma {:induction false} DeletedIsGoneIff(cur: Value, segs: seq<Segment>)
    requires segs != [] && PlainKeys(segs) && DeleteSteps(cur, segs).Ok?
    ensures GetSteps(DeleteSteps(cur, segs).value, segs).None? <==> NamesOne(cur, segs)
    decreases |segs|
  {
    hide NamesKey, ListIndex, GetStep, StepInto, StepSet, PlainKeys;
    if |segs| == 1 {
      assert segs == [segs[0]] && segs[1..] == [];
      LastIsGoneIff(cur, segs[0]);
    } else if NamesKey(segs[0].keys, segs[1].name) {
      KeyIsLast(cur, segs);
      assert segs == [segs[0], Segment(segs[1].name, [])];
      UnkeyedIsGoneIff(cur, segs[0], segs[1].name);
    } else {
      GetAfterInnerDelete(cur, segs);
      PlainKeysTail(segs);
      DeletedIsGoneIff(StepInto(cur.fields, segs[0]), segs[1..]);
    }
  }

  // --------------------------------------------------------------------- frame

  /** Removing an entry does not disturb an entry that a conflicting predicate selects. */
  lemma {:induction false} RemovalFrame(arr: seq<Value>, keys: seq<Key>, other: seq<Key>)
    requires Conflict(keys, other) && ListIndex(arr, keys).Some?
    ensures var i := ListIndex(arr, keys).value;
      var left := arr[..i] + arr[i + 1..];
      match ListIndex(arr, other)
      case None => ListIndex(left, other).None?
      case Some(j) => ListIndex(left, other).Some? && left[ListIndex(left, other).value] == arr[j]
  {
    var i := ListIndex(arr, keys).value;
    var left := arr[..i] + arr[i + 1..];
    ConflictExcludes(arr[i], keys, other);
    hide IsMatch, Conflict;
    assert forall k | 0 <= k < |left| :: left[k] == arr[if k < i then k else k + 1];
    match ListIndex(arr, other)
    case None => ListIndexNone(left, other);
    case Some(j) => ListIndexIs(left, other, if j < i then j else j - 1);
  }

  lemma {:induction false} SetFrame(arr: seq<Value>, i: nat, v: Value, other: seq<Key>)
    requires i < |arr| && !IsMatch(arr[i], other) && !IsMatch(v, other)
    ensures ListIndex(arr[i := v], other) == ListIndex(arr, other)
  {
    hide IsMatch;
    match ListIndex(arr, other)
    case None => ListIndexNone(arr[i := v], other);
    case Some(j) => ListIndexIs(arr[i := v], other, j);
  }

  /** An entry that loses a field matches nothing new. */
  lemma {:induction false} FewerFieldsMatchLess(v: Value, e: Value, name: string, other: seq<Key>)
    requires v.Map? && e.Map? && e.fields == v.fields - {name} && !IsMatch(v, other)
    ensures !IsMatch(e, other)
  {
  }

  lemma {:induction false} UnkeyedConflictFrame(cur: Value, seg: Segment, name: string, other: Segment)
    requires NamesKey(seg.keys, name) && DeleteSteps(cur, [seg, Segment(name, [])]).Ok?
    requires seg.name == other.name && Conflict(seg.keys, other.keys)
    ensures GetStep(DeleteSteps(cur, [seg, Segment(name, [])]).value, other) == GetStep(cur, other)
  {
    assert seg.keys != [] && other.keys != [];
    var i, e := UnkeyedEntry(cur, seg, name);
    var arr := ArrayAt(cur.fields, seg.name);
    ConflictExcludes(arr[i], seg.keys, other.keys);
    FewerFieldsMatchLess(arr[i], e, name, other.keys);
    hide IsMatch, NamesKey, Conflict;
    SetFrame(arr, i, e, other.keys);
  }

  lemma {:induction false} ConflictingStepFrame(cur: Value, segs: seq<Segment>, other: Segment)
    requires segs != [] && DeleteSteps(cur, segs).Ok? && (|segs| > 1 ==> !NamesKey(segs[0].keys, segs[1].name))
    requires segs[0].name == other.name && Conflict(segs[0].keys, other.keys)
    ensures GetStep(DeleteSteps(cur, segs).value, other) == GetStep(cur, other)
  {
    var m, seg := cur.fields, segs[0];
    var arr := ArrayAt(m, seg.name);
    assert seg.keys != [] && other.keys != [];
    if |segs| == 1 {
      hide Conflict, IsMatch;
      RemovalFrame(arr, seg.keys, other.keys);
    } else {
      GetAfterInnerDelete(cur, segs);
      var i, next := ListIndex(arr, seg.keys).value, DeleteSteps(StepInto(m, seg), segs[1..]).value;
      ConflictExcludes(arr[i], seg.keys, other.keys);
      ConflictExcludes(next, seg.keys, other.keys);
      hide Conflict, IsMatch, NamesKey;
      SetFrame(arr, i, next, other.keys);
      assert DeleteSteps(cur, segs).value == Map(m[seg.name := List(arr[i := next])]);
    }
  }

  /** What a path may diverge from and stay as it was: the deleted path, or, if that takes a key away, the
      path to the entry. */
  function Touched(segs: seq<Segment>): seq<Segment> { if Unkeys(segs) then segs[..|segs| - 1] else segs }

  lemma {:induction false} TouchedHere(segs: seq<Segment>)
    requires |segs| == 1 || (|segs| == 2 && Unkeys(segs))
    ensures Touched(segs) == [segs[0]]
  {
  }

  lemma {:induction false} TouchedTail(segs: seq<Segment>)
    requires |segs| > 1 && !(|segs| == 2 && Unkeys(segs))
    ensures Touched(segs) != [] && Touched(segs)[0] == segs[0] && Touched(segs)[1..] == Touched(segs[1..])
  {
    hide NamesKey;
    var rest := segs[1..];
    assert forall i | 0 <= i < |rest| :: rest[i] == segs[i + 1];
    if |segs| > 2 { assert Rekeys(rest, |rest| - 2) == Rekeys(segs, |segs| - 2); }
  }

  /** A deletion leaves every path that diverges from what it touches as it was, readable or not. */
  lemma {:induction false} DeleteFrame(cur: Value, segs: seq<Segment>, q: seq<Segment>)
    requires segs != [] && PlainKeys(segs) && DeleteSteps(cur, segs).Ok? && Diverge(Touched(segs), q)
    ensures GetSteps(DeleteSteps(cur, segs).value, q) == GetSteps(cur, q)
    decreases |segs|
  {
    hide NamesKey, ListIndex, StepSet, Conflict, PlainKeys, Touched;
    if |segs| == 1 {
      TouchedHere(segs);
    } else if NamesKey(segs[0].keys, segs[1].name) {
      KeyIsLast(cur, segs);
      assert segs == [segs[0], Segment(segs[1].name, [])];
      TouchedHere(segs);
    } else {
      assert !(|segs| == 2 && Unkeys(segs));
      TouchedTail(segs);
    }
    if segs[0].name != q[0].name {
      DeleteChangesOneField(cur, segs);
    } else if Conflict(segs[0].keys, q[0].keys) {
      if |segs| > 1 && NamesKey(segs[0].keys, segs[1].name) {
        UnkeyedConflictFrame(cur, segs[0], segs[1].name, q[0]);
      } else {
        ConflictingStepFrame(cur, segs, q[0]);
      }
    } else {
      GetAfterInnerDelete(cur, segs);
      PlainKeysTail(segs);
      DeleteSucceedsIff(cur, segs);
      StepIntoReads(cur.fields, segs[0]);
      DeleteFrame(StepInto(cur.fields, segs[0]), segs[1..], q[1..]);
    }
  }

  /** After a key is deleted, every path through the entry reads what it would read had the whole entry
      been deleted. */
  lemma {:induction false} UnkeyedEntryIsHidden(cur: Value, segs: seq<Segment>, q: seq<Segment>)
    requires PlainKeys(segs) && Unkeys(segs) && DeleteSteps(cur, segs).Ok? && Touched(segs) <= q
    ensures DeleteSteps(cur, Touched(segs)).Ok?
    ensures GetSteps(DeleteSteps(cur, segs).value, q) == GetSteps(DeleteSteps(cur, Touched(segs)).value, q)
    decreases |segs|
  {
    hide NamesKey, ListIndex, GetStep, StepSet, StepInto, PlainKeys, Touched;
    if |segs| == 2 {
      assert segs == [segs[0], Segment(segs[1].name, [])];
      TouchedHere(segs);
      UnkeyedStep(cur, segs[0], segs[1].name);
      assert q[0] == segs[0];
    } else {
      var rest, front := segs[1..], Touched(segs);
      if NamesKey(segs[0].keys, segs[1].name) { KeyIsLast(cur, segs); }
      TouchedTail(segs);
      PlainKeysTail(segs);
      UnkeysTail(segs);
      assert q[0] == segs[0] && Touched(rest) <= q[1..];
      GetAfterInnerDelete(cur, segs);
      UnkeyedEntryIsHidden(StepInto(cur.fields, segs[0]), rest, q[1..]);
      FrontDelete(cur, segs);
    }
  }

  lemma {:induction false} UnkeysTail(segs: seq<Segment>)
    requires |segs| > 2 && Unkeys(segs)
    ensures Unkeys(segs[1..])
  {
    var rest := segs[1..];
    assert rest[|rest| - 2] == segs[|segs| - 2] && rest[|rest| - 1] == segs[|segs| - 1];
  }

  /** Deleting the entry itself goes down the same way. */
  lemma {:induction false} FrontDelete(cur: Value, segs: seq<Segment>)
    requires |segs| > 2 && Unkeys(segs) && DeleteSteps(cur, segs).Ok? && !NamesKey(segs[0].keys, segs[1].name)
    requires DeleteSteps(StepInto(cur.fields, segs[0]), Touched(segs)[1..]).Ok?
    ensures DeleteSteps(cur, Touched(segs)).Ok?
    ensures GetStep(DeleteSteps(cur, Touched(segs)).value, segs[0]) == Some(DeleteSteps(StepInto(cur.fields, segs[0]), Touched(segs)[1..]).value)
  {
    hide NamesKey, ListIndex, StepInto, StepSet, GetStep;
    var front := Touched(segs);
    assert |front| > 1 && front[0] == segs[0] && front[1] == segs[1];
    assert DeleteSteps(cur, front).Ok?;
    GetAfterInnerDelete(cur, front);
  }

  // ------------------------------------------------------------ writing over a key

  /** After another text is written over a key, every path through the entry reads what it would read had
      the entry been deleted, and nothing if the entry was new. */
  lemma {:induction false} RekeyedEntryIsHidden(schema: Option<Schema>, p: Path, cur: Value, seg: Segment, name: string, value: Value, merge: bool, q: seq<Segment>)
    requires !cur.List? && NamesKey(seg.keys, name) && q != [] && q[0] == seg
    requires PutSteps(schema, p, cur, [seg, Segment(name, [])], value, merge).Ok?
    requires !KeyAgrees(seg.keys, name, Next(cur, [seg, Segment(name, [])], value, merge))
    ensures var r := PutSteps(schema, p, cur, [seg, Segment(name, [])], value, merge).value;
      if ListIndex(ArrayAt(FieldsOf(cur), seg.name), seg.keys).Some?
      then DeleteSteps(cur, [seg]).Ok? && GetSteps(r, q) == GetSteps(DeleteSteps(cur, [seg]).value, q)
      else GetSteps(r, q).None?
  {
    var segs := [seg, Segment(name, [])];
    var m, next := FieldsOf(cur), Next(cur, segs, value, merge);
    var arr, e := ArrayAt(m, seg.name), StepInto(m, seg);
    assert seg.keys != [];
    RekeyingPut(schema, p, cur, segs, value, merge);
    var e' := Map(FieldsOf(e)[name := next]);
    var r := Map(StepSet(m, seg, e'));
    hide Next, PutSteps, KeyAgrees, NamesKey, Stringify;
    if !Consistent(seg.keys) {
      InconsistentReadsNothing(r, seg);
      InconsistentReadsNothing(cur, seg);
      FoundIsConsistent(m, seg);
    } else {
      StepIntoMatches(m, seg);
      RekeyedMatchesIff(e.fields, seg.keys, name, next);
      hide Consistent, MatchKeys, StepInto;
      var found := ListIndex(arr, seg.keys);
      if found.Some? {
        HiddenIsRemoved(arr, seg.keys, found.value, e');
        assert GetStep(r, seg) == GetStep(DeleteSteps(cur, [seg]).value, seg);
      } else {
        ListIndexNone(arr + [e'], seg.keys);
        assert GetStep(r, seg).None?;
      }
    }
  }

  /** If the key's own text is written, the entry's other fields read as before. */
  lemma {:induction false} RekeyedAlikeKeepsFields(schema: Option<Schema>, p: Path, cur: Value, seg: Segment, name: string, value: Value, merge: bool, q: seq<Segment>)
    requires !cur.List? && NamesKey(seg.keys, name) && |q| > 1 && q[0] == seg && q[1].name != name
    requires PutSteps(schema, p, cur, [seg, Segment(name, [])], value, merge).Ok?
    requires KeyAgrees(seg.keys, name, Next(cur, [seg, Segment(name, [])], value, merge))
    ensures var r := PutSteps(schema, p, cur, [seg, Segment(name, [])], value, merge).value;
      ListIndex(ArrayAt(FieldsOf(cur), seg.name), seg.keys).Some? ==> GetSteps(r, q) == GetSteps(cur, q)
  {
    var segs := [seg, Segment(name, [])];
    var m, next := FieldsOf(cur), Next(cur, segs, value, merge);
    var e := StepInto(m, seg);
    assert seg.keys != [];
    RekeyingPut(schema, p, cur, segs, value, merge);
    FoundIsConsistent(m, seg);
    if ListIndex(ArrayAt(m, seg.name), seg.keys).Some? {
      var e' := Map(FieldsOf(e)[name := next]);
      StepIntoMatches(m, seg);
      RekeyedMatchesIff(e.fields, seg.keys, name, next);
      hide Next, PutSteps, KeyAgrees, NamesKey, MatchKeys, Stringify;
      GetAfterSet(m, seg, e');
      assert GetStep(cur, seg) == Some(e);
      assert q[1..][0] == q[1];
      assert GetStep(e', q[1]) == GetStep(e, q[1]);
      assert GetSteps(e', q[1..]) == GetSteps(e, q[1..]);
    }
  }

  // --------------------------------------------------------------- whole trees

  /** deleteAt: it succeeds exactly when the path reads without starting a step from a list, then the
      path is gone exactly when it named one thing, and paths that diverge from what it touches, other
      modules included, are as before. If it took a key away, paths through the entry read as if the
      entry were gone. */
  lemma {:induction false} DeleteIsExact(root: Fields, p: Path, q: Path)
    requires !p.IsRoot() && p.segments != [] && PlainKeys(p.segments)
    ensures var r, touched := DeleteAt(root, p), Touched(p.segments);
      && (r.Ok? <==> Get(root, p).Some? && AvoidsLists(root[p.modName], p.segments))
      && (r.Ok? ==> (Get(r.value, p).None? <==> NamesOne(root[p.modName], p.segments)))
      && (r.Ok? && (q.modName != p.modName || Diverge(touched, q.segments)) ==> Get(r.value, q) == Get(root, q))
      && (r.Ok? && q.modName == p.modName && Unkeys(p.segments) && touched <= q.segments ==>
            var whole := DeleteAt(root, Path(p.modName, touched));
            whole.Ok? && Get(r.value, q) == Get(whole.value, q))
  {
    hide DeleteSteps, GetSteps, AvoidsLists, PlainKeys, Diverge, NamesOne, Unkeys;
    if p.modName in root {
      DeleteSucceedsIff(root[p.modName], p.segments);
      if DeleteAt(root, p).Ok? {
        DeletedIsGoneIff(root[p.modName], p.segments);
        if Diverge(Touched(p.segments), q.segments) { DeleteFrame(root[p.modName], p.segments, q.segments); }
        if Unkeys(p.segments) && Touched(p.segments) <= q.segments {
          UnkeyedEntryIsHidden(root[p.modName], p.segments, q.segments);
          TouchedIsSome(p.segments);
        }
      }
    }
  }

  lemma {:induction false} TouchedIsSome(segs: seq<Segment>)
    requires segs != []
    ensures Touched(segs) != []
  {
  }

  /** A keyed step of a deletion takes one entry out of its list or changes it; every other item, of
      whatever kind, stays in order. */
  lemma {:induction false} DeleteTouchesOneEntry(cur: Value, segs: seq<Segment>)
    requires segs != [] && segs[0].keys != [] && DeleteSteps(cur, segs).Ok?
    ensures var arr, items := ArrayAt(cur.fields, segs[0].name), ArrayAt(DeleteSteps(cur, segs).value.fields, segs[0].name);
      var i := ListIndex(arr, segs[0].keys).value;
      if |segs| == 1 then items == arr[..i] + arr[i + 1..]
      else |items| == |arr| && forall j | 0 <= j < |arr| && j != i :: items[j] == arr[j]
  {
    hide StepInto, ListIndex;
  }

  /** Deleting a module takes exactly the module away. */
  lemma {:induction false} ModuleDeleteIsExact(root: Fields, p: Path)
    requires !p.IsRoot() && p.segments == []
    ensures var r := DeleteAt(root, p);
      && (r.Ok? <==> Get(root, p).Some?)
      && (r.Ok? ==> forall q: Path :: Get(r.value, q) == if q.modName == p.modName then None else Get(root, q))
  {
    hide GetSteps;
    if p.modName in root { ReadsItself(root, p); }
  }

  lemma {:induction false} ReadsItself(root: Fields, p: Path)
    requires p.segments == [] && p.modName in root
    ensures GetSteps(root[p.modName], p.segments) == Some(root[p.modName])
  {
  }

  // ------------------------------------------------- deleting a key, on two inputs

  const BY_KEY := Segment("l", [Key("k", "1")])

  function OneEntry(): Value { Map(map["l" := List([Map(map["k" := Str("1"), "x" := Str("a")])])]) }

  function TwoEntries(): Value { Map(map["l" := List([Map(map["k" := Str("1"), "x" := Str("a")]), Map(map["k" := Str("1")])])]) }

  lemma {:induction false} EntryMatches(e: Fields)
    requires "k" in e && e["k"] == Str("1")
    ensures IsMatch(Map(e), BY_KEY.keys)
  {
  }

  lemma {:induction false} FirstEntryFound(v: Value)
    requires v == OneEntry() || v == TwoEntries()
    ensures var arr := ArrayAt(v.fields, "l"); ListIndex(arr, BY_KEY.keys) == Some(0) && arr[0].fields == map["k" := Str("1"), "x" := Str("a")]
  {
    var arr := ArrayAt(v.fields, "l");
    EntryMatches(arr[0].fields);
    ListIndexIs(arr, BY_KEY.keys, 0);
  }

  /** The key's deletion takes the entry's other fields out of reach. */
  lemma {:induction false} KeyDeletionHidesAField()
    ensures var k, x := [BY_KEY, Segment("k", [])], [BY_KEY, Segment("x", [])];
      var r := DeleteSteps(OneEntry(), k);
      GetSteps(OneEntry(), x) == Some(Str("a")) && r.Ok? && GetSteps(r.value, x) == None
  {
    var v, k, x := OneEntry(), [BY_KEY, Segment("k", [])], [BY_KEY, Segment("x", [])];
    FirstEntryFound(v);
    assert k[1..] == [Segment("k", [])] && x[1..] == [Segment("x", [])] && [Segment("x", [])][1..] == [];
    assert GetSteps(v, x) == GetSteps(ArrayAt(v.fields, "l")[0], [Segment("x", [])]) == Some(Str("a"));
    assert NamesKey(BY_KEY.keys, "k") by { assert BY_KEY.keys[0].name == "k"; }
    UnkeyedStep(v, BY_KEY, "k");
    assert ArrayAt(v.fields, "l")[..0] + ArrayAt(v.fields, "l")[1..] == [];
  }

  /** The deleted path still reads: the second entry answers. */
  lemma {:induction false} KeyDeletionLetsTheNextAnswer()
    ensures var k := [BY_KEY, Segment("k", [])];
      var r := DeleteSteps(TwoEntries(), k);
      r.Ok? && GetSteps(r.value, k) == Some(Str("1"))
  {
    var v, k, last := TwoEntries(), [BY_KEY, Segment("k", [])], Segment("k", []);
    FirstEntryFound(v);
    assert k[1..] == [last] && [last][1..] == [];
    assert NamesKey(BY_KEY.keys, "k") by { assert BY_KEY.keys[0].name == "k"; }
    UnkeyedStep(v, BY_KEY, "k");
    var second := Map(map["k" := Str("1")]);
    assert ArrayAt(v.fields, "l")[..0] + ArrayAt(v.fields, "l")[1..] == [second];
    EntryMatches(second.fields);
    ListIndexIs([second], BY_KEY.keys, 0);
    assert GetStep(DeleteSteps(v, k).value, BY_KEY) == Some(second);
    assert GetSteps(second, [last]) == Some(Str("1"));
  }
}
