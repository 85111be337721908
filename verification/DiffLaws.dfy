/** What Diff reports: nothing exactly when the trees agree up to list order, only paths where the
    trees do differ as stated, and something at or above every leaf that differs. */
module DiffLaws {
  import opened Text
  import opened Paths
  import opened Values
  import opened Edits
  import opened Diffs

  // ------------------------------------------------------------- one level of the walk

  /** How the walk goes down: into a field, or to the entry of a name. */
  datatype Step = Field(k: string) | Entry(n: string)

  function StepPath(p: Path, st: Step): Path {
    match st
    case Field(k) => ChildPath(p, k)
    case Entry(n) => EntryPath(p, ByName(n))
  }

  function Sub(v: Value, st: Step): Option<Value> {
    match st
    case Field(k) => if v.Map? && k in v.fields then Some(v.fields[k]) else None
    case Entry(n) => if v.List? then EntryNamed(v.items, n) else None
  }

  predicate Visits(a: Value, b: Value, st: Step) { Sub(a, st).Some? || Sub(b, st).Some? }

  ghost function StepChanges(num: Numeral, p: Path, a: Value, b: Value, st: Step): set<Change> {
    var x, y := Sub(a, st), Sub(b, st);
    if x.Some? && y.Some? then Changes(num, StepPath(p, st), x.value, y.value)
    else One(num, StepPath(p, st), if x.Some? then x.value else Null, if y.Some? then y.value else Null)
  }

  predicate SameKind(a: Value, b: Value) { (a.Map? && b.Map?) || (a.List? && b.List?) }

  predicate Walkable(num: Numeral, p: Path, v: Value) { Plain(num, v) && Placed(p, v) }

  lemma {:induction false} SubIsWalkable(num: Numeral, p: Path, v: Value, st: Step)
    requires Walkable(num, p, v) && Sub(v, st).Some?
    ensures Walkable(num, StepPath(p, st), Sub(v, st).value)
    ensures st.Entry? ==> '\'' !in st.n && Sub(v, st).value.Map?
    ensures v decreases to Sub(v, st).value
  {
    if st.Entry? {
      var i := ListIndex(v.items, ByName(st.n)).value;
      NameMatches(v.items[i]);
    } else {
      var np := ChildPath(p, st.k);
      assert p.modName != "" ==> np.segments[|np.segments| - 1] == Segment(st.k, []);
    }
  }

  lemma {:induction false} EntryIsLast(p: Path, items: seq<Value>, n: string)
    requires p.segments != [] && Entries(items) && '\'' !in n
    ensures var r := LastWith(p, items, IdOf(n));
      EntryNamed(items, n) == if r.Some? then Some(items[r.value]) else None
    ensures EntryNamed(items, n).Some? <==> HasName(items, n)
  {
    hide IdOf, LastWith;
    LastWithName(p, items, n);
    forall i | 0 <= i < |items| ensures IsMatch(items[i], ByName(n)) <==> NameOf(items[i]) == n { NameMatches(items[i]); }
    var r := LastWith(p, items, IdOf(n));
    if r.Some? {
      ListIndexIs(items, ByName(n), r.value);
    } else {
      ListIndexNone(items, ByName(n));
    }
  }

  predicate NamedPlainly(items: seq<Value>) { forall i | 0 <= i < |items| :: IsNamed(items[i]) && '\'' !in NameOf(items[i]) }

  lemma {:induction false} BothNamed(xs: seq<Value>, ys: seq<Value>)
    requires Entries(xs) && Entries(ys)
    ensures NamedPlainly(xs + ys)
  {
    var all := xs + ys;
    assert forall i | 0 <= i < |all| :: all[i] == if i < |xs| then xs[i] else ys[i - |xs|];
  }

  lemma {:induction false} NamedInEither(xs: seq<Value>, ys: seq<Value>, n: string)
    requires Entries(xs) && Entries(ys) && NamedPlainly(xs + ys) && (HasName(xs, n) || HasName(ys, n))
    ensures HasName(xs + ys, n)
  {
    var all := xs + ys;
    if HasName(xs, n) {
      var i :| 0 <= i < |xs| && NameOf(xs[i]) == n;
      assert all[i] == xs[i];
    } else {
      var i :| 0 <= i < |ys| && NameOf(ys[i]) == n;
      assert all[|xs| + i] == ys[i];
    }
  }

  lemma {:induction false} EntryStep(num: Numeral, p: Path, a: Value, b: Value, n: string)
    requires Walkable(num, p, a) && Walkable(num, p, b) && a.List? && b.List? && '\'' !in n
    requires HasName(a.items, n) || HasName(b.items, n)
    ensures IdOf(n) in EntryIds(p, a.items + b.items)
    ensures EntryChanges(num, p, a, b, IdOf(n)) == StepChanges(num, p, a, b, Entry(n))
  {
    hide IdOf, LastWith, Changes, One, EntryNamed, KeysOfFirst, EntryIds;
    var all := a.items + b.items;
    assert Entries(a.items) && Entries(b.items) && p.segments != [];
    hide Plain, Placed, Walkable, DistinctlyNamed, IsNamed;
    BothNamed(a.items, b.items);
    NamedInEither(a.items, b.items, n);
    KeysOfFirstByName(p, all, n);
    EntryIsLast(p, a.items, n);
    EntryIsLast(p, b.items, n);
  }

  lemma {:induction false} IdIsAName(num: Numeral, p: Path, a: Value, b: Value, id: string) returns (n: string)
    requires Walkable(num, p, a) && Walkable(num, p, b) && a.List? && b.List?
    requires id in EntryIds(p, a.items + b.items)
    ensures id == IdOf(n) && '\'' !in n && (HasName(a.items, n) || HasName(b.items, n))
  {
    hide IdOf, EntryIds, EntryId;
    var all := a.items + b.items;
    assert Entries(a.items) && Entries(b.items) && p.segments != [];
    hide Plain, Placed, Walkable, DistinctlyNamed, IsNamed, NameOf;
    BothNamed(a.items, b.items);
    assert forall i | 0 <= i < |all| :: all[i] == if i < |a.items| then a.items[i] else b.items[i - |a.items|];
    NamedIds(p, all);
    var i :| 0 <= i < |all| && EntryIds(p, all)[i] == id;
    n := NameOf(all[i]);
  }

  /** A change below p comes from one step down ... */
  lemma {:induction false} ChangeComesFromStep(num: Numeral, p: Path, a: Value, b: Value, c: Change) returns (st: Step)
    requires Walkable(num, p, a) && Walkable(num, p, b) && SameKind(a, b)
    requires c in Changes(num, p, a, b)
    ensures Visits(a, b, st) && c in StepChanges(num, p, a, b, st)
  {
    hide Equal, IdOf, EntryIds, EntryChanges, StepChanges, EntryNamed, Walkable, HasName, FieldChanges, One;
    if a.Map? {
      var k :| k in a.fields.Keys + b.fields.Keys && c in FieldChanges(num, p, a, b, k);
      st := Field(k);
      FieldStep(num, p, a, b, k);
    } else {
      var id :| id in EntryIds(p, a.items + b.items) && c in EntryChanges(num, p, a, b, id);
      var n := IdIsAName(num, p, a, b, id);
      st := Entry(n);
      EntryStep(num, p, a, b, n);
      EntryVisited(num, p, a, b, n);
    }
  }

  lemma {:induction false} EntryVisited(num: Numeral, p: Path, a: Value, b: Value, n: string)
    requires Walkable(num, p, a) && Walkable(num, p, b) && a.List? && b.List? && '\'' !in n
    requires HasName(a.items, n) || HasName(b.items, n)
    ensures Visits(a, b, Entry(n))
  {
    hide EntryNamed, IdOf;
    EntryIsLast(p, a.items, n);
    EntryIsLast(p, b.items, n);
  }

  lemma {:induction false} FieldStep(num: Numeral, p: Path, a: Value, b: Value, k: string)
    requires a.Map? && b.Map?
    ensures FieldChanges(num, p, a, b, k) == StepChanges(num, p, a, b, Field(k))
  {
  }

  /** ... and every change of a step down is one. */
  lemma {:induction false} StepChangesAreChanges(num: Numeral, p: Path, a: Value, b: Value, st: Step)
    requires Walkable(num, p, a) && Walkable(num, p, b) && SameKind(a, b)
    requires Visits(a, b, st) && !Equal(num, a, b)
    ensures StepChanges(num, p, a, b, st) <= Changes(num, p, a, b)
  {
    if a.Map? {
      FieldStep(num, p, a, b, st.k);
    } else {
      hide IdOf, EntryIds, EntryNamed;
      if Sub(a, st).Some? { SubIsWalkable(num, p, a, st); } else { SubIsWalkable(num, p, b, st); }
      EntryIsLast(p, a.items, st.n);
      EntryIsLast(p, b.items, st.n);
      EntryStep(num, p, a, b, st.n);
    }
  }

  // ------------------------------------------------------------------- empty differences

  ghost predicate StepsAgree(a: Value, b: Value) {
    forall st | Visits(a, b, st) :: Sub(a, st).Some? && Sub(b, st).Some? && Agree(Sub(a, st).value, Sub(b, st).value)
  }

  lemma {:induction false} AgreeMeansSameName(x: Value, y: Value)
    requires IsNamed(x) && y.Map? && Agree(x, y)
    ensures IsNamed(y) && NameOf(y) == NameOf(x)
  {
    assert Agree(x.fields["name"], y.fields["name"]);
  }

  lemma {:induction false} NamedEntryIs(items: seq<Value>, i: nat)
    requires DistinctlyNamed(items) && i < |items|
    ensures EntryNamed(items, NameOf(items[i])) == Some(items[i])
  {
    forall j | 0 <= j < |items| ensures IsMatch(items[j], ByName(NameOf(items[i]))) <==> NameOf(items[j]) == NameOf(items[i]) {
      NameMatches(items[j]);
    }
    ListIndexIs(items, ByName(NameOf(items[i])), i);
  }

  lemma {:induction false} AgreeIffStepsAgree(num: Numeral, p: Path, a: Value, b: Value)
    requires Walkable(num, p, a) && Walkable(num, p, b) && SameKind(a, b)
    ensures Agree(a, b) <==> StepsAgree(a, b)
  {
    if a.Map? {
      if StepsAgree(a, b) {
        forall k ensures k in a.fields <==> k in b.fields { assert Visits(a, b, Field(k)) <==> (k in a.fields || k in b.fields); }
        forall k | k in a.fields ensures Agree(a.fields[k], b.fields[k]) { assert Visits(a, b, Field(k)); }
      }
    } else {
      ListsAgreeIff(num, p, a, b);
    }
  }

  lemma {:induction false} ListsAgreeIff(num: Numeral, p: Path, a: Value, b: Value)
    requires Walkable(num, p, a) && Walkable(num, p, b) && a.List? && b.List?
    ensures Agree(a, b) <==> StepsAgree(a, b)
  {
    hide EntryNamed;
    if StepsAgree(a, b) {
      forall i | 0 <= i < |a.items| ensures AgreesWithSome(a.items[i], b.items) {
        NamedEntryIs(a.items, i);
        assert Visits(a, b, Entry(NameOf(a.items[i])));
        var _ := EntryIsInList(b.items, NameOf(a.items[i]));
      }
      forall j | 0 <= j < |b.items| ensures SomeAgrees(a, b.items[j]) {
        NamedEntryIs(b.items, j);
        assert Visits(a, b, Entry(NameOf(b.items[j])));
        var _ := EntryIsInList(a.items, NameOf(b.items[j]));
      }
    }
    if Agree(a, b) {
      forall st | Visits(a, b, st)
        ensures Sub(a, st).Some? && Sub(b, st).Some? && Agree(Sub(a, st).value, Sub(b, st).value)
      {
        if Sub(a, st).Some? {
          var i := EntryIsInList(a.items, st.n);
          assert AgreesWithSome(a.items[i], b.items);
          var j :| 0 <= j < |b.items| && Agree(a.items[i], b.items[j]);
          AgreeMeansSameName(a.items[i], b.items[j]);
          NamedEntryIs(b.items, j);
        } else {
          var j := EntryIsInList(b.items, st.n);
          assert SomeAgrees(a, b.items[j]);
          var i :| 0 <= i < |a.items| && Agree(a.items[i], b.items[j]);
          AgreeMeansSameName(a.items[i], b.items[j]);
          NamedEntryIs(a.items, i);
        }
      }
    }
  }

  lemma {:induction false} EntryIsInList(items: seq<Value>, n: string) returns (i: nat)
    requires DistinctlyNamed(items)
    ensures EntryNamed(items, n).Some? ==> i < |items| && items[i] == EntryNamed(items, n).value && NameOf(items[i]) == n
  {
    var r := ListIndex(items, ByName(n));
    i := 0;
    if r.Some? {
      i := r.value;
      NameMatches(items[i]);
    }
  }

  /** The walk reports nothing if and only if the values agree up to list order. */
  lemma {:induction false} NothingReportedIffAgree(num: Numeral, p: Path, a: Value, b: Value)
    requires Walkable(num, p, a) && Walkable(num, p, b)
    ensures Changes(num, p, a, b) == {} <==> Agree(a, b)
    decreases a
  {
    hide Sub, StepPath, Walkable, Plain;
    EqualIsEqualityHere(num, p, a, b);
    if Equal(num, a, b) {
      AgreeIsReflexive(a);
    } else if SameKind(a, b) {
      AgreeIffStepsAgree(num, p, a, b);
      forall st | Visits(a, b, st)
        ensures StepChanges(num, p, a, b, st) == {} <==>
                Sub(a, st).Some? && Sub(b, st).Some? && Agree(Sub(a, st).value, Sub(b, st).value)
        ensures StepChanges(num, p, a, b, st) <= Changes(num, p, a, b)
      {
        StepChangesAreChanges(num, p, a, b, st);
        if Sub(a, st).Some? { SubIsWalkable(num, p, a, st); }
        if Sub(b, st).Some? { SubIsWalkable(num, p, b, st); }
        if Sub(a, st).Some? && Sub(b, st).Some? {
          NothingReportedIffAgree(num, StepPath(p, st), Sub(a, st).value, Sub(b, st).value);
        } else {
          MissingIsReported(num, StepPath(p, st), if Sub(a, st).Some? then Sub(a, st).value else Sub(b, st).value);
        }
      }
      if Changes(num, p, a, b) != {} {
        var c :| c in Changes(num, p, a, b);
        var st := ChangeComesFromStep(num, p, a, b, c);
      }
    }
  }

  lemma {:induction false} EqualIsEqualityHere(num: Numeral, p: Path, a: Value, b: Value)
    requires Walkable(num, p, a) && Walkable(num, p, b)
    ensures Equal(num, a, b) <==> a == b
  {
    PlainIsDecided(num, a);
    PlainIsDecided(num, b);
    EqualIsEquality(num, a, b);
  }

  lemma {:induction false} MissingIsReported(num: Numeral, p: Path, v: Value)
    requires Walkable(num, p, v)
    ensures One(num, p, v, Null) == {Change(p, Remove)} && One(num, p, Null, v) == {Change(p, Create)}
  {
    NullIsUnequal(num, v);
  }

  // --------------------------------------------------------------------------- soundness

  /** The tree's value at a path, the root path included. */
  function At(root: Fields, p: Path): Option<Value> {
    if p.IsRoot() then Some(Map(root)) else Get(root, p)
  }

  lemma {:induction false} GetStepsAppend(v: Value, segs: seq<Segment>, s: Segment)
    ensures GetSteps(v, segs + [s]) ==
      match GetSteps(v, segs) { case None => None case Some(c) => GetStep(c, s) }
    decreases |segs|
  {
    hide GetStep;
    if segs == [] {
      assert segs + [s] == [s];
      assert [s][1..] == [];
    } else {
      assert (segs + [s])[1..] == segs[1..] + [s];
      if GetStep(v, segs[0]).Some? { GetStepsAppend(GetStep(v, segs[0]).value, segs[1..], s); }
    }
  }

  /** Reading a step's path in the tree gives what the walk found there. */
  lemma {:induction false} StepPathReads(num: Numeral, root: Fields, p: Path, v: Value, st: Step)
    requires Walkable(num, p, v) && At(root, p) == Some(v)
    requires if v.Map? then st.Field? && (p.IsRoot() ==> st.k != "") else v.List? && st.Entry?
    ensures At(root, StepPath(p, st)) == Sub(v, st)
  {
    hide Plain, IsMatch, NameOf, DistinctlyNamed;
    if st.Field? {
      if !p.IsRoot() { GetStepsAppendAt(root, p, Segment(st.k, [])); }
    } else {
      var n := |p.segments| - 1;
      var front, last := p.segments[..n], p.segments[n];
      assert p.segments == front + [last];
      GetStepsAppend(root[p.modName], front, last);
      GetStepsAppend(root[p.modName], front, Segment(last.name, ByName(st.n)));
    }
  }

  lemma {:induction false} GetStepsAppendAt(root: Fields, p: Path, s: Segment)
    requires !p.IsRoot() && Get(root, p).Some?
    ensures Get(root, Path(p.modName, p.segments + [s])) == GetStep(Get(root, p).value, s)
  {
    GetStepsAppend(root[p.modName], p.segments, s);
  }

  ghost predicate Truthful(a: Fields, b: Fields, c: Change) {
    match c.kind
    case Create => At(a, c.path).None? && At(b, c.path).Some?
    case Remove => At(a, c.path).Some? && At(b, c.path).None?
    case Modify => At(a, c.path).Some? && At(b, c.path).Some? && !Agree(At(a, c.path).value, At(b, c.path).value)
  }

  lemma {:induction false} UnequalHereDisagree(num: Numeral, p: Path, a: Value, b: Value)
    requires Walkable(num, p, a) && Walkable(num, p, b) && !Equal(num, a, b) && !SameKind(a, b)
    ensures !Agree(a, b) && Changes(num, p, a, b) == {Change(p, Modify)}
  {
    EqualIsEqualityHere(num, p, a, b);
  }

  /** Below the root a step's field name may be anything; at the root it names a module. */
  lemma {:induction false} StepFitsKind(num: Numeral, p: Path, a: Value, b: Value, st: Step)
    requires Walkable(num, p, a) && Walkable(num, p, b) && SameKind(a, b) && Visits(a, b, st)
    ensures if a.Map? then st.Field? && (p.IsRoot() ==> st.k != "") else st.Entry?
  {
  }

  /** Each reported change names a path that is absent before, absent after, or present and
      different in both. */
  lemma {:induction false} ReportsAreTruthful(num: Numeral, rootA: Fields, rootB: Fields, p: Path, a: Value, b: Value, c: Change)
    requires Walkable(num, p, a) && Walkable(num, p, b)
    requires At(rootA, p) == Some(a) && At(rootB, p) == Some(b)
    requires c in Changes(num, p, a, b)
    ensures Truthful(rootA, rootB, c)
    decreases a
  {
    hide Sub, StepPath, Walkable, Plain, Placed, At, Equal, Agree;
    if SameKind(a, b) {
      var st := ChangeComesFromStep(num, p, a, b, c);
      StepFitsKind(num, p, a, b, st);
      StepPathReads(num, rootA, p, a, st);
      StepPathReads(num, rootB, p, b, st);
      if Sub(a, st).Some? { SubIsWalkable(num, p, a, st); }
      if Sub(b, st).Some? { SubIsWalkable(num, p, b, st); }
      if Sub(a, st).Some? && Sub(b, st).Some? {
        ReportsAreTruthful(num, rootA, rootB, StepPath(p, st), Sub(a, st).value, Sub(b, st).value, c);
      } else {
        MissingIsReported(num, StepPath(p, st), if Sub(a, st).Some? then Sub(a, st).value else Sub(b, st).value);
      }
    } else {
      assert !Equal(num, a, b);
      UnequalHereDisagree(num, p, a, b);
    }
  }

  // ---------------------------------------------------------------------------- coverage

  /** A way down a value, one field or entry at a time. */
  function Follow(v: Value, steps: seq<Step>): Option<Value>
    decreases |steps|
  {
    if steps == [] then Some(v)
    else match Sub(v, steps[0])
      case None => None
      case Some(w) => Follow(w, steps[1..])
  }

  function PathOf(p: Path, steps: seq<Step>): Path
    decreases |steps|
  {
    if steps == [] then p else PathOf(StepPath(p, steps[0]), steps[1..])
  }

  /** Some change is reported at one of the places the steps pass through. */
  ghost predicate ReportedOnTheWay(changes: set<Change>, p: Path, steps: seq<Step>) {
    exists i, c | 0 <= i <= |steps| && c in changes :: c.path == PathOf(p, steps[..i])
  }

  /** The steps lead to a leaf of one value that the other lacks or has differently. */
  predicate LeafDiffers(a: Value, b: Value, steps: seq<Step>) {
    var x, y := Follow(a, steps), Follow(b, steps);
    x != y && ((x.Some? && IsScalar(x.value)) || (y.Some? && IsScalar(y.value)))
  }

  lemma {:induction false} ReportedBelow(inner: set<Change>, outer: set<Change>, p: Path, steps: seq<Step>)
    requires steps != [] && inner <= outer && ReportedOnTheWay(inner, StepPath(p, steps[0]), steps[1..])
    ensures ReportedOnTheWay(outer, p, steps)
  {
    hide StepPath;
    var st, rest := steps[0], steps[1..];
    var i, c :| 0 <= i <= |rest| && c in inner && c.path == PathOf(StepPath(p, st), rest[..i]);
    assert steps[..i + 1][1..] == rest[..i];
    assert c.path == PathOf(p, steps[..i + 1]);
  }

  lemma {:induction false} ReportedHere(changes: set<Change>, p: Path, steps: seq<Step>, c: Change)
    requires c in changes && c.path == p
    ensures ReportedOnTheWay(changes, p, steps)
  {
    assert PathOf(p, steps[..0]) == p;
  }

  /** A leaf of either value that the other does not have, or has differently, is reported at or
      above its place. */
  lemma {:induction false} DifferingLeafIsReported(num: Numeral, p: Path, a: Value, b: Value, steps: seq<Step>)
    requires Walkable(num, p, a) && Walkable(num, p, b) && LeafDiffers(a, b, steps)
    ensures ReportedOnTheWay(Changes(num, p, a, b), p, steps)
    decreases |steps|
  {
    hide Sub, StepPath, Walkable, Plain, Placed, Equal, Changes, ReportedOnTheWay, PathOf;
    EqualIsEqualityHere(num, p, a, b);
    if !SameKind(a, b) {
      UnequalHereDisagree(num, p, a, b);
      ReportedHere(Changes(num, p, a, b), p, steps, Change(p, Modify));
    } else {
      var st := steps[0];
      var x, y, at := Sub(a, st), Sub(b, st), StepPath(p, st);
      StepChangesAreChanges(num, p, a, b, st);
      if x.Some? { SubIsWalkable(num, p, a, st); }
      if y.Some? { SubIsWalkable(num, p, b, st); }
      if x.Some? && y.Some? {
        DifferingLeafIsReported(num, at, x.value, y.value, steps[1..]);
      } else {
        MissingIsReported(num, at, if x.Some? then x.value else y.value);
        ReportedHere(StepChanges(num, p, a, b, st), at, steps[1..], Change(at, if x.Some? then Remove else Create));
      }
      ReportedBelow(StepChanges(num, p, a, b, st), Changes(num, p, a, b), p, steps);
    }
  }

  // ------------------------------------------------------------------------- whole trees

  lemma {:induction false} TreeIsWalkable(num: Numeral, root: Fields)
    requires PlainTree(num, root)
    ensures Walkable(num, ROOT, Map(root))
  {
  }

  /** Diff of two plain trees: empty exactly when they agree up to list order, truthful, and
      complete on leaves. */
  lemma {:induction false} DiffIsExact(num: Numeral, a: Fields, b: Fields)
    requires PlainTree(num, a) && PlainTree(num, b)
    ensures Diff(num, a, b) == {} <==> Agree(Map(a), Map(b))
    ensures forall c | c in Diff(num, a, b) :: Truthful(a, b, c)
    ensures forall steps | LeafDiffers(Map(a), Map(b), steps) :: ReportedOnTheWay(Diff(num, a, b), ROOT, steps)
  {
    hide LeafDiffers, Agree, Truthful, ReportedOnTheWay, Changes, PlainTree;
    TreeIsWalkable(num, a);
    TreeIsWalkable(num, b);
    NothingReportedIffAgree(num, ROOT, Map(a), Map(b));
    forall c | c in Diff(num, a, b) ensures Truthful(a, b, c) {
      ReportsAreTruthful(num, a, b, ROOT, Map(a), Map(b), c);
    }
    forall steps | LeafDiffers(Map(a), Map(b), steps) ensures ReportedOnTheWay(Diff(num, a, b), ROOT, steps) {
      DifferingLeafIsReported(num, ROOT, Map(a), Map(b), steps);
    }
  }

  // --------------------------------------------------------------------- leaf-lists

  predicate Scalars(items: seq<Value>) { forall i | 0 <= i < |items| :: IsScalar(items[i]) }

  predicate Prints(items: seq<Value>, t: string) { exists i | 0 <= i < |items| :: Stringify(items[i]) == t }

  /** The last item that prints as t. */
  function LastPrinting(items: seq<Value>, t: string): (r: Option<Value>)
    ensures r.Some? <==> Prints(items, t)
    ensures r.Some? ==> r.value in items && Stringify(r.value) == t
  {
    if items == [] then None
    else
      var n := |items| - 1;
      if Stringify(items[n]) == t then Some(items[n]) else LastPrinting(items[..n], t)
  }

  function OrNull(v: Option<Value>): Value { if v.Some? then v.value else Null }

  /** What the walk compares for one text: the last item of each list that prints so, or null. */
  ghost function TextChanges(num: Numeral, p: Path, xs: seq<Value>, ys: seq<Value>, t: string): set<Change> {
    One(num, p, OrNull(LastPrinting(xs, t)), OrNull(LastPrinting(ys, t)))
  }

  lemma {:induction false} ScalarIds(p: Path, items: seq<Value>)
    requires Scalars(items)
    ensures forall i | 0 <= i < |items| :: EntryIds(p, items)[i] == "#" + Stringify(items[i])
  {
  }

  lemma {:induction false} ScalarIdFinds(p: Path, items: seq<Value>, t: string)
    requires Scalars(items)
    ensures var r := LastWith(p, items, "#" + t);
      LastPrinting(items, t) == if r.Some? then Some(items[r.value]) else None
    decreases |items|
  {
    hide Stringify, EntryId;
    ScalarIds(p, items);
    if items != [] {
      var n := |items| - 1;
      assert EntryIds(p, items)[n] == "#" + t <==> Stringify(items[n]) == t by {
        assert ("#" + Stringify(items[n]))[1..] == Stringify(items[n]) && ("#" + t)[1..] == t;
      }
      assert EntryIds(p, items)[..n] == EntryIds(p, items[..n]);
      ScalarIdFinds(p, items[..n], t);
    }
  }

  /** What the walk reports for one text that either list prints. */
  lemma {:induction false} TextStep(num: Numeral, p: Path, xs: seq<Value>, ys: seq<Value>, t: string)
    requires Scalars(xs) && Scalars(ys) && (Prints(xs, t) || Prints(ys, t))
    ensures "#" + t in EntryIds(p, xs + ys)
    ensures EntryChanges(num, p, List(xs), List(ys), "#" + t) == TextChanges(num, p, xs, ys, t)
  {
    hide EntryIds, KeysOfFirst, LastWith, LastPrinting, Prints, Stringify, Equal, One, Changes;
    TextHasId(p, xs, ys, t);
    ScalarIdFinds(p, xs, t);
    ScalarIdFinds(p, ys, t);
    ScalarsHaveNoKeys(p, xs + ys, "#" + t);
    var x, y := LastPrinting(xs, t), LastPrinting(ys, t);
    if x.Some? { assert x.value in xs; }
    if y.Some? { assert y.value in ys; }
    if x.Some? && y.Some? { ScalarChanges(num, p, x.value, y.value); }
  }

  lemma {:induction false} ScalarsHaveNoKeys(p: Path, items: seq<Value>, id: string)
    requires Scalars(items) && id in EntryIds(p, items)
    ensures KeysOfFirst(p, items, id) == []
  {
    assert IsScalar(items[FirstIndex(EntryIds(p, items), id)]);
  }

  lemma {:induction false} ScalarChanges(num: Numeral, p: Path, x: Value, y: Value)
    requires IsScalar(x) && IsScalar(y)
    ensures Changes(num, p, x, y) == One(num, p, x, y)
  {
  }

  lemma {:induction false} TextHasId(p: Path, xs: seq<Value>, ys: seq<Value>, t: string)
    requires Scalars(xs) && Scalars(ys) && (Prints(xs, t) || Prints(ys, t))
    ensures Scalars(xs + ys) && "#" + t in EntryIds(p, xs + ys)
  {
    hide Stringify, EntryId;
    ScalarIds(p, xs + ys);
    var i :| 0 <= i < |xs + ys| && Stringify((xs + ys)[i]) == t by {
      if Prints(xs, t) {
        var i :| 0 <= i < |xs| && Stringify(xs[i]) == t;
        assert (xs + ys)[i] == xs[i];
      } else {
        var i :| 0 <= i < |ys| && Stringify(ys[i]) == t;
        assert (xs + ys)[|xs| + i] == ys[i];
      }
    }
    assert EntryIds(p, xs + ys)[i] == "#" + t;
  }

  lemma {:induction false} IdIsAText(p: Path, xs: seq<Value>, ys: seq<Value>, id: string) returns (t: string)
    requires Scalars(xs) && Scalars(ys) && id in EntryIds(p, xs + ys)
    ensures id == "#" + t && (Prints(xs, t) || Prints(ys, t))
  {
    hide Stringify, EntryId;
    ScalarIds(p, xs + ys);
    var i :| 0 <= i < |xs + ys| && EntryIds(p, xs + ys)[i] == id;
    t := Stringify((xs + ys)[i]);
    if i < |xs| { assert Stringify(xs[i]) == t; } else { assert Stringify(ys[i - |xs|]) == t; }
  }

  /** For any two lists of scalars that are not equal outright, Diff compares them text by text, the last
      item that prints so standing for it; every change is reported at the list's own path. */
  lemma {:induction false} LeafListChanges(num: Numeral, p: Path, xs: seq<Value>, ys: seq<Value>)
    requires Scalars(xs) && Scalars(ys)
    ensures forall c :: c in Changes(num, p, List(xs), List(ys)) <==>
      !Equal(num, List(xs), List(ys)) && exists t :: (Prints(xs, t) || Prints(ys, t)) && c in TextChanges(num, p, xs, ys, t)
  {
    hide EntryIds, EntryChanges, Equal, TextChanges, Prints, Scalars;
    forall c ensures c in Changes(num, p, List(xs), List(ys)) <==>
        !Equal(num, List(xs), List(ys)) && exists t :: (Prints(xs, t) || Prints(ys, t)) && c in TextChanges(num, p, xs, ys, t)
    {
      if c in Changes(num, p, List(xs), List(ys)) {
        var id :| id in EntryIds(p, xs + ys) && c in EntryChanges(num, p, List(xs), List(ys), id);
        var t := IdIsAText(p, xs, ys, id);
        TextStep(num, p, xs, ys, t);
      }
      if !Equal(num, List(xs), List(ys)) && exists t :: (Prints(xs, t) || Prints(ys, t)) && c in TextChanges(num, p, xs, ys, t) {
        var t :| (Prints(xs, t) || Prints(ys, t)) && c in TextChanges(num, p, xs, ys, t);
        TextStep(num, p, xs, ys, t);
      }
    }
  }

  /** Scalars that are neither null nor number-like. */
  predicate LeafItems(num: Numeral, items: seq<Value>) {
    forall i | 0 <= i < |items| :: IsScalar(items[i]) && !items[i].Null? && NumeralFree(num, items[i])
  }

  /** Some text is printed by the first list and not by the second. */
  ghost predicate SomeOnlyIn(xs: seq<Value>, ys: seq<Value>) { exists t :: Prints(xs, t) && !Prints(ys, t) }

  /** Some text stands for different items at the end. */
  ghost predicate SomeReplaced(xs: seq<Value>, ys: seq<Value>) {
    exists t :: Prints(xs, t) && Prints(ys, t) && LastPrinting(xs, t) != LastPrinting(ys, t)
  }

  lemma {:induction false} PlainTextChanges(num: Numeral, p: Path, xs: seq<Value>, ys: seq<Value>, t: string)
    requires LeafItems(num, xs) && LeafItems(num, ys) && (Prints(xs, t) || Prints(ys, t))
    ensures TextChanges(num, p, xs, ys, t) ==
      if LastPrinting(xs, t) == LastPrinting(ys, t) then {}
      else {Change(p, if !Prints(xs, t) then Create else if !Prints(ys, t) then Remove else Modify)}
  {
    hide Stringify, Equal;
    var x, y := LastPrinting(xs, t), LastPrinting(ys, t);
    if x.Some? { ItemIsPlain(num, xs, x.value); }
    if y.Some? { ItemIsPlain(num, ys, y.value); }
    EqualIsEquality(num, OrNull(x), OrNull(y));
  }

  lemma {:induction false} ItemIsPlain(num: Numeral, items: seq<Value>, v: Value)
    requires LeafItems(num, items) && v in items
    ensures !v.Null? && NumeralFree(num, v) && NullFieldFree(v)
  {
    var i :| 0 <= i < |items| && items[i] == v;
  }

  lemma {:induction false} PlainListsDecided(num: Numeral, xs: seq<Value>, ys: seq<Value>)
    requires LeafItems(num, xs) && LeafItems(num, ys)
    ensures Equal(num, List(xs), List(ys)) <==> xs == ys
    ensures Scalars(xs) && Scalars(ys)
  {
    assert NumeralFree(num, List(xs)) && NumeralFree(num, List(ys)) && NullFieldFree(List(xs));
    EqualIsEquality(num, List(xs), List(ys));
  }

  /** Without nulls and number-like texts: a create exactly when some text is new, a delete exactly when
      some text is gone, a replace exactly when a text that both print stands for different items, and
      nothing else; order and repetition do not show otherwise. */
  lemma {:induction false} PlainLeafListChanges(num: Numeral, p: Path, xs: seq<Value>, ys: seq<Value>)
    requires LeafItems(num, xs) && LeafItems(num, ys)
    ensures forall c :: c in Changes(num, p, List(xs), List(ys)) <==>
      && c.path == p
      && match c.kind { case Create => SomeOnlyIn(ys, xs) case Remove => SomeOnlyIn(xs, ys) case Modify => SomeReplaced(xs, ys) }
  {
    hide LeafItems, Changes, Equal, TextChanges, Prints, LastPrinting;
    PlainListsDecided(num, xs, ys);
    LeafListChanges(num, p, xs, ys);
    forall t | Prints(xs, t) || Prints(ys, t)
      ensures TextChanges(num, p, xs, ys, t) ==
        if LastPrinting(xs, t) == LastPrinting(ys, t) then {}
        else {Change(p, if !Prints(xs, t) then Create else if !Prints(ys, t) then Remove else Modify)}
      ensures LastPrinting(xs, t).Some? == Prints(xs, t) && LastPrinting(ys, t).Some? == Prints(ys, t)
    {
      PlainTextChanges(num, p, xs, ys, t);
    }
  }

  ghost predicate SameItems(xs: seq<Value>, ys: seq<Value>) { forall v :: v in xs <==> v in ys }

  lemma {:induction false} ScalarListsAgreeIff(xs: seq<Value>, ys: seq<Value>)
    requires Scalars(xs) && Scalars(ys)
    ensures Agree(List(xs), List(ys)) <==> SameItems(xs, ys)
  {
    if Agree(List(xs), List(ys)) {
      forall v ensures v in xs <==> v in ys {
        if v in xs {
          var i :| 0 <= i < |xs| && xs[i] == v;
          assert AgreesWithSome(List(xs).items[i], ys);
        }
        if v in ys {
          var j :| 0 <= j < |ys| && ys[j] == v;
          assert SomeAgrees(List(xs), List(ys).items[j]);
        }
      }
    }
    if SameItems(xs, ys) {
      forall i | 0 <= i < |xs| ensures AgreesWithSome(xs[i], ys) {
        assert xs[i] in ys;
        AgreeIsReflexive(xs[i]);
      }
      forall j | 0 <= j < |ys| ensures SomeAgrees(List(xs), ys[j]) {
        assert ys[j] in xs;
        AgreeIsReflexive(ys[j]);
      }
    }
  }

  /** Since the list's path is present before and after, what Diff says of it is true exactly when it
      reports no create and no delete, and a replace only if the lists hold different items. */
  lemma {:induction false} LeafListTruthfulIff(num: Numeral, rootA: Fields, rootB: Fields, p: Path, xs: seq<Value>, ys: seq<Value>)
    requires LeafItems(num, xs) && LeafItems(num, ys) && At(rootA, p) == Some(List(xs)) && At(rootB, p) == Some(List(ys))
    ensures (forall c | c in Changes(num, p, List(xs), List(ys)) :: Truthful(rootA, rootB, c)) <==>
      !SomeOnlyIn(xs, ys) && !SomeOnlyIn(ys, xs) && (SomeReplaced(xs, ys) ==> !SameItems(xs, ys))
  {
    hide LeafItems, Changes, SomeOnlyIn, SomeReplaced, SameItems, Agree;
    PlainListsDecided(num, xs, ys);
    ScalarListsAgreeIff(xs, ys);
    PlainLeafListChanges(num, p, xs, ys);
    var created, removed, modified := Change(p, Create), Change(p, Remove), Change(p, Modify);
    assert created in Changes(num, p, List(xs), List(ys)) <==> SomeOnlyIn(ys, xs);
    assert removed in Changes(num, p, List(xs), List(ys)) <==> SomeOnlyIn(xs, ys);
    assert modified in Changes(num, p, List(xs), List(ys)) <==> SomeReplaced(xs, ys);
    assert !Truthful(rootA, rootB, created) && !Truthful(rootA, rootB, removed);
    assert Truthful(rootA, rootB, modified) <==> !SameItems(xs, ys);
  }

  // ------------------------------------------------------ why plain trees are asked for

  /** Two texts that parse to one number compare as equal, so the change between them is lost. */
  lemma {:induction false} EqualNumeralsAreLost(num: Numeral)
    requires num.parse("1") == num.parse("1.0") == Some(Finite(1.0))
    ensures var a, b := map["m" := Str("1")], map["m" := Str("1.0")];
      Diff(num, a, b) == {} && !Agree(Map(a), Map(b))
  {
    var a, b := map["m" := Str("1")], map["m" := Str("1.0")];
    assert Equal(num, a["m"], b["m"]) && FieldOr(Map(b), "m") == b["m"];
    assert "1" != "1.0" by { assert |"1"| != |"1.0"|; }
    assert "m" in a && !Agree(a["m"], b["m"]);
  }

  /** A null field in the first tree hides a value that is new in the second. The comparison is not
      symmetric: seen from the other side the trees differ. */
  lemma {:induction false} NullHidesANewValue(num: Numeral)
    ensures var a, b := map["m" := Null], map["k" := Num(5)];
      Diff(num, a, b) == {} && Equal(num, Map(a), Map(b)) && !Equal(num, Map(b), Map(a)) && !Agree(Map(a), Map(b))
  {
    var a, b := map["m" := Null], map["k" := Num(5)];
    assert "m" != "k" by { assert "m"[0] != "k"[0]; }
    assert |a| == 1 && |b| == 1 && Equal(num, Null, FieldOr(Map(b), "m"));
    assert "k" in b && !Equal(num, Num(5), FieldOr(Map(a), "k"));
    assert "m" in a && "m" !in b;
  }

  /** Among trees without number-like texts, a first tree whose every change shows up in the comparison
      is exactly one without null fields; every other hides some change from Diff altogether. */
  lemma {:induction false} ChangesShowIff(num: Numeral, a: Fields)
    requires NumeralFree(num, Map(a))
    ensures (forall b | NumeralFree(num, Map(b)) && a != b :: !Equal(num, Map(a), Map(b))) <==> NullFieldFree(Map(a))
    ensures !NullFieldFree(Map(a)) ==> exists b :: NumeralFree(num, Map(b)) && a != b && Diff(num, a, b) == {}
  {
    hide NumeralFree, NullFieldFree, NanFree, Equal;
    if NullFieldFree(Map(a)) {
      forall b | NumeralFree(num, Map(b)) && a != b ensures !Equal(num, Map(a), Map(b)) { EqualIsEquality(num, Map(a), Map(b)); }
    } else {
      NumeralFreeIsNanFree(num, Map(a));
      var v := NullFieldHidesAValue(num, Map(a));
      assert v == Map(v.fields) && v.fields != a && Diff(num, a, v.fields) == {};
    }
  }

  /** A NaN text differs from itself, so a tree that holds one is reported as changed against itself. */
  lemma {:induction false} NanIsAlwaysReported(num: Numeral)
    requires num.parse("nan") == Some(NaN)
    ensures var a := map["m" := Str("nan")]; Diff(num, a, a) == {Change(Path("m", []), Modify)}
  {
    var a := map["m" := Str("nan")];
    var here := Change(Path("m", []), Modify);
    assert "m" in a && !Equal(num, a["m"], FieldOr(Map(a), "m"));
    assert ChildPath(ROOT, "m") == Path("m", []);
    assert FieldChanges(num, ROOT, Map(a), Map(a), "m") == {here};
    forall c ensures c in Diff(num, a, a) <==> c == here {
      assert forall k | k in a.Keys + a.Keys :: k == "m";
      assert "m" in a.Keys + a.Keys;
    }
  }
}
