/** Which paths a schema knows: the schema strings of well-formed paths tell places apart, and a path is
    known exactly when it is declared or lies above a declared one (newSchema and known in
    internal/yangtree/schema.go). */
module SchemaLaws {
  import opened Text
  import opened Paths
  import opened Values
  import opened Schemas

  predicate AllIdents(names: seq<string>) { forall i | 0 <= i < |names| :: IsIdent(names[i]) }

  predicate CleanPlace(at: Place) { IsIdent(at.modName) && AllIdents(at.names) }

  lemma {:induction false} IdentIsPlain(name: string)
    requires IsIdent(name)
    ensures '/' !in name && ':' !in name
  {
  }

  // ------------------------------------------------------------- schema strings

  lemma {:induction false} JoinFront(names: seq<string>)
    requires |names| > 1
    ensures Join(names) == names[0] + "/" + Join(names[1..])
  {
    var n := |names| - 1;
    if n == 1 {
      assert names[..1] == [names[0]] && names[1..] == [names[1]];
    } else {
      JoinFront(names[..n]);
      assert names[..n][1..] == names[1..][..n - 1];
    }
  }

  /** A name ends at its first slash or colon. */
  lemma {:induction false} HeadIs(x: string, y: string, sep: char, s: string, t: string)
    requires sep !in x && sep !in y && x + [sep] + s <= y + [sep] + t
    ensures x == y && s <= t
  {
    var u, v := x + [sep] + s, y + [sep] + t;
    assert u[|x|] == sep && v[|y|] == sep;
    assert forall i | 0 <= i < |x| :: u[i] == x[i];
    assert forall i | 0 <= i < |y| :: v[i] == y[i];
    assert |x| == |y| by { assert u[|x|] == v[|x|] && (|y| < |u| ==> u[|y|] == v[|y|]); }
    assert x == u[..|x|] == v[..|x|] == y;
    assert s == u[|x| + 1..] && t == v[|x| + 1..];
    assert u == v[..|u|];
    assert s == t[..|s|];
  }

  lemma {:induction false} OneNameHasNoSlash(names: seq<string>)
    requires AllIdents(names) && |names| <= 1
    ensures '/' !in Join(names)
  {
    if names != [] { IdentIsPlain(names[0]); }
  }

  lemma {:induction false} ManyHaveASlash(names: seq<string>)
    requires |names| > 1
    ensures '/' in Join(names)
  {
    JoinFront(names);
    assert Join(names)[|names[0]|] == '/';
  }

  /** The schema string of a place is followed by a slash exactly in those of the places below it. */
  lemma {:induction false} JoinedBelow(a: seq<string>, b: seq<string>)
    requires AllIdents(a) && AllIdents(b) && a != [] && HasPrefix(Join(b), Join(a) + "/")
    ensures |a| < |b| && a == b[..|a|]
    decreases |a|
  {
    hide IsIdent;
    var rest := if |a| == 1 then "" else Join(a[1..]) + "/";
    assert Join(a) + "/" == a[0] + ['/'] + rest by { if |a| > 1 { JoinFront(a); } }
    assert '/' in Join(b) by { assert Join(b)[|Join(a)|] == (Join(a) + "/")[|Join(a)|] == '/'; }
    if |b| <= 1 {
      OneNameHasNoSlash(b);
    } else {
      JoinFront(b);
      IdentIsPlain(a[0]);
      IdentIsPlain(b[0]);
      HeadIs(a[0], b[0], '/', rest, Join(b[1..]));
      if |a| > 1 { JoinedBelow(a[1..], b[1..]); }
      assert a == [a[0]] + a[1..];
    }
  }

  lemma {:induction false} JoinIsInjective(a: seq<string>, b: seq<string>)
    requires AllIdents(a) && AllIdents(b) && Join(a) == Join(b)
    ensures a == b
  {
    hide IsIdent;
    if a == [] || b == [] {
      EmptyJoin(a);
      EmptyJoin(b);
    } else if |a| == 1 && |b| == 1 {
    } else if |a| <= 1 || |b| <= 1 {
      var one, many := if |a| <= 1 then a else b, if |a| <= 1 then b else a;
      ManyHaveASlash(many);
      OneNameHasNoSlash(one);
    } else {
      JoinFront(a);
      JoinFront(b);
      IdentIsPlain(a[0]);
      IdentIsPlain(b[0]);
      HeadIs(a[0], b[0], '/', Join(a[1..]), Join(b[1..]));
      HeadIs(b[0], a[0], '/', Join(b[1..]), Join(a[1..]));
      JoinIsInjective(a[1..], b[1..]);
      assert a == [a[0]] + a[1..] && b == [b[0]] + b[1..];
    }
  }

  lemma {:induction false} EmptyJoin(names: seq<string>)
    requires AllIdents(names)
    ensures Join(names) == "" <==> names == []
  {
    if |names| > 1 { JoinFront(names); }
  }

  /** Different places of well-formed paths have different schema strings. */
  lemma {:induction false} SchemaKeyIsInjective(a: Place, b: Place)
    requires CleanPlace(a) && CleanPlace(b) && SchemaKey(a) == SchemaKey(b)
    ensures a == b
  {
    IdentIsPlain(a.modName);
    IdentIsPlain(b.modName);
    HeadIs(a.modName, b.modName, ':', Join(a.names), Join(b.names));
    HeadIs(b.modName, a.modName, ':', Join(b.names), Join(a.names));
    JoinIsInjective(a.names, b.names);
  }

  // ------------------------------------------------------------ building a schema

  /** One line of a compact schema. */
  datatype Leaf = Leaf(path: string, entry: Entry)

  /** The schema string a leaf is filed under. A blank or malformed path has none. */
  function KeyOfLeaf(l: Leaf): Option<string> {
    match Parse(l.path)
    case None => None
    case Some(p) => if p.IsRoot() then None else Some(SchemaKey(PlaceOf(p)))
  }

  /** Every path is well-formed and not blank, and no two name the same place. */
  predicate GoodLeaves(leaves: seq<Leaf>) {
    && (forall i | 0 <= i < |leaves| :: KeyOfLeaf(leaves[i]).Some?)
    && (forall i, j | 0 <= i < j < |leaves| :: KeyOfLeaf(leaves[i]) != KeyOfLeaf(leaves[j]))
  }

  /** Each leaf is found under its schema string, and nothing else is there. */
  ghost predicate Filed(leaves: seq<Leaf>, byPath: map<string, Entry>) {
    && (forall i | 0 <= i < |leaves| && KeyOfLeaf(leaves[i]).Some? ::
          KeyOfLeaf(leaves[i]).value in byPath && byPath[KeyOfLeaf(leaves[i]).value] == leaves[i].entry)
    && (forall key | key in byPath :: exists i | 0 <= i < |leaves| :: KeyOfLeaf(leaves[i]) == Some(key))
  }

  lemma {:induction false} FileNext(leaves: seq<Leaf>, n: nat, byPath: map<string, Entry>, key: string)
    requires n < |leaves| && GoodLeaves(leaves[..n]) && Filed(leaves[..n], byPath) && KeyOfLeaf(leaves[n]) == Some(key)
    ensures key in byPath ==> !GoodLeaves(leaves)
    ensures key !in byPath ==> GoodLeaves(leaves[..n + 1]) && Filed(leaves[..n + 1], byPath[key := leaves[n].entry])
  {
    hide KeyOfLeaf;
    var before, after := leaves[..n], leaves[..n + 1];
    if key in byPath {
      var i :| 0 <= i < n && KeyOfLeaf(before[i]) == Some(key);
      assert KeyOfLeaf(leaves[i]) == KeyOfLeaf(leaves[n]);
    } else {
      assert forall i | 0 <= i < n :: after[i] == before[i];
      assert after[n] == leaves[n];
      var filed := byPath[key := leaves[n].entry];
      forall k | k in filed ensures exists i | 0 <= i < |after| :: KeyOfLeaf(after[i]) == Some(k) {
        if k == key {
          assert KeyOfLeaf(after[n]) == Some(k);
        } else {
          var i :| 0 <= i < n && KeyOfLeaf(before[i]) == Some(k);
          assert KeyOfLeaf(after[i]) == Some(k);
        }
      }
    }
  }

  /** newSchema: the loop files every leaf, and refuses blank, malformed and repeated paths. */
  method NewSchema(leaves: seq<Leaf>) returns (r: Option<map<string, Entry>>)
    ensures r.Some? <==> GoodLeaves(leaves)
    ensures r.Some? ==> Filed(leaves, r.value)
  {
    hide Parse, SchemaKey, Filed;
    var byPath: map<string, Entry> := map[];
    var n := 0;
    assert Filed(leaves[..0], byPath) by { NothingFiled(leaves[..0]); }
    while n < |leaves|
      invariant 0 <= n <= |leaves| && GoodLeaves(leaves[..n]) && Filed(leaves[..n], byPath)
    {
      var p := ParsePath(leaves[n].path);
      if p.None? || p.value.IsRoot() {
        assert KeyOfLeaf(leaves[n]).None?;
        return None;
      }
      var key := SchemaKey(PlaceOf(p.value));
      FileNext(leaves, n, byPath, key);
      if key in byPath { return None; }
      byPath := byPath[key := leaves[n].entry];
      n := n + 1;
    }
    assert leaves[..n] == leaves;
    return Some(byPath);
  }

  lemma {:induction false} NothingFiled(none: seq<Leaf>)
    requires none == []
    ensures Filed(none, map[])
  {
  }

  /** A schema built from leaves: every schema string in it is that of a well-formed path. */
  ghost predicate FromLeaves(s: Schema) {
    forall key | key in s.byPath :: exists q: Path :: WellFormed(q) && !q.IsRoot() && key == SchemaKey(PlaceOf(q))
  }

  lemma {:induction false} BuiltIsFromLeaves(leaves: seq<Leaf>, s: Schema)
    requires Filed(leaves, s.byPath)
    ensures FromLeaves(s)
  {
    forall key | key in s.byPath ensures exists q: Path :: WellFormed(q) && !q.IsRoot() && key == SchemaKey(PlaceOf(q)) {
      var i :| 0 <= i < |leaves| && KeyOfLeaf(leaves[i]) == Some(key);
      var q := Parse(leaves[i].path).value;
      assert WellFormed(q) && !q.IsRoot() && key == SchemaKey(PlaceOf(q));
    }
  }

  // ------------------------------------------------------------------ known paths

  /** The path q lies at or below the path p, predicates aside. */
  predicate AtOrBelow(p: Path, q: Path) { p.modName == q.modName && StripKeys(p.segments) <= StripKeys(q.segments) }

  predicate IsDeclared(s: Schema, q: Path) { WellFormed(q) && !q.IsRoot() && SchemaKey(PlaceOf(q)) in s.byPath }

  lemma {:induction false} PathIsClean(q: Path)
    requires WellFormed(q) && !q.IsRoot()
    ensures CleanPlace(PlaceOf(q)) && SchemaKey(PlaceOf(q)) == q.modName + ":" + Join(StripKeys(q.segments))
  {
    forall i | 0 <= i < |q.segments| ensures IsIdent(StripKeys(q.segments)[i]) { assert WellFormedSegment(q.segments[i]); }
  }

  /** A schema string that continues p's with a slash, or p's module string, is that of a path at or
      below p; and the other way round. */
  lemma {:induction false} ExtendsIff(p: Path, q: Path)
    requires WellFormed(p) && WellFormed(q) && !p.IsRoot() && !q.IsRoot()
    ensures var a, b := SchemaKey(PlaceOf(p)), SchemaKey(PlaceOf(q));
      AtOrBelow(p, q) <==> a == b || HasPrefix(b, a + "/") || (p.segments == [] && HasPrefix(b, a))
  {
    var x, y := StripKeys(p.segments), StripKeys(q.segments);
    PathIsClean(p);
    PathIsClean(q);
    hide WellFormed, SchemaKey, Join, IsIdent;
    if AtOrBelow(p, q) {
      BelowExtends(p.modName, x, y);
    } else {
      NotBelow(p.modName, x, q.modName, y);
    }
  }

  lemma {:induction false} NotBelow(m: string, x: seq<string>, m': string, y: seq<string>)
    requires IsIdent(m) && IsIdent(m') && AllIdents(x) && AllIdents(y) && (m != m' || !(x <= y))
    ensures var a, b := m + ":" + Join(x), m' + ":" + Join(y);
      a != b && !HasPrefix(b, a + "/") && !(x == [] && HasPrefix(b, a))
  {
    var a, b := m + ":" + Join(x), m' + ":" + Join(y);
    IdentIsPlain(m);
    IdentIsPlain(m');
    hide IsIdent, Join;
    assert a + "/" == m + [':'] + (Join(x) + "/");
    assert HasPrefix(b, a + "/") ==> HasPrefix(b, a) by { assert a <= a + "/"; }
    if HasPrefix(b, a) {
      HeadIs(m, m', ':', Join(x), Join(y));
      if a == b { JoinIsInjective(x, y); }
      if HasPrefix(b, a + "/") {
        HeadIs(m, m', ':', Join(x) + "/", Join(y));
        if x != [] { JoinedBelow(x, y); }
      }
    }
  }

  lemma {:induction false} BelowExtends(m: string, x: seq<string>, y: seq<string>)
    requires x <= y
    ensures var a, b := m + ":" + Join(x), m + ":" + Join(y);
      a == b || HasPrefix(b, a + "/") || (x == [] && HasPrefix(b, a))
  {
    if x != [] && |x| < |y| {
      JoinExtends(x, y);
      assert m + ":" + Join(x) + "/" == m + ":" + (Join(x) + "/");
    } else if |x| == |y| {
      assert x == y;
    }
  }

  lemma {:induction false} JoinExtends(x: seq<string>, y: seq<string>)
    requires x != [] && x <= y && |x| < |y|
    ensures HasPrefix(Join(y), Join(x) + "/")
    decreases |y|
  {
    var front := y[..|y| - 1];
    if |x| < |front| { JoinExtends(x, front); } else { assert front == x; }
  }

  /** The paths an edit may name: the root, and exactly the paths at or above a declared path. */
  lemma {:induction false} KnownIff(s: Schema, p: Path)
    requires FromLeaves(s) && WellFormed(p)
    ensures Known(s, p) <==> p.IsRoot() || exists q: Path :: IsDeclared(s, q) && AtOrBelow(p, q)
  {
    hide SchemaKey, WellFormed, AtOrBelow;
    if !p.IsRoot() {
      var a := SchemaKey(PlaceOf(p));
      if Known(s, p) {
        var key :| key in s.byPath && (key == a || HasPrefix(key, a + "/") || (p.segments == [] && HasPrefix(key, a)));
        var q: Path :| WellFormed(q) && !q.IsRoot() && key == SchemaKey(PlaceOf(q));
        ExtendsIff(p, q);
        assert IsDeclared(s, q) && AtOrBelow(p, q);
      }
      if q: Path :| IsDeclared(s, q) && AtOrBelow(p, q) {
        ExtendsIff(p, q);
        assert SchemaKey(PlaceOf(q)) in s.byPath;
      }
    }
  }
}
