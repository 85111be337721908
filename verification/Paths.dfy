/** Instance paths: the grammar module:container/list[k=v]/leaf, its parser and its
    printer (internal/yangtree/path.go). */
module Paths {
  import opened Text

  /** One list predicate [name=value]. */
  datatype Key = Key(name: string, value: string)

  /** One path step, with its list predicates. */
  datatype Segment = Segment(name: string, keys: seq<Key>)

  datatype Path = Path(modName: string, segments: seq<Segment>) {
    predicate IsRoot() { modName == "" && segments == [] }
  }

  const ROOT := Path("", [])

  datatype Parsed<+T> = Parsed(value: T, rest: string) | Malformed {
    predicate IsFailure() { Malformed? }
    function PropagateFailure<U>(): Parsed<U> requires Malformed? { Malformed }
    function Extract(): (T, string) requires Parsed? { (value, rest) }
  }

  // ------------------------------------------------------------- identifiers

  predicate IsLetter(c: char) { 'a' <= c <= 'z' || 'A' <= c <= 'Z' }

  predicate IdentStart(c: char) { IsLetter(c) || c == '_' }

  predicate IdentPart(c: char) { IsLetter(c) || IsDigit(c) || c == '_' || c == '-' || c == '.' }

  predicate IsIdent(s: string) {
    s != "" && IdentStart(s[0]) && forall i | 0 <= i < |s| :: IdentPart(s[i])
  }

  predicate WellFormedSegment(seg: Segment) {
    IsIdent(seg.name) && forall i | 0 <= i < |seg.keys| :: IsIdent(seg.keys[i].name)
  }

  predicate WellFormed(p: Path) {
    p.IsRoot() || (IsIdent(p.modName) && forall i | 0 <= i < |p.segments| :: WellFormedSegment(p.segments[i]))
  }

  // ----------------------------------------------------------------- printer

  predicate IsSpecial(c: char) {
    c == '/' || c == '[' || c == ']' || c == '\'' || c == '"' || c == ' ' || c == '\t'
  }

  predicate NeedsQuotes(v: string) {
    v == "" || exists i | 0 <= i < |v| :: IsSpecial(v[i])
  }

  function WithoutQuotes(v: string): (r: string)
    ensures '\'' !in r
    ensures '\'' !in v ==> r == v
    ensures forall c | c != '\'' :: c in v <==> c in r
  {
    if v == "" then ""
    else
      assert v == [v[0]] + v[1..];
      if v[0] == '\'' then WithoutQuotes(v[1..])
      else [v[0]] + WithoutQuotes(v[1..])
  }

  function QuoteKeyValue(v: string): string {
    if NeedsQuotes(v) then "'" + WithoutQuotes(v) + "'" else v
  }

  function PrintKey(k: Key): string {
    "[" + k.name + "=" + QuoteKeyValue(k.value) + "]"
  }

  function PrintKeys(ks: seq<Key>): string {
    if ks == [] then "" else PrintKey(ks[0]) + PrintKeys(ks[1..])
  }

  function PrintSegments(segs: seq<Segment>): string {
    if segs == [] then ""
    else segs[0].name + PrintKeys(segs[0].keys) + (if |segs| == 1 then "" else "/" + PrintSegments(segs[1..]))
  }

  /** Path.String. */
  function Print(p: Path): string {
    if p.IsRoot() then "" else p.modName + ":" + PrintSegments(p.segments)
  }

  // ------------------------------------------------------------------ parser

  predicate IsSpace(c: char) { c == ' ' || '\t' <= c <= '\r' }

  function TrimLeft(s: string): string {
    if s != "" && IsSpace(s[0]) then TrimLeft(s[1..]) else s
  }

  function TrimRight(s: string): string {
    if s != "" && IsSpace(s[|s| - 1]) then TrimRight(s[..|s| - 1]) else s
  }

  /** The number of leading characters that satisfy stop's negation. */
  function Until(s: string, stop: char): (n: nat)
    ensures n <= |s| && (forall i | 0 <= i < n :: s[i] != stop) && (n < |s| ==> s[n] == stop)
  {
    if s == "" || s[0] == stop then 0 else 1 + Until(s[1..], stop)
  }

  function IdentRun(s: string): (n: nat)
    ensures n <= |s| && (forall i | 0 <= i < n :: IdentPart(s[i])) && (n < |s| ==> !IdentPart(s[n]))
  {
    if s == "" || !IdentPart(s[0]) then 0 else 1 + IdentRun(s[1..])
  }

  function ReadIdent(s: string): (r: Parsed<string>)
    ensures r.Parsed? ==> IsIdent(r.value) && r.value + r.rest == s
  {
    if s == "" || !IdentStart(s[0]) then Malformed
    else Parsed(s[..IdentRun(s)], s[IdentRun(s)..])
  }

  function ReadKeyValue(s: string): (r: Parsed<string>)
    ensures r.Parsed? ==> |r.rest| < |s|
  {
    if s == "" then Malformed
    else if s[0] == '\'' || s[0] == '"' then
      var n := Until(s[1..], s[0]);
      if n == |s| - 1 then Malformed else Parsed(s[1..][..n], s[n + 2..])
    else
      var n := Until(s, ']');
      if n == 0 then Malformed else Parsed(s[..n], s[n..])
  }

  function ReadKey(s: string): (r: Parsed<Key>)
    ensures r.Parsed? ==> |r.rest| < |s| && IsIdent(r.value.name)
  {
    if s == "" || s[0] != '[' then Malformed
    else
      var (name, s1) :- ReadIdent(s[1..]);
      if s1 == "" || s1[0] != '=' then Malformed
      else
        var (val, s2) :- ReadKeyValue(s1[1..]);
        if s2 == "" || s2[0] != ']' then Malformed
        else Parsed(Key(name, val), s2[1..])
  }

  function ReadKeys(s: string): (r: Parsed<seq<Key>>)
    ensures r.Parsed? ==> |r.rest| <= |s| && forall i | 0 <= i < |r.value| :: IsIdent(r.value[i].name)
  {
    if s == "" || s[0] != '[' then Parsed([], s)
    else
      var (k, s1) :- ReadKey(s);
      var (ks, s2) :- ReadKeys(s1);
      Parsed([k] + ks, s2)
  }

  function ReadSegment(s: string): (r: Parsed<Segment>)
    ensures r.Parsed? ==> |r.rest| < |s| && WellFormedSegment(r.value)
  {
    var (name, s1) :- ReadIdent(s);
    var (ks, s2) :- ReadKeys(s1);
    Parsed(Segment(name, ks), s2)
  }

  /** One or more segments separated by '/', to the end of the string. */
  function ReadSegments(s: string): (r: Parsed<seq<Segment>>)
    ensures r.Parsed? ==> r.rest == "" && forall i | 0 <= i < |r.value| :: WellFormedSegment(r.value[i])
    decreases |s|
  {
    var (seg, s1) :- ReadSegment(s);
    if s1 == "" then Parsed([seg], "")
    else if s1[0] != '/' || |s1| == 1 then Malformed
    else
      var (segs, s2) :- ReadSegments(s1[1..]);
      Parsed([seg] + segs, "")
  }

  /** ParsePath, with every validation error folded into None. */
  function Parse(text: string): (r: Option<Path>)
    ensures r.Some? ==> WellFormed(r.value)
  {
    var s := TrimRight(TrimLeft(text));
    var colon := Until(s, ':');
    if s == "" then Some(ROOT)
    else if colon == 0 || colon == |s| || !IsIdent(s[..colon]) then None
    else if colon + 1 == |s| then Some(Path(s[..colon], []))
    else
      match ReadSegments(s[colon + 1..])
      case Malformed => None
      case Parsed(segs, _) => Some(Path(s[..colon], segs))
  }

  // -------------------------------------------------------------- round trip

  /** What printing loses: single quotes inside predicate values. */
  function DequoteKeys(ks: seq<Key>): seq<Key> {
    if ks == [] then [] else [Key(ks[0].name, WithoutQuotes(ks[0].value))] + DequoteKeys(ks[1..])
  }

  function DequoteSegments(segs: seq<Segment>): seq<Segment> {
    if segs == [] then [] else [Segment(segs[0].name, DequoteKeys(segs[0].keys))] + DequoteSegments(segs[1..])
  }

  function Dequote(p: Path): Path { Path(p.modName, DequoteSegments(p.segments)) }

  predicate QuoteFreeSegment(seg: Segment) {
    forall i | 0 <= i < |seg.keys| :: '\'' !in seg.keys[i].value
  }

  predicate QuoteFree(p: Path) {
    forall i | 0 <= i < |p.segments| :: QuoteFreeSegment(p.segments[i])
  }

  predicate StopsIdent(t: string) { t == "" || !IdentPart(t[0]) }

  lemma {:induction false} UntilConcat(a: string, c: char, t: string)
    requires c !in a
    ensures Until(a + [c] + t, c) == |a|
  {
    var s := a + [c] + t;
    var n := Until(s, c);
    assert s[|a|] == c && forall i | 0 <= i < |a| :: s[i] == a[i];
  }

  lemma {:induction false} ReadIdentBack(name: string, t: string)
    requires IsIdent(name) && StopsIdent(t)
    ensures ReadIdent(name + t) == Parsed(name, t)
  {
    var s := name + t;
    var n := IdentRun(s);
    assert forall i | 0 <= i < |name| :: s[i] == name[i];
    assert t != "" ==> s[|name|] == t[0];
    assert s[..|name|] == name && s[|name|..] == t;
  }

  lemma {:induction false} ReadQuotedBack(w: string, t: string)
    requires '\'' !in w
    ensures ReadKeyValue("'" + w + "'" + t) == Parsed(w, t)
  {
    var s := "'" + w + "'" + t;
    assert s[1..] == w + ['\''] + t;
    UntilConcat(w, '\'', t);
    assert s[1..][..|w|] == w && s[|w| + 2..] == t;
  }

  lemma {:induction false} ReadBareBack(v: string, t: string)
    requires !NeedsQuotes(v)
    ensures ReadKeyValue(v + "]" + t) == Parsed(v, "]" + t)
  {
    var s := v + "]" + t;
    assert !IsSpecial(v[0]) && s[0] == v[0];
    assert ']' !in v by { assert forall i | 0 <= i < |v| :: !IsSpecial(v[i]); }
    UntilConcat(v, ']', t);
    assert s[..|v|] == v && s[|v|..] == "]" + t;
  }

  lemma {:induction false} ReadKeyValueBack(v: string, t: string)
    ensures ReadKeyValue(QuoteKeyValue(v) + "]" + t) == Parsed(WithoutQuotes(v), "]" + t)
  {
    if NeedsQuotes(v) {
      ReadQuotedBack(WithoutQuotes(v), "]" + t);
      assert QuoteKeyValue(v) + "]" + t == "'" + WithoutQuotes(v) + "'" + ("]" + t);
    } else {
      ReadBareBack(v, t);
      assert '\'' !in v by { assert forall i | 0 <= i < |v| :: !IsSpecial(v[i]); }
    }
  }

  lemma {:induction false} ReadKeyAround(name: string, q: string, w: string, t: string)
    requires IsIdent(name)
    requires ReadKeyValue(q + "]" + t) == Parsed(w, "]" + t)
    ensures ReadKey("[" + name + "=" + q + "]" + t) == Parsed(Key(name, w), t)
  {
    hide ReadKeyValue, ReadIdent, IsIdent;
    var u := q + "]" + t;
    var s := "[" + name + "=" + q + "]" + t;
    assert s[1..] == name + ("=" + u);
    ReadIdentBack(name, "=" + u);
    assert ("=" + u)[1..] == u && ("]" + t)[1..] == t;
  }

  lemma {:induction false} ReadKeyBack(k: Key, t: string)
    requires IsIdent(k.name)
    ensures ReadKey(PrintKey(k) + t) == Parsed(Key(k.name, WithoutQuotes(k.value)), t)
  {
    ReadKeyValueBack(k.value, t);
    ReadKeyAround(k.name, QuoteKeyValue(k.value), WithoutQuotes(k.value), t);
  }

  lemma {:induction false} ReadKeysBack(ks: seq<Key>, t: string)
    requires forall i | 0 <= i < |ks| :: IsIdent(ks[i].name)
    requires t == "" || t[0] != '['
    ensures ReadKeys(PrintKeys(ks) + t) == Parsed(DequoteKeys(ks), t)
  {
    hide ReadKey, PrintKey, WithoutQuotes;
    if ks == [] {
      assert PrintKeys(ks) + t == t;
    } else {
      var u := PrintKeys(ks[1..]) + t;
      var k := Key(ks[0].name, WithoutQuotes(ks[0].value));
      ReadKeyBack(ks[0], u);
      ReadKeysBack(ks[1..], t);
      ReadKeysCons(PrintKey(ks[0]), k, u, DequoteKeys(ks[1..]), t);
      assert PrintKeys(ks) + t == PrintKey(ks[0]) + u;
    }
  }

  lemma {:induction false} ReadKeysCons(text: string, k: Key, u: string, ks: seq<Key>, t: string)
    requires ReadKey(text + u) == Parsed(k, u) && ReadKeys(u) == Parsed(ks, t)
    ensures ReadKeys(text + u) == Parsed([k] + ks, t)
  {
  }

  lemma {:induction false} ReadSegmentBack(seg: Segment, t: string)
    requires WellFormedSegment(seg)
    requires t == "" || t[0] == '/'
    ensures ReadSegment(seg.name + PrintKeys(seg.keys) + t) == Parsed(Segment(seg.name, DequoteKeys(seg.keys)), t)
  {
    var u := PrintKeys(seg.keys) + t;
    assert seg.name + PrintKeys(seg.keys) + t == seg.name + u;
    if seg.keys != [] { assert u[0] == '['; }
    ReadIdentBack(seg.name, u);
    ReadKeysBack(seg.keys, t);
  }

  lemma {:induction false} ReadSegmentsCons(text: string, seg: Segment, u: string, segs: seq<Segment>)
    requires u != "" && ReadSegment(text + ("/" + u)) == Parsed(seg, "/" + u)
    requires ReadSegments(u) == Parsed(segs, "")
    ensures ReadSegments(text + ("/" + u)) == Parsed([seg] + segs, "")
  {
    assert ("/" + u)[1..] == u;
  }

  lemma {:induction false} ReadSegmentsBack(segs: seq<Segment>)
    requires segs != []
    requires forall i | 0 <= i < |segs| :: WellFormedSegment(segs[i])
    ensures PrintSegments(segs) != ""
    ensures ReadSegments(PrintSegments(segs)) == Parsed(DequoteSegments(segs), "")
  {
    var text := segs[0].name + PrintKeys(segs[0].keys);
    var seg := Segment(segs[0].name, DequoteKeys(segs[0].keys));
    if |segs| == 1 {
      ReadSegmentBack(segs[0], "");
      assert text + "" == PrintSegments(segs) && segs[1..] == [] && DequoteSegments(segs) == [seg];
    } else {
      var u := PrintSegments(segs[1..]);
      ReadSegmentsBack(segs[1..]);
      ReadSegmentBack(segs[0], "/" + u);
      ReadSegmentsCons(text, seg, u, DequoteSegments(segs[1..]));
    }
  }

  lemma {:induction false} PrintEndsVisibly(segs: seq<Segment>)
    requires segs != []
    requires forall i | 0 <= i < |segs| :: WellFormedSegment(segs[i])
    ensures PrintSegments(segs) != "" && !IsSpace(PrintSegments(segs)[|PrintSegments(segs)| - 1])
  {
    if |segs| == 1 {
      PrintKeysEndsVisibly(segs[0].keys);
    } else {
      PrintEndsVisibly(segs[1..]);
    }
  }

  lemma {:induction false} PrintKeysEndsVisibly(ks: seq<Key>)
    ensures ks != [] ==> PrintKeys(ks) != "" && PrintKeys(ks)[|PrintKeys(ks)| - 1] == ']'
  {
    if |ks| > 1 { PrintKeysEndsVisibly(ks[1..]); }
  }

  /** Printing a well-formed path and parsing the text gives the path back, with the single
      quotes of its predicate values removed. */
  lemma {:induction false} ParsePrint(p: Path)
    requires WellFormed(p)
    ensures Parse(Print(p)) == Some(Dequote(p))
  {
    var body := PrintSegments(p.segments);
    if p.segments != [] { ReadSegmentsBack(p.segments); }
    if !p.IsRoot() {
      PrintIsTrimmed(p);
      PrintSplitsAtColon(p.modName, body);
    }
  }

  lemma {:induction false} PrintIsTrimmed(p: Path)
    requires WellFormed(p) && !p.IsRoot()
    ensures TrimRight(TrimLeft(Print(p))) == Print(p)
  {
    var s := Print(p);
    assert s[0] == p.modName[0];
    if p.segments != [] { PrintEndsVisibly(p.segments); }
  }

  lemma {:induction false} PrintSplitsAtColon(name: string, body: string)
    requires IsIdent(name)
    ensures var s := name + ":" + body;
      Until(s, ':') == |name| && s[..|name|] == name && s[|name| + 1..] == body
  {
    UntilConcat(name, ':', body);
  }

  lemma {:induction false} DequoteKeysIsIdentity(ks: seq<Key>)
    requires forall i | 0 <= i < |ks| :: '\'' !in ks[i].value
    ensures DequoteKeys(ks) == ks
  {
    if ks != [] { DequoteKeysIsIdentity(ks[1..]); }
  }

  lemma {:induction false} DequoteIsIdentity(segs: seq<Segment>)
    requires forall i | 0 <= i < |segs| :: QuoteFreeSegment(segs[i])
    ensures DequoteSegments(segs) == segs
  {
    if segs != [] {
      assert QuoteFreeSegment(segs[0]);
      DequoteKeysIsIdentity(segs[0].keys);
      DequoteIsIdentity(segs[1..]);
    }
  }

  /** Distinct well-formed quote-free paths print differently. */
  lemma {:induction false} PrintIsInjective(p: Path, q: Path)
    requires WellFormed(p) && WellFormed(q) && QuoteFree(p) && QuoteFree(q)
    requires Print(p) == Print(q)
    ensures p == q
  {
    ParsePrint(p);
    ParsePrint(q);
    DequoteIsIdentity(p.segments);
    DequoteIsIdentity(q.segments);
  }

  // ------------------------------------------------------- the source's loops

  /** readIdentAt. */
  method ReadIdentAt(s: string, i: nat) returns (ok: bool, name: string, n: nat)
    requires i <= |s|
    ensures ok ==> i < n <= |s|
    ensures ReadIdent(s[i..]) == if ok then Parsed(name, s[n..]) else Malformed
  {
    if i >= |s| || !IdentStart(s[i]) { return false, "", i; }
    var j := i;
    while j < |s| && IdentPart(s[j])
      invariant i <= j <= |s|
      invariant IdentRun(s[i..]) == j - i + IdentRun(s[j..])
    {
      assert s[j..][1..] == s[j + 1..];
      j := j + 1;
    }
    assert s[i..][..j - i] == s[i..j] && s[i..][j - i..] == s[j..];
    return true, s[i..j], j;
  }

  /** The scan to a delimiter in readKeyValueAt. */
  method ScanTo(s: string, i: nat, stop: char) returns (j: nat)
    requires i <= |s|
    ensures i <= j <= |s| && j == i + Until(s[i..], stop)
  {
    j := i;
    while j < |s| && s[j] != stop
      invariant i <= j <= |s|
      invariant Until(s[i..], stop) == j - i + Until(s[j..], stop)
    {
      assert s[j..][1..] == s[j + 1..];
      j := j + 1;
    }
  }

  /** readKeyValueAt. */
  method ReadKeyValueAt(s: string, i: nat) returns (ok: bool, val: string, n: nat)
    requires i <= |s|
    ensures ok ==> i < n <= |s|
    ensures ReadKeyValue(s[i..]) == if ok then Parsed(val, s[n..]) else Malformed
  {
    if i >= |s| { return false, "", i; }
    if s[i] == '\'' || s[i] == '"' {
      assert s[i..][1..] == s[i + 1..];
      var j := ScanTo(s, i + 1, s[i]);
      if j >= |s| { return false, "", i; }
      assert s[i + 1..][..j - i - 1] == s[i + 1..j] && s[i..][j - i + 1..] == s[j + 1..];
      return true, s[i + 1..j], j + 1;
    }
    var j := ScanTo(s, i, ']');
    if j == i { return false, "", i; }
    assert s[i..][..j - i] == s[i..j] && s[i..][j - i..] == s[j..];
    return true, s[i..j], j;
  }

  /** readKeyAt. */
  method ReadKeyAt(s: string, i: nat) returns (ok: bool, k: Key, n: nat)
    requires i <= |s|
    ensures ok ==> i < n <= |s|
    ensures ReadKey(s[i..]) == if ok then Parsed(k, s[n..]) else Malformed
  {
    hide ReadIdent, ReadKeyValue;
    k, n := Key("", ""), i;
    if i >= |s| || s[i] != '[' { return false, k, n; }
    assert s[i..][1..] == s[i + 1..];
    var okName, name, j := ReadIdentAt(s, i + 1);
    if !okName || j >= |s| || s[j] != '=' { return false, k, n; }
    assert s[j..][1..] == s[j + 1..];
    var okVal, val, e := ReadKeyValueAt(s, j + 1);
    if !okVal || e >= |s| || s[e] != ']' { return false, k, n; }
    assert s[e..][1..] == s[e + 1..];
    return true, Key(name, val), e + 1;
  }

  function Prepend<T>(xs: seq<T>, r: Parsed<seq<T>>): Parsed<seq<T>> {
    if r.Malformed? then Malformed else Parsed(xs + r.value, r.rest)
  }

  /** One turn of ParsePath's segment loop. */
  method ReadSegmentAt(s: string, i: nat) returns (ok: bool, seg: Segment, n: nat)
    requires i <= |s|
    ensures ok ==> i < n <= |s|
    ensures ReadSegment(s[i..]) == if ok then Parsed(seg, s[n..]) else Malformed
  {
    hide ReadIdent, ReadKey;
    var okName, name, j := ReadIdentAt(s, i);
    seg, n := Segment(name, []), j;
    if !okName { return false, seg, n; }
    ghost var start := j;
    assert forall ks: seq<Key> :: [] + ks == ks;
    while n < |s| && s[n] == '['
      invariant i < n <= |s| && start <= |s|
      invariant seg.name == name
      invariant ReadKeys(s[start..]) == Prepend(seg.keys, ReadKeys(s[n..]))
    {
      var okKey, k, m := ReadKeyAt(s, n);
      if !okKey { return false, seg, n; }
      var before := seg.keys;
      seg, n := seg.(keys := seg.keys + [k]), m;
      assert forall ks: seq<Key> :: before + ([k] + ks) == seg.keys + ks;
    }
    assert seg.keys + [] == seg.keys;
    return true, seg, n;
  }

  /** ParsePath. */
  method ParsePath(text: string) returns (r: Option<Path>)
    ensures r == Parse(text)
  {
    hide ReadSegment, TrimLeft, TrimRight, Until, IsIdent, WellFormedSegment;
    var s := TrimRight(TrimLeft(text));
    if s == "" { return Some(ROOT); }
    var colon := ScanTo(s, 0, ':');
    assert s[0..] == s;
    if colon == 0 || colon == |s| || !IsIdent(s[..colon]) { return None; }
    var rest := s[colon + 1..];
    if rest == "" { return Some(Path(s[..colon], [])); }
    var i, segs := 0, [];
    assert rest[0..] == rest;
    assert forall ks: seq<Segment> :: [] + ks == ks;
    while i < |rest|
      invariant i < |rest|
      invariant ReadSegments(rest) == Prepend(segs, ReadSegments(rest[i..]))
    {
      var ok, seg, n := ReadSegmentAt(rest, i);
      if !ok { return None; }
      var before := segs;
      segs := segs + [seg];
      if n == |rest| { return Some(Path(s[..colon], segs)); }
      if rest[n] != '/' { return None; }
      i := n + 1;
      if i == |rest| { return None; }
      assert rest[n..][1..] == rest[i..];
      assert forall ks: seq<Segment> :: before + ([seg] + ks) == segs + ks;
    }
    assert false;
  }

  /** The predicate loop of Path.String. */
  method WriteKeys(b0: string, keys: seq<Key>) returns (b: string)
    ensures b == b0 + PrintKeys(keys)
  {
    hide QuoteKeyValue;
    b := b0;
    var j := 0;
    while j < |keys|
      invariant 0 <= j <= |keys|
      invariant b0 + PrintKeys(keys) == b + PrintKeys(keys[j..])
    {
      ghost var t := PrintKeys(keys[j + 1..]);
      assert keys[j..][1..] == keys[j + 1..];
      assert b + (PrintKey(keys[j]) + t) == b + PrintKey(keys[j]) + t;
      b := b + ("[" + keys[j].name + "=" + QuoteKeyValue(keys[j].value) + "]");
      j := j + 1;
    }
  }

  /** Path.String. */
  method PathString(p: Path) returns (b: string)
    ensures b == Print(p)
  {
    hide PrintKeys;
    if p.IsRoot() { return ""; }
    b := p.modName + ":";
    var i := 0;
    while i < |p.segments|
      invariant 0 <= i <= |p.segments|
      invariant Print(p) == b + Remaining(p.segments, i)
    {
      ghost var done, rest := b, Remaining(p.segments, i + 1);
      assert p.segments[i..][1..] == p.segments[i + 1..];
      if i > 0 { b := b + "/"; }
      b := b + p.segments[i].name;
      b := WriteKeys(b, p.segments[i].keys);
      assert b + rest == done + Remaining(p.segments, i);
      i := i + 1;
    }
  }

  function Remaining(segs: seq<Segment>, i: nat): string
    requires i <= |segs|
  {
    (if 0 < i < |segs| then "/" else "") + PrintSegments(segs[i..])
  }
}
