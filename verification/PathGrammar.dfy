/** The grammar of instance paths, apart from the parser: which texts spell a path, and that the parser
    accepts exactly those (ParsePath in internal/yangtree/path.go). */
module PathGrammar {
  import opened Text
  import opened Paths

  // ------------------------------------------------------------------ the grammar

  /** A predicate value is written bare, or between single or double quotes. */
  datatype Style = Bare | Single | Double

  datatype SpelledKey = SpelledKey(key: Key, style: Style)

  datatype SpelledSegment = SpelledSegment(name: string, keys: seq<SpelledKey>)

  predicate LegalKey(k: SpelledKey) {
    var v := k.key.value;
    && IsIdent(k.key.name)
    && match k.style {
         case Bare => v != "" && ']' !in v && v[0] != '\'' && v[0] != '"'
         case Single => '\'' !in v
         case Double => '"' !in v
       }
  }

  predicate LegalSegment(seg: SpelledSegment) {
    IsIdent(seg.name) && forall i | 0 <= i < |seg.keys| :: LegalKey(seg.keys[i])
  }

  predicate LegalSegments(segs: seq<SpelledSegment>) { forall i | 0 <= i < |segs| :: LegalSegment(segs[i]) }

  function ValueText(k: SpelledKey): string {
    match k.style
    case Bare => k.key.value
    case Single => "'" + k.key.value + "'"
    case Double => "\"" + k.key.value + "\""
  }

  function KeyText(k: SpelledKey): string { "[" + k.key.name + "=" + ValueText(k) + "]" }

  function KeysText(ks: seq<SpelledKey>): string { if ks == [] then "" else KeyText(ks[0]) + KeysText(ks[1..]) }

  function SegmentText(seg: SpelledSegment): string { seg.name + KeysText(seg.keys) }

  function SegmentsText(segs: seq<SpelledSegment>): string {
    if segs == [] then ""
    else if |segs| == 1 then SegmentText(segs[0])
    else SegmentText(segs[0]) + ("/" + SegmentsText(segs[1..]))
  }

  function PlainKeys(ks: seq<SpelledKey>): seq<Key> { if ks == [] then [] else [ks[0].key] + PlainKeys(ks[1..]) }

  /** The path a spelling stands for. */
  function PlainSegments(segs: seq<SpelledSegment>): seq<Segment> {
    if segs == [] then [] else [Segment(segs[0].name, PlainKeys(segs[0].keys))] + PlainSegments(segs[1..])
  }

  predicate AllSpace(s: string) { forall i | 0 <= i < |s| :: IsSpace(s[i]) }

  /** The text spells the module and the steps of p. */
  ghost predicate Spells(text: string, p: Path) {
    exists segs: seq<SpelledSegment> ::
      IsIdent(p.modName) && LegalSegments(segs) && PlainSegments(segs) == p.segments && text == p.modName + ":" + SegmentsText(segs)
  }

  // ------------------------------------------------------- what is spelled is read

  lemma {:induction false} ReadValueBack(k: SpelledKey, t: string)
    requires LegalKey(k)
    ensures ReadKeyValue(ValueText(k) + "]" + t) == Parsed(k.key.value, "]" + t)
  {
    var v := k.key.value;
    var s := ValueText(k) + "]" + t;
    match k.style
    case Bare =>
      UntilConcat(v, ']', t);
      assert s[0] == v[0] && s[..|v|] == v && s[|v|..] == "]" + t;
    case Single =>
      assert s == "'" + v + "'" + ("]" + t);
      ReadQuotedBack(v, "]" + t);
    case Double =>
      assert s[1..] == v + ['"'] + ("]" + t);
      UntilConcat(v, '"', "]" + t);
      assert s[1..][..|v|] == v && s[|v| + 2..] == "]" + t;
  }

  lemma {:induction false} ReadKeysTextBack(ks: seq<SpelledKey>, t: string)
    requires (forall i | 0 <= i < |ks| :: LegalKey(ks[i])) && (t == "" || t[0] != '[')
    ensures ReadKeys(KeysText(ks) + t) == Parsed(PlainKeys(ks), t)
    decreases |ks|
  {
    hide ReadKey, ReadKeyValue, ValueText;
    if ks == [] {
      assert KeysText(ks) + t == t;
    } else {
      var k, u := ks[0], KeysText(ks[1..]) + t;
      ReadValueBack(k, u);
      ReadKeyAround(k.key.name, ValueText(k), k.key.value, u);
      ReadKeysTextBack(ks[1..], t);
      ReadKeysCons(KeyText(k), k.key, u, PlainKeys(ks[1..]), t);
      assert KeysText(ks) + t == KeyText(k) + u;
    }
  }

  lemma {:induction false} ReadSegmentTextBack(seg: SpelledSegment, t: string)
    requires LegalSegment(seg) && (t == "" || t[0] == '/')
    ensures ReadSegment(SegmentText(seg) + t) == Parsed(Segment(seg.name, PlainKeys(seg.keys)), t)
  {
    var u := KeysText(seg.keys) + t;
    assert SegmentText(seg) + t == seg.name + u;
    if seg.keys != [] { assert u[0] == '['; }
    ReadIdentBack(seg.name, u);
    ReadKeysTextBack(seg.keys, t);
  }

  lemma {:induction false} ReadSegmentsTextBack(segs: seq<SpelledSegment>)
    requires segs != [] && LegalSegments(segs)
    ensures SegmentsText(segs) != "" && ReadSegments(SegmentsText(segs)) == Parsed(PlainSegments(segs), "")
    decreases |segs|
  {
    hide ReadSegment, KeysText;
    var seg := Segment(segs[0].name, PlainKeys(segs[0].keys));
    assert LegalSegment(segs[0]);
    if |segs| == 1 {
      ReadSegmentTextBack(segs[0], "");
      assert SegmentText(segs[0]) + "" == SegmentsText(segs) && segs[1..] == [] && PlainSegments(segs) == [seg];
    } else {
      var u := SegmentsText(segs[1..]);
      ReadSegmentsTextBack(segs[1..]);
      ReadSegmentTextBack(segs[0], "/" + u);
      ReadSegmentsCons(SegmentText(segs[0]), seg, u, PlainSegments(segs[1..]));
    }
  }

  // ----------------------------------------------------------- what is read is spelled

  lemma {:induction false} ReadValueIsText(s: string) returns (style: Style)
    requires ReadKeyValue(s).Parsed?
    ensures var r := ReadKeyValue(s);
      forall name | IsIdent(name) ::
        var k := SpelledKey(Key(name, r.value), style);
        (r.rest != "" && r.rest[0] == ']' ==> LegalKey(k) && s == ValueText(k) + r.rest)
  {
    var r := ReadKeyValue(s);
    if s[0] == '\'' || s[0] == '"' {
      style := if s[0] == '\'' then Single else Double;
      var n := Until(s[1..], s[0]);
      assert r.value == s[1..][..n] && s == [s[0]] + r.value + [s[0]] + r.rest;
    } else {
      style := Bare;
      var n := Until(s, ']');
      assert r.value == s[..n] && s == r.value + r.rest;
    }
  }

  lemma {:induction false} ReadKeyIsText(s: string) returns (k: SpelledKey)
    requires ReadKey(s).Parsed?
    ensures LegalKey(k) && k.key == ReadKey(s).value && s == KeyText(k) + ReadKey(s).rest
  {
    hide ReadKeyValue, ReadIdent, IsIdent, LegalKey, ValueText;
    var name := ReadIdent(s[1..]);
    var val := ReadKeyValue(name.rest[1..]);
    var style := ReadValueIsText(name.rest[1..]);
    k := SpelledKey(Key(name.value, val.value), style);
    assert val.rest != "" && val.rest[0] == ']';
    assert IsIdent(name.value) && s[1..] == name.value + name.rest;
    assert name.rest == "=" + name.rest[1..] && val.rest == "]" + val.rest[1..];
    assert name.rest[1..] == ValueText(k) + val.rest;
    assert s == "[" + name.value + "=" + ValueText(k) + "]" + val.rest[1..];
  }

  lemma {:induction false} ReadKeysIsText(s: string) returns (ks: seq<SpelledKey>)
    requires ReadKeys(s).Parsed?
    ensures (forall i | 0 <= i < |ks| :: LegalKey(ks[i])) && PlainKeys(ks) == ReadKeys(s).value
    ensures s == KeysText(ks) + ReadKeys(s).rest
    decreases |s|
  {
    hide ReadKey, LegalKey, KeyText;
    if s == "" || s[0] != '[' {
      ks := [];
    } else {
      var k := ReadKeyIsText(s);
      ReadKeyShrinks(s);
      var more := ReadKeysIsText(ReadKey(s).rest);
      ks := [k] + more;
      assert ks[1..] == more;
      assert s == KeyText(k) + (KeysText(more) + ReadKeys(s).rest);
    }
  }

  lemma {:induction false} ReadKeyShrinks(s: string)
    ensures ReadKey(s).Parsed? ==> |ReadKey(s).rest| < |s|
  {
  }

  lemma {:induction false} ReadSegmentIsText(s: string) returns (seg: SpelledSegment)
    requires ReadSegment(s).Parsed?
    ensures LegalSegment(seg) && ReadSegment(s).value == Segment(seg.name, PlainKeys(seg.keys))
    ensures s == SegmentText(seg) + ReadSegment(s).rest
  {
    hide ReadKeys;
    var name := ReadIdent(s);
    var ks := ReadKeysIsText(name.rest);
    seg := SpelledSegment(name.value, ks);
    assert s == name.value + (KeysText(ks) + ReadSegment(s).rest);
  }

  lemma {:induction false} ReadSegmentsIsText(s: string) returns (segs: seq<SpelledSegment>)
    requires ReadSegments(s).Parsed?
    ensures segs != [] && LegalSegments(segs) && PlainSegments(segs) == ReadSegments(s).value && s == SegmentsText(segs)
    decreases |s|
  {
    hide ReadSegment, SegmentText, LegalSegment;
    var seg := ReadSegmentIsText(s);
    var rest := ReadSegment(s).rest;
    if rest == "" {
      segs := [seg];
      assert s == SegmentText(seg) + "" && segs[1..] == [];
    } else {
      ReadSegmentShrinks(s);
      var more := ReadSegmentsIsText(rest[1..]);
      segs := [seg] + more;
      assert segs[1..] == more && rest == "/" + rest[1..];
    }
  }

  lemma {:induction false} ReadSegmentShrinks(s: string)
    ensures ReadSegment(s).Parsed? ==> |ReadSegment(s).rest| < |s|
  {
  }

  // ---------------------------------------------------------------------- white space

  function Trim(s: string): string { TrimRight(TrimLeft(s)) }

  predicate Visible(s: string) { s == "" || (!IsSpace(s[0]) && !IsSpace(s[|s| - 1])) }

  lemma {:induction false} TrimLeftSplits(s: string) returns (left: string)
    ensures AllSpace(left) && s == left + TrimLeft(s) && (TrimLeft(s) != "" ==> !IsSpace(TrimLeft(s)[0]))
    decreases |s|
  {
    if s != "" && IsSpace(s[0]) {
      left := TrimLeftSplits(s[1..]);
      left := [s[0]] + left;
    } else {
      left := "";
    }
  }

  lemma {:induction false} TrimRightSplits(s: string) returns (right: string)
    ensures AllSpace(right) && s == TrimRight(s) + right && (TrimRight(s) != "" ==> !IsSpace(TrimRight(s)[|TrimRight(s)| - 1]))
    decreases |s|
  {
    if s != "" && IsSpace(s[|s| - 1]) {
      right := TrimRightSplits(s[..|s| - 1]);
      right := right + [s[|s| - 1]];
    } else {
      right := "";
    }
  }

  lemma {:induction false} TrimLeftOf(left: string, core: string)
    requires AllSpace(left) && (core == "" || !IsSpace(core[0]))
    ensures TrimLeft(left + core) == core
    decreases |left|
  {
    if left == "" {
      assert left + core == core;
    } else {
      assert (left + core)[1..] == left[1..] + core;
      TrimLeftOf(left[1..], core);
    }
  }

  lemma {:induction false} TrimRightOf(core: string, right: string)
    requires AllSpace(right) && (core == "" || !IsSpace(core[|core| - 1]))
    ensures TrimRight(core + right) == core
    decreases |right|
  {
    if right == "" {
      assert core + right == core;
    } else {
      var n := |right| - 1;
      assert (core + right)[..|core| + n] == core + right[..n];
      TrimRightOf(core, right[..n]);
    }
  }

  /** Trimming takes exactly the white space at both ends. */
  lemma {:induction false} TrimIs(text: string, core: string)
    requires Visible(core)
    ensures Trim(text) == core <==> exists left, right :: AllSpace(left) && AllSpace(right) && text == left + core + right
  {
    if Trim(text) == core {
      var left := TrimLeftSplits(text);
      var right := TrimRightSplits(TrimLeft(text));
      assert text == left + core + right;
    }
    if left, right :| AllSpace(left) && AllSpace(right) && text == left + core + right {
      if core == "" {
        assert text == (left + right) + "";
        TrimLeftOf(left + right, "");
      } else {
        assert text == left + (core + right);
        TrimLeftOf(left, core + right);
        TrimRightOf(core, right);
      }
    }
  }

  lemma {:induction false} KeysEndVisibly(ks: seq<SpelledKey>)
    requires ks != []
    ensures KeysText(ks) != "" && KeysText(ks)[|KeysText(ks)| - 1] == ']'
    decreases |ks|
  {
    if |ks| > 1 { KeysEndVisibly(ks[1..]); }
  }

  lemma {:induction false} SegmentsEndVisibly(segs: seq<SpelledSegment>)
    requires segs != [] && LegalSegments(segs)
    ensures SegmentsText(segs) != "" && !IsSpace(SegmentsText(segs)[|SegmentsText(segs)| - 1])
    decreases |segs|
  {
    assert LegalSegment(segs[0]);
    if |segs| > 1 {
      SegmentsEndVisibly(segs[1..]);
    } else if segs[0].keys != [] {
      KeysEndVisibly(segs[0].keys);
    }
  }

  // -------------------------------------------------------------------- the parser

  lemma {:induction false} SpelledIsVisible(name: string, segs: seq<SpelledSegment>)
    requires IsIdent(name) && LegalSegments(segs)
    ensures Visible(name + ":" + SegmentsText(segs))
  {
    hide LegalSegments;
    var core := name + ":" + SegmentsText(segs);
    assert core[0] == name[0];
    if segs == [] {
      assert core[|core| - 1] == ':';
    } else {
      SegmentsEndVisibly(segs);
      assert core[|core| - 1] == SegmentsText(segs)[|SegmentsText(segs)| - 1];
    }
  }

  lemma {:induction false} SpelledIsRead(text: string, p: Path)
    requires Spells(Trim(text), p)
    ensures Parse(text) == Some(p)
  {
    hide ReadSegments, LegalSegments, SegmentsText, TrimLeft, TrimRight, IsIdent;
    var segs: seq<SpelledSegment> :|
      IsIdent(p.modName) && LegalSegments(segs) && PlainSegments(segs) == p.segments && Trim(text) == p.modName + ":" + SegmentsText(segs);
    PrintSplitsAtColon(p.modName, SegmentsText(segs));
    NamedIsNotBlank(p.modName);
    if segs == [] {
      NoText(segs);
    } else {
      ReadSegmentsTextBack(segs);
    }
  }

  lemma {:induction false} NamedIsNotBlank(name: string)
    requires IsIdent(name)
    ensures name != ""
  {
  }

  lemma {:induction false} NoText(segs: seq<SpelledSegment>)
    requires segs == []
    ensures SegmentsText(segs) == "" && PlainSegments(segs) == []
  {
  }

  lemma {:induction false} SpellsVisibly(core: string, p: Path)
    requires Spells(core, p)
    ensures Visible(core)
  {
    var segs: seq<SpelledSegment> :|
      IsIdent(p.modName) && LegalSegments(segs) && PlainSegments(segs) == p.segments && core == p.modName + ":" + SegmentsText(segs);
    SpelledIsVisible(p.modName, segs);
  }

  lemma {:induction false} ReadIsSpelled(text: string)
    requires Parse(text).Some? && Trim(text) != ""
    ensures Spells(Trim(text), Parse(text).value)
  {
    hide ReadSegments;
    var s, p := Trim(text), Parse(text).value;
    var colon := Until(s, ':');
    assert s == s[..colon] + ":" + s[colon + 1..];
    var segs: seq<SpelledSegment> := [];
    if colon + 1 < |s| { segs := ReadSegmentsIsText(s[colon + 1..]); }
    assert LegalSegments(segs) && PlainSegments(segs) == p.segments && s == p.modName + ":" + SegmentsText(segs);
  }

  /** The parser reads a path from a text exactly when the text, between white space, spells it, or is
      blank and the path is the root; every other text is refused. */
  lemma {:induction false} ParseIff(text: string, p: Path)
    ensures Parse(text) == Some(p) <==>
      exists core ::
        && (Spells(core, p) || (core == "" && p == ROOT))
        && exists left, right :: AllSpace(left) && AllSpace(right) && text == left + core + right
  {
    hide Parse, Spells;
    if Parse(text) == Some(p) {
      var core := Trim(text);
      if core == "" {
        BlankIsRoot(text);
      } else {
        ReadIsSpelled(text);
        SpellsVisibly(core, p);
      }
      TrimIs(text, core);
      assert Spells(core, p) || (core == "" && p == ROOT);
    }
    if core :|
      && (Spells(core, p) || (core == "" && p == ROOT))
      && exists left, right :: AllSpace(left) && AllSpace(right) && text == left + core + right
    {
      if Spells(core, p) { SpellsVisibly(core, p); }
      TrimIs(text, core);
      if Spells(core, p) { SpelledIsRead(text, p); } else { BlankIsRoot(text); }
    }
  }

  lemma {:induction false} BlankIsRoot(text: string)
    requires Trim(text) == ""
    ensures Parse(text) == Some(ROOT)
  {
  }
}
