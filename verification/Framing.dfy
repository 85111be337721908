/** NETCONF message framing: the end-of-message delimiter of section 4.3 of RFC 6242 and the
    chunks of section 4.2 (internal/ncframing). */
module Framing {
  import opened Text

  /** A byte, written as the character of its code. */
  type Byte = c: char | c as int < 256

  type Bytes = seq<Byte>

  datatype Error = Eof | UnexpectedEof | InvalidFrame | TooLarge | EomInMessage | EmptyMessage | UnsupportedVersion

  datatype Read = Got(msg: Bytes, rest: Bytes) | Failed(error: Error)

  const EOM: Bytes := "]]>]]>"

  const MAX_MESSAGE_SIZE: nat := 0x100_0000

  // --------------------------------------------------------- end-of-message framing

  predicate EomAt(s: Bytes, i: int) { 0 <= i && i + 6 <= |s| && s[i..i + 6] == EOM }

  /** Where the first delimiter starts. */
  function FirstEom(s: Bytes): (r: Option<nat>)
    ensures r.Some? ==> EomAt(s, r.value) && forall i | 0 <= i < r.value :: !EomAt(s, i)
    ensures r.None? ==> forall i :: !EomAt(s, i)
  {
    FirstEomFrom(s, 0)
  }

  function FirstEomFrom(s: Bytes, i: nat): (r: Option<nat>)
    requires i <= |s|
    ensures r.Some? ==> i <= r.value && EomAt(s, r.value) && forall j | i <= j < r.value :: !EomAt(s, j)
    ensures r.None? ==> forall j | i <= j :: !EomAt(s, j)
    decreases |s| - i
  {
    if i + 6 > |s| then None
    else if EomAt(s, i) then Some(i)
    else FirstEomFrom(s, i + 1)
  }

  /** What read10 must return on a stream. */
  function Read10(s: Bytes, max: nat): Read {
    var e := FirstEom(s);
    if e.Some? && e.value <= max then Got(s[..e.value], s[e.value + 6..])
    else if |s| >= max + 7 then Failed(TooLarge)
    else if s == [] then Failed(Eof)
    else Failed(UnexpectedEof)
  }

  /** Write1_0. */
  function Frame10(msg: Bytes): Option<Bytes> {
    if FirstEom(msg).Some? || |msg| > MAX_MESSAGE_SIZE then None else Some(msg + EOM)
  }

  predicate EndsInHalf(msg: Bytes) { |msg| >= 3 && msg[|msg| - 3..] == EOM[..3] }

  /** The delimiter overlaps itself only by its second half. */
  lemma {:induction false} EomOverlap(msg: Bytes, rest: Bytes, i: nat)
    requires i < |msg| < i + 6 && EomAt(msg + EOM + rest, i)
    ensures i == |msg| - 3 && EndsInHalf(msg)
  {
    var s := msg + EOM + rest;
    var d := |msg| - i;
    forall k | 0 <= k < 6 ensures s[i + k] == EOM[k] && s[|msg| + k] == EOM[k] { assert s[i..i + 6][k] == s[i + k]; }
    assert EOM[d] == s[|msg| + 0] == EOM[0];
    if d < 5 { assert EOM[d + 1] == s[|msg| + 1] == EOM[1]; }
    assert d == 3;
    assert msg[i..] == EOM[..3] by {
      assert msg[i + 0] == s[i + 0] && msg[i + 1] == s[i + 1] && msg[i + 2] == s[i + 2];
    }
  }

  lemma {:induction false} EomInside(msg: Bytes, tail: Bytes, i: nat)
    requires i + 6 <= |msg|
    ensures EomAt(msg + tail, i) <==> EomAt(msg, i)
  {
    assert (msg + tail)[i..i + 6] == msg[i..i + 6];
  }

  /** The first delimiter of a written message is its own exactly when the message neither contains
      one nor ends in the delimiter's first half. */
  lemma {:induction false} FirstEomIsOwn(msg: Bytes, rest: Bytes)
    ensures FirstEom(msg + EOM + rest) == Some(|msg|) <==> FirstEom(msg).None? && !EndsInHalf(msg)
  {
    var s := msg + EOM + rest;
    assert s[|msg|..|msg| + 6] == EOM;
    assert EomAt(s, |msg|);
    assert s == msg + (EOM + rest);
    forall i | 0 <= i && i + 6 <= |msg| ensures EomAt(s, i) <==> EomAt(msg, i) { EomInside(msg, EOM + rest, i); }
    if FirstEom(msg).None? && !EndsInHalf(msg) {
      forall i | 0 <= i < |msg| ensures !EomAt(s, i) {
        if EomAt(s, i) && |msg| < i + 6 { EomOverlap(msg, rest, i); }
      }
    }
    if EndsInHalf(msg) {
      var i := |msg| - 3;
      assert s[i..i + 6] == msg[i..] + EOM[..3];
      assert EomAt(s, i);
    }
  }

  /** Writing then reading gives the message back, and leaves what followed it, exactly when it
      neither contains the delimiter nor ends in "]]>". */
  lemma {:induction false} RoundTrip10(msg: Bytes, rest: Bytes)
    requires Frame10(msg).Some?
    ensures Read10(Frame10(msg).value + rest, MAX_MESSAGE_SIZE) == Got(msg, rest) <==> !EndsInHalf(msg)
  {
    var s := msg + EOM + rest;
    FirstEomIsOwn(msg, rest);
    var e := FirstEom(s);
    assert EomAt(s, |msg|) by { assert s[|msg|..|msg| + 6] == EOM; }
    assert e.Some? && e.value <= |msg|;
    assert s[..|msg|] == msg && s[|msg| + 6..] == rest;
  }

  /** A message that was read is accepted by the writer and rewritten as the bytes consumed. */
  lemma {:induction false} ReadIsRewritten10(s: Bytes)
    requires Read10(s, MAX_MESSAGE_SIZE).Got?
    ensures var r := Read10(s, MAX_MESSAGE_SIZE);
      Frame10(r.msg).Some? && Frame10(r.msg).value + r.rest == s
  {
    var e := FirstEom(s).value;
    var msg := s[..e];
    assert msg + s[e..] == s;
    forall i ensures !EomAt(msg, i) {
      if EomAt(msg, i) { EomInside(msg, s[e..], i); }
    }
    assert s == msg + EOM + s[e + 6..] by { assert s == s[..e] + s[e..e + 6] + s[e + 6..]; }
  }

  // ------------------------------------------------------------------------ chunks

  /** One chunk: its size as written, and its data. */
  datatype Chunk = Chunk(digits: Bytes, data: Bytes)

  predicate ValidChunk(c: Chunk) {
    && 1 <= |c.digits| <= 10 && AllDigits(c.digits) && c.digits[0] != '0'
    && NumeralValue(c.digits) == |c.data|
  }

  function EncodeChunk(c: Chunk): Bytes { "\n#" + c.digits + "\n" + c.data }

  function EncodeChunks(cs: seq<Chunk>): Bytes {
    if cs == [] then [] else EncodeChunk(cs[0]) + EncodeChunks(cs[1..])
  }

  const END: Bytes := "\n##\n"

  /** The grammar of section 4.2: one or more chunks, then the end marker. */
  function EncodeMessage(cs: seq<Chunk>): Bytes { EncodeChunks(cs) + END }

  function Data(cs: seq<Chunk>): Bytes {
    if cs == [] then [] else cs[0].data + Data(cs[1..])
  }

  predicate ValidChunks(cs: seq<Chunk>) { forall i | 0 <= i < |cs| :: ValidChunk(cs[i]) }

  datatype Size = Size(value: nat, rest: Bytes) | NoSize(error: Error)

  /** The digit loop of read11, after its first digit. */
  function ScanSize(s: Bytes, size: nat, digits: nat, max: nat): (r: Size)
    ensures r.Size? ==> |r.rest| < |s|
  {
    if s == [] then NoSize(UnexpectedEof)
    else if s[0] == '\n' then Size(size, s[1..])
    else if !IsDigit(s[0]) || digits + 1 > 10 then NoSize(InvalidFrame)
    else if size * 10 + DigitValue(s[0]) > max then NoSize(TooLarge)
    else ScanSize(s[1..], size * 10 + DigitValue(s[0]), digits + 1, max)
  }

  datatype Mark = EndMark | FirstDigit(d: Byte) | BadMark(error: Error)

  /** The start of a chunk or the end marker. */
  function ScanMark(s: Bytes, chunks: nat): (r: Mark)
    ensures r.EndMark? ==> |s| >= 4
    ensures r.FirstDigit? ==> |s| >= 3 && '1' <= r.d <= '9' && r.d == s[2]
  {
    if s == [] then BadMark(if chunks == 0 then Eof else UnexpectedEof)
    else if s[0] != '\n' then BadMark(InvalidFrame)
    else if |s| == 1 then BadMark(UnexpectedEof)
    else if s[1] != '#' then BadMark(InvalidFrame)
    else if |s| == 2 then BadMark(UnexpectedEof)
    else if s[2] == '#' then
      if |s| == 3 then BadMark(UnexpectedEof)
      else if s[3] != '\n' || chunks == 0 then BadMark(InvalidFrame)
      else EndMark
    else if '1' <= s[2] <= '9' then FirstDigit(s[2])
    else BadMark(InvalidFrame)
  }

  /** What read11 must return, given what it has collected. */
  function Read11(s: Bytes, msg: Bytes, chunks: nat, max: nat): (r: Read)
    ensures r.Got? ==> |r.rest| < |s|
    decreases |s|
  {
    match ScanMark(s, chunks)
    case BadMark(e) => Failed(e)
    case EndMark => Got(msg, s[4..])
    case FirstDigit(d) =>
      match ScanSize(s[3..], DigitValue(d), 1, max)
      case NoSize(e) => Failed(e)
      case Size(n, rest) =>
        if |msg| + n > max then Failed(TooLarge)
        else if |rest| < n then Failed(UnexpectedEof)
        else Read11(rest[n..], msg + rest[..n], chunks + 1, max)
  }

  lemma {:induction false} NumeralConcat(a: Bytes, b: Bytes)
    requires AllDigits(a) && AllDigits(b) && b != []
    ensures AllDigits(a + b)
    ensures NumeralValue(a + b) == NumeralValue(a + b[..|b| - 1]) * 10 + DigitValue(b[|b| - 1])
  {
    assert (a + b)[..|a + b| - 1] == a + b[..|b| - 1];
  }

  /** A prefix of a numeral denotes no more than the whole. */
  lemma {:induction false} NumeralGrows(a: Bytes, b: Bytes)
    requires AllDigits(a) && AllDigits(b)
    ensures AllDigits(a + b) && NumeralValue(a) <= NumeralValue(a + b)
    decreases |b|
  {
    if b == [] {
      assert a + b == a;
    } else {
      NumeralGrows(a, b[..|b| - 1]);
      NumeralConcat(a, b);
    }
  }

  lemma {:induction false} NumeralSnoc(a: Bytes, d: Byte)
    requires AllDigits(a) && IsDigit(d)
    ensures AllDigits(a + [d]) && NumeralValue(a + [d]) == NumeralValue(a) * 10 + DigitValue(d)
  {
    assert (a + [d])[..|a|] == a;
  }

  /** Scanning succeeds exactly on digits up to a newline that keep within ten digits and the limit. */
  lemma {:induction false} ScanReads(seen: Bytes, more: Bytes, rest: Bytes, max: nat)
    requires AllDigits(seen) && AllDigits(more) && seen != [] && |seen| + |more| <= 10
    requires NumeralValue(seen + more) <= max
    ensures ScanSize(more + "\n" + rest, NumeralValue(seen), |seen|, max) == Size(NumeralValue(seen + more), rest)
    decreases |more|
  {
    if more == [] {
      assert seen + more == seen && more + "\n" + rest == "\n" + rest;
    } else {
      var d, tail := more[0], more[1..];
      assert (more + "\n" + rest)[1..] == tail + "\n" + rest;
      assert (seen + [d]) + tail == seen + more;
      NumeralSnoc(seen, d);
      NumeralGrows(seen + [d], tail);
      ScanReads(seen + [d], tail, rest, max);
    }
  }

  lemma {:induction false} ScanIsNumeral(s: Bytes, seen: Bytes, max: nat) returns (more: Bytes)
    requires AllDigits(seen) && 1 <= |seen| <= 10
    requires ScanSize(s, NumeralValue(seen), |seen|, max).Size?
    ensures AllDigits(more) && AllDigits(seen + more) && |seen + more| <= 10
    ensures var r := ScanSize(s, NumeralValue(seen), |seen|, max);
      s == more + "\n" + r.rest && r.value == NumeralValue(seen + more)
    decreases |s|
  {
    if s[0] == '\n' {
      more := [];
      assert seen + more == seen;
    } else {
      NumeralSnoc(seen, s[0]);
      var tail := ScanIsNumeral(s[1..], seen + [s[0]], max);
      more := [s[0]] + tail;
      assert (seen + [s[0]]) + tail == seen + more;
    }
  }

  /** Reading any valid chunking of a message returns the message and stops right after it. */
  lemma {:induction false} ReadsChunks(cs: seq<Chunk>, rest: Bytes, msg: Bytes, chunks: nat, max: nat)
    requires ValidChunks(cs) && (chunks > 0 || cs != []) && |msg + Data(cs)| <= max
    ensures Read11(EncodeMessage(cs) + rest, msg, chunks, max) == Got(msg + Data(cs), rest)
    decreases |cs|
  {
    hide Read11, EncodeChunk, ValidChunk;
    if cs == [] {
      ReadsEnd(rest, msg, chunks, max);
      assert EncodeMessage(cs) == END && msg + Data(cs) == msg;
    } else {
      var c, more := cs[0], EncodeMessage(cs[1..]) + rest;
      ReadsOneChunk(c, more, msg, chunks, max);
      assert EncodeMessage(cs) + rest == EncodeChunk(c) + more;
      assert msg + Data(cs) == msg + c.data + Data(cs[1..]);
      ReadsChunks(cs[1..], rest, msg + c.data, chunks + 1, max);
    }
  }

  lemma {:induction false} ReadsEnd(rest: Bytes, msg: Bytes, chunks: nat, max: nat)
    requires chunks > 0
    ensures Read11(END + rest, msg, chunks, max) == Got(msg, rest)
  {
    assert (END + rest)[4..] == rest;
  }

  lemma {:induction false} ChunkStarts(c: Chunk, more: Bytes, chunks: nat)
    requires ValidChunk(c)
    ensures var s := EncodeChunk(c) + more;
      && ScanMark(s, chunks) == FirstDigit(c.digits[0])
      && s[3..] == c.digits[1..] + "\n" + (c.data + more)
  {
    hide NumeralValue;
    var s := EncodeChunk(c) + more;
    assert s[0] == '\n' && s[1] == '#' && s[2] == c.digits[0] && IsDigit(c.digits[0]);
  }

  lemma {:induction false} ReadsOneChunk(c: Chunk, more: Bytes, msg: Bytes, chunks: nat, max: nat)
    requires ValidChunk(c) && |msg| + |c.data| <= max
    ensures Read11(EncodeChunk(c) + more, msg, chunks, max) == Read11(more, msg + c.data, chunks + 1, max)
  {
    hide ScanSize, ScanMark, EncodeChunk;
    var first, tail := c.digits[..1], c.digits[1..];
    assert first + tail == c.digits;
    assert NumeralValue(first) == DigitValue(c.digits[0]) by { assert NumeralValue(first[..0]) == 0; }
    ChunkStarts(c, more, chunks);
    hide NumeralValue;
    ScanReads(first, tail, c.data + more, max);
    assert (c.data + more)[..|c.data|] == c.data && (c.data + more)[|c.data|..] == more;
  }

  /** Whatever reads successfully is one or more valid chunks followed by the end marker. */
  lemma {:induction false} ReadIsChunks(s: Bytes, msg: Bytes, chunks: nat, max: nat) returns (cs: seq<Chunk>)
    requires Read11(s, msg, chunks, max).Got? && |msg| <= max
    ensures ValidChunks(cs) && (chunks > 0 || cs != [])
    ensures var r := Read11(s, msg, chunks, max);
      s == EncodeMessage(cs) + r.rest && r.msg == msg + Data(cs) && |r.msg| <= max
    decreases |s|
  {
    hide ScanSize, EncodeChunk, ValidChunk;
    if s[2] == '#' {
      cs := [];
      assert s == END + s[4..] && msg + Data(cs) == msg;
    } else {
      var size := ScanSize(s[3..], DigitValue(s[2]), 1, max);
      var c := ReadIsOneChunk(s, max);
      var rest := size.rest[size.value..];
      var tail := ReadIsChunks(rest, msg + c.data, chunks + 1, max);
      cs := [c] + tail;
      ConsChunk(c, tail, Read11(s, msg, chunks, max).rest, msg);
    }
  }

  lemma {:induction false} ConsChunk(c: Chunk, tail: seq<Chunk>, rest: Bytes, msg: Bytes)
    requires ValidChunk(c) && ValidChunks(tail)
    ensures ValidChunks([c] + tail)
    ensures EncodeChunk(c) + (EncodeMessage(tail) + rest) == EncodeMessage([c] + tail) + rest
    ensures msg + c.data + Data(tail) == msg + Data([c] + tail)
  {
    hide EncodeChunk, ValidChunk;
    assert ([c] + tail)[1..] == tail;
  }

  lemma {:induction false} ReadIsOneChunk(s: Bytes, max: nat) returns (c: Chunk)
    requires |s| > 3 && s[0] == '\n' && s[1] == '#' && '1' <= s[2] <= '9'
    requires var r := ScanSize(s[3..], DigitValue(s[2]), 1, max); r.Size? && r.value <= |r.rest|
    ensures var r := ScanSize(s[3..], DigitValue(s[2]), 1, max);
      ValidChunk(c) && c.data == r.rest[..r.value] && s == EncodeChunk(c) + r.rest[r.value..]
  {
    var r := ScanSize(s[3..], DigitValue(s[2]), 1, max);
    var first := s[2..3];
    assert NumeralValue(first) == DigitValue(s[2]) by { assert NumeralValue(first[..0]) == 0; }
    hide ScanSize, NumeralValue;
    var more := ScanIsNumeral(s[3..], first, max);
    c := Chunk(first + more, r.rest[..r.value]);
    assert s == s[..3] + s[3..] && s[..3] == "\n#" + first;
    assert s == EncodeChunk(c) + r.rest[r.value..];
  }

  /** read11 returns m exactly when the stream starts with a valid chunking of m, and it consumes
      exactly that. */
  lemma {:induction false} ReadsExactlyChunkings(s: Bytes, m: Bytes, rest: Bytes, max: nat)
    ensures Read11(s, [], 0, max) == Got(m, rest) <==>
      |m| <= max && exists cs: seq<Chunk> :: cs != [] && ValidChunks(cs) && Data(cs) == m && s == EncodeMessage(cs) + rest
  {
    if Read11(s, [], 0, max) == Got(m, rest) {
      var cs := ReadIsChunks(s, [], 0, max);
      assert [] + Data(cs) == Data(cs);
    }
    if |m| <= max && exists cs: seq<Chunk> :: cs != [] && ValidChunks(cs) && Data(cs) == m && s == EncodeMessage(cs) + rest {
      var cs: seq<Chunk> :| cs != [] && ValidChunks(cs) && Data(cs) == m && s == EncodeMessage(cs) + rest;
      assert [] + Data(cs) == Data(cs);
      ReadsChunks(cs, rest, [], 0, max);
    }
  }

  /** Write1_1: a single chunk. */
  function Frame11(msg: Bytes): Option<Bytes> {
    if msg == [] || |msg| > MAX_MESSAGE_SIZE then None
    else Some("\n#" + AsBytes(Decimal(|msg|)) + "\n" + msg + END)
  }

  function AsBytes(s: string): (b: Bytes)
    requires AllDigits(s)
    ensures b == s
  {
    assert forall i | 0 <= i < |s| :: IsDigit(s[i]);
    s
  }

  lemma {:induction false} DecimalLength(n: nat, k: nat, limit: nat)
    requires k > 0 && limit == Pow10(k) && n < limit
    ensures |Decimal(n)| <= k
    decreases k
  {
    if n >= 10 { DecimalLength(n / 10, k - 1, Pow10(k - 1)); }
  }

  function Pow10(k: nat): nat { if k == 0 then 1 else 10 * Pow10(k - 1) }

  /** Section 4.2 round trip: what Write1_1 writes, read11 reads. */
  lemma {:induction false} RoundTrip11(msg: Bytes, rest: Bytes)
    requires Frame11(msg).Some?
    ensures Read11(Frame11(msg).value + rest, [], 0, MAX_MESSAGE_SIZE) == Got(msg, rest)
  {
    var c := Chunk(AsBytes(Decimal(|msg|)), msg);
    assert Pow10(10) == 10 * Pow10(9) && Pow10(9) == 10 * Pow10(8) && Pow10(8) == 10 * Pow10(7);
    PowTen7();
    DecimalLength(|msg|, 10, Pow10(10));
    assert ValidChunk(c);
    OneChunk(c);
    assert [] + Data([c]) == msg;
    ReadsChunks([c], rest, [], 0, MAX_MESSAGE_SIZE);
  }

  lemma {:induction false} OneChunk(c: Chunk)
    ensures EncodeMessage([c]) == "\n#" + c.digits + "\n" + c.data + END && Data([c]) == c.data
  {
    var none: seq<Chunk> := [c][1..];
    assert none == [] && Data(none) == [] && EncodeChunks(none) == [];
    assert Data([c]) == c.data + [] && EncodeChunks([c]) == EncodeChunk(c) + [];
  }

  lemma {:induction false} PowTen7()
    ensures Pow10(7) == 10_000_000
  {
    assert Pow10(1) == 10 && Pow10(2) == 100 && Pow10(3) == 1000 && Pow10(4) == 10_000 && Pow10(5) == 100_000 && Pow10(6) == 1_000_000;
  }

  // ------------------------------------------------------------- reader and writer

  datatype Version = V10 | V11 | Other

  datatype Answer = Message(bytes: Bytes) | Problem(error: Error)

  /** An answer as specified, with the reader standing where it should. */
  ghost predicate Meets(spec: Read, answer: Answer, remaining: Bytes) {
    match spec
    case Got(msg, rest) => answer == Message(msg) && remaining == rest
    case Failed(e) => answer == Problem(e)
  }

  lemma {:induction false} SliceSplits(s: Bytes, pos: nat, n: nat)
    requires pos + n <= |s|
    ensures s[pos..][..n] == s[pos..pos + n] && s[pos..][n..] == s[pos + n..]
  {
  }

  /** After n bytes: what has spilled and what the window holds, with no delimiter passed. */
  ghost predicate Scanned(s: Bytes, n: nat, w: Bytes, msg: Bytes) {
    && n <= |s| && |w| <= 6 && msg + w == s[..n] && (|w| < 6 ==> msg == [])
    && forall i | 0 <= i && i + 6 <= n :: !EomAt(s, i)
  }

  function Slid(w: Bytes, b: Byte): Bytes { if |w| < 6 then w + [b] else w[1..] + [b] }

  function Spilled(w: Bytes, msg: Bytes): Bytes { if |w| < 6 then msg else msg + [w[0]] }

  lemma {:induction false} ScanStep(s: Bytes, n: nat, w: Bytes, msg: Bytes)
    requires Scanned(s, n, w, msg) && n < |s|
    ensures var w', msg' := Slid(w, s[n]), Spilled(w, msg);
      && msg' + w' == s[..n + 1]
      && (!(|w'| == 6 && w' == EOM) ==> Scanned(s, n + 1, w', msg'))
  {
    var w', msg' := Slid(w, s[n]), Spilled(w, msg);
    assert s[..n + 1] == s[..n] + [s[n]];
    assert msg' + w' == msg + w + [s[n]];
    if n >= 5 {
      assert s[n - 5..n + 1] == s[..n + 1][n - 5..] == w';
    }
  }

  lemma {:induction false} ScanStarts(s: Bytes, w: Bytes)
    requires w == []
    ensures Scanned(s, 0, w, [])
  {
  }

  lemma {:induction false} ScanEnds(s: Bytes, n: nat, w: Bytes, msg: Bytes, max: nat)
    requires Scanned(s, n, w, msg) && n == |s| && |msg| <= max
    ensures Read10(s, max) == Failed(if n > 0 then UnexpectedEof else Eof)
  {
    assert |msg + w| == n;
  }

  lemma {:induction false} ScanOverflows(s: Bytes, n: nat, w: Bytes, msg: Bytes, max: nat)
    requires Scanned(s, n, w, msg) && n < |s| && |w| == 6 && |msg| == max
    ensures Read10(s, max) == Failed(TooLarge)
  {
    assert |msg + w| == n;
  }

  lemma {:induction false} ScanFinds(s: Bytes, n: nat, w: Bytes, msg: Bytes, max: nat)
    requires Scanned(s, n, w, msg) && n < |s| && Slid(w, s[n]) == EOM && |Spilled(w, msg)| <= max
    ensures Read10(s, max) == Got(Spilled(w, msg), s[n + 1..])
  {
    ScanStep(s, n, w, msg);
    var m := Spilled(w, msg);
    assert m + EOM == s[..n + 1];
    assert s[..n + 1][n - 5..] == s[n - 5..n + 1] && s[..n + 1][..n - 5] == s[..n - 5];
    assert EomAt(s, n - 5);
  }

  /** The shift of read10's window. */
  method Slide(window: array<Byte>, b: Byte)
    requires window.Length == 6
    modifies window
    ensures window[..] == old(window[..])[1..] + [b]
  {
    forall i | 0 <= i < 5 { window[i] := window[i + 1]; }
    window[5] := b;
  }

  /** One byte into the window; its oldest byte spills once it is full. */
  method Push(window: array<Byte>, wlen: nat, msg: Bytes, b: Byte) returns (wlen': nat, msg': Bytes)
    requires window.Length == 6 && wlen <= 6
    modifies window
    ensures wlen' == (if wlen < 6 then wlen + 1 else 6) && |msg'| == |msg| + if wlen < 6 then 0 else 1
    ensures msg' == Spilled(old(window[..wlen]), msg)
    ensures window[..wlen'] == Slid(old(window[..wlen]), b)
  {
    if wlen < 6 {
      window[wlen] := b;
      wlen', msg' := wlen + 1, msg;
    } else {
      msg' := msg + [window[0]];
      assert window[..] == window[..6];
      Slide(window, b);
      wlen' := 6;
      assert window[..] == window[..6];
    }
  }

  class Reader {
    const input: Bytes
    var pos: nat
    var version: Version
    const max: nat

    ghost predicate Valid()
      reads this
    {
      pos <= |input|
    }

    constructor (input: Bytes, version: Version)
      ensures Valid() && pos == 0 && this.input == input && this.version == version && max == MAX_MESSAGE_SIZE
    {
      this.input, this.version, pos, max := input, version, 0, MAX_MESSAGE_SIZE;
    }

    /** The next byte, if the stream has one. */
    method ReadByte() returns (b: Option<Byte>)
      requires Valid()
      modifies this`pos
      ensures Valid()
      ensures if old(pos) < |input| then b == Some(input[old(pos)]) && pos == old(pos) + 1 else b == None && pos == old(pos)
    {
      if pos >= |input| { return None; }
      b := Some(input[pos]);
      pos := pos + 1;
    }

    /** read10: a six-byte window slides over the stream and spills into the message. */
    method ReadToDelimiter() returns (r: Answer)
      requires Valid()
      modifies this`pos
      ensures Valid() && Meets(Read10(old(input[pos..]), max), r, input[pos..])
    {
      hide EomAt, Read10, Scanned, Slid, Spilled;
      ghost var s := input[pos..];
      ghost var n := 0;
      var msg: Bytes := [];
      var window := new Byte[6](_ => '\0');
      var wlen, got := 0, false;
      ScanStarts(s, window[..0]);
      while true
        invariant Valid() && n <= |s| && pos == old(pos) + n && 0 <= wlen <= 6 && (got <==> n > 0)
        invariant Scanned(s, n, window[..wlen], msg) && |msg| <= max
        decreases |s| - n
      {
        ghost var before, spilt := window[..wlen], msg;
        var b := ReadByte();
        if b.None? {
          ScanEnds(s, n, before, msg, max);
          return Problem(if got then UnexpectedEof else Eof);
        }
        got := true;
        ScanStep(s, n, before, msg);
        if wlen == 6 && |msg| + 1 > max {
          ScanOverflows(s, n, before, msg, max);
          return Problem(TooLarge);
        }
        wlen, msg := Push(window, wlen, msg, b.value);
        n := n + 1;
        if wlen == 6 && window[..wlen] == EOM {
          ScanFinds(s, n - 1, before, spilt, max);
          assert s[n..] == input[pos..];
          return Message(msg);
        }
      }
    }

    /** The digits of a chunk size after the first, and the newline. The running value only grows, and the
        last one, returned even on failure, keeps to ten times the limit and to 31 bits. */
    method ReadSize(first: nat) returns (ok: bool, size: nat, error: Error)
      requires Valid() && 1 <= first <= 9
      modifies this`pos
      ensures Valid()
      ensures match ScanSize(old(input[pos..]), first, 1, max)
        case NoSize(e) => !ok && error == e
        case Size(n, rest) => ok && size == n && input[pos..] == rest && (n <= 9 || n <= max)
      ensures first <= size && (size <= 99 || size <= 10 * max + 9)
      ensures max <= MAX_MESSAGE_SIZE ==> size <= 0x7fff_ffff
    {
      ok, size, error := false, first, UnexpectedEof;
      ghost var s := input[pos..];
      var digits := 1;
      while true
        invariant Valid() && 1 <= digits <= 10 && first <= size && (size <= 9 || size <= max)
        invariant max <= MAX_MESSAGE_SIZE ==> size * 10 + 9 <= 0x7fff_ffff
        invariant ScanSize(s, first, 1, max) == ScanSize(input[pos..], size, digits, max)
        decreases |input| - pos
      {
        ghost var here := input[pos..];
        var b := ReadByte();
        if b.None? { return false, size, UnexpectedEof; }
        assert here[1..] == input[pos..];
        if b.value == '\n' { return true, size, error; }
        if !IsDigit(b.value) { return false, size, InvalidFrame; }
        digits := digits + 1;
        if digits > 10 { return false, size, InvalidFrame; }
        size := size * 10 + DigitValue(b.value);
        if size > max { return false, size, TooLarge; }
      }
    }

    /** The bytes read11 reads before a size or at the end. */
    method ReadMark(chunks: nat) returns (r: Mark)
      requires Valid()
      modifies this`pos
      ensures Valid() && r == ScanMark(old(input[pos..]), chunks)
      ensures r.EndMark? ==> input[pos..] == old(input[pos..])[4..]
      ensures r.FirstDigit? ==> input[pos..] == old(input[pos..])[3..]
    {
      var b := ReadByte();
      if b.None? { return BadMark(if chunks == 0 then Eof else UnexpectedEof); }
      if b.value != '\n' { return BadMark(InvalidFrame); }
      b := ReadByte();
      if b.None? { return BadMark(UnexpectedEof); }
      if b.value != '#' { return BadMark(InvalidFrame); }
      b := ReadByte();
      if b.None? { return BadMark(UnexpectedEof); }
      if b.value == '#' {
        b := ReadByte();
        if b.None? { return BadMark(UnexpectedEof); }
        if b.value != '\n' || chunks == 0 { return BadMark(InvalidFrame); }
        return EndMark;
      }
      if !('1' <= b.value <= '9') { return BadMark(InvalidFrame); }
      return FirstDigit(b.value);
    }

    /** read11. */
    method ReadChunked() returns (r: Answer)
      requires Valid()
      modifies this`pos
      ensures Valid() && Meets(Read11(old(input[pos..]), [], 0, max), r, input[pos..])
    {
      hide ScanSize, ScanMark;
      ghost var s := input[pos..];
      var msg: Bytes := [];
      var chunks := 0;
      while true
        invariant Valid() && |msg| <= max
        invariant Read11(s, [], 0, max) == Read11(input[pos..], msg, chunks, max)
        decreases |input| - pos
      {
        var mark := ReadMark(chunks);
        if mark.BadMark? { return Problem(mark.error); }
        if mark.EndMark? { return Message(msg); }
        var ok, size, error := ReadSize(DigitValue(mark.d));
        if !ok { return Problem(error); }
        if |msg| + size > max { return Problem(TooLarge); }
        if |input| - pos < size { return Problem(UnexpectedEof); }
        SliceSplits(input, pos, size);
        msg := msg + input[pos..pos + size];
        pos := pos + size;
        chunks := chunks + 1;
      }
    }

    /** SetVersion: bytes already buffered stay where they are. */
    method SetVersion(v: Version)
      modifies this`version
      ensures version == v
    {
      version := v;
    }

    method ReadMessage() returns (r: Answer)
      requires Valid()
      modifies this`pos
      ensures Valid()
      ensures match version
        case V10 => Meets(Read10(old(input[pos..]), max), r, input[pos..])
        case V11 => Meets(Read11(old(input[pos..]), [], 0, max), r, input[pos..])
        case Other => r == Problem(UnsupportedVersion) && pos == old(pos)
    {
      match version {
        case V10 => r := ReadToDelimiter();
        case V11 => r := ReadChunked();
        case Other => r := Problem(UnsupportedVersion);
      }
    }
  }

  class Writer {
    var output: Bytes

    constructor ()
      ensures output == []
    {
      output := [];
    }

    method Write10(msg: Bytes) returns (error: Option<Error>)
      modifies this
      ensures error.None? <==> Frame10(msg).Some?
      ensures error == if FirstEom(msg).Some? then Some(EomInMessage) else if |msg| > MAX_MESSAGE_SIZE then Some(TooLarge) else None
      ensures output == old(output) + if error.None? then Frame10(msg).value else []
    {
      if FirstEom(msg).Some? { return Some(EomInMessage); }
      if |msg| > MAX_MESSAGE_SIZE { return Some(TooLarge); }
      var buf := msg + EOM;
      output := output + buf;
      return None;
    }

    method Write11(msg: Bytes) returns (error: Option<Error>)
      modifies this
      ensures error.None? <==> Frame11(msg).Some?
      ensures error == if msg == [] then Some(EmptyMessage) else if |msg| > MAX_MESSAGE_SIZE then Some(TooLarge) else None
      ensures output == old(output) + if error.None? then Frame11(msg).value else []
    {
      if |msg| == 0 { return Some(EmptyMessage); }
      if |msg| > MAX_MESSAGE_SIZE { return Some(TooLarge); }
      var n := AsBytes(Decimal(|msg|));
      var buf: Bytes := ['\n', '#'];
      buf := buf + n;
      buf := buf + ['\n'];
      buf := buf + msg;
      buf := buf + ['\n', '#', '#', '\n'];
      output := output + buf;
      return None;
    }
  }
}
