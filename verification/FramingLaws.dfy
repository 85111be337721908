/** Framing as a stream sees it: verdicts that more bytes cannot change, messages cut short, messages
    over the limit, and whole conversations (internal/ncframing). */
module FramingLaws {
  import opened Text
  import opened Framing

  // -------------------------------------------------------------- what is accepted

  /** Write1_0 takes exactly the messages of up to 16 MiB without the delimiter, and writes them before
      one delimiter. */
  lemma {:induction false} Frame10Iff(msg: Bytes)
    ensures Frame10(msg).Some? <==> |msg| <= 16777216 && !exists i :: EomAt(msg, i)
    ensures Frame10(msg).Some? ==> Frame10(msg).value == msg + "]]>]]>"
  {
  }

  /** Write1_1 takes exactly the messages of 1 byte up to 16 MiB, and writes them as one chunk. */
  lemma {:induction false} Frame11Iff(msg: Bytes)
    ensures Frame11(msg).Some? <==> 1 <= |msg| <= 16777216
    ensures Frame11(msg).Some? ==>
      exists c :: ValidChunk(c) && c.data == msg && Frame11(msg).value == "\n#" + c.digits + "\n" + c.data + "\n##\n"
  {
    if Frame11(msg).Some? {
      var c := Chunk(AsBytes(Decimal(|msg|)), msg);
      assert Pow10(10) == 10 * Pow10(9) && Pow10(9) == 10 * Pow10(8) && Pow10(8) == 10 * Pow10(7);
      PowTen7();
      DecimalLength(|msg|, 10, Pow10(10));
      assert ValidChunk(c);
    }
  }

  // --------------------------------------------------- verdicts more bytes cannot change

  /** The reader may still be waiting for bytes. */
  predicate Waiting(r: Read) { r == Failed(Eof) || r == Failed(UnexpectedEof) }

  /** The same verdict, with more bytes behind it. */
  function Later(r: Read, more: Bytes): Read {
    match r
    case Got(msg, rest) => Got(msg, rest + more)
    case Failed(e) => Failed(e)
  }

  lemma {:induction false} EomIsLocal(s: Bytes, t: Bytes)
    ensures forall i | i + 6 <= |s| :: EomAt(s + t, i) <==> EomAt(s, i)
  {
    forall i | 0 <= i && i + 6 <= |s| ensures EomAt(s + t, i) <==> EomAt(s, i) { EomInside(s, t, i); }
  }

  /** Once read10 has a message or an error other than the end of the stream, later bytes change
      nothing. */
  lemma {:induction false} Read10IsFinal(s: Bytes, t: Bytes, max: nat)
    requires !Waiting(Read10(s, max))
    ensures Read10(s + t, max) == Later(Read10(s, max), t)
  {
    EomIsLocal(s, t);
    var e, e' := FirstEom(s), FirstEom(s + t);
    if e.Some? && e.value <= max {
      assert EomAt(s + t, e.value);
      assert e' == e;
      assert (s + t)[..e.value] == s[..e.value] && (s + t)[e.value + 6..] == s[e.value + 6..] + t;
    }
  }

  lemma {:induction false} ScanSizeIsFinal(s: Bytes, t: Bytes, size: nat, digits: nat, max: nat)
    ensures var r := ScanSize(s, size, digits, max);
      r == NoSize(UnexpectedEof) ||
      ScanSize(s + t, size, digits, max) == match r { case Size(n, rest) => Size(n, rest + t) case NoSize(e) => NoSize(e) }
    decreases |s|
  {
    if s != [] {
      assert (s + t)[0] == s[0] && (s + t)[1..] == s[1..] + t;
      if s[0] != '\n' && IsDigit(s[0]) && digits + 1 <= 10 && size * 10 + DigitValue(s[0]) <= max {
        ScanSizeIsFinal(s[1..], t, size * 10 + DigitValue(s[0]), digits + 1, max);
      }
    }
  }

  lemma {:induction false} ScanMarkIsFinal(s: Bytes, t: Bytes, chunks: nat)
    ensures var r := ScanMark(s, chunks);
      r == BadMark(Eof) || r == BadMark(UnexpectedEof) || ScanMark(s + t, chunks) == r
  {
    assert forall i | 0 <= i < |s| :: (s + t)[i] == s[i];
  }

  /** The same of read11. */
  lemma {:induction false} Read11IsFinal(s: Bytes, t: Bytes, msg: Bytes, chunks: nat, max: nat)
    requires !Waiting(Read11(s, msg, chunks, max))
    ensures Read11(s + t, msg, chunks, max) == Later(Read11(s, msg, chunks, max), t)
    decreases |s|
  {
    hide ScanSize, ScanMark;
    ScanMarkIsFinal(s, t, chunks);
    match ScanMark(s, chunks)
    case BadMark(e) =>
    case EndMark => assert (s + t)[4..] == s[4..] + t;
    case FirstDigit(d) =>
      assert (s + t)[3..] == s[3..] + t;
      ScanSizeIsFinal(s[3..], t, DigitValue(d), 1, max);
      match ScanSize(s[3..], DigitValue(d), 1, max)
      case NoSize(e) =>
      case Size(n, rest) =>
        if |msg| + n <= max {
          assert (rest + t)[n..] == rest[n..] + t && (rest + t)[..n] == rest[..n];
          Read11IsFinal(rest[n..], t, msg + rest[..n], chunks + 1, max);
        }
  }

  /** A clean end of the stream is told from a message cut short. */
  lemma {:induction false} EofIff(s: Bytes, max: nat)
    ensures Read10(s, max) == Failed(Eof) <==> s == []
    ensures Read11(s, [], 0, max) == Failed(Eof) <==> s == []
  {
    hide ScanSize;
    if s != [] { NoEofInside(s, [], 0, max); }
  }

  lemma {:induction false} NoEofInside(s: Bytes, msg: Bytes, chunks: nat, max: nat)
    requires s != [] || chunks > 0
    ensures Read11(s, msg, chunks, max) != Failed(Eof)
    decreases |s|
  {
    match ScanMark(s, chunks)
    case BadMark(e) =>
    case EndMark =>
    case FirstDigit(d) =>
      hide ScanMark;
      var size := ScanSize(s[3..], DigitValue(d), 1, max);
      NoEofInSize(s[3..], DigitValue(d), 1, max);
      hide ScanSize;
      if size.Size? && |msg| + size.value <= max && size.value <= |size.rest| {
        NoEofInside(size.rest[size.value..], msg + size.rest[..size.value], chunks + 1, max);
      }
  }

  lemma {:induction false} NoEofInSize(s: Bytes, size: nat, digits: nat, max: nat)
    ensures ScanSize(s, size, digits, max) != NoSize(Eof)
    decreases |s|
  {
    if s != [] && IsDigit(s[0]) && digits + 1 <= 10 && size * 10 + DigitValue(s[0]) <= max {
      NoEofInSize(s[1..], size * 10 + DigitValue(s[0]), digits + 1, max);
    }
  }

  // ----------------------------------------------------------------- cut-short messages

  /** A message in chunks, cut anywhere before its last byte, is reported as cut short: never as a
      message, never as malformed or too large. */
  lemma {:induction false} Truncated11(cs: seq<Chunk>, n: nat, max: nat)
    requires cs != [] && ValidChunks(cs) && |Data(cs)| <= max && 0 < n < |EncodeMessage(cs)|
    ensures Read11(EncodeMessage(cs)[..n], [], 0, max) == Failed(UnexpectedEof)
  {
    hide Read11, EncodeMessage, ValidChunks, Data;
    var s, t := EncodeMessage(cs)[..n], EncodeMessage(cs)[n..];
    assert s + t == EncodeMessage(cs) == EncodeMessage(cs) + [] && [] + Data(cs) == Data(cs);
    ReadsChunks(cs, [], [], 0, max);
    EofIff(s, max);
    if !Waiting(Read11(s, [], 0, max)) { Read11IsFinal(s, t, [], 0, max); }
  }

  /** The same of a message before its delimiter. */
  lemma {:induction false} Truncated10(msg: Bytes, n: nat, max: nat)
    requires FirstEom(msg).None? && !EndsInHalf(msg) && |msg| <= max && 0 < n < |msg| + 6
    ensures Read10((msg + EOM)[..n], max) == Failed(UnexpectedEof)
  {
    var s, t := (msg + EOM)[..n], (msg + EOM)[n..];
    assert s + t == msg + EOM + [];
    FirstEomIsOwn(msg, []);
    assert Read10(s + t, max) == Got(msg, []) by { assert (s + t)[..|msg|] == msg && (s + t)[|msg| + 6..] == []; }
    hide Read10;
    EofIff(s, max);
    if !Waiting(Read10(s, max)) { Read10IsFinal(s, t, max); }
  }

  // ---------------------------------------------------------------- over the limit

  lemma {:induction false} ScanOverLimit(seen: Bytes, more: Bytes, rest: Bytes, max: nat)
    requires AllDigits(seen) && AllDigits(more) && seen != [] && |seen| + |more| <= 10
    ensures AllDigits(seen + more)
    ensures NumeralValue(seen + more) > max ==>
      var r := ScanSize(more + "\n" + rest, NumeralValue(seen), |seen|, max);
      r == NoSize(TooLarge) || r == Size(NumeralValue(seen + more), rest)
    decreases |more|
  {
    if more == [] {
      assert seen + more == seen && more + "\n" + rest == "\n" + rest;
    } else {
      var d, tail := more[0], more[1..];
      assert (more + "\n" + rest)[1..] == tail + "\n" + rest;
      assert (seen + [d]) + tail == seen + more;
      NumeralSnoc(seen, d);
      ScanOverLimit(seen + [d], tail, rest, max);
    }
  }

  lemma {:induction false} ChunkOverLimit(c: Chunk, more: Bytes, msg: Bytes, chunks: nat, max: nat)
    requires ValidChunk(c) && |msg| <= max < |msg| + |c.data|
    ensures Read11(EncodeChunk(c) + more, msg, chunks, max) == Failed(TooLarge)
  {
    hide ScanSize, ScanMark, EncodeChunk;
    var first, tail := c.digits[..1], c.digits[1..];
    assert first + tail == c.digits;
    assert NumeralValue(first) == DigitValue(c.digits[0]) by { assert NumeralValue(first[..0]) == 0; }
    ChunkStarts(c, more, chunks);
    hide NumeralValue;
    if |c.data| <= max { ScanReads(first, tail, c.data + more, max); } else { ScanOverLimit(first, tail, c.data + more, max); }
  }

  /** A message in valid chunks is refused as too large exactly when it is over the limit; otherwise it
      is read. */
  lemma {:induction false} TooLargeIff(cs: seq<Chunk>, rest: Bytes, msg: Bytes, chunks: nat, max: nat)
    requires ValidChunks(cs) && (chunks > 0 || cs != []) && |msg| <= max
    ensures Read11(EncodeMessage(cs) + rest, msg, chunks, max) ==
      if |msg + Data(cs)| <= max then Got(msg + Data(cs), rest) else Failed(TooLarge)
    decreases |cs|
  {
    hide Read11, EncodeChunk, ValidChunk;
    if |msg + Data(cs)| <= max {
      ReadsChunks(cs, rest, msg, chunks, max);
    } else {
      var c, more := cs[0], EncodeMessage(cs[1..]) + rest;
      assert EncodeMessage(cs) + rest == EncodeChunk(c) + more;
      assert msg + Data(cs) == msg + c.data + Data(cs[1..]);
      if |msg| + |c.data| > max {
        ChunkOverLimit(c, more, msg, chunks, max);
      } else {
        ReadsOneChunk(c, more, msg, chunks, max);
        TooLargeIff(cs[1..], rest, msg + c.data, chunks + 1, max);
      }
    }
  }

  // ------------------------------------------------------------------- conversations

  /** Messages read one after another until one fails, and the failure. */
  function ReadAll11(s: Bytes, max: nat): (seq<Bytes>, Error)
    decreases |s|
  {
    match Read11(s, [], 0, max)
    case Failed(e) => ([], e)
    case Got(msg, rest) =>
      var (msgs, e) := ReadAll11(rest, max);
      ([msg] + msgs, e)
  }

  function Concat(texts: seq<Bytes>): Bytes { if texts == [] then [] else texts[0] + Concat(texts[1..]) }

  function Messages(all: seq<seq<Chunk>>): (r: seq<Bytes>)
    ensures |r| == |all| && forall i | 0 <= i < |r| :: r[i] == Data(all[i])
  {
    seq(|all|, i requires 0 <= i < |all| => Data(all[i]))
  }

  function Written(all: seq<seq<Chunk>>): (r: seq<Bytes>)
    ensures |r| == |all| && forall i | 0 <= i < |r| :: r[i] == EncodeMessage(all[i])
  {
    seq(|all|, i requires 0 <= i < |all| => EncodeMessage(all[i]))
  }

  /** However many messages are sent back to back, and however each is cut into chunks, they are read
      in order, one by one, and then comes a clean end. */
  lemma {:induction false} ConversationReads(all: seq<seq<Chunk>>, max: nat)
    requires forall i | 0 <= i < |all| :: all[i] != [] && ValidChunks(all[i]) && |Data(all[i])| <= max
    ensures ReadAll11(Concat(Written(all)), max) == (Messages(all), Eof)
    decreases |all|
  {
    hide Read11, EncodeMessage, ValidChunks, Data;
    if all == [] {
      EofIff([], max);
    } else {
      var cs, more := all[0], Concat(Written(all[1..]));
      assert Written(all)[1..] == Written(all[1..]) && Messages(all) == [Data(cs)] + Messages(all[1..]);
      assert [] + Data(cs) == Data(cs);
      ReadsChunks(cs, more, [], 0, max);
      ConversationReads(all[1..], max);
    }
  }

  /** A hello before the delimiter, then chunks: after the switch the reader goes on with exactly the
      bytes behind the hello, and reads every message. */
  lemma {:induction false} UpgradeReads(hello: Bytes, all: seq<seq<Chunk>>)
    requires Frame10(hello).Some? && !EndsInHalf(hello)
    requires forall i | 0 <= i < |all| :: all[i] != [] && ValidChunks(all[i]) && |Data(all[i])| <= 16777216
    ensures var first := Read10(Frame10(hello).value + Concat(Written(all)), 16777216);
      first.Got? && first.msg == hello && ReadAll11(first.rest, 16777216) == (Messages(all), Eof)
  {
    hide Read10, Frame10, ReadAll11, Concat, ValidChunks, Data;
    RoundTrip10(hello, Concat(Written(all)));
    ConversationReads(all, 16777216);
  }
}
