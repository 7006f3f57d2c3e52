/**
 * What the frame decoder of `RequestCodec` guarantees: how it treats junk,
 * short frames and bad counts, that it reads back what `Serialize` writes,
 * that pipelined frames come out in order, and where delivery of one frame in
 * two chunks does and does not work.
 */
module DecoderProperties {
  import opened Text
  import opened RequestCodec

  /** The outcome of decoding a frame whose header declares `n` and whose next `2n` lines are `body`. */
  function FrameOutcome(n: nat, body: seq<string>): Result<Array> {
    if |Arguments(body)| == n then Success(Array(n, Arguments(body))) else Failure
  }

  lemma HeadTail<T>(h: T, body: seq<T>, more: seq<T>)
    ensures ([h] + (body + more))[0] == h
    ensures ([h] + (body + more))[1..1 + |body|] == body
    ensures ([h] + (body + more))[1 + |body|..] == more
  {
  }

  lemma Regroup<T>(h: T, body: seq<T>, more: seq<T>)
    ensures ([h] + body) + more == [h] + (body + more)
  {
  }

  lemma NoNewlineCons(h: string, body: seq<string>)
    requires '\n' !in h
    requires forall i :: 0 <= i < |body| ==> '\n' !in body[i]
    ensures forall i :: 0 <= i < |[h] + body| ==> '\n' !in ([h] + body)[i]
  {
    forall i | 0 <= i < |[h] + body| ensures '\n' !in ([h] + body)[i] {
      if i > 0 { assert ([h] + body)[i] == body[i - 1]; }
    }
  }

  /** The header line of `n` reads back as `n`. */
  lemma CountOfHeader(n: nat)
    requires n <= U64_MAX
    ensures CountHeader(Header(n)) == Some(n)
    ensures '\n' !in Header(n)
  {
    var d := Decimal(n);
    assert Header(n)[1..] == d;
    assert DigitRun(d) == d;
  }

  /** Text before the first `*` plays no part in decoding. */
  lemma SkipJunk(junk: string, framed: string)
    requires '*' !in junk
    requires framed != [] && framed[0] == '*'
    ensures Decode(junk + framed) == DecodeFrame(framed)
  {
    var buffer := junk + framed;
    forall i | 0 <= i < |junk| ensures buffer[i] != '*' {
      assert buffer[i] == junk[i];
    }
    FindIsFirst(buffer, '*', |junk|);
    assert buffer[|junk|..] == framed;
  }

  /** Once `2n` lines follow the header, exactly those lines are consumed. */
  lemma DecodeFrameConsumes(framed: string, n: nat)
    requires 2 * n <= U64_MAX && framed != []
    requires Lines(framed)[0] == Header(n) && |Lines(framed)| >= 1 + 2 * n
    ensures DecodeFrame(framed) == Decoded(FrameOutcome(n, Lines(framed)[1..1 + 2 * n]), Terminated(Lines(framed)[1 + 2 * n..]))
  {
    var lines := Lines(framed);
    CountOfHeader(n);
    assert CountHeader(lines[0]) == Some(n);
    var frame := Array(n, Arguments(lines[1..1 + 2 * n]));
    assert !(2 * n > U64_MAX || |lines| - 1 < 2 * n);
    assert DecodeFrame(framed) == Decoded(if IsComplete(frame) then Success(frame) else Failure, Terminated(lines[1 + 2 * n..]));
    assert IsComplete(frame) <==> FrameOutcome(n, lines[1..1 + 2 * n]).Success?;
  }

  /**
   * A frame that declares `n` followed by `2n` lines without `\n`, behind any
   * text without `*` and before any text `t`: the result depends only on
   * those lines, and the buffer is left holding the lines of `t`, each
   * terminated with `\r\n`.
   */
  lemma {:induction false} DecodeConsumesFrame(junk: string, n: nat, body: seq<string>, t: string)
    requires '*' !in junk
    requires 2 * n <= U64_MAX && |body| == 2 * n
    requires forall i :: 0 <= i < |body| ==> '\n' !in body[i]
    ensures Decode(junk + Terminated([Header(n)] + body) + t) == Decoded(FrameOutcome(n, body), Terminated(Lines(t)))
  {
    var frame := Terminated([Header(n)] + body);
    var framed := frame + t;
    assert frame == Header(n) + CRLF + Terminated(body);
    assert framed[0] == '*';
    assert junk + frame + t == junk + framed;
    SkipJunk(junk, framed);
    CountOfHeader(n);
    NoNewlineCons(Header(n), body);
    LinesOfTerminated([Header(n)] + body, t);
    Regroup(Header(n), body, Lines(t));
    HeadTail(Header(n), body, Lines(t));
    DecodeFrameConsumes(framed, n);
  }

  lemma {:induction false} BulkStringsAsLines(args: seq<string>)
    ensures BulkStrings(args) == Terminated(BulkLines(args))
  {
    if args != [] {
      var len := "$" + Decimal(|args[0]|);
      BulkStringsAsLines(args[1..]);
      TerminatedAppend([len, args[0]], BulkLines(args[1..]));
      assert Terminated([len, args[0]]) == len + CRLF + (args[0] + CRLF + "");
    }
  }

  /** A serialized array is its header line and its bulk lines, each terminated with `\r\n`. */
  lemma SerializeAsLines(a: Array)
    requires a.size > 0
    ensures Serialize(a) == Terminated([Header(a.size)] + BulkLines(a.args))
  {
    BulkStringsAsLines(a.args);
    assert ([Header(a.size)] + BulkLines(a.args))[1..] == BulkLines(a.args);
  }

  lemma {:induction false} ArgumentsAppend(xs: seq<string>, ys: seq<string>)
    ensures Arguments(xs + ys) == Arguments(xs) + Arguments(ys)
    decreases |ys|
  {
    if ys == [] {
      assert xs + ys == xs;
    } else {
      var last := ys[|ys| - 1];
      assert (xs + ys)[..|xs + ys| - 1] == xs + ys[..|ys| - 1];
      ArgumentsAppend(xs, ys[..|ys| - 1]);
    }
  }

  /** The decoder's argument lines are exactly the serialized arguments. */
  lemma {:induction false} ArgumentsOfBulkLines(args: seq<string>)
    requires forall i :: 0 <= i < |args| ==> !IsLengthLine(args[i])
    ensures Arguments(BulkLines(args)) == args
  {
    if args != [] {
      var len := "$" + Decimal(|args[0]|);
      ArgumentsOfBulkLines(args[1..]);
      ArgumentsAppend([len, args[0]], BulkLines(args[1..]));
      assert [len, args[0]][..1] == [len];
      assert Arguments([len]) == [] by {
        assert [len][..0] == [];
      }
      assert Arguments([len, args[0]]) == [args[0]];
    }
  }

  lemma NoNewlineInBulkLines(args: seq<string>)
    requires forall i :: 0 <= i < |args| ==> '\n' !in args[i]
    ensures forall i :: 0 <= i < |BulkLines(args)| ==> '\n' !in BulkLines(args)[i]
    decreases |args|
  {
    if args != [] {
      NoNewlineInBulkLines(args[1..]);
      var len := "$" + Decimal(|args[0]|);
      forall i | 0 <= i < |BulkLines(args)| ensures '\n' !in BulkLines(args)[i] {
        if i >= 2 { assert BulkLines(args)[i] == BulkLines(args[1..])[i - 2]; }
      }
    }
  }

  /**
   * A serialized array, behind text without `*` and before any text `t`,
   * decodes to the same array and leaves the lines of `t`.
   */
  lemma DecodeSerialized(junk: string, a: Array, t: string)
    requires '*' !in junk && WireSafe(a)
    ensures Decode(junk + Serialize(a) + t) == Decoded(Success(a), Terminated(Lines(t)))
  {
    SerializeAsLines(a);
    NoNewlineInBulkLines(a.args);
    DecodeConsumesFrame(junk, a.size, BulkLines(a.args), t);
    ArgumentsOfBulkLines(a.args);
  }

  /** Round trip: decoding a lone serialized array gives it back and empties the buffer. */
  lemma RoundTrip(a: Array)
    requires WireSafe(a)
    ensures Decode(Serialize(a)) == Decoded(Success(a), "")
  {
    DecodeSerialized("", a, "");
    assert "" + Serialize(a) + "" == Serialize(a);
  }

  /**
   * Pipelining: two serialized arrays in one buffer come out in order from two
   * successive decodes, and the buffer is then empty.
   */
  lemma Pipelined(junk: string, a: Array, b: Array)
    requires '*' !in junk && WireSafe(a) && WireSafe(b)
    ensures Decode(junk + Serialize(a) + Serialize(b)) == Decoded(Success(a), Serialize(b))
    ensures Decode(Serialize(b)) == Decoded(Success(b), "")
  {
    DecodeSerialized(junk, a, Serialize(b));
    SerializeAsLines(b);
    NoNewlineInBulkLines(b.args);
    NoNewlineCons(Header(b.size), BulkLines(b.args));
    CountOfHeader(b.size);
    TerminatedLines([Header(b.size)] + BulkLines(b.args));
    RoundTrip(b);
  }

  /**
   * Pipelining with junk between the frames: the junk is some complete lines
   * `jl` and a partial line `p`, all without `*`. The first decode leaves the
   * junk and the second frame exactly as they were, and the second decode
   * drops the junk and returns the second frame.
   */
  lemma PipelinedAfterJunk(junk: string, a: Array, jl: seq<string>, p: string, b: Array)
    requires '*' !in junk && WireSafe(a) && WireSafe(b)
    requires forall i :: 0 <= i < |jl| ==> '\n' !in jl[i]
    requires '\n' !in p && '*' !in Terminated(jl) + p
    ensures var between := Terminated(jl) + p;
      && Decode(junk + Serialize(a) + (between + Serialize(b))) == Decoded(Success(a), between + Serialize(b))
      && Decode(between + Serialize(b)) == Decoded(Success(b), "")
  {
    var between := Terminated(jl) + p;
    DecodeSerialized(junk, a, between + Serialize(b));
    RebuiltBeforeFrame(jl, p, b);
    DecodeSerialized(between, b, "");
    assert between + Serialize(b) + "" == between + Serialize(b);
  }

  /** Junk lines and a partial line in front of a serialized frame are rebuilt unchanged. */
  lemma RebuiltBeforeFrame(jl: seq<string>, p: string, b: Array)
    requires WireSafe(b)
    requires forall i :: 0 <= i < |jl| ==> '\n' !in jl[i]
    requires '\n' !in p
    ensures Terminated(Lines(Terminated(jl) + p + Serialize(b))) == Terminated(jl) + p + Serialize(b)
  {
    var fl := FrameLines(b);
    SerializeAsLines(b);
    FrameLinesWithoutNewline(b);
    var ls := [p + fl[0]] + fl[1..];
    TerminatedFirst(p + fl[0], fl[1..]);
    assert fl == [fl[0]] + fl[1..];
    TerminatedFirst(fl[0], fl[1..]);
    assert p + Serialize(b) == Terminated(ls);
    TerminatedAppend(jl, ls);
    assert Terminated(jl) + p + Serialize(b) == Terminated(jl + ls);
    forall i | 0 <= i < |jl + ls| ensures '\n' !in (jl + ls)[i] {
      if i < |jl| {
        assert (jl + ls)[i] == jl[i];
      } else if i == |jl| {
        assert (jl + ls)[i] == p + fl[0];
      } else {
        assert (jl + ls)[i] == fl[i - |jl|];
      }
    }
    TerminatedLines(jl + ls);
  }

  /** With no `*` at all, decoding fails and clears the buffer. */
  lemma NoMarker(buffer: string)
    requires '*' !in buffer
    ensures Decode(buffer) == Decoded(Failure, "")
  {
  }

  /**
   * Fewer than `2N` lines after the header: decoding fails, the text before
   * the `*` is gone and the rest is kept exactly, so that a later append can
   * complete the frame.
   */
  lemma Incomplete(junk: string, framed: string, n: nat)
    requires '*' !in junk && framed != [] && framed[0] == '*'
    requires CountHeader(Lines(framed)[0]) == Some(n) && |Lines(framed)| <= 2 * n
    ensures Decode(junk + framed) == Decoded(Failure, framed)
  {
    SkipJunk(junk, framed);
  }

  /** No digits right after the `*`: decoding fails and keeps the `*`-suffix. */
  lemma MissingCount(junk: string, framed: string)
    requires '*' !in junk && framed != [] && framed[0] == '*'
    requires var first := Lines(framed)[0]; |first| < 2 || !IsDigit(first[1])
    ensures Decode(junk + framed) == Decoded(Failure, framed)
  {
    SkipJunk(junk, framed);
  }

  /**
   * A `*` followed by anything but a digit is never read past: whatever text
   * arrives after it, the decode fails and keeps the whole buffer.
   */
  lemma StuckWithoutCount(framed: string, t: string)
    requires |framed| >= 2 && framed[0] == '*' && !IsDigit(framed[1])
    ensures Decode(framed + t) == Decoded(Failure, framed + t)
  {
    var s := framed + t;
    assert s[0] == '*' && s[1] == framed[1];
    var first := Lines(s)[0];
    var nl := Find(s, '\n');
    if nl.Some? {
      var k := nl.value;
      assert k >= 1;
      assert first == StripCR(s[..k]);
      if k >= 2 {
        assert |first| < 2 || first[1] == s[1];
      }
    }
    assert |first| < 2 || first[1] == s[1];
    MissingCount("", s);
    assert "" + s == s;
  }

  /** Every line of a serialized array, header first. */
  function FrameLines(a: Array): seq<string> {
    [Header(a.size)] + BulkLines(a.args)
  }

  /** Chunk boundaries covered by `SplitDelivery`: the first chunk ends with the
      first `j` frame lines and a proper prefix `q` of the next line with its
      terminator; it is not empty, and never stops inside the last line. */
  predicate SafeSplit(a: Array, j: nat, q: string)
    requires a.size == |a.args|
  {
    && j <= 2 * a.size
    && var line := FrameLines(a)[j];
    && |q| <= |line| + 1 && q == (line + CRLF)[..|q|]
    && (j == 0 ==> q != "")
    && (j == 2 * a.size ==> q == "")
  }

  /** The first chunk of a split delivery. */
  function FirstChunk(a: Array, j: nat, q: string): string
    requires j <= |FrameLines(a)|
  {
    Terminated(FrameLines(a)[..j]) + q
  }

  lemma FrameLinesWithoutNewline(a: Array)
    requires WireSafe(a)
    ensures forall i :: 0 <= i < |FrameLines(a)| ==> '\n' !in FrameLines(a)[i]
  {
    NoNewlineInBulkLines(a.args);
    CountOfHeader(a.size);
    NoNewlineCons(Header(a.size), BulkLines(a.args));
  }

  lemma CompleteLinesWithoutNewline(a: Array, j: nat)
    requires WireSafe(a) && j <= |FrameLines(a)|
    ensures forall i :: 0 <= i < j ==> '\n' !in FrameLines(a)[..j][i]
  {
    FrameLinesWithoutNewline(a);
    forall i | 0 <= i < j ensures '\n' !in FrameLines(a)[..j][i] {
      assert FrameLines(a)[..j][i] == FrameLines(a)[i];
    }
  }

  lemma FirstChunkStart(a: Array, j: nat, q: string)
    requires 1 <= j <= |FrameLines(a)|
    ensures FirstChunk(a, j, q)[0] == '*'
  {
    var done := FrameLines(a)[..j];
    assert Terminated(done) == done[0] + CRLF + Terminated(done[1..]);
  }

  lemma PrefixWithoutNewline(line: string, q: string)
    requires '\n' !in line
    requires |q| <= |line| + 1 && q == (line + CRLF)[..|q|]
    ensures '\n' !in q
  {
    forall k | 0 <= k < |q| ensures q[k] != '\n' {
      assert q[k] == (line + CRLF)[k];
      if k < |line| { assert q[k] == line[k]; }
    }
  }

  /** The lines of a first chunk: the complete lines, then the partial one if any. */
  lemma LinesOfFirstChunk(a: Array, j: nat, q: string)
    requires WireSafe(a) && SafeSplit(a, j, q) && j >= 1
    ensures var ls := Lines(FirstChunk(a, j, q));
      && |ls| == (if q == [] then j else j + 1)
      && ls[0] == Header(a.size)
  {
    var done := FrameLines(a)[..j];
    CompleteLinesWithoutNewline(a, j);
    FrameLinesWithoutNewline(a);
    PrefixWithoutNewline(FrameLines(a)[j], q);
    LinesOfTerminated(done, q);
    if q != [] {
      UnterminatedLine(q);
    }
  }

  /** The first chunk of a safe split is kept whole by the decoder. */
  lemma PartialFrameKept(junk: string, a: Array, j: nat, q: string)
    requires '*' !in junk && WireSafe(a) && SafeSplit(a, j, q)
    ensures Decode(junk + FirstChunk(a, j, q)) == Decoded(Failure, FirstChunk(a, j, q))
  {
    var first := FirstChunk(a, j, q);
    if j == 0 {
      assert first == q;
      HeaderCutKept(junk, a.size, q);
    } else {
      FirstChunkStart(a, j, q);
      LinesOfFirstChunk(a, j, q);
      CountOfHeader(a.size);
      Incomplete(junk, first, a.size);
    }
  }

  /**
   * A first chunk that stops inside the header line reads no count, or a
   * count of at least one with no line after it: decoding fails and keeps
   * the chunk.
   */
  lemma HeaderCutKept(junk: string, n: nat, q: string)
    requires '*' !in junk && 0 < n && 2 * n <= U64_MAX
    requires 0 < |q| <= |Header(n)| + 1 && q == (Header(n) + CRLF)[..|q|]
    ensures Decode(junk + q) == Decoded(Failure, q)
  {
    CountOfHeader(n);
    PrefixWithoutNewline(Header(n), q);
    UnterminatedLine(q);
    assert q[0] == '*';
    SkipJunk(junk, q);
    var count := CountHeader(q);
    if count.Some? {
      HeaderPrefixCount(n, q);
    }
  }

  /** A count read from a non-empty prefix of a header is at least one. */
  lemma HeaderPrefixCount(n: nat, q: string)
    requires 0 < n && 0 < |q| <= |Header(n)| + 1 && q == (Header(n) + CRLF)[..|q|]
    requires CountHeader(q).Some?
    ensures CountHeader(q).value >= 1
  {
    var d := DigitRun(q[1..]);
    var digits := Decimal(n);
    assert d[0] == q[1] == (Header(n) + CRLF)[1] == digits[0];
    DecimalLeading(n);
    LeadingDigitPositive(d);
  }

  /** The first chunk is a prefix of the serialized frame. */
  lemma FirstChunkIsPrefix(a: Array, j: nat, q: string)
    requires WireSafe(a) && SafeSplit(a, j, q)
    ensures FirstChunk(a, j, q) <= Serialize(a)
  {
    var ls := FrameLines(a);
    var line := ls[j];
    TerminatedAppend(ls[..j], ls[j..]);
    assert ls[..j] + ls[j..] == ls;
    SerializeAsLines(a);
    assert Terminated(ls[j..]) == line + CRLF + Terminated(ls[j + 1..]);
    assert q <= Terminated(ls[j..]);
  }

  /**
   * Delivery in two chunks split at a line boundary, or inside any line but
   * the last one: the first chunk is kept whole, and once the rest is
   * appended the frame decodes as if it had come at once.
   */
  lemma SplitDelivery(junk: string, a: Array, j: nat, q: string)
    requires '*' !in junk && WireSafe(a) && SafeSplit(a, j, q)
    ensures var first := FirstChunk(a, j, q);
      && Decode(junk + first) == Decoded(Failure, first)
      && first <= Serialize(a)
      && Decode(first + Serialize(a)[|first|..]) == Decoded(Success(a), "")
  {
    var first := FirstChunk(a, j, q);
    PartialFrameKept(junk, a, j, q);
    FirstChunkIsPrefix(a, j, q);
    assert first + Serialize(a)[|first|..] == Serialize(a);
    RoundTrip(a);
  }

  lemma {:induction false} BulkLinesAppend(xs: seq<string>, ys: seq<string>)
    ensures BulkLines(xs + ys) == BulkLines(xs) + BulkLines(ys)
  {
    if xs == [] {
      assert xs + ys == ys;
    } else {
      assert (xs + ys)[1..] == xs[1..] + ys;
      BulkLinesAppend(xs[1..], ys);
      var pair := ["$" + Decimal(|xs[0]|), xs[0]];
      assert pair + (BulkLines(xs[1..]) + BulkLines(ys)) == (pair + BulkLines(xs[1..])) + BulkLines(ys);
    }
  }

  /** The arguments among the lines of all but the last element, the last length line and a cut last element. */
  lemma ArgumentsOfCut(init: seq<string>, len: string, q: string)
    requires forall i :: 0 <= i < |init| ==> !IsLengthLine(init[i])
    requires IsLengthLine(len) && !IsLengthLine(q)
    ensures Arguments(BulkLines(init) + [len, q]) == init + [q]
  {
    ArgumentsAppend(BulkLines(init), [len, q]);
    ArgumentsOfBulkLines(init);
    ArgumentsOfPair(len, q);
  }

  lemma ArgumentsOfPair(len: string, q: string)
    requires IsLengthLine(len) && !IsLengthLine(q)
    ensures Arguments([len, q]) == [q]
  {
    assert [len, q][..1] == [len];
    assert [len][..0] == [];
    assert Arguments([len]) == [];
  }

  /** The lines of a serialized array up to, but not including, its last element. */
  lemma LinesBeforeLast(a: Array)
    requires WireSafe(a)
    ensures var n := a.size; var last := a.args[n - 1];
      FrameLines(a)[..2 * n] == [Header(n)] + (BulkLines(a.args[..n - 1]) + ["$" + Decimal(|last|)])
  {
    var n := a.size;
    var init := a.args[..n - 1];
    var last := a.args[n - 1];
    assert a.args == init + [last];
    BulkLinesAppend(init, [last]);
    assert BulkLines([last]) == ["$" + Decimal(|last|), last];
    assert BulkLines(a.args)[..2 * n - 1] == BulkLines(init) + ["$" + Decimal(|last|)];
    HeadTail(Header(n), BulkLines(a.args)[..2 * n - 1], []);
  }

  /** The lines of a first chunk cut inside the last element. */
  lemma LinesOfCutChunk(a: Array, q: string)
    requires WireSafe(a)
    requires var last := a.args[a.size - 1]; 0 < |q| <= |last| + 1 && q == (last + CRLF)[..|q|]
    ensures var n := a.size; var first := FirstChunk(a, 2 * n, q);
      && first[0] == '*'
      && Lines(first) == [Header(n)] + (BulkLines(a.args[..n - 1]) + ["$" + Decimal(|a.args[n - 1]|), q] + [])
  {
    var n := a.size;
    var init := a.args[..n - 1];
    var last := a.args[n - 1];
    var len := "$" + Decimal(|last|);
    var done := FrameLines(a)[..2 * n];
    var first := FirstChunk(a, 2 * n, q);
    LinesBeforeLast(a);
    CompleteLinesWithoutNewline(a, 2 * n);
    PrefixWithoutNewline(last, q);
    LinesOfTerminated(done, q);
    UnterminatedLine(q);
    FirstChunkStart(a, 2 * n, q);
    Regroup(Header(n), BulkLines(init) + [len], [q]);
    assert BulkLines(init) + [len] + [q] == BulkLines(init) + [len, q] + [];
  }

  /**
   * Where two-chunk delivery does not work: a first chunk that stops inside
   * the last element, or between its `\r` and `\n`, already passes for a
   * whole frame. The decoder returns the frame with that element cut short,
   * or with a stray `\r` at its end, and empties the buffer, so the rest
   * later arrives as junk.
   */
  lemma LastArgumentCut(junk: string, a: Array, q: string)
    requires '*' !in junk && WireSafe(a)
    requires var last := a.args[a.size - 1]; 0 < |q| <= |last| + 1 && q == (last + CRLF)[..|q|]
    ensures Decode(junk + FirstChunk(a, 2 * a.size, q))
      == Decoded(Success(Array(a.size, a.args[..a.size - 1] + [q])), "")
  {
    var n := a.size;
    var init := a.args[..n - 1];
    var last := a.args[n - 1];
    var len := "$" + Decimal(|last|);
    LinesOfCutChunk(a, q);
    DecodeWholeText(junk, FirstChunk(a, 2 * n, q), n, BulkLines(init) + [len, q]);
    assert !IsLengthLine(q) by {
      assert q[0] == (last + CRLF)[0];
      if last != [] { assert q[0] == last[0]; }
    }
    ArgumentsOfCut(init, len, q);
  }

  /** A text that holds exactly one frame's lines, the last one unterminated or not, is consumed whole. */
  lemma DecodeWholeText(junk: string, framed: string, n: nat, body: seq<string>)
    requires '*' !in junk && framed != [] && framed[0] == '*'
    requires 2 * n <= U64_MAX && |body| == 2 * n
    requires Lines(framed) == [Header(n)] + (body + [])
    ensures Decode(junk + framed) == Decoded(FrameOutcome(n, body), "")
  {
    SkipJunk(junk, framed);
    HeadTail(Header(n), body, []);
    CountOfHeader(n);
    DecodeFrameConsumes(framed, n);
  }

  /**
   * A frame split inside its last element: `ECHO hello` delivered as
   * `...$5\r\nhel` and then `lo\r\n` decodes as `ECHO hel`.
   */
  lemma TruncatedEcho(buffer: string, a: Array, cut: string)
    requires a == Array(2, ["echo", "hello"]) && cut == "hel"
    requires buffer == "*2\r\n" + "$4\r\n" + "echo\r\n" + "$5\r\n" + cut
    ensures Decode(buffer) == Decoded(Success(Array(2, ["echo", "hel"])), "")
  {
    assert WireSafe(a);
    PrefixOfLine(a.args[1], cut);
    LastArgumentCut("", a, cut);
    EchoFirstChunk(a, cut);
    assert "" + FirstChunk(a, 4, cut) == buffer;
    assert a.args[..1] + [cut] == ["echo", "hel"];
  }

  lemma PrefixOfLine(line: string, cut: string)
    requires cut <= line
    ensures cut == (line + CRLF)[..|cut|]
  {
  }

  /** Four lines, re-terminated. */
  lemma TerminatedFour(ls: seq<string>)
    requires |ls| == 4
    ensures Terminated(ls) == ls[0] + CRLF + (ls[1] + CRLF + (ls[2] + CRLF + (ls[3] + CRLF + "")))
  {
    var s1, s2, s3 := ls[1..], ls[2..], ls[3..];
    assert s1[1..] == s2 && s2[1..] == s3 && s3[1..] == [];
    assert Terminated(s3) == ls[3] + CRLF + "";
    assert Terminated(s2) == ls[2] + CRLF + Terminated(s3);
    assert Terminated(s1) == ls[1] + CRLF + Terminated(s2);
  }

  lemma EchoFirstChunk(a: Array, cut: string)
    requires a == Array(2, ["echo", "hello"])
    ensures FirstChunk(a, 4, cut) == "*2\r\n" + "$4\r\n" + "echo\r\n" + "$5\r\n" + cut
  {
    var four, five := |a.args[0]|, |a.args[1]|;
    assert Decimal(four) == "4" && Decimal(five) == "5";
    assert Header(2) == "*2";
    var tail := a.args[1..];
    assert tail[0] == "hello" && tail[1..] == [];
    assert BulkLines(tail) == ["$" + Decimal(five), "hello"] + BulkLines([]);
    assert BulkLines(a.args) == ["$" + Decimal(four), "echo"] + BulkLines(tail);
    var lines := FrameLines(a)[..4];
    assert lines[0] == "*2" && lines[1] == "$4" && lines[2] == "echo" && lines[3] == "$5";
    TerminatedFour(lines);
  }

  /**
   * A frame whose last element is followed by its `\r` but not yet its `\n`:
   * `*1\r\n$1\r\nx\r` decodes as the element `x\r`, and the buffer is
   * emptied, so the `\n` that follows later arrives as junk.
   */
  lemma StrayReturn(buffer: string, a: Array, cut: string)
    requires a == Array(1, ["x"]) && cut == "x\r"
    requires buffer == "*1\r\n" + "$1\r\n" + cut
    ensures Decode(buffer) == Decoded(Success(Array(1, ["x\r"])), "")
  {
    assert WireSafe(a);
    assert cut == (a.args[0] + CRLF)[..|cut|];
    LastArgumentCut("", a, cut);
    StrayFirstChunk(a, cut);
    assert "" + FirstChunk(a, 2, cut) == buffer;
    assert a.args[..0] + [cut] == ["x\r"];
  }

  lemma StrayFirstChunk(a: Array, cut: string)
    requires a == Array(1, ["x"])
    ensures FirstChunk(a, 2, cut) == "*1\r\n" + "$1\r\n" + cut
  {
    var one := |a.args[0]|;
    assert Decimal(one) == "1" && Header(1) == "*1";
    assert BulkLines(a.args) == ["$" + Decimal(one), "x"] + BulkLines([]);
    var lines := FrameLines(a)[..2];
    assert lines[0] == "*1" && lines[1] == "$1";
    TerminatedTwo(lines);
  }

  /** Two lines, re-terminated. */
  lemma TerminatedTwo(ls: seq<string>)
    requires |ls| == 2
    ensures Terminated(ls) == ls[0] + CRLF + (ls[1] + CRLF + "")
  {
    var s1 := ls[1..];
    assert s1[1..] == [];
    assert Terminated(s1) == ls[1] + CRLF + "";
  }

  /**
   * The leftover text after a frame is rebuilt from its lines, so a trailing
   * partial line, the start of the next frame, gets a `\r\n` that was never
   * received.
   */
  lemma PartialTailTerminated(junk: string, a: Array, done: seq<string>, p: string)
    requires '*' !in junk && WireSafe(a)
    requires forall i :: 0 <= i < |done| ==> '\n' !in done[i]
    requires p != [] && '\n' !in p
    ensures Decode(junk + Serialize(a) + (Terminated(done) + p)) == Decoded(Success(a), Terminated(done) + p + CRLF)
  {
    DecodeSerialized(junk, a, Terminated(done) + p);
    RebuiltWithTerminator(done, p);
  }

  /** Rebuilding complete lines followed by a partial one terminates the partial one too. */
  lemma RebuiltWithTerminator(done: seq<string>, p: string)
    requires forall i :: 0 <= i < |done| ==> '\n' !in done[i]
    requires p != [] && '\n' !in p
    ensures Terminated(Lines(Terminated(done) + p)) == Terminated(done) + p + CRLF
  {
    LinesOfTerminated(done, p);
    UnterminatedLine(p);
    TerminatedAppend(done, [p]);
    assert Terminated([p]) == p + CRLF + "";
  }
}
