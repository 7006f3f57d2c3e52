/**
 * The decoder's unit tests in `request.rs`, each stated as a lemma about
 * `DecodeRequest` on the test's buffer.
 */
module RequestExamples {
  import opened Text
  import opened RequestCodec
  import opened RequestProperties

  /** Frames of one, two and three elements, spelt out bulk string by bulk string. */
  lemma FrameText(x: string, y: string, z: string)
    ensures Serialize(Array(1, [x])) == "*1\r\n" + (BulkString(x) + "")
    ensures Serialize(Array(2, [x, y])) == "*2\r\n" + (BulkString(x) + (BulkString(y) + ""))
    ensures Serialize(Array(3, [x, y, z])) == "*3\r\n" + (BulkString(x) + (BulkString(y) + (BulkString(z) + "")))
  {
    assert Decimal(1) == "1" && Decimal(2) == "2" && Decimal(3) == "3";
    assert [x, y, z][1..] == [y, z] && [y, z][1..] == [z] && [x, y][1..] == [y];
    assert [z][1..] == [] && [y][1..] == [] && [x][1..] == [];
    assert BulkStrings([z]) == BulkString(z) + "";
    assert BulkStrings([y]) == BulkString(y) + "";
    assert BulkStrings([x]) == BulkString(x) + "";
    assert BulkStrings([y, z]) == BulkString(y) + (BulkString(z) + "");
    assert BulkStrings([x, y]) == BulkString(x) + (BulkString(y) + "");
    assert BulkStrings([x, y, z]) == BulkString(x) + (BulkString(y) + (BulkString(z) + ""));
  }

  /** A two-element frame given by the text of its bulk strings. */
  lemma TwoFrame(text: string, x: string, y: string, first: string, second: string)
    requires BulkString(x) == first && BulkString(y) == second
    requires text == "*2\r\n" + first + second
    ensures text == Serialize(Array(2, [x, y]))
  {
    FrameText(x, y, "");
  }

  /** A three-element frame given by the text of its bulk strings. */
  lemma ThreeFrame(text: string, x: string, y: string, z: string, first: string, second: string, third: string)
    requires BulkString(x) == first && BulkString(y) == second && BulkString(z) == third
    requires text == "*3\r\n" + first + second + third
    ensures text == Serialize(Array(3, [x, y, z]))
  {
    FrameText(x, y, z);
  }

  /** A buffer that holds one serialized frame is decoded as the request that frame selects. */
  lemma OneFrame(buffer: string, junk: string, a: Array, t: string, r: Result<Request>)
    requires WireSafe(a) && '*' !in junk && FromArray(a) == r
    requires buffer == junk + Serialize(a) + t
    ensures DecodeRequest(buffer) == (r, Terminated(Lines(t)))
  {
    DecodeRequestSerialized(junk, a, t);
  }

  /** A buffer whose frame has fewer lines than its count asks for is kept from its `*` on. */
  lemma ShortFrame(buffer: string, junk: string, done: seq<string>, n: nat)
    requires '*' !in junk && done != [] && done[0] != [] && done[0][0] == '*'
    requires forall i :: 0 <= i < |done| ==> '\n' !in done[i]
    requires CountHeader(done[0]) == Some(n) && |done| <= 2 * n
    requires buffer == junk + Terminated(done)
    ensures DecodeRequest(buffer) == (Failure, Terminated(done))
  {
    LinesOfTerminated(done, "");
    assert Terminated(done) + "" == Terminated(done);
    assert done + Lines("") == done;
    assert Terminated(done) == done[0] + CRLF + Terminated(done[1..]);
    DecoderProperties.Incomplete(junk, Terminated(done), n);
  }

  lemma EmptyBuffer(buffer: string)
    requires buffer == ""
    ensures DecodeRequest(buffer) == (Failure, "")
  {
  }

  lemma Junk(buffer: string)
    requires buffer == "junk"
    ensures DecodeRequest(buffer) == (Failure, "")
  {
  }

  /**
   * A frame that declares no elements decodes as the empty array; command
   * selection then has no first element to read, and fails.
   */
  lemma EmptyArray(buffer: string, header: string)
    requires header == "*0" && buffer == header + CRLF
    ensures Decode(buffer) == Decoded(Success(Array(0, [])), "")
    ensures DecodeRequest(buffer) == (Failure, "")
  {
    LinesCons(header, "");
    assert buffer == header + CRLF + "";
    assert Lines(buffer) == [header];
    assert header[1..] == "0";
    assert DigitRun(header[1..]) == "0";
    assert DecimalValue("0") == DecimalValue("") * 10 + DigitValue('0') == 0;
    assert CountHeader(header) == Some(0);
    assert Lines(buffer)[1..1] == [];
  }

  /** The count line and one length line of a one-element frame. */
  lemma IncompleteText()
    ensures Terminated(["*1", "$4"]) == "*1\r\n$4\r\n"
    ensures CountHeader("*1") == Some(1)
  {
    TerminatedFirst("$4", []);
    TerminatedFirst("*1", ["$4"]);
    assert ["*1", "$4"] == ["*1"] + ["$4"];
    assert ["$4"] == ["$4"] + [];
    assert DigitRun("1") == "1";
  }

  lemma IncompleteRequest(buffer: string)
    requires buffer == "*1\r\n$4\r\n"
    ensures DecodeRequest(buffer) == (Failure, buffer)
  {
    IncompleteText();
    ShortFrame(buffer, "", ["*1", "$4"], 1);
  }

  lemma IncompleteRequestWithPrefix(buffer: string)
    requires buffer == "\r\n$4s*1\r\n$4\r\n"
    ensures DecodeRequest(buffer) == (Failure, "*1\r\n$4\r\n")
  {
    IncompleteText();
    ShortFrame(buffer, "\r\n$4s", ["*1", "$4"], 1);
  }

  /** The frame `*1 $4 <command>` for a four-letter command. */
  lemma OneWordText(command: string)
    requires |command| == 4 && '\n' !in command && command[0] != '$'
    ensures WireSafe(Array(1, [command]))
    ensures Serialize(Array(1, [command])) == "*1\r\n$4\r\n" + command + "\r\n"
  {
    FrameText(command, "", "");
    assert Decimal(4) == "4";
  }

  /** The frame of `ping` as the tests write it. */
  lemma PingText(text: string)
    requires text == "*1\r\n$4\r\nping\r\n"
    ensures WireSafe(Array(1, ["ping"])) && text == Serialize(Array(1, ["ping"]))
    ensures FromArray(Array(1, ["ping"])) == Success(Request.Ping)
  {
    OneWordText("ping");
    assert LowerAscii("ping") == "ping";
  }

  lemma PingExample(buffer: string)
    requires buffer == "*1\r\n$4\r\nping\r\n"
    ensures DecodeRequest(buffer) == (Success(Request.Ping), "")
  {
    PingText(buffer);
    OneFrame(buffer, "", Array(1, ["ping"]), "", Success(Request.Ping));
  }

  lemma PingUpperCase(buffer: string)
    requires buffer == "*1\r\n$4\r\nPING\r\n"
    ensures DecodeRequest(buffer).0 == Success(Request.Ping)
  {
    OneWordText("PING");
    CommandNames();
    OneFrame(buffer, "", Array(1, ["PING"]), "", Success(Request.Ping));
  }

  lemma PingMixedCase(buffer: string)
    requires buffer == "*1\r\n$4\r\npiNG\r\n"
    ensures DecodeRequest(buffer).0 == Success(Request.Ping)
  {
    OneWordText("piNG");
    assert LowerAscii("piNG") == "ping" by {
      var l := LowerAscii("piNG");
      assert l[0] == 'p' && l[1] == 'i' && l[2] == 'n' && l[3] == 'g';
    }
    OneFrame(buffer, "", Array(1, ["piNG"]), "", Success(Request.Ping));
  }

  /** Text before the first `*` is skipped. */
  lemma PingWithPrefix(pingRaw: string, buffer: string)
    requires pingRaw == "*1\r\n$4\r\nping\r\n"
    requires buffer == "\r\n$4s" + pingRaw
    ensures DecodeRequest(buffer) == (Success(Request.Ping), "")
  {
    PingText(pingRaw);
    OneFrame(buffer, "\r\n$4s", Array(1, ["ping"]), "", Success(Request.Ping));
  }

  /** Text after the frame is left in the buffer. */
  lemma PingWithPrefixAndPostfix(pingRaw: string, buffer: string)
    requires pingRaw == "*1\r\n$4\r\nping\r\n"
    requires buffer == "$4\r\n" + pingRaw + "$4\r\n"
    ensures DecodeRequest(buffer) == (Success(Request.Ping), "$4\r\n")
  {
    PingText(pingRaw);
    var t := "$4\r\n";
    assert buffer == t + pingRaw + t;
    assert '*' !in t;
    RebuiltLine("$4", t);
    OneFrame(buffer, t, Array(1, ["ping"]), t, Success(Request.Ping));
  }

  /** One terminated line is rebuilt unchanged. */
  lemma RebuiltLine(l: string, t: string)
    requires '\n' !in l && t == l + CRLF
    ensures Terminated(Lines(t)) == t
  {
    TerminatedFirst(l, []);
    assert [l] == [l] + [];
    TerminatedLines([l]);
  }

  /** The frame of `ECHO "Hello, world!"` as the tests write it. */
  lemma EchoText(text: string, echo: string, hello: string)
    requires echo == "echo" && hello == "Hello, world!"
    requires text == "*2\r\n" + "$4\r\necho\r\n" + "$13\r\nHello, world!\r\n"
    ensures WireSafe(Array(2, [echo, hello]))
    ensures text == Serialize(Array(2, [echo, hello]))
  {
    EchoBulkStrings(echo, hello);
    TwoFrame(text, echo, hello, "$4\r\necho\r\n", "$13\r\nHello, world!\r\n");
  }

  lemma EchoSelected()
    ensures FromArray(Array(2, ["echo", "Hello, world!"])) == Success(Request.Echo("Hello, world!"))
  {
    assert LowerAscii("echo") == "echo";
  }

  /** A bulk string whose length prints as `digits`. */
  lemma BulkStringOf(arg: string, digits: string)
    requires Decimal(|arg|) == digits
    ensures BulkString(arg) == "$" + digits + "\r\n" + arg + "\r\n"
  {
  }

  lemma EchoBulkStrings(echo: string, hello: string)
    requires echo == "echo" && hello == "Hello, world!"
    ensures BulkString(echo) == "$4\r\necho\r\n"
    ensures BulkString(hello) == "$13\r\nHello, world!\r\n"
  {
    var four, thirteen := |echo|, |hello|;
    assert Decimal(four) == "4";
    assert Decimal(thirteen) == "13";
    BulkStringOf(echo, "4");
    BulkStringOf(hello, "13");
  }

  lemma EchoExample(buffer: string)
    requires buffer == "*2\r\n" + "$4\r\necho\r\n" + "$13\r\nHello, world!\r\n"
    ensures DecodeRequest(buffer) == (Success(Request.Echo("Hello, world!")), "")
  {
    EchoText(buffer, "echo", "Hello, world!");
    EchoSelected();
    OneFrame(buffer, "", Array(2, ["echo", "Hello, world!"]), "", Success(Request.Echo("Hello, world!")));
  }

  /** The frame of `set <key> b` for a one-letter key, as the tests write it. */
  lemma SetText(text: string, command: string, key: string, value: string)
    requires command == "set" && (key == "a" || key == "A") && value == "b"
    requires text == "*3\r\n" + "$3\r\nset\r\n" + ("$1\r\n" + key + "\r\n") + "$1\r\nb\r\n"
    ensures WireSafe(Array(3, [command, key, value]))
    ensures text == Serialize(Array(3, [command, key, value]))
  {
    var three, one := |command|, |key|;
    assert Decimal(three) == "3" && Decimal(one) == "1";
    BulkStringOf(command, "3");
    BulkStringOf(key, "1");
    BulkStringOf(value, "1");
    ThreeFrame(text, command, key, value, "$3\r\nset\r\n", "$1\r\n" + key + "\r\n", "$1\r\nb\r\n");
  }

  lemma SetExample(buffer: string)
    requires buffer == "*3\r\n" + "$3\r\nset\r\n" + "$1\r\na\r\n" + "$1\r\nb\r\n"
    ensures DecodeRequest(buffer) == (Success(Request.Set("a", "b")), "")
  {
    SetText(buffer, "set", "a", "b");
    assert LowerAscii("set") == "set";
    OneFrame(buffer, "", Array(3, ["set", "a", "b"]), "", Success(Request.Set("a", "b")));
  }

  /** Only the command name is lowered; its operands keep their case. */
  lemma SetCaseSensitiveArgs(buffer: string)
    requires buffer == "*3\r\n" + "$3\r\nset\r\n" + "$1\r\nA\r\n" + "$1\r\nb\r\n"
    ensures DecodeRequest(buffer) == (Success(Request.Set("A", "b")), "")
  {
    SetText(buffer, "set", "A", "b");
    assert LowerAscii("set") == "set";
    OneFrame(buffer, "", Array(3, ["set", "A", "b"]), "", Success(Request.Set("A", "b")));
  }

  lemma GetText(text: string, command: string, key: string)
    requires command == "get" && key == "a"
    requires text == "*2\r\n" + "$3\r\nget\r\n" + "$1\r\na\r\n"
    ensures WireSafe(Array(2, [command, key]))
    ensures text == Serialize(Array(2, [command, key]))
  {
    var three, one := |command|, |key|;
    assert Decimal(three) == "3" && Decimal(one) == "1";
    BulkStringOf(command, "3");
    BulkStringOf(key, "1");
    TwoFrame(text, command, key, "$3\r\nget\r\n", "$1\r\na\r\n");
  }

  lemma GetExample(buffer: string)
    requires buffer == "*2\r\n" + "$3\r\nget\r\n" + "$1\r\na\r\n"
    ensures DecodeRequest(buffer) == (Success(Request.Get("a")), "")
  {
    GetText(buffer, "get", "a");
    assert LowerAscii("get") == "get";
    OneFrame(buffer, "", Array(2, ["get", "a"]), "", Success(Request.Get("a")));
  }

  /** Two frames in one buffer, with junk lines and a partial junk line between them. */
  lemma TwoFrames(buffer: string, junk: string, a: Array, between: string, jl: seq<string>, p: string, b: Array,
                  ra: Result<Request>, rb: Result<Request>)
    requires '*' !in junk && WireSafe(a) && WireSafe(b)
    requires forall i :: 0 <= i < |jl| ==> '\n' !in jl[i]
    requires '\n' !in p && between == Terminated(jl) + p && '*' !in between
    requires FromArray(a) == ra && FromArray(b) == rb
    requires buffer == junk + Serialize(a) + (between + Serialize(b))
    ensures DecodeRequest(buffer) == (ra, between + Serialize(b))
    ensures DecodeRequest(between + Serialize(b)) == (rb, "")
  {
    DecoderProperties.PipelinedAfterJunk(junk, a, jl, p, b);
  }

  /** Two frames, each behind some junk, come out one per decode. */
  lemma PingAndThenEcho(pingRaw: string, echoRaw: string, buffer: string)
    requires pingRaw == "*1\r\n$4\r\nping\r\n"
    requires echoRaw == "*2\r\n" + "$4\r\necho\r\n" + "$13\r\nHello, world!\r\n"
    requires buffer == "\r\n$4s" + pingRaw + "\r\n$4s" + echoRaw
    ensures DecodeRequest(buffer).0 == Success(Request.Ping)
    ensures DecodeRequest(DecodeRequest(buffer).1) == (Success(Request.Echo("Hello, world!")), "")
  {
    // Bound by `:|` rather than `:=`: the junk then enters the proof as an
    // equation on a variable, and the verifier does not unfold the literal
    // character by character in every slice of the buffer.
    var between :| between == "\r\n$4s";
    assert buffer == between + pingRaw + (between + echoRaw);
    PingText(pingRaw);
    EchoText(echoRaw, "echo", "Hello, world!");
    EchoSelected();
    assert between == Terminated([""]) + "$4s" by {
      TerminatedFirst("", []);
      assert [""] == [""] + [];
    }
    TwoFrames(buffer, between, Array(1, ["ping"]), between, [""], "$4s", Array(2, ["echo", "Hello, world!"]),
      Success(Request.Ping), Success(Request.Echo("Hello, world!")));
  }

  /** Arguments of a length line, two other lines and a trailing length line. */
  lemma ArgumentsOfSplitPair(body: seq<string>)
    requires |body| == 4 && IsLengthLine(body[0]) && IsLengthLine(body[3])
    requires !IsLengthLine(body[1]) && !IsLengthLine(body[2])
    ensures Arguments(body) == [body[1], body[2]]
  {
    var three := body[..3];
    assert three[..2] == body[..2];
    DecoderProperties.ArgumentsOfPair(body[0], body[1]);
    assert body[..2] == [body[0], body[1]];
  }

  /** Five lines, re-terminated. */
  lemma TerminatedFive(ls: seq<string>)
    requires |ls| == 5
    ensures Terminated(ls) == ls[0] + CRLF + (ls[1] + CRLF + (ls[2] + CRLF + (ls[3] + CRLF + (ls[4] + CRLF + ""))))
  {
    var s1, s2, s3, s4 := ls[1..], ls[2..], ls[3..], ls[4..];
    assert s1[1..] == s2 && s2[1..] == s3 && s3[1..] == s4 && s4[1..] == [];
    assert Terminated(s4) == ls[4] + CRLF + "";
    assert Terminated(s3) == ls[3] + CRLF + Terminated(s4);
    assert Terminated(s2) == ls[2] + CRLF + Terminated(s3);
    assert Terminated(s1) == ls[1] + CRLF + Terminated(s2);
  }

  /** The text the decoder sees once the rest of a split `echo hello` frame is appended. */
  lemma ResplitEchoText(text: string, body: seq<string>, t: string)
    requires body == ["$4", "ec", "ho", "$5"] && t == "hello\r\n"
    requires text == "*2\r\n" + "$4\r\n" + "ec\r\n" + "ho\r\n" + "$5\r\n" + "hello\r\n"
    ensures text == "" + Terminated([Header(2)] + body) + t
  {
    var lines := [Header(2)] + body;
    assert Header(2) == "*2";
    assert |lines| == 5 && lines[0] == "*2" && lines[1] == "$4" && lines[2] == "ec" && lines[3] == "ho" && lines[4] == "$5";
    TerminatedFive(lines);
  }

  /** A whole frame followed by complete lines `done` and a partial line `p`. */
  lemma FrameThenPartial(buffer: string, a: Array, done: seq<string>, p: string, r: Result<Request>, rest: string)
    requires WireSafe(a) && FromArray(a) == r
    requires forall i :: 0 <= i < |done| ==> '\n' !in done[i]
    requires p != [] && '\n' !in p
    requires buffer == "" + Serialize(a) + (Terminated(done) + p)
    requires rest == Terminated(done) + p + CRLF
    ensures DecodeRequest(buffer) == (r, rest)
  {
    DecoderProperties.PartialTailTerminated("", a, done, p);
  }

  lemma TwoLinesText(done: seq<string>)
    requires done == ["*2", "$4"]
    ensures Terminated(done) == "*2\r\n$4\r\n"
  {
    TerminatedFirst("$4", []);
    TerminatedFirst("*2", ["$4"]);
    assert done == ["*2"] + ["$4"];
    assert ["$4"] == ["$4"] + [];
  }

  /** The first decode takes the whole `ping` frame and re-terminates the partial line after it. */
  lemma PartialAfterPing(pingRaw: string, first: string)
    requires pingRaw == "*1\r\n$4\r\nping\r\n"
    requires first == pingRaw + "*2\r\n$4\r\nec"
    ensures DecodeRequest(first) == (Success(Request.Ping), "*2\r\n" + "$4\r\n" + "ec\r\n")
  {
    PingText(pingRaw);
    var a := Array(1, ["ping"]);
    var done := ["*2", "$4"];
    var p := "ec";
    var rest := "*2\r\n" + "$4\r\n" + "ec\r\n";
    TwoLinesText(done);
    assert first == "" + Serialize(a) + (Terminated(done) + p);
    assert rest == Terminated(done) + p + CRLF;
    FrameThenPartial(first, a, done, p, Success(Request.Ping), rest);
  }

  /** A frame of two declared elements whose four lines hold two arguments and a trailing length line. */
  lemma SplitPairFrame(buffer: string, body: seq<string>, x: string, y: string, t: string, rest: string)
    requires |body| == 4 && body[1] == x && body[2] == y
    requires IsLengthLine(body[0]) && IsLengthLine(body[3]) && !IsLengthLine(x) && !IsLengthLine(y)
    requires forall i :: 0 <= i < |body| ==> '\n' !in body[i]
    requires buffer == "" + Terminated([Header(2)] + body) + t
    requires rest == Terminated(Lines(t))
    ensures DecodeRequest(buffer) == (FromArray(Array(2, [x, y])), rest)
  {
    ArgumentsOfSplitPair(body);
    assert DecoderProperties.FrameOutcome(2, body) == Success(Array(2, [x, y]));
    DecoderProperties.DecodeConsumesFrame("", 2, body, t);
  }

  lemma SplitBodyLines(body: seq<string>)
    requires body == ["$4", "ec", "ho", "$5"]
    ensures |body| == 4 && body[1] == "ec" && body[2] == "ho"
    ensures IsLengthLine(body[0]) && IsLengthLine(body[3]) && !IsLengthLine(body[1]) && !IsLengthLine(body[2])
    ensures forall i :: 0 <= i < |body| ==> '\n' !in body[i]
  {
  }

  lemma MisreadSelectsNothing(x: string, y: string)
    requires x == "ec" && y == "ho"
    ensures FromArray(Array(2, [x, y])) == Failure
  {
    assert LowerAscii(x) == "ec";
  }

  /** The re-terminated frame: `ec` and `ho` become its elements and `hello` is left over. */
  lemma ResplitEcho(kept: string, rest: string)
    requires kept == "*2\r\n" + "$4\r\n" + "ec\r\n"
    requires rest == "ho\r\n" + "$5\r\n" + "hello\r\n"
    ensures DecodeRequest(kept + rest) == (Failure, "hello\r\n")
  {
    var text := kept + rest;
    var body := ["$4", "ec", "ho", "$5"];
    var t := "hello\r\n";
    var x := "ec";
    var y := "ho";
    ResplitEchoText(text, body, t);
    SplitBodyLines(body);
    RebuiltLine("hello", t);
    MisreadSelectsNothing(x, y);
    SplitPairFrame(text, body, x, y, t, t);
  }

  /**
   * A frame split inside a line and delivered behind a whole frame: the first
   * decode re-terminates the partial line, so once the rest arrives the
   * element `echo` reads as two lines, `ec` and `ho`, the frame selects no
   * command, and `hello` is left behind. Delivered unsplit, the frame would
   * have read as `ECHO hello`.
   */
  lemma SplitEchoMisread(pingRaw: string, first: string, rest: string)
    requires pingRaw == "*1\r\n$4\r\nping\r\n"
    requires first == pingRaw + "*2\r\n$4\r\nec"
    requires rest == "ho\r\n" + "$5\r\n" + "hello\r\n"
    ensures DecodeRequest(first) == (Success(Request.Ping), "*2\r\n" + "$4\r\n" + "ec\r\n")
    ensures DecodeRequest(DecodeRequest(first).1 + rest) == (Failure, "hello\r\n")
  {
    PartialAfterPing(pingRaw, first);
    ResplitEcho(DecodeRequest(first).1, rest);
  }
}
