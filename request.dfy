/**
 * The request side of the wire protocol: array frames of bulk strings, their
 * serialization, the incremental frame decoder that works on a connection's
 * text buffer in place, and the selection of a command from a decoded frame.
 *
 * A frame is `*<N>\r\n` followed by `N` pairs `$<len>\r\n<arg>\r\n`. The
 * decoder works line by line: it never checks a declared `<len>`, it skips
 * every line that starts with `$`, and it takes every other line as the next
 * argument.
 */
module RequestCodec {
  import opened Text

  datatype Request = Ping | Echo(message: string) | Set(key: string, value: string) | Get(key: string)

  /** A frame: its declared element count and the elements collected. */
  datatype Array = Array(size: nat, args: seq<string>)

  function AddElement(a: Array, arg: string): (b: Array)
    ensures b.size == a.size && b.args == a.args + [arg]
  {
    Array(a.size, a.args + [arg])
  }

  predicate IsComplete(a: Array) {
    |a.args| == a.size
  }

  /** A line that the decoder takes for a bulk-string length header. */
  predicate IsLengthLine(line: string) {
    |line| > 0 && line[0] == '$'
  }

  /** The first line of a frame that declares `n` elements. */
  function Header(n: nat): string {
    "*" + Decimal(n)
  }

  /** The `$<len>` and `<arg>` line of each argument, in order. */
  function BulkLines(args: seq<string>): (ls: seq<string>)
    ensures |ls| == 2 * |args|
  {
    if args == [] then [] else ["$" + Decimal(|args[0]|), args[0]] + BulkLines(args[1..])
  }

  /** One bulk string: `$<character count>\r\n<arg>\r\n`. */
  function BulkString(arg: string): string {
    "$" + Decimal(|arg|) + CRLF + arg + CRLF
  }

  function BulkStrings(args: seq<string>): string {
    if args == [] then "" else BulkString(args[0]) + BulkStrings(args[1..])
  }

  /** `Array::serialize`; the source asserts a non-zero size. Lengths count characters. */
  function Serialize(a: Array): string
    requires a.size > 0
  {
    Header(a.size) + CRLF + BulkStrings(a.args)
  }

  /** An array the decoder can read back from its serialization: the declared
      size is the real one, non-zero, and doubles within a `usize`; no element
      holds a `\n` or starts with `$`. */
  predicate WireSafe(a: Array) {
    && a.size == |a.args| && 0 < a.size && 2 * a.size <= U64_MAX
    && forall i :: 0 <= i < |a.args| ==> '\n' !in a.args[i] && !IsLengthLine(a.args[i])
  }

  /**
   * The count on a frame's first line: the longest run of ASCII digits right
   * after its first character, parsed as a `usize`. An empty run, or one too
   * large for 64 bits, gives no count.
   */
  function CountHeader(line: string): (n: Option<nat>)
    ensures n.Some? <==> |line| > 1 && DigitRun(line[1..]) != [] && DecimalValue(DigitRun(line[1..])) <= U64_MAX
    ensures n.Some? ==> n.value == DecimalValue(DigitRun(line[1..]))
  {
    ParseU64(DigitRun(if line == [] then line else line[1..]))
  }

  /** The arguments among some frame lines: every line that is not a length line, in order. */
  function Arguments(lines: seq<string>): (args: seq<string>)
    ensures |args| <= |lines|
  {
    if lines == [] then []
    else
      var last := lines[|lines| - 1];
      Arguments(lines[..|lines| - 1]) + (if IsLengthLine(last) then [] else [last])
  }

  /** The outcome of a decode and the buffer it leaves behind. */
  datatype Decoded = Decoded(result: Result<Array>, rest: string)

  /**
   * What `Array::deserialize` returns and leaves in the buffer. Without a `*`
   * the buffer is cleared. Otherwise everything before the first `*` is
   * dropped; a missing count, one that overflows when doubled, or fewer than
   * `2N` lines after the header leave the buffer as that `*`-suffix. Once `2N`
   * lines are read, the buffer becomes the remaining lines, each re-terminated
   * with `\r\n`, and the frame is returned when it holds exactly `N` arguments.
   */
  function Decode(buffer: string): (d: Decoded)
    ensures '*' !in buffer ==> d == Decoded(Failure, "")
    ensures d.result.Success? ==> IsComplete(d.result.value) && 2 * d.result.value.size <= U64_MAX
  {
    var star := Find(buffer, '*');
    if star.None? then Decoded(Failure, "") else DecodeFrame(buffer[star.value..])
  }

  /** `Decode` once the buffer starts at its first `*`. */
  function DecodeFrame(framed: string): Decoded
    requires framed != []
  {
    var lines := Lines(framed);
    var count := CountHeader(lines[0]);
    if count.None? then Decoded(Failure, framed)
    else
      var n := count.value;
      if 2 * n > U64_MAX || |lines| - 1 < 2 * n then Decoded(Failure, framed)
      else
        var frame := Array(n, Arguments(lines[1..1 + 2 * n]));
        Decoded(if IsComplete(frame) then Success(frame) else Failure, Terminated(lines[1 + 2 * n..]))
  }

  /** Reading one more line extends the arguments by that line, unless it is a length line. */
  lemma ArgumentsExtend(lines: seq<string>, k: nat)
    requires 1 <= k < |lines|
    ensures Arguments(lines[1..k + 1])
      == Arguments(lines[1..k]) + (if IsLengthLine(lines[k]) then [] else [lines[k]])
  {
    assert lines[1..k + 1][..k - 1] == lines[1..k];
  }

  /** `DecodeFrame` once the count is read and `2N` lines follow it. */
  lemma DecodeFrameRead(framed: string, n: nat, args: seq<string>)
    requires framed != [] && CountHeader(Lines(framed)[0]) == Some(n) && 2 * n <= U64_MAX
    requires 1 + 2 * n <= |Lines(framed)| && args == Arguments(Lines(framed)[1..1 + 2 * n])
    ensures DecodeFrame(framed)
      == Decoded(if |args| == n then Success(Array(n, args)) else Failure, Terminated(Lines(framed)[1 + 2 * n..]))
  {
    var lines := Lines(framed);
    var frame := Array(n, args);
    assert !(2 * n > U64_MAX || |lines| - 1 < 2 * n);
    assert DecodeFrame(framed) == Decoded(if IsComplete(frame) then Success(frame) else Failure, Terminated(lines[1 + 2 * n..]));
  }

  /** `DecodeFrame` when the count is missing, overflows when doubled, or has too few lines after it. */
  lemma DecodeFrameFails(framed: string)
    requires framed != []
    requires var count := CountHeader(Lines(framed)[0]);
      count.None? || 2 * count.value > U64_MAX || |Lines(framed)| - 1 < 2 * count.value
    ensures DecodeFrame(framed) == Decoded(Failure, framed)
  {
  }

  /** `Request::try_from`: the command name matched case-insensitively. */
  function FromArray(a: Array): (r: Result<Request>)
    ensures r.Success? ==> |a.args| >= |Command(r.value)|
    ensures r.Success? ==> LowerAscii(a.args[0]) == LowerAscii(Command(r.value)[0])
    ensures r.Success? ==> a.args[1..|Command(r.value)|] == Command(r.value)[1..]
  {
    if |a.args| == 0 then Failure
    else
      var name := LowerAscii(a.args[0]);
      if name == "ping" then Success(Ping)
      else if name == "echo" then (if |a.args| < 2 then Failure else Success(Echo(a.args[1])))
      else if name == "set" then (if |a.args| < 3 then Failure else Success(Set(a.args[1], a.args[2])))
      else if name == "get" then (if |a.args| < 2 then Failure else Success(Get(a.args[1])))
      else Failure
  }

  /** The arguments a client sends for a request. */
  function Command(r: Request): (args: seq<string>)
    ensures |args| > 0
  {
    match r
    case Ping => ["PING"]
    case Echo(message) => ["ECHO", message]
    case Set(key, value) => ["SET", key, value]
    case Get(key) => ["GET", key]
  }

  /** `Request::deserialize`: decode a frame, then select its command. */
  function DecodeRequest(buffer: string): (Result<Request>, string) {
    var d := Decode(buffer);
    (if d.result.Success? then FromArray(d.result.value) else Failure, d.rest)
  }

  /** A connection's receive buffer, changed in place by the decoder. */
  class Buffer {
    var text: string

    constructor (initial: string)
      ensures text == initial
    {
      text := initial;
    }

    /** The connection loop appends every chunk it reads. */
    method Append(chunk: string)
      modifies this
      ensures text == old(text) + chunk
    {
      text := text + chunk;
    }

    /** `Array::deserialize`. */
    method DeserializeArray() returns (r: Result<Array>)
      modifies this
      ensures r == Decode(old(text)).result
      ensures text == Decode(old(text)).rest
    {
      var star := Find(text, '*');
      if star.None? {
        text := "";
        return Failure;
      }
      text := text[star.value..];
      ghost var framed := text;
      assert Decode(old(text)) == DecodeFrame(framed);
      var lines := Lines(text);
      var count := CountHeader(lines[0]);
      if count.None? {
        DecodeFrameFails(framed);
        return Failure;
      }
      var n := count.value;
      if 2 * n > U64_MAX {
        // `number_of_args * 2` overflows: a panic in the source
        DecodeFrameFails(framed);
        return Failure;
      }
      var frame := Array(n, []);
      var next := 1;
      for i := 0 to 2 * n
        invariant next == 1 + i <= |lines|
        invariant frame == Array(n, Arguments(lines[1..next]))
        invariant text == framed
      {
        if next >= |lines| {
          DecodeFrameFails(framed);
          return Failure;
        }
        var line := lines[next];
        ArgumentsExtend(lines, next);
        next := next + 1;
        if !IsLengthLine(line) {
          frame := AddElement(frame, line);
        }
      }
      DecodeFrameRead(framed, n, frame.args);
      text := Terminated(lines[next..]);
      if IsComplete(frame) {
        r := Success(frame);
      } else {
        r := Failure;
      }
    }

    /** `Request::deserialize`. */
    method DeserializeRequest() returns (r: Result<Request>)
      modifies this
      ensures (r, text) == DecodeRequest(old(text))
    {
      var frame := DeserializeArray();
      if frame.Failure? {
        return Failure;
      }
      r := FromArray(frame.value);
    }
  }
}
