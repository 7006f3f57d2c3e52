/**
 * Replies to requests and their wire form: simple strings `+<text>\r\n` for
 * OK, PONG and an echoed message, a bulk string `$<char count>\r\n<value>\r\n`
 * for a value read from the store, and the null bulk string `$-1\r\n` for a
 * missing key.
 */
module Responses {
  import opened Text

  datatype Response = Ok | Ping | Echo(message: string) | Get(value: Option<string>)

  /** `Response::serialize`. */
  function Serialize(r: Response): (s: string)
    ensures |s| >= 3 && s[|s| - 2..] == CRLF
    ensures s[0] == (if r.Get? then '$' else '+')
  {
    match r
    case Ok => "+OK\r\n"
    case Ping => "+PONG\r\n"
    case Echo(message) =>
      var line := "+" + message + CRLF;
      assert line[|line| - 2..] == CRLF;
      line
    case Get(Some(value)) =>
      var bulk := "$" + Decimal(|value|) + CRLF + value + CRLF;
      assert bulk[|bulk| - 2..] == CRLF;
      bulk
    case Get(None) => "$-1\r\n"
  }

  /**
   * How a client reads one reply: a simple string is OK, PONG or an echoed
   * message; `$-1` is a missing value; a bulk string must hold as many
   * characters as its header declares.
   */
  function ReadReply(s: string): Option<Response> {
    if |s| < 3 || s[|s| - 2..] != CRLF then None
    else if s[0] == '+' then
      var text := s[1..|s| - 2];
      Some(if text == "OK" then Ok else if text == "PONG" then Ping else Echo(text))
    else if s == "$-1\r\n" then Some(Get(None))
    else if s[0] == '$' then ReadBulkReply(s)
    else None
  }

  /** A bulk string `$<count>\r\n<value>\r\n` whose value has as many characters as its count. */
  function ReadBulkReply(s: string): Option<Response>
    requires |s| >= 3
  {
    var digits := DigitRun(s[1..]);
    var start := 1 + |digits| + 2;
    if digits == [] || |s| < start + 2 || s[1 + |digits|..start] != CRLF then None
    else
      var value := s[start..|s| - 2];
      if |value| == DecimalValue(digits) then Some(Get(Some(value))) else None
  }

  /**
   * A client reads every reply back, except that an echoed `OK` or `PONG`
   * reads as the reply to SET or to PING.
   */
  lemma ReadSerialized(r: Response)
    ensures ReadReply(Serialize(r)) == Some(
      if r == Echo("OK") then Ok else if r == Echo("PONG") then Ping else r)
  {
    match r
    case Ok => ReadEcho("OK");
    case Ping => ReadEcho("PONG");
    case Echo(m) => ReadEcho(m);
    case Get(Some(value)) => ReadBulk(value);
    case Get(None) =>
  }

  lemma ReadEcho(m: string)
    ensures ReadReply(Serialize(Echo(m))) == Some(if m == "OK" then Ok else if m == "PONG" then Ping else Echo(m))
  {
    var s := Serialize(Echo(m));
    assert s[1..|s| - 2] == m;
  }

  lemma ReadBulk(value: string)
    ensures ReadReply(Serialize(Get(Some(value)))) == Some(Get(Some(value)))
  {
    var s := Serialize(Get(Some(value)));
    var digits := Decimal(|value|);
    assert s == "$" + digits + CRLF + value + CRLF;
    assert s[1..] == digits + (CRLF + value + CRLF);
    assert digits != [] && IsDigit(digits[0]) && s[1] == digits[0];
    assert s != "$-1\r\n";
    BulkReplyReads(s, digits, value);
  }

  lemma BulkReplyReads(s: string, digits: string, value: string)
    requires |digits| > 0 && AllDigits(digits) && DecimalValue(digits) == |value|
    requires s == "$" + digits + CRLF + value + CRLF
    ensures ReadBulkReply(s) == Some(Get(Some(value)))
  {
    var w := CRLF + value + CRLF;
    BulkSlices(s, digits, value, w);
    DigitRunStops(digits, w);
    BulkReplyParts(s, digits, value);
  }

  /** Where the count, the line break and the value sit in a bulk string. */
  lemma BulkSlices(s: string, digits: string, value: string, w: string)
    requires w == CRLF + value + CRLF && s == "$" + digits + CRLF + value + CRLF
    ensures s[1..] == digits + w && |s| == 1 + |digits| + 2 + |value| + 2
    ensures s[1 + |digits|..1 + |digits| + 2] == CRLF && s[1 + |digits| + 2..|s| - 2] == value
  {
    assert s == "$" + digits + w;
    assert s[1 + |digits|..] == w;
    assert s[1 + |digits|..1 + |digits| + 2] == w[..2];
    assert s[1 + |digits| + 2..|s| - 2] == w[2..|w| - 2];
  }

  /** The bulk reader accepts a count, a line break and a value of that many characters. */
  lemma BulkReplyParts(s: string, digits: string, value: string)
    requires |s| >= 3 && |digits| > 0 && AllDigits(digits) && DecimalValue(digits) == |value|
    requires DigitRun(s[1..]) == digits && |s| == 1 + |digits| + 2 + |value| + 2
    requires s[1 + |digits|..1 + |digits| + 2] == CRLF && s[1 + |digits| + 2..|s| - 2] == value
    ensures ReadBulkReply(s) == Some(Get(Some(value)))
  {
  }

  /**
   * Distinct replies have distinct wire forms, except for the two collisions
   * above.
   */
  lemma SerializeInjective(r1: Response, r2: Response)
    requires Serialize(r1) == Serialize(r2)
    requires !(r1.Echo? && r1.message in {"OK", "PONG"}) && !(r2.Echo? && r2.message in {"OK", "PONG"})
    ensures r1 == r2
  {
    ReadSerialized(r1);
    ReadSerialized(r2);
  }

  /** The first collision: an echoed `OK` is the SET reply on the wire. */
  lemma EchoOkReadsAsOk()
    ensures Serialize(Echo("OK")) == Serialize(Ok)
  {
  }

  /** The replies pinned by the unit tests. */
  lemma SerializeExamples(hello: string, value: string)
    requires hello == "hello" && value == "value"
    ensures Serialize(Ok) == "+OK\r\n"
    ensures Serialize(Ping) == "+PONG\r\n"
    ensures Serialize(Echo(hello)) == "+hello\r\n"
    ensures Serialize(Get(Some(value))) == "$5\r\nvalue\r\n"
    ensures Serialize(Get(None)) == "$-1\r\n"
  {
    assert Decimal(5) == "5";
  }
}
