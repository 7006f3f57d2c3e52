/**
 * What `Request::try_from` and `Request::deserialize` guarantee: a request is
 * selected exactly when the frame spells its command, the command name in any
 * letter case, and a request sent as a frame is read back whole.
 */
module RequestProperties {
  import opened Text
  import opened RequestCodec
  import DecoderProperties

  /** The frame a client sends for a request. */
  function Frame(r: Request): Array {
    Array(|Command(r)|, Command(r))
  }

  lemma CommandNames()
    ensures LowerAscii("PING") == "ping" && LowerAscii("ECHO") == "echo"
    ensures LowerAscii("SET") == "set" && LowerAscii("GET") == "get"
  {
    assert LowerAscii("PING") == "ping" by {
      var l := LowerAscii("PING");
      assert l[0] == 'p' && l[1] == 'i' && l[2] == 'n' && l[3] == 'g';
    }
    assert LowerAscii("ECHO") == "echo" by {
      var l := LowerAscii("ECHO");
      assert l[0] == 'e' && l[1] == 'c' && l[2] == 'h' && l[3] == 'o';
    }
    assert LowerAscii("SET") == "set" by {
      var l := LowerAscii("SET");
      assert l[0] == 's' && l[1] == 'e' && l[2] == 't';
    }
    assert LowerAscii("GET") == "get" by {
      var l := LowerAscii("GET");
      assert l[0] == 'g' && l[1] == 'e' && l[2] == 't';
    }
  }

  /**
   * The converse of `FromArray`'s contract: a frame whose first element is a
   * command name in any letter case, followed by that command's operands, is
   * read as that request, whatever follows the operands.
   */
  lemma SelectsMatchingCommand(a: Array, r: Request)
    requires |a.args| >= |Command(r)|
    requires LowerAscii(a.args[0]) == LowerAscii(Command(r)[0])
    requires a.args[1..|Command(r)|] == Command(r)[1..]
    ensures FromArray(a) == Success(r)
  {
    CommandNames();
    match r
    case Ping =>
    case Echo(m) =>
      assert a.args[1] == a.args[1..2][0];
    case Set(k, v) =>
      assert a.args[1] == a.args[1..3][0] && a.args[2] == a.args[1..3][1];
    case Get(k) =>
      assert a.args[1] == a.args[1..2][0];
  }

  /** Every request is read back from its own command. */
  lemma CommandRoundTrip(r: Request)
    ensures FromArray(Frame(r)) == Success(r)
  {
    SelectsMatchingCommand(Frame(r), r);
  }

  /** A frame decoded from a buffer is handed to `FromArray` as it is. */
  lemma DecodeRequestSerialized(junk: string, a: Array, t: string)
    requires '*' !in junk && WireSafe(a)
    ensures DecodeRequest(junk + Serialize(a) + t) == (FromArray(a), Terminated(Lines(t)))
  {
    DecoderProperties.DecodeSerialized(junk, a, t);
  }

  /**
   * A request sent as a frame, behind text without `*` and before any text
   * `t`, is read back, and the buffer keeps the lines of `t`.
   */
  lemma RequestRoundTrip(junk: string, r: Request, t: string)
    requires '*' !in junk && WireSafe(Frame(r))
    ensures DecodeRequest(junk + Serialize(Frame(r)) + t) == (Success(r), Terminated(Lines(t)))
  {
    DecodeRequestSerialized(junk, Frame(r), t);
    CommandRoundTrip(r);
  }
}
