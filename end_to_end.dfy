/**
 * Requests sent back to back in one buffer come out of the decoder in order,
 * and a GET served after a SET of its key replies with the stored value.
 */
module EndToEnd {
  import opened Text
  import opened RequestCodec
  import opened Dispatch
  import DecoderProperties
  import RequestProperties
  import R = Responses

  /** Two arrays serialized into one buffer are decoded in order and handed to command selection. */
  lemma PipelinedArrays(a: Array, b: Array)
    requires WireSafe(a) && WireSafe(b)
    ensures DecodeRequest(Serialize(a) + Serialize(b)) == (FromArray(a), Serialize(b))
    ensures DecodeRequest(Serialize(b)) == (FromArray(b), "")
  {
    var both := Serialize(a) + Serialize(b);
    assert "" + Serialize(a) + Serialize(b) == both;
    DecoderProperties.Pipelined("", a, b);
    assert Decode(both) == Decoded(Success(a), Serialize(b));
  }

  /** Two requests serialized into one buffer are selected in order by two decodes. */
  lemma PipelinedRequests(first: Request, second: Request)
    requires WireSafe(RequestProperties.Frame(first)) && WireSafe(RequestProperties.Frame(second))
    ensures var a := Serialize(RequestProperties.Frame(first));
      var b := Serialize(RequestProperties.Frame(second));
      && DecodeRequest(a + b) == (Success(first), b)
      && DecodeRequest(b) == (Success(second), "")
  {
    RequestProperties.CommandRoundTrip(first);
    RequestProperties.CommandRoundTrip(second);
    PipelinedArrays(RequestProperties.Frame(first), RequestProperties.Frame(second));
  }

  /** SET replies OK; a GET of the same key then replies with the value as a bulk string. */
  lemma SetThenGetReplies(key: string, value: string, entries: map<string, string>)
    ensures R.Serialize(Reply(Request.Set(key, value), entries)) == "+OK\r\n"
    ensures R.Serialize(Reply(Request.Get(key), After(Request.Set(key, value), entries)))
      == "$" + Decimal(|value|) + CRLF + value + CRLF
  {
    assert Reply(Request.Get(key), After(Request.Set(key, value), entries)) == R.Get(Some(value));
  }
}
