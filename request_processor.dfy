/**
 * The request handlers as methods of a processor object that holds the store
 * it works on. Every processor is created over the one shared store.
 */
module RequestProcessing {
  import opened Text
  import opened RequestCodec
  import opened Storage
  import opened Dispatch
  import R = Responses

  class RequestProcessor {
    const storage: Store

    /** `RequestProcessor::new`, handed the shared store. */
    constructor (storage: Store)
      ensures this.storage == storage
    {
      this.storage := storage;
    }

    /** `RequestProcessor::process_request`: never fails; only SET changes the store. */
    method ProcessRequest(request: Request) returns (r: Result<R.Response>)
      modifies storage
      ensures r == Success(Reply(request, old(storage.entries)))
      ensures storage.entries == After(request, old(storage.entries))
    {
      match request
      case Ping => r := Success(R.Ping);
      case Echo(arg) => r := Success(R.Echo(arg));
      case Set(key, value) => r := ProcessRequestSet(key, value);
      case Get(key) => r := ProcessRequestGet(key);
    }

    /** `process_request_get`: the stored value, or the nil reply when the key is absent. */
    method ProcessRequestGet(key: string) returns (r: Result<R.Response>)
      ensures r.Success? && r.value.Get?
      ensures r.value.value.Some? <==> key in storage.entries
      ensures r.value.value.Some? ==> r.value.value.value == storage.entries[key]
    {
      var value := storage.Get(key);
      match value
      case Some(v) => r := Success(R.Get(Some(v)));
      case None => r := Success(R.Get(None));
    }

    /** `process_request_set`: stores the pair and answers OK. */
    method ProcessRequestSet(key: string, value: string) returns (r: Result<R.Response>)
      modifies storage
      ensures r == Success(R.Ok)
      ensures storage.entries == old(storage.entries)[key := value]
    {
      storage.Set(key, value);
      r := Success(R.Ok);
    }
  }
}
