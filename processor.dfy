/**
 * The request handlers as free functions over the process-wide store: PING
 * and ECHO answer directly, SET writes the store, GET reads it.
 */
module Processor {
  import opened Text
  import opened RequestCodec
  import opened Storage
  import opened Dispatch
  import R = Responses

  /** `process_request`: never fails; only SET changes the store. */
  method ProcessRequest(store: Store, request: Request) returns (r: Result<R.Response>)
    modifies store
    ensures r == Success(Reply(request, old(store.entries)))
    ensures store.entries == After(request, old(store.entries))
  {
    match request
    case Ping => r := Success(R.Ping);
    case Echo(arg) => r := Success(R.Echo(arg));
    case Set(key, value) => r := ProcessRequestSet(store, key, value);
    case Get(key) => r := ProcessRequestGet(store, key);
  }

  /** `process_request_get`: the stored value, or the nil reply when the key is absent. */
  method ProcessRequestGet(store: Store, key: string) returns (r: Result<R.Response>)
    ensures r.Success? && r.value.Get?
    ensures r.value.value.Some? <==> key in store.entries
    ensures r.value.value.Some? ==> r.value.value.value == store.entries[key]
  {
    var value := store.Get(key);
    match value
    case Some(v) => r := Success(R.Get(Some(v)));
    case None => r := Success(R.Get(None));
  }

  /** `process_request_set`: stores the pair and answers OK. */
  method ProcessRequestSet(store: Store, key: string, value: string) returns (r: Result<R.Response>)
    modifies store
    ensures r == Success(R.Ok)
    ensures store.entries == old(store.entries)[key := value]
  {
    store.Set(key, value);
    r := Success(R.Ok);
  }
}
