/**
 * What serving a request does, as both request dispatchers implement it: the
 * reply, and the store entries afterwards. PING and ECHO answer without the
 * store, SET writes its key and GET reads it; no request fails.
 */
module Dispatch {
  import opened Text
  import opened RequestCodec
  import R = Responses

  /** The reply to `request` from a store holding `entries`. */
  function Reply(request: Request, entries: map<string, string>): (resp: R.Response)
    ensures request.Ping? <==> resp == R.Ping
    ensures request.Set? <==> resp == R.Ok
    ensures request.Echo? <==> resp.Echo?
    ensures request.Get? <==> resp.Get?
  {
    match request
    case Ping => R.Ping
    case Echo(message) => R.Echo(message)
    case Set(_, _) => R.Ok
    case Get(key) => R.Get(if key in entries then Some(entries[key]) else None)
  }

  /** The store entries once `request` is served. */
  function After(request: Request, entries: map<string, string>): (after: map<string, string>)
    ensures !request.Set? ==> after == entries
    ensures request.Set? ==> request.key in after && after[request.key] == request.value
    ensures request.Set? ==> forall k :: k != request.key ==> (k in after <==> k in entries)
    ensures request.Set? ==> forall k :: k != request.key && k in entries ==> after[k] == entries[k]
  {
    if request.Set? then entries[request.key := request.value] else entries
  }

  /** An echo answers with its message unchanged; a GET answers with the stored value, or with none. */
  lemma ReplyCarries(request: Request, entries: map<string, string>)
    ensures request.Echo? ==> Reply(request, entries) == R.Echo(request.message)
    ensures request.Get? ==> (Reply(request, entries).value.Some? <==> request.key in entries)
    ensures request.Get? && request.key in entries ==> Reply(request, entries).value.value == entries[request.key]
  {
  }

  /** The entries after serving `requests` in order. */
  function Final(requests: seq<Request>, entries: map<string, string>): map<string, string>
    decreases |requests|
  {
    if requests == [] then entries else Final(requests[1..], After(requests[0], entries))
  }

  /** The value of the last SET of `key` among `requests`, if there is one. */
  function LastSet(requests: seq<Request>, key: string): Option<string> {
    if requests == [] then None
    else
      var last := requests[|requests| - 1];
      if last.Set? && last.key == key then Some(last.value) else LastSet(requests[..|requests| - 1], key)
  }

  /** Serving one more request extends the entries of the shorter run. */
  lemma {:induction false} FinalAppend(requests: seq<Request>, request: Request, entries: map<string, string>)
    ensures Final(requests + [request], entries) == After(request, Final(requests, entries))
    decreases |requests|
  {
    if requests == [] {
      assert requests + [request] == [request];
    } else {
      assert (requests + [request])[1..] == requests[1..] + [request];
      FinalAppend(requests[1..], request, After(requests[0], entries));
    }
  }

  /**
   * Read your writes: after any run of requests a key holds the value of its
   * last SET, and a key the run never SET keeps its earlier entry.
   */
  lemma {:induction false} FinalHoldsLastSet(requests: seq<Request>, entries: map<string, string>, key: string)
    ensures LastSet(requests, key).Some? ==> key in Final(requests, entries) && Final(requests, entries)[key] == LastSet(requests, key).value
    ensures LastSet(requests, key).None? ==> (key in Final(requests, entries) <==> key in entries)
    ensures LastSet(requests, key).None? && key in entries ==> Final(requests, entries)[key] == entries[key]
    decreases |requests|
  {
    if requests != [] {
      var init := requests[..|requests| - 1];
      var last := requests[|requests| - 1];
      assert requests == init + [last];
      FinalAppend(init, last, entries);
      FinalHoldsLastSet(init, entries, key);
    }
  }

  /** A GET after a run of requests answers with the key's last SET, or its earlier entry. */
  lemma GetAfterRun(requests: seq<Request>, entries: map<string, string>, key: string)
    ensures LastSet(requests, key).Some? ==> Reply(Request.Get(key), Final(requests, entries)) == R.Get(LastSet(requests, key))
    ensures LastSet(requests, key).None? ==> Reply(Request.Get(key), Final(requests, entries)) == Reply(Request.Get(key), entries)
  {
    FinalHoldsLastSet(requests, entries, key);
  }
}
