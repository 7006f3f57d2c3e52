/**
 * The in-memory key/value store shared by every connection. The source keeps
 * one process-wide map behind a read/write lock; here it is one object whose
 * map the operations read and replace.
 */
module Storage {
  import opened Text
  import opened SetParser

  class Store {
    var entries: map<string, string>

    /** An empty store, as the process starts with. */
    constructor ()
      ensures entries == map[]
    {
      entries := map[];
    }

    /** `Storage::get`: the value stored under `key`, if any; the map is left as it is. */
    method Get(key: string) returns (value: Option<string>)
      ensures value.Some? <==> key in entries
      ensures value.Some? ==> value.value == entries[key]
    {
      if key in entries {
        value := Some(entries[key]);
      } else {
        value := None;
      }
    }

    /** Stores `value` under `key`, replacing any earlier value; every other key keeps its entry. */
    method Set(key: string, value: string)
      modifies this
      ensures entries == old(entries)[key := value]
      ensures forall k :: k != key ==> (k in entries <==> k in old(entries))
      ensures forall k :: k != key && k in entries ==> entries[k] == old(entries)[k]
    {
      entries := entries[key := value];
    }

    /** `Storage::set`: stores a parsed SET's key and value; its expiry is dropped. */
    method SetFrom(request: SetRequest)
      modifies this
      ensures entries == old(entries)[request.key := request.value]
    {
      Set(request.key, request.value);
    }
  }

  /** A value stored and then read back under the same key. */
  method SetAndGet() returns (got: Option<string>)
    ensures got == Some("value")
  {
    var store := new Store();
    store.SetFrom(SetRequest("key", "value", None));
    got := store.Get("key");
  }

  /** A key never stored reads as absent. */
  method GetAbsentKey() returns (got: Option<string>)
    ensures got == None
  {
    var store := new Store();
    got := store.Get("absent");
  }

  /**
   * Any two SETs of one key on a fresh store, after a SET of another key: the
   * second value replaces the first, and the other key keeps its value.
   */
  method Overwrite(key: string, other: string, kept: string, earlier: string, later: string)
    returns (got: Option<string>, otherGot: Option<string>)
    requires key != other
    ensures got == Some(later) && otherGot == Some(kept)
  {
    var store := new Store();
    store.Set(other, kept);
    store.Set(key, earlier);
    store.Set(key, later);
    got := store.Get(key);
    otherGot := store.Get(other);
  }

  /** For any key, value and expiry, a SET with the expiry stores what the same SET without one stores. */
  method ExpiryDiscarded(key: string, value: string, ms: nat) returns (same: bool)
    ensures same
  {
    var withExpiry := new Store();
    var withoutExpiry := new Store();
    withExpiry.SetFrom(SetRequest(key, value, Some(ms)));
    withoutExpiry.SetFrom(SetRequest(key, value, None));
    same := withExpiry.entries == withoutExpiry.entries;
  }
}
