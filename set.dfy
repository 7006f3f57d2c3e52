/**
 * The arguments of a `SET key value [EX seconds | PX milliseconds]` command.
 * The element after the command name is the key, the next one the value; the
 * rest is scanned left to right for one expiry flag, `EX` (seconds) or `PX`
 * (milliseconds), each followed by a `u64`. Flag names match whatever their
 * case; any other token in the tail is passed over.
 */
module SetParser {
  import opened Text
  import opened RequestCodec

  /** A parsed SET: key and value verbatim, and the expiry in milliseconds if one was given. */
  datatype SetRequest = SetRequest(key: string, value: string, expirationMs: Option<nat>)

  /** The milliseconds one unit of a flag's value stands for: 1000 for `EX`, 1 for `PX`. */
  function FlagUnit(arg: string): (u: Option<nat>)
    ensures u.Some? <==> UpperAscii(arg) == "EX" || UpperAscii(arg) == "PX"
    ensures u == Some(1000) <==> UpperAscii(arg) == "EX"
    ensures u == Some(1) <==> UpperAscii(arg) == "PX"
  {
    var upper := UpperAscii(arg);
    if upper == "EX" then Some(1000) else if upper == "PX" then Some(1) else None
  }

  predicate IsExpiryFlag(arg: string) {
    FlagUnit(arg).Some?
  }

  /**
   * The scan of the tail after key and value, with `expiry` the timeout found
   * so far. A flag fails when a timeout is already set, when no token follows
   * it, when that token is not a `u64`, or when its value in milliseconds does
   * not fit in a `u64` (the `* 1000` overflow). Otherwise the flag and its
   * token are both consumed. Any other token is skipped.
   */
  function ScanExpiry(tail: seq<string>, expiry: Option<nat>): (r: Result<Option<nat>>)
    ensures r.Success? && expiry.Some? ==> r.value == expiry
    ensures r.Success? && r.value.Some? && expiry.None? ==> r.value.value <= U64_MAX
    decreases |tail|
  {
    if tail == [] then Success(expiry)
    else
      var unit := FlagUnit(tail[0]);
      if unit.None? then ScanExpiry(tail[1..], expiry)
      else if expiry.Some? || |tail| < 2 then Failure
      else
        var n := ParseU64(tail[1]);
        if n.None? || n.value * unit.value > U64_MAX then Failure
        else ScanExpiry(tail[2..], Some(n.value * unit.value))
  }

  /** `Set::try_from`. */
  function SetFromArgs(args: seq<string>): (r: Result<SetRequest>)
    ensures |args| < 3 ==> r == Failure
    ensures r.Success? ==> r.value.key == args[1] && r.value.value == args[2]
    ensures r.Success? && r.value.expirationMs.Some? ==> r.value.expirationMs.value <= U64_MAX
  {
    if |args| < 3 then Failure
    else
      var expiry := ScanExpiry(args[3..], None);
      if expiry.Failure? then Failure else Success(SetRequest(args[1], args[2], expiry.value))
  }

  /** `Set::try_from`, with the source's loop over the tail. */
  method TryFrom(args: seq<string>) returns (r: Result<SetRequest>)
    ensures r == SetFromArgs(args)
  {
    if |args| < 3 {
      return Failure;
    }
    var key := args[1];
    var value := args[2];
    var expiry: Option<nat> := None;
    var i := 3;
    while i < |args|
      invariant 3 <= i <= |args|
      invariant ScanExpiry(args[3..], None) == ScanExpiry(args[i..], expiry)
      decreases |args| - i
    {
      var arg := args[i];
      assert args[i..][0] == arg && args[i..][1..] == args[i + 1..];
      i := i + 1;
      if UpperAscii(arg) == "EX" {
        if expiry.Some? {
          return Failure;
        }
        if i == |args| {
          return Failure;
        }
        var n := ParseU64(args[i]);
        assert args[i - 1..][2..] == args[i + 1..];
        i := i + 1;
        if n.None? {
          return Failure;
        }
        if n.value * 1000 > U64_MAX {
          // `* 1000` overflows: a panic in the source
          return Failure;
        }
        expiry := Some(n.value * 1000);
      }
      if UpperAscii(arg) == "PX" {
        if expiry.Some? {
          return Failure;
        }
        if i == |args| {
          return Failure;
        }
        var n := ParseU64(args[i]);
        assert args[i - 1..][2..] == args[i + 1..];
        i := i + 1;
        if n.None? {
          return Failure;
        }
        expiry := Some(n.value);
      }
    }
    assert args[i..] == [];
    r := Success(SetRequest(key, value, expiry));
  }
}
