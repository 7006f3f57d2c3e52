/** What the SET argument parser promises, over every argument list. */
module SetProperties {
  import opened Text
  import opened RequestCodec
  import opened SetParser

  predicate NoFlags(tokens: seq<string>) {
    forall i :: 0 <= i < |tokens| ==> !IsExpiryFlag(tokens[i])
  }

  /** A flag is never a number, so a flag's value token cannot itself be a flag. */
  lemma FlagIsNotNumber(s: string)
    requires IsExpiryFlag(s)
    ensures ParseU64(s).None?
  {
    var upper := UpperAscii(s);
    assert |s| == 2;
    assert upper[0] == 'E' || upper[0] == 'P';
    assert !IsDigit(s[0]) && s[0] != '+';
  }

  /** Tokens that are not flags are passed over without effect. */
  lemma {:induction false} SkipOthers(pre: seq<string>, rest: seq<string>, expiry: Option<nat>)
    requires NoFlags(pre)
    ensures ScanExpiry(pre + rest, expiry) == ScanExpiry(rest, expiry)
  {
    if pre != [] {
      assert (pre + rest)[0] == pre[0];
      assert (pre + rest)[1..] == pre[1..] + rest;
      SkipOthers(pre[1..], rest, expiry);
    } else {
      assert pre + rest == rest;
    }
  }

  /** A tail with no flag leaves the expiry as it was. */
  lemma NoFlagsScan(tail: seq<string>, expiry: Option<nat>)
    requires NoFlags(tail)
    ensures ScanExpiry(tail, expiry) == Success(expiry)
  {
    SkipOthers(tail, [], expiry);
    assert tail + [] == tail;
  }

  /**
   * A flag takes the token after it as its value and the scan resumes after
   * that token: the value token is never read as a flag.
   */
  lemma ValueConsumed(pre: seq<string>, flag: string, v: string, post: seq<string>, n: nat)
    requires NoFlags(pre) && IsExpiryFlag(flag)
    requires ParseU64(v) == Some(n) && n * FlagUnit(flag).value <= U64_MAX
    ensures ScanExpiry(pre + [flag, v] + post, None) == ScanExpiry(post, Some(n * FlagUnit(flag).value))
  {
    assert pre + [flag, v] + post == pre + ([flag, v] + post);
    SkipOthers(pre, [flag, v] + post, None);
    assert ([flag, v] + post)[2..] == post;
  }

  /** Without `EX` or `PX` in the tail there is no expiry. */
  lemma NoFlagNoExpiry(args: seq<string>)
    requires |args| >= 3 && NoFlags(args[3..])
    ensures SetFromArgs(args) == Success(SetRequest(args[1], args[2], None))
  {
    NoFlagsScan(args[3..], None);
  }

  /** One flag with a valid value, among other tokens: `EX n` gives `n * 1000` ms, `PX n` gives `n` ms. */
  lemma SingleFlag(args: seq<string>, pre: seq<string>, flag: string, v: string, post: seq<string>, n: nat)
    requires |args| >= 3 && args[3..] == pre + [flag, v] + post
    requires NoFlags(pre) && IsExpiryFlag(flag) && NoFlags(post)
    requires ParseU64(v) == Some(n) && n * FlagUnit(flag).value <= U64_MAX
    ensures UpperAscii(flag) == "EX" ==> SetFromArgs(args) == Success(SetRequest(args[1], args[2], Some(n * 1000)))
    ensures UpperAscii(flag) == "PX" ==> SetFromArgs(args) == Success(SetRequest(args[1], args[2], Some(n)))
  {
    ValueConsumed(pre, flag, v, post, n);
    NoFlagsScan(post, Some(n * FlagUnit(flag).value));
  }

  /**
   * A second expiry flag fails, whichever the two flags are (`EX` or `PX`,
   * in any case) and whatever the first flag's value token is.
   */
  lemma SecondFlagFails(args: seq<string>, pre: seq<string>, first: string, v: string, mid: seq<string>, second: string, post: seq<string>)
    requires |args| >= 3 && args[3..] == pre + [first, v] + mid + [second] + post
    requires NoFlags(pre) && IsExpiryFlag(first) && NoFlags(mid) && IsExpiryFlag(second)
    ensures SetFromArgs(args) == Failure
  {
    var tail := args[3..];
    assert tail == pre + ([first, v] + (mid + ([second] + post)));
    SkipOthers(pre, [first, v] + (mid + ([second] + post)), None);
    var n := ParseU64(v);
    if n.Some? && n.value * FlagUnit(first).value <= U64_MAX {
      assert ([first, v] + (mid + ([second] + post)))[2..] == mid + ([second] + post);
      var ms := n.value * FlagUnit(first).value;
      SkipOthers(mid, [second] + post, Some(ms));
      assert ([second] + post)[0] == second;
    }
  }

  /** A flag with nothing after it fails. */
  lemma MissingValueFails(args: seq<string>, pre: seq<string>, flag: string)
    requires |args| >= 3 && args[3..] == pre + [flag]
    requires NoFlags(pre) && IsExpiryFlag(flag)
    ensures SetFromArgs(args) == Failure
  {
    SkipOthers(pre, [flag], None);
  }

  /** A flag whose value token is not a `u64` fails. */
  lemma BadValueFails(args: seq<string>, pre: seq<string>, flag: string, v: string, post: seq<string>)
    requires |args| >= 3 && args[3..] == pre + [flag, v] + post
    requires NoFlags(pre) && IsExpiryFlag(flag) && ParseU64(v).None?
    ensures SetFromArgs(args) == Failure
  {
    assert pre + [flag, v] + post == pre + ([flag, v] + post);
    SkipOthers(pre, [flag, v] + post, None);
  }

  /** `EX n` whose milliseconds overflow a `u64` fails. */
  lemma SecondsOverflowFails(args: seq<string>, pre: seq<string>, flag: string, v: string, post: seq<string>, n: nat)
    requires |args| >= 3 && args[3..] == pre + [flag, v] + post
    requires NoFlags(pre) && UpperAscii(flag) == "EX"
    requires ParseU64(v) == Some(n) && n * 1000 > U64_MAX
    ensures SetFromArgs(args) == Failure
  {
    assert pre + [flag, v] + post == pre + ([flag, v] + post);
    SkipOthers(pre, [flag, v] + post, None);
  }

  /** The first element, the command name, is never examined. */
  lemma CommandNameIgnored(args: seq<string>, name: string)
    requires |args| >= 1
    ensures SetFromArgs([name] + args[1..]) == SetFromArgs(args)
  {
    var renamed := [name] + args[1..];
    if |args| >= 3 {
      assert renamed[3..] == args[3..];
      assert renamed[1] == args[1] && renamed[2] == args[2];
    }
  }

  /**
   * A scan that succeeds from no expiry ends with one exactly when the tail
   * holds a flag.
   */
  lemma {:induction false} ScanFindsFlag(tail: seq<string>)
    requires ScanExpiry(tail, None).Success?
    ensures ScanExpiry(tail, None).value.Some? <==> !NoFlags(tail)
  {
    if tail != [] {
      if IsExpiryFlag(tail[0]) {
        assert !NoFlags(tail);
      } else {
        ScanFindsFlag(tail[1..]);
        if NoFlags(tail[1..]) {
          forall i | 0 <= i < |tail|
            ensures !IsExpiryFlag(tail[i])
          {
            if i > 0 { assert tail[i] == tail[1..][i - 1]; }
          }
        } else {
          var i :| 0 <= i < |tail[1..]| && IsExpiryFlag(tail[1..][i]);
          assert tail[i + 1] == tail[1..][i];
        }
      }
    }
  }

  /** A parsed SET has an expiry exactly when its tail names `EX` or `PX`. */
  lemma ExpiryIffFlag(args: seq<string>)
    requires SetFromArgs(args).Success?
    ensures SetFromArgs(args).value.expirationMs.Some? <==> !NoFlags(args[3..])
  {
    ScanFindsFlag(args[3..]);
  }

  /**
   * The SET parser and command selection agree: an array named `set` that
   * the parser accepts selects the SET request with the same key and value.
   */
  lemma AgreesWithRequest(a: Array)
    requires |a.args| > 0 && LowerAscii(a.args[0]) == "set" && SetFromArgs(a.args).Success?
    ensures FromArray(a) == Success(Request.Set(SetFromArgs(a.args).value.key, SetFromArgs(a.args).value.value))
  {
  }
}
