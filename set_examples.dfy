/** The unit tests of the SET parser, stated over the model. */
module SetExamples {
  import opened Text
  import opened SetParser
  import opened SetProperties

  lemma Simple(args: seq<string>)
    requires args == ["set", "a", "b"]
    ensures SetFromArgs(args) == Success(SetRequest("a", "b", None))
  {
    NoFlagNoExpiry(args);
  }

  lemma Thousand(v: string)
    requires v == "1000"
    ensures ParseU64(v) == Some(1000)
  {
    assert Decimal(1000) == v;
    ParseDecimal(1000);
  }

  lemma PxArg(args: seq<string>)
    requires args == ["set", "a", "b", "px", "1000"]
    ensures SetFromArgs(args) == Success(SetRequest("a", "b", Some(1000)))
  {
    Thousand(args[4]);
    assert UpperAscii("px") == "PX";
    assert args[3..] == [] + ["px", "1000"] + [];
    SingleFlag(args, [], "px", "1000", [], 1000);
  }

  lemma ExArg(args: seq<string>)
    requires args == ["set", "a", "b", "ex", "2"]
    ensures SetFromArgs(args) == Success(SetRequest("a", "b", Some(2000)))
  {
    assert ParseU64("2") == Some(2);
    assert UpperAscii("ex") == "EX";
    assert args[3..] == [] + ["ex", "2"] + [];
    SingleFlag(args, [], "ex", "2", [], 2);
  }

  /** The case of key and value is kept; the case of the command name and of the flag is not looked at. */
  lemma VariadicCase(args: seq<string>)
    requires args == ["SeT", "A", "b", "Ex", "3"]
    ensures SetFromArgs(args) == Success(SetRequest("A", "b", Some(3000)))
  {
    assert ParseU64("3") == Some(3);
    assert UpperAscii("Ex") == "EX";
    assert args[3..] == [] + ["Ex", "3"] + [];
    SingleFlag(args, [], "Ex", "3", [], 3);
  }

  lemma ValueIsMissing(args: seq<string>)
    requires args == ["SET", "a"]
    ensures SetFromArgs(args) == Failure
  {
  }

  /** Two flags in a row, with their values: the second one fails. */
  lemma TwoFlags(args: seq<string>, first: string, second: string)
    requires IsExpiryFlag(first) && IsExpiryFlag(second)
    requires args == ["SET", "a", "b", first, "1000", second, "1000"]
    ensures SetFromArgs(args) == Failure
  {
    assert args[3..] == [] + [first, "1000"] + [] + [second] + ["1000"];
    SecondFlagFails(args, [], first, "1000", [], second, ["1000"]);
  }

  lemma PxIsSetTwice(args: seq<string>)
    requires args == ["SET", "a", "b", "PX", "1000", "PX", "1000"]
    ensures SetFromArgs(args) == Failure
  {
    assert UpperAscii("PX") == "PX";
    TwoFlags(args, "PX", "PX");
  }

  lemma ExIsSetTwice(args: seq<string>)
    requires args == ["SET", "a", "b", "EX", "1000", "EX", "1000"]
    ensures SetFromArgs(args) == Failure
  {
    assert UpperAscii("EX") == "EX";
    TwoFlags(args, "EX", "EX");
  }

  lemma ExAndPx(args: seq<string>)
    requires args == ["SET", "a", "b", "EX", "1000", "PX", "1000"]
    ensures SetFromArgs(args) == Failure
  {
    assert UpperAscii("EX") == "EX";
    assert UpperAscii("PX") == "PX";
    TwoFlags(args, "EX", "PX");
  }
}
