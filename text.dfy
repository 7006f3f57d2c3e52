/**
 * Text helpers shared by the protocol codecs: the failure wrappers, ASCII
 * character classes, Rust's `str::find` and `str::lines`, the `\r\n`
 * re-termination of leftover lines, decimal formatting and `u64::from_str`.
 */
module Text {

  datatype Option<T> = None | Some(value: T)

  /** The source has a single error variant, `DeserializationError`; its
      diagnostic text is not modelled, so failure carries nothing. */
  datatype Result<T> = Success(value: T) | Failure

  const CRLF: string := "\r\n"

  /** Largest value of Rust's `u64`, and of `usize` on a 64-bit target. */
  const U64_MAX: nat := 0xFFFF_FFFF_FFFF_FFFF

  predicate IsDigit(c: char) {
    '0' <= c <= '9'
  }

  predicate AllDigits(s: string) {
    forall i :: 0 <= i < |s| ==> IsDigit(s[i])
  }

  function DigitValue(c: char): nat
    requires IsDigit(c)
  {
    c as int - '0' as int
  }

  function DigitChar(d: nat): (c: char)
    requires d < 10
    ensures IsDigit(c) && DigitValue(c) == d
  {
    ('0' as int + d) as char
  }

  /** `char::to_ascii_lowercase` mapped over a string. */
  function LowerAscii(s: string): (r: string)
    ensures |r| == |s|
    ensures forall i :: 0 <= i < |s| && !('A' <= s[i] <= 'Z') ==> r[i] == s[i]
    ensures forall i :: 0 <= i < |s| && 'A' <= s[i] <= 'Z' ==> r[i] == (s[i] as int + 32) as char
  {
    seq(|s|, i requires 0 <= i < |s| => if 'A' <= s[i] <= 'Z' then (s[i] as int + 32) as char else s[i])
  }

  /** `str::to_ascii_uppercase`. */
  function UpperAscii(s: string): (r: string)
    ensures |r| == |s|
    ensures forall i :: 0 <= i < |s| && !('a' <= s[i] <= 'z') ==> r[i] == s[i]
    ensures forall i :: 0 <= i < |s| && 'a' <= s[i] <= 'z' ==> r[i] == (s[i] as int - 32) as char
  {
    seq(|s|, i requires 0 <= i < |s| => if 'a' <= s[i] <= 'z' then (s[i] as int - 32) as char else s[i])
  }

  /** `str::find(c)`: the position of the first occurrence of `c`, if any. */
  function Find(s: string, c: char): (r: Option<nat>)
    ensures r.None? <==> c !in s
    ensures r.Some? ==> r.value < |s| && s[r.value] == c && c !in s[..r.value]
  {
    if s == [] then None
    else if s[0] == c then Some(0)
    else
      var tail := Find(s[1..], c);
      if tail.None? then None
      else
        assert s[..tail.value + 1] == [s[0]] + s[1..][..tail.value];
        Some(tail.value + 1)
  }

  /** Any position that holds `c` with no `c` before it is the one `Find` reports. */
  lemma {:induction false} FindIsFirst(s: string, c: char, j: nat)
    requires j < |s| && s[j] == c
    requires forall i :: 0 <= i < j ==> s[i] != c
    ensures Find(s, c) == Some(j)
  {
    if s[0] != c {
      FindIsFirst(s[1..], c, j - 1);
    }
  }

  /** Drops the `\r` of a `\r\n` terminator from a line cut just before the `\n`. */
  function StripCR(l: string): (r: string)
    ensures r == l || r + "\r" == l
  {
    if |l| > 0 && l[|l| - 1] == '\r' then l[..|l| - 1] else l
  }

  /**
   * Rust's `str::lines`: the text is cut after every `\n`; the `\n`, and a
   * `\r` directly before it, are dropped; a text that ends with a terminator
   * has no empty last line, and an unterminated last piece is still a line.
   */
  function Lines(s: string): (ls: seq<string>)
    ensures |ls| > 0 <==> |s| > 0
    decreases |s|
  {
    if s == [] then []
    else
      var nl := Find(s, '\n');
      if nl.None? then [s]
      else
        [StripCR(s[..nl.value])] + Lines(s[nl.value + 1..])
  }

  /** `lines.map(|line| line.to_string() + "\r\n").collect::<String>()`. */
  function Terminated(ls: seq<string>): string {
    if ls == [] then "" else ls[0] + CRLF + Terminated(ls[1..])
  }

  lemma {:induction false} TerminatedAppend(xs: seq<string>, ys: seq<string>)
    ensures Terminated(xs + ys) == Terminated(xs) + Terminated(ys)
  {
    if xs == [] {
      assert xs + ys == ys;
    } else {
      assert (xs + ys)[1..] == xs[1..] + ys;
      TerminatedAppend(xs[1..], ys);
    }
  }

  /** A text without `\n` is one line, unchanged (its `\r`s included). */
  lemma UnterminatedLine(q: string)
    requires q != [] && '\n' !in q
    ensures Lines(q) == [q]
  {
  }

  /**
   * `str::lines` cuts at every `\n`, with or without a `\r` before it: the
   * first line is the text up to the first `\n`, losing a `\r` only when that
   * `\r` sits directly before the `\n`, and the lines of the rest follow.
   */
  lemma LinesConsLF(l: string, u: string)
    requires '\n' !in l
    ensures Lines(l + "\n" + u) == [StripCR(l)] + Lines(u)
    ensures |l| > 0 && l[|l| - 1] == '\r' ==> Lines(l + "\n" + u)[0] == l[..|l| - 1]
    ensures (l == [] || l[|l| - 1] != '\r') ==> Lines(l + "\n" + u)[0] == l
  {
    var s := l + "\n" + u;
    forall i | 0 <= i < |l| ensures s[i] != '\n' {
      assert s[i] == l[i];
    }
    FindIsFirst(s, '\n', |l|);
    assert s[..|l|] == l;
    assert s[|l| + 1..] == u;
  }

  /**
   * Splitting re-terminated lines gives the lines back: `Lines` inverts
   * `Terminated` on lines without `\n`, whatever text follows. This is
   * `LinesConsLF` for a line that ends in the `\r` of `\r\n`.
   */
  lemma LinesCons(l: string, u: string)
    requires '\n' !in l
    ensures Lines(l + CRLF + u) == [l] + Lines(u)
  {
    assert l + CRLF + u == (l + "\r") + "\n" + u;
    assert '\n' !in l + "\r";
    LinesConsLF(l + "\r", u);
    assert (l + "\r")[..|l|] == l;
  }

  lemma {:induction false} LinesOfTerminated(ls: seq<string>, t: string)
    requires forall i :: 0 <= i < |ls| ==> '\n' !in ls[i]
    ensures Lines(Terminated(ls) + t) == ls + Lines(t)
    decreases |ls|
  {
    if ls == [] {
      assert Terminated(ls) + t == t;
      assert ls + Lines(t) == Lines(t);
    } else {
      LinesOfTerminated(ls[1..], t);
      LinesOfTerminatedStep(ls, t);
    }
  }

  /** One step of `LinesOfTerminated`: the first line comes off, then the rest. */
  lemma LinesOfTerminatedStep(ls: seq<string>, t: string)
    requires ls != [] && '\n' !in ls[0]
    requires Lines(Terminated(ls[1..]) + t) == ls[1..] + Lines(t)
    ensures Lines(Terminated(ls) + t) == ls + Lines(t)
  {
    var u := Terminated(ls[1..]) + t;
    TerminatedCons(ls, t);
    LinesCons(ls[0], u);
    ConsAppend(ls, Lines(t));
  }

  lemma ConsAppend<T>(xs: seq<T>, ys: seq<T>)
    requires xs != []
    ensures [xs[0]] + (xs[1..] + ys) == xs + ys
  {
  }

  lemma TerminatedCons(ls: seq<string>, t: string)
    requires ls != []
    ensures Terminated(ls) + t == ls[0] + CRLF + (Terminated(ls[1..]) + t)
  {
  }

  lemma TerminatedFirst(l: string, rest: seq<string>)
    ensures Terminated([l] + rest) == l + CRLF + Terminated(rest)
  {
    assert ([l] + rest)[1..] == rest;
  }

  /** A text made of terminated lines is rebuilt unchanged from its lines. */
  lemma TerminatedLines(ls: seq<string>)
    requires forall i :: 0 <= i < |ls| ==> '\n' !in ls[i]
    ensures Terminated(Lines(Terminated(ls))) == Terminated(ls)
  {
    var s := Terminated(ls);
    LinesOfTerminated(ls, "");
    assert s + "" == s;
    assert Lines("") == [];
    assert ls + [] == ls;
    assert Lines(s) == ls;
  }

  /** The value of a string of ASCII digits, most significant first. */
  function DecimalValue(s: string): nat
    requires AllDigits(s)
  {
    if s == [] then 0 else DecimalValue(s[..|s| - 1]) * 10 + DigitValue(s[|s| - 1])
  }

  /** `format!("{}", n)` for a non-negative integer: its decimal digits. */
  function Decimal(n: nat): (s: string)
    ensures |s| > 0 && AllDigits(s)
    ensures DecimalValue(s) == n
  {
    if n < 10 then [DigitChar(n)]
    else
      var high := Decimal(n / 10);
      var s := high + [DigitChar(n % 10)];
      assert s[..|s| - 1] == high;
      s
  }

  /** Decimal formatting is one-to-one. */
  lemma DecimalInjective(m: nat, n: nat)
    requires Decimal(m) == Decimal(n)
    ensures m == n
  {
  }

  /**
   * `u64::from_str`: an optional leading `+`, then one or more ASCII digits
   * whose value fits in 64 bits.
   */
  function ParseU64(s: string): (r: Option<nat>)
    ensures var d := if |s| > 0 && s[0] == '+' then s[1..] else s;
      r.Some? <==> |d| > 0 && AllDigits(d) && DecimalValue(d) <= U64_MAX
    ensures var d := if |s| > 0 && s[0] == '+' then s[1..] else s;
      r.Some? ==> AllDigits(d) && r.value == DecimalValue(d)
    ensures r.Some? ==> r.value <= U64_MAX && |s| > 0
    ensures r.Some? && IsDigit(s[0]) ==> AllDigits(s) && r.value == DecimalValue(s)
  {
    var digits := if |s| > 0 && s[0] == '+' then s[1..] else s;
    if |digits| > 0 && AllDigits(digits) && DecimalValue(digits) <= U64_MAX
    then Some(DecimalValue(digits))
    else None
  }

  /** Parsing what `Decimal` prints gives the number back. */
  lemma ParseDecimal(n: nat)
    requires n <= U64_MAX
    ensures ParseU64(Decimal(n)) == Some(n)
  {
  }

  /** `take_while(|c| c.is_ascii_digit())`: the longest run of ASCII digits starting `s`. */
  function DigitRun(s: string): (d: string)
    ensures |d| <= |s| && d == s[..|d|] && AllDigits(d)
    ensures |d| < |s| ==> !IsDigit(s[|d|])
  {
    if s != [] && IsDigit(s[0]) then [s[0]] + DigitRun(s[1..]) else []
  }

  /** The digit run of digits followed by a non-digit is those digits. */
  lemma {:induction false} DigitRunStops(d: string, u: string)
    requires AllDigits(d) && (u == [] || !IsDigit(u[0]))
    ensures DigitRun(d + u) == d
  {
    if d == [] {
      assert d + u == u;
    } else {
      assert (d + u)[0] == d[0];
      assert (d + u)[1..] == d[1..] + u;
      DigitRunStops(d[1..], u);
    }
  }

  /** The decimal form of a positive number does not start with `0`. */
  lemma {:induction false} DecimalLeading(n: nat)
    requires n > 0
    ensures Decimal(n)[0] != '0'
  {
    if n >= 10 {
      DecimalLeading(n / 10);
      assert Decimal(n)[0] == Decimal(n / 10)[0];
    }
  }

  /** Digits that do not start with `0` have a positive value. */
  lemma {:induction false} LeadingDigitPositive(d: string)
    requires |d| > 0 && AllDigits(d) && d[0] != '0'
    ensures DecimalValue(d) >= 1
  {
    if |d| > 1 {
      var init := d[..|d| - 1];
      assert init[0] == d[0];
      LeadingDigitPositive(init);
    }
  }
}
