/**
 * The string operations the converter relies on, specialised to the `.` separator that
 * Protocol Buffers uses in package and type names: Go's `strings.Index`, `strings.Split`,
 * `strings.SplitN(s, ".", 2)`, `strings.HasPrefix` and `strings.HasSuffix`, and the decimal
 * rendering of an integer. `JoinDots` is the inverse of `SplitDots` and serves as its partner.
 */
module Strings {
  import opened Wrappers

  const Dot: char := '.'

  /** Position of the first `.` in `s`, if any. */
  function IndexOfDot(s: string): (r: Option<nat>)
    ensures r.None? <==> Dot !in s
    ensures r.Some? ==> r.value < |s| && s[r.value] == Dot && Dot !in s[..r.value]
  {
    if s == [] then None
    else if s[0] == Dot then Some(0)
    else match IndexOfDot(s[1..])
      case None => None
      case Some(i) =>
        assert s[..i + 1] == [s[0]] + s[1..][..i];
        Some(i + 1)
  }

  /** `strings.Split(s, ".")`: never empty, and no part contains a dot. */
  function SplitDots(s: string): (parts: seq<string>)
    ensures |parts| >= 1
    ensures forall i :: 0 <= i < |parts| ==> Dot !in parts[i]
    decreases |s|
  {
    match IndexOfDot(s)
    case None => [s]
    case Some(i) => [s[..i]] + SplitDots(s[i + 1..])
  }

  /** `strings.SplitN(s, ".", 2)`: the part before the first dot and the rest, or `s` alone. */
  function SplitFirstDot(s: string): (parts: seq<string>)
    ensures |parts| == 1 || |parts| == 2
    ensures |parts| == 1 ==> parts == [s] && Dot !in s
    ensures |parts| == 2 ==> Dot !in parts[0] && s == parts[0] + [Dot] + parts[1]
  {
    match IndexOfDot(s)
    case None => [s]
    case Some(i) =>
      assert s == s[..i] + [Dot] + s[i + 1..];
      [s[..i], s[i + 1..]]
  }

  /** Joins the parts with a dot between each two: `strings.Join(parts, ".")`. */
  function JoinDots(parts: seq<string>): string
  {
    if parts == [] then ""
    else if |parts| == 1 then parts[0]
    else parts[0] + [Dot] + JoinDots(parts[1..])
  }

  predicate HasPrefix(s: string, prefix: string)
  {
    |prefix| <= |s| && s[..|prefix|] == prefix
  }

  predicate HasSuffix(s: string, suffix: string)
  {
    |suffix| <= |s| && s[|s| - |suffix|..] == suffix
  }

  /** Decimal text of an integer, as `strconv.Itoa` writes it. */
  function Decimal(n: int): (r: string)
    ensures |r| >= 1
  {
    if n < 0 then "-" + NatDecimal(-n) else NatDecimal(n)
  }

  function NatDecimal(n: nat): (r: string)
    ensures |r| >= 1
  {
    if n < 10 then [DigitChar(n)] else NatDecimal(n / 10) + [DigitChar(n % 10)]
  }

  /** The character of a decimal digit. */
  function DigitChar(d: nat): char
    requires d < 10
  {
    ('0' as int + d) as char
  }

  predicate IsDigits(s: string)
  {
    forall i :: 0 <= i < |s| ==> '0' <= s[i] <= '9'
  }

  /** The number a string of decimal digits denotes, most significant digit first. */
  function DigitsValue(s: string): nat
    requires IsDigits(s)
  {
    if s == [] then 0 else 10 * DigitsValue(s[..|s| - 1]) + (s[|s| - 1] as int - '0' as int)
  }

  /** The text of a natural number is its decimal digits, with no leading zero. */
  lemma {:induction false} NatDecimalValue(n: nat)
    ensures IsDigits(NatDecimal(n)) && DigitsValue(NatDecimal(n)) == n
    ensures NatDecimal(n)[0] == '0' <==> n == 0
    ensures n == 0 ==> NatDecimal(n) == "0"
    decreases n
  {
    var s := NatDecimal(n);
    if n >= 10 {
      var prefix := NatDecimal(n / 10);
      NatDecimalValue(n / 10);
      assert s[..|s| - 1] == prefix;
      assert s[0] == prefix[0];
    }
  }

  /** The text of an integer: a minus sign before the digits of its magnitude when negative, the digits alone otherwise. */
  lemma DecimalValue(n: int)
    ensures var r := Decimal(n);
      if n < 0 then r[0] == '-' && IsDigits(r[1..]) && DigitsValue(r[1..]) == -n && r[1] != '0'
      else IsDigits(r) && DigitsValue(r) == n && (r[0] == '0' <==> n == 0) && (n == 0 ==> r == "0")
  {
    if n < 0 {
      var digits := NatDecimal(-n);
      NatDecimalValue(-n);
      assert Decimal(n) == "-" + digits;
      assert Decimal(n)[1..] == digits && Decimal(n)[1] == digits[0];
    } else {
      NatDecimalValue(n);
    }
  }

  /** The first dot of `a + "." + b` is the one after `a` when `a` has none. */
  lemma IndexOfDotAfter(a: string, b: string)
    requires Dot !in a
    ensures IndexOfDot(a + [Dot] + b) == Some(|a|)
  {
    var s := a + [Dot] + b;
    assert s[|a|] == Dot;
    assert s[..|a|] == a;
  }

  /** Splitting once at the first dot recovers the two halves. */
  lemma SplitFirstDotAt(a: string, b: string)
    requires Dot !in a
    ensures SplitFirstDot(a + [Dot] + b) == [a, b]
  {
    IndexOfDotAfter(a, b);
    var s := a + [Dot] + b;
    assert s[..|a|] == a && s[|a| + 1..] == b;
  }

  /** Round trip: joining the parts of a split gives back the string. */
  lemma {:induction false} JoinSplitDots(s: string)
    ensures JoinDots(SplitDots(s)) == s
    decreases |s|
  {
    match IndexOfDot(s)
    case None =>
    case Some(i) =>
      var rest := SplitDots(s[i + 1..]);
      assert SplitDots(s) == [s[..i]] + rest;
      assert ([s[..i]] + rest)[1..] == rest;
      calc {
        JoinDots(SplitDots(s));
        s[..i] + [Dot] + JoinDots(rest);
        { JoinSplitDots(s[i + 1..]); }
        s[..i] + [Dot] + s[i + 1..];
      }
      assert s == s[..i] + [Dot] + s[i + 1..];
  }

  /** Splitting at a first dot that follows a dot-free prefix yields that prefix, then the split of the rest. */
  lemma SplitDotsAt(a: string, b: string)
    requires Dot !in a
    ensures SplitDots(a + [Dot] + b) == [a] + SplitDots(b)
  {
    IndexOfDotAfter(a, b);
    var s := a + [Dot] + b;
    assert s[..|a|] == a && s[|a| + 1..] == b;
  }

  /** Round trip: splitting a join of dot-free parts gives back the parts. */
  lemma {:induction false} SplitJoinDots(parts: seq<string>)
    requires |parts| >= 1
    requires forall i :: 0 <= i < |parts| ==> Dot !in parts[i]
    ensures SplitDots(JoinDots(parts)) == parts
    decreases |parts|
  {
    if |parts| > 1 {
      var tail := parts[1..];
      assert forall i :: 0 <= i < |tail| ==> tail[i] == parts[i + 1];
      SplitJoinDots(tail);
      SplitDotsAt(parts[0], JoinDots(tail));
      assert parts == [parts[0]] + tail;
    }
  }

  /** Joining one more part appends a dot and that part. */
  lemma {:induction false} JoinDotsSnoc(parts: seq<string>, x: string)
    requires |parts| >= 1
    ensures JoinDots(parts + [x]) == JoinDots(parts) + [Dot] + x
    decreases |parts|
  {
    if |parts| > 1 {
      assert (parts + [x])[1..] == parts[1..] + [x];
      JoinDotsSnoc(parts[1..], x);
    }
  }

  /** A leading dot contributes one empty first part. */
  lemma SplitDotsLeadingDot(s: string)
    ensures SplitDots([Dot] + s) == [""] + SplitDots(s)
  {
    assert IndexOfDot([Dot] + s) == Some(0);
    assert ([Dot] + s)[1..] == s;
  }
}
