/** Decimal text as the `Version` type uses it: Swift's `Int` on 64-bit
    platforms, `Int(_:)` applied to a captured group of digits, and the
    string interpolation `"\(n)"` of an `Int`. */
module Decimal {
  import opened Wrappers

  /** `Int.max` on a 64-bit platform. */
  const IntMax: int := 0x7FFF_FFFF_FFFF_FFFF

  /** Swift's `Int`. */
  type Int64 = i: int | -IntMax - 1 <= i <= IntMax

  /** The `.digit` character class, restricted to ASCII. */
  predicate IsDigit(c: char)
  {
    '0' <= c <= '9'
  }

  /** What `OneOrMore { .digit }` matches. */
  predicate DigitGroup(s: seq<char>)
  {
    |s| > 0 && forall i :: 0 <= i < |s| ==> IsDigit(s[i])
  }

  /** A digit group without superfluous leading zeros. */
  predicate Canonical(s: seq<char>)
  {
    DigitGroup(s) && (s[0] == '0' ==> |s| == 1)
  }

  function DigitValue(c: char): (d: nat)
    requires IsDigit(c)
    ensures d < 10
  {
    c as int - '0' as int
  }

  function DigitChar(d: nat): (c: char)
    requires d < 10
    ensures IsDigit(c) && DigitValue(c) == d
  {
    ('0' as int + d) as char
  }

  /** The number a string of digits denotes, read most significant first. */
  function Value(s: seq<char>): nat
    requires forall i :: 0 <= i < |s| ==> IsDigit(s[i])
  {
    if |s| == 0 then 0 else 10 * Value(s[..|s| - 1]) + DigitValue(s[|s| - 1])
  }

  /** `Int(group)`: the value when it fits in `Int`, nil otherwise. */
  function ParseInt(s: seq<char>): (r: Option<Int64>)
    requires DigitGroup(s)
    ensures r.Some? <==> Value(s) <= IntMax
    ensures r.Some? ==> r.value == Value(s)
  {
    var n := Value(s);
    if n <= IntMax then Some(n) else None
  }

  /** `"\(n)"` for a non-negative `n`: a digit group without superfluous
      leading zeros that reads back as `n`. */
  function NatString(n: nat): (s: seq<char>)
    ensures Canonical(s)
    ensures Value(s) == n
  {
    if n < 10 then
      assert Value([DigitChar(n)]) == n by {
        ValueSnoc([], DigitChar(n));
        assert [] + [DigitChar(n)] == [DigitChar(n)];
      }
      [DigitChar(n)]
    else
      var prefix := NatString(n / 10);
      ValueSnoc(prefix, DigitChar(n % 10));
      prefix + [DigitChar(n % 10)]
  }

  /** `"\(i)"` for any `Int`: a minus sign before a negative number, and the
      digits read back as the magnitude. */
  function IntString(i: int): (s: seq<char>)
    ensures i >= 0 ==> Canonical(s) && Value(s) == i
    ensures i < 0 ==> |s| > 1 && s[0] == '-' && Canonical(s[1..]) && Value(s[1..]) == -i
  {
    if i < 0 then
      var digits := NatString(-i);
      assert (['-'] + digits)[1..] == digits;
      ['-'] + digits
    else
      NatString(i)
  }

  /** Reading a string one more digit long: the earlier digits are worth ten
      times more. */
  lemma ValueSnoc(s: seq<char>, c: char)
    requires forall i :: 0 <= i < |s| ==> IsDigit(s[i])
    requires IsDigit(c)
    ensures forall i :: 0 <= i < |s + [c]| ==> IsDigit((s + [c])[i])
    ensures Value(s + [c]) == 10 * Value(s) + DigitValue(c)
  {
    assert (s + [c])[..|s + [c]| - 1] == s;
  }

  /** A digit group that starts with a non-zero digit denotes a positive number. */
  lemma {:induction false} LeadingDigitPositive(s: seq<char>)
    requires DigitGroup(s) && s[0] != '0'
    ensures Value(s) >= 1
  {
    if |s| > 1 {
      var p := s[..|s| - 1];
      assert p[0] == s[0];
      LeadingDigitPositive(p);
    }
  }

  /** Conversely, rendering the value of a canonical digit group gives the
      group back; a non-canonical one (such as "01") is not restored. */
  lemma {:induction false} CanonicalRoundTrip(s: seq<char>)
    requires Canonical(s)
    ensures NatString(Value(s)) == s
  {
    var p := s[..|s| - 1];
    var c := s[|s| - 1];
    assert s == p + [c];
    if |s| == 1 {
      assert Value(s) == DigitValue(c);
    } else {
      assert p[0] == s[0];
      LeadingDigitPositive(p);
      CanonicalRoundTrip(p);
      assert Value(s) == 10 * Value(p) + DigitValue(c);
      assert Value(s) / 10 == Value(p) && Value(s) % 10 == DigitValue(c);
      assert DigitChar(DigitValue(c)) == c;
    }
  }
}
