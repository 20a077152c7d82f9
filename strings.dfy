/** The few Python string operations the solvers use on their variable names. */
module Strings {
  import opened Wrappers

  predicate IsPrefix(p: string, s: string)
  {
    |p| <= |s| && s[..|p|] == p
  }

  /** Python's `sub in s` for strings. */
  predicate Contains(s: string, sub: string)
    decreases |s|
  {
    IsPrefix(sub, s) || (s != [] && Contains(s[1..], sub))
  }

  /** Python's `s.replace(sub, "")` for a non-empty `sub`: left-to-right, non-overlapping. */
  function DeleteAll(s: string, sub: string): string
    requires sub != []
    decreases |s|
  {
    if |s| < |sub| then s
    else if IsPrefix(sub, s) then DeleteAll(s[|sub|..], sub)
    else [s[0]] + DeleteAll(s[1..], sub)
  }

  /** Python's `s.split(c)` with a one-character separator. */
  function Split(s: string, c: char): (parts: seq<string>)
    ensures |parts| >= 1
  {
    if s == [] then [[]]
    else if s[0] == c then [[]] + Split(s[1..], c)
    else
      var r := Split(s[1..], c);
      [[s[0]] + r[0]] + r[1..]
  }

  function DigitChar(d: nat): char
    requires d < 10
  {
    "0123456789"[d]
  }

  /** `str(n)` for a non-negative integer. */
  function NatToString(n: nat): (r: string)
    ensures r != [] && forall i :: 0 <= i < |r| ==> '0' <= r[i] <= '9'
    decreases n
  {
    if n < 10 then [DigitChar(n)] else NatToString(n / 10) + [DigitChar(n % 10)]
  }

  predicate AllDigits(s: string)
  {
    forall i :: 0 <= i < |s| ==> '0' <= s[i] <= '9'
  }

  function DigitsValue(s: string): nat
    requires AllDigits(s)
    decreases |s|
  {
    if s == [] then 0
    else 10 * DigitsValue(s[..|s| - 1]) + (s[|s| - 1] as int - '0' as int)
  }

  /** Python's `int(s)` on an optionally signed run of ASCII decimal digits, and ValueError
      on every other string. Python also accepts surrounding whitespace, `_` between digits
      and non-ASCII decimal digits; those forms are not modelled. */
  function ParseInt(s: string): Result<int>
  {
    if s != [] && (s[0] == '-' || s[0] == '+') then
      var body := s[1..];
      if body != [] && AllDigits(body) then
        Ok(if s[0] == '-' then 0 - (DigitsValue(body) as int) else DigitsValue(body) as int)
      else Err(ValueError)
    else if s != [] && AllDigits(s) then Ok(DigitsValue(s))
    else Err(ValueError)
  }

  lemma {:induction false} DigitsOfNat(n: nat)
    ensures AllDigits(NatToString(n)) && DigitsValue(NatToString(n)) == n
    decreases n
  {
    var r := NatToString(n);
    if n >= 10 {
      DigitsOfNat(n / 10);
      assert r[..|r| - 1] == NatToString(n / 10);
    }
  }

  /** `int(str(n)) == n`. */
  lemma ParseIntOfNat(n: nat)
    ensures ParseInt(NatToString(n)) == Ok(n)
  {
    DigitsOfNat(n);
  }

  lemma {:induction false} SplitNoSeparator(a: string, c: char)
    requires c !in a
    ensures Split(a, c) == [a]
  {
    if a != [] {
      SplitNoSeparator(a[1..], c);
      assert [a[0]] + a[1..] == a;
    }
  }

  /** A string holding the separator splits into at least two parts. */
  lemma {:induction false} SplitWithSeparator(a: string, c: char)
    requires c in a
    ensures |Split(a, c)| >= 2
  {
    if a[0] != c {
      assert a == [a[0]] + a[1..];
      SplitWithSeparator(a[1..], c);
    }
  }

  /** Splitting at the first separator: `(a + c + b).split(c) == [a] + b.split(c)` when `a` has
      no `c`. */
  lemma {:induction false} SplitAtFirst(a: string, c: char, b: string)
    requires c !in a
    ensures Split(a + [c] + b, c) == [a] + Split(b, c)
  {
    if a == [] {
      assert a + [c] + b == [c] + b;
      assert ([c] + b)[1..] == b;
    } else {
      SplitAtFirst(a[1..], c, b);
      assert (a + [c] + b)[1..] == a[1..] + [c] + b;
      assert [a[0]] + a[1..] == a;
    }
  }

  /** A prefix that cannot start an occurrence of `sub` changes neither `Contains` nor
      `DeleteAll`. */
  lemma {:induction false} PrefixWithoutStart(a: string, t: string, sub: string)
    requires sub != [] && sub[0] !in a
    ensures Contains(a + t, sub) == Contains(t, sub)
    ensures DeleteAll(a + t, sub) == a + DeleteAll(t, sub)
  {
    if a != [] {
      PrefixWithoutStart(a[1..], t, sub);
      assert (a + t)[1..] == a[1..] + t;
      assert (a + t)[0] == a[0];
      assert !IsPrefix(sub, a + t);
      assert [a[0]] + (a[1..] + DeleteAll(t, sub)) == a + DeleteAll(t, sub);
    } else {
      assert a + t == t;
    }
  }

  /** A string that lacks the first character of `sub` does not contain it. */
  /** A string lacking one of the characters of `sub` does not contain `sub`. */
  lemma {:induction false} MissingChar(s: string, sub: string, ch: char)
    requires ch in sub && ch !in s
    ensures !Contains(s, sub)
    decreases |s|
  {
    if s != [] {
      MissingChar(s[1..], sub, ch);
    }
  }

  lemma NoStartChar(s: string, sub: string)
    requires sub != [] && sub[0] !in s
    ensures !Contains(s, sub)
  {
    PrefixWithoutStart(s, [], sub);
    assert s + [] == s;
  }
}
