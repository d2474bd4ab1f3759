/**
 * The few java.lang.String and java.lang.Integer behaviours the modelled code
 * relies on: case-insensitive equality, String.compareTo (the order
 * Arrays.sort puts a directory listing in), String.replace(".wal", ""),
 * Integer.valueOf and the decimal rendering of an integer.
 */
module JavaStrings {
  import opened Wrappers

  const INT_MIN: int := -0x8000_0000
  const INT_MAX: int := 0x7fff_ffff

  /** A value of a Java `int`. */
  predicate IsInt(n: int) {
    INT_MIN <= n <= INT_MAX
  }

  // ---------------------------------------------------------------------------
  // Case-insensitive equality (String.equalsIgnoreCase, ASCII letters)
  // ---------------------------------------------------------------------------

  function ToLower(c: char): (r: char)
    ensures 'A' <= c <= 'Z' ==> r as int == c as int + 32
    ensures !('A' <= c <= 'Z') ==> r == c
  {
    if 'A' <= c <= 'Z' then (c as int + 32) as char else c
  }

  /** Two strings are equal ignoring case when they have the same length and agree letter by letter after folding. */
  predicate EqualsIgnoreCase(a: string, b: string)
  {
    |a| == |b| && forall i :: 0 <= i < |a| ==> ToLower(a[i]) == ToLower(b[i])
  }

  lemma EqualsIgnoreCaseReflexive(a: string)
    ensures EqualsIgnoreCase(a, a)
  {
  }

  lemma EqualsIgnoreCaseSymmetric(a: string, b: string)
    ensures EqualsIgnoreCase(a, b) <==> EqualsIgnoreCase(b, a)
  {
  }

  lemma EqualsIgnoreCaseTransitive(a: string, b: string, c: string)
    requires EqualsIgnoreCase(a, b) && EqualsIgnoreCase(b, c)
    ensures EqualsIgnoreCase(a, c)
  {
  }

  /** Strings of different lengths, or with a position whose folded letters differ, are not equal ignoring case. */
  lemma NotEqualsIgnoreCaseAt(a: string, b: string, i: nat)
    requires i < |a| && i < |b| && ToLower(a[i]) != ToLower(b[i])
    ensures !EqualsIgnoreCase(a, b)
  {
  }

  // ---------------------------------------------------------------------------
  // String.compareTo: the order of a sorted directory listing
  // ---------------------------------------------------------------------------

  /**
   * `a` sorts strictly before `b`: at the first position where they differ the
   * character of `a` is smaller, or `a` is a proper prefix of `b`.
   */
  predicate LexLess(a: string, b: string)
    decreases |a|
  {
    if |a| == 0 then |b| > 0
    else if |b| == 0 then false
    else if a[0] == b[0] then LexLess(a[1..], b[1..])
    else a[0] < b[0]
  }

  lemma {:induction false} LexLessIrreflexive(a: string)
    ensures !LexLess(a, a)
    decreases |a|
  {
    if |a| > 0 {
      LexLessIrreflexive(a[1..]);
    }
  }

  /** compareTo is a strict total order on strings. */
  lemma {:induction false} LexLessTotal(a: string, b: string)
    ensures a == b || LexLess(a, b) || LexLess(b, a)
    ensures !(LexLess(a, b) && LexLess(b, a))
    decreases |a|
  {
    if |a| > 0 && |b| > 0 && a[0] == b[0] {
      LexLessTotal(a[1..], b[1..]);
      if a[1..] == b[1..] {
        assert a == [a[0]] + a[1..] && b == [b[0]] + b[1..];
      }
    }
  }

  lemma {:induction false} LexLessTransitive(a: string, b: string, c: string)
    requires LexLess(a, b) && LexLess(b, c)
    ensures LexLess(a, c)
    decreases |a|
  {
    if |a| > 0 && a[0] == b[0] && b[0] == c[0] {
      LexLessTransitive(a[1..], b[1..], c[1..]);
    }
  }

  /**
   * The element a sorted, non-empty listing ends with: the greatest string of
   * `s` in the compareTo order.
   */
  function LexMax(s: seq<string>): (r: string)
    requires |s| > 0
    ensures r in s
    ensures forall x :: x in s ==> !LexLess(r, x)
  {
    if |s| == 1 then
      LexLessIrreflexive(s[0]);
      s[0]
    else
      var m := LexMax(s[1..]);
      assert forall x :: x in s ==> x == s[0] || x in s[1..];
      LexLessTotal(s[0], m);
      if LexLess(s[0], m) then m
      else
        assert forall x :: x in s[1..] ==> !LexLess(s[0], x) by {
          forall x | x in s[1..]
            ensures !LexLess(s[0], x)
          {
            if LexLess(s[0], x) {
              LexLessTotal(m, x);
              if m != x {
                LexLessTransitive(s[0], x, m);
              }
            }
          }
        }
        LexLessIrreflexive(s[0]);
        s[0]
  }

  // ---------------------------------------------------------------------------
  // String.replace(".wal", "")
  // ---------------------------------------------------------------------------

  const WAL_SUFFIX: string := ".wal"

  /** Removes every occurrence of ".wal", scanning left to right without overlap. */
  function StripWal(s: string): (r: string)
    ensures |r| <= |s|
    ensures forall c :: c in r ==> c in s
    ensures '.' !in s ==> r == s
  {
    if |s| < 4 then s
    else if s[..4] == WAL_SUFFIX then
      assert s[0] == '.';
      var t := StripWal(s[4..]);
      assert forall c :: c in s[4..] ==> c in s;
      t
    else
      var t := StripWal(s[1..]);
      assert forall c :: c in s[1..] ==> c in s;
      assert '.' !in s ==> s == [s[0]] + s[1..];
      [s[0]] + t
  }

  /** Stripping the name of a WAL file whose stem has no dot gives back the stem. */
  lemma {:induction false} StripWalSuffix(stem: string)
    requires '.' !in stem
    ensures StripWal(stem + WAL_SUFFIX) == stem
    decreases |stem|
  {
    var s := stem + WAL_SUFFIX;
    if |stem| == 0 {
      assert s[..4] == WAL_SUFFIX;
      assert s[4..] == [];
    } else {
      assert s[0] == stem[0] && s[0] != '.';
      assert s[..4] != WAL_SUFFIX;
      assert s[1..] == stem[1..] + WAL_SUFFIX;
      StripWalSuffix(stem[1..]);
      assert stem == [stem[0]] + stem[1..];
    }
  }

  // ---------------------------------------------------------------------------
  // Decimal digits, Integer.valueOf and String.valueOf(long)
  // ---------------------------------------------------------------------------

  predicate IsDigit(c: char) {
    '0' <= c <= '9'
  }

  predicate AllDigits(s: string) {
    forall i :: 0 <= i < |s| ==> IsDigit(s[i])
  }

  function DigitChar(d: nat): (c: char)
    requires d < 10
    ensures IsDigit(c) && c as int - '0' as int == d
  {
    ('0' as int + d) as char
  }

  /** The value of a string of decimal digits, most significant first. */
  function DigitsValue(s: string): (v: nat)
    requires AllDigits(s)
  {
    if |s| == 0 then 0
    else DigitsValue(s[..|s| - 1]) * 10 + (s[|s| - 1] as int - '0' as int)
  }

  /** The shortest decimal rendering of a natural number. */
  function NatToString(n: nat): (s: string)
    ensures |s| > 0 && AllDigits(s)
    ensures '.' !in s && '-' !in s && '+' !in s
  {
    if n < 10 then [DigitChar(n)]
    else NatToString(n / 10) + [DigitChar(n % 10)]
  }

  /** String.valueOf of an integer: a minus sign for negative values, then the digits. */
  function IntToString(n: int): (s: string)
    ensures '.' !in s
  {
    if n < 0 then "-" + NatToString(-n) else NatToString(n)
  }

  lemma {:induction false} DigitsValueNatToString(n: nat)
    ensures DigitsValue(NatToString(n)) == n
  {
    var s := NatToString(n);
    if n >= 10 {
      DigitsValueNatToString(n / 10);
      assert s[..|s| - 1] == NatToString(n / 10);
    }
  }

  /**
   * Integer.valueOf(String): an optional '+' or '-', then at least one
   * decimal digit, with a value in the range of `int`; anything else is a
   * NumberFormatException, here None.
   */
  function ParseInt(s: string): (r: Option<int>)
    ensures r.Some? ==> IsInt(r.value)
    ensures r.Some? ==> |s| > 0
  {
    if |s| == 0 then None
    else
      var negative := s[0] == '-';
      var start := if s[0] == '-' || s[0] == '+' then 1 else 0;
      var digits := s[start..];
      if |digits| == 0 || !AllDigits(digits) then None
      else
        var v := DigitsValue(digits);
        var n: int := if negative then -(v as int) else v as int;
        if IsInt(n) then Some(n) else None
  }

  /** Rendering an int and parsing it back gives the same int. */
  lemma ParseIntToString(n: int)
    requires IsInt(n)
    ensures ParseInt(IntToString(n)) == Some(n)
  {
    if n < 0 {
      var d := NatToString(-n);
      assert IntToString(n) == "-" + d;
      assert ("-" + d)[0] == '-' && ("-" + d)[1..] == d;
      DigitsValueNatToString(-n);
    } else {
      var d := NatToString(n);
      assert IntToString(n) == d;
      assert d[0] in d && d[0..] == d;
      DigitsValueNatToString(n);
    }
  }

  /** A string that is not all digits after its sign is rejected. */
  lemma ParseIntRejectsNonDigit(s: string, i: nat)
    requires 0 < i < |s| && !IsDigit(s[i])
    ensures ParseInt(s) == None
  {
    var start := if s[0] == '-' || s[0] == '+' then 1 else 0;
    assert s[start..][i - start] == s[i];
  }
}
