/**
  Decimal rendering of natural numbers, as Go's `%v` verb prints an
  unsigned integer, with its inverse and splitting of a string at dots.
 */
module Decimal {

  predicate IsDigit(c: char) {
    '0' <= c <= '9'
  }

  predicate AllDigits(s: string) {
    forall i :: 0 <= i < |s| ==> IsDigit(s[i])
  }

  function DigitChar(d: nat): (c: char)
    requires d < 10
    ensures IsDigit(c)
  {
    ('0' as int + d) as char
  }

  function DigitValue(c: char): (d: nat)
    requires IsDigit(c)
    ensures d < 10
  {
    (c as int - '0' as int)
  }

  /** The decimal digits of `n`, most significant first, without leading zeros. */
  function Show(n: nat): (s: string)
    ensures |s| >= 1 && AllDigits(s)
    ensures n > 0 ==> s[0] != '0'
    ensures n == 0 <==> s == "0"
    decreases n
  {
    if n < 10 then [DigitChar(n)] else Show(n / 10) + [DigitChar(n % 10)]
  }

  /** The number a string of decimal digits denotes. */
  function Value(s: string): nat
    requires AllDigits(s)
    decreases |s|
  {
    if |s| == 0 then 0 else Value(s[..|s| - 1]) * 10 + DigitValue(s[|s| - 1])
  }

  /** Reading back what `Show` printed gives the number. */
  lemma {:induction false} ValueOfShow(n: nat)
    ensures Value(Show(n)) == n
    decreases n
  {
    var s := Show(n);
    if n >= 10 {
      ValueOfShow(n / 10);
      assert s[..|s| - 1] == Show(n / 10);
    }
  }

  /** The pieces of `s` between dots, in order; a string without dots is one piece. */
  function Fields(s: string): (fs: seq<string>)
    ensures |fs| >= 1
    decreases |s|
  {
    if |s| == 0 then [""]
    else if s[0] == '.' then [""] + Fields(s[1..])
    else
      var rest := Fields(s[1..]);
      [[s[0]] + rest[0]] + rest[1..]
  }

  lemma DigitsHaveNoDot(s: string)
    requires AllDigits(s)
    ensures forall i :: 0 <= i < |s| ==> s[i] != '.'
  {
  }

  lemma {:induction false} FieldsNoDot(a: string)
    requires forall i :: 0 <= i < |a| ==> a[i] != '.'
    ensures Fields(a) == [a]
    decreases |a|
  {
    if |a| > 0 {
      FieldsNoDot(a[1..]);
      assert [a[0]] + a[1..] == a;
    }
  }

  /** A dot after a dot-free prefix ends exactly that prefix's field. */
  lemma {:induction false} FieldsSplit(a: string, b: string)
    requires forall i :: 0 <= i < |a| ==> a[i] != '.'
    ensures Fields(a + "." + b) == [a] + Fields(b)
    decreases |a|
  {
    if |a| == 0 {
      assert a + "." + b == "." + b;
      assert ("." + b)[1..] == b;
    } else {
      FieldsSplit(a[1..], b);
      assert (a + "." + b)[1..] == a[1..] + "." + b;
      assert [a[0]] + a[1..] == a;
    }
  }

  /** Three numbers in decimal, separated by dots. */
  function Dotted(a: nat, b: nat, c: nat): string {
    Show(a) + "." + Show(b) + "." + Show(c)
  }

  /** Three dot-free strings joined by dots split back into exactly those strings. */
  lemma FieldsOfJoined(s0: string, s1: string, s2: string)
    requires forall i :: 0 <= i < |s0| ==> s0[i] != '.'
    requires forall i :: 0 <= i < |s1| ==> s1[i] != '.'
    requires forall i :: 0 <= i < |s2| ==> s2[i] != '.'
    ensures Fields(s0 + "." + s1 + "." + s2) == [s0, s1, s2]
  {
    var tail := s1 + "." + s2;
    assert s0 + "." + s1 + "." + s2 == s0 + "." + tail;
    FieldsSplit(s0, tail);
    FieldsSplit(s1, s2);
    FieldsNoDot(s2);
  }

  /** A dotted triple splits back into the canonical renderings of its three numbers. */
  lemma DottedFields(a: nat, b: nat, c: nat)
    ensures var fs := Fields(Dotted(a, b, c));
      && fs == [Show(a), Show(b), Show(c)]
      && |fs| == 3
      && AllDigits(fs[0]) && AllDigits(fs[1]) && AllDigits(fs[2])
      && Value(fs[0]) == a && Value(fs[1]) == b && Value(fs[2]) == c
  {
    DigitsHaveNoDot(Show(a));
    DigitsHaveNoDot(Show(b));
    DigitsHaveNoDot(Show(c));
    FieldsOfJoined(Show(a), Show(b), Show(c));
    ValueOfShow(a);
    ValueOfShow(b);
    ValueOfShow(c);
  }
}
