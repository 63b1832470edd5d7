/** Values shared by the route handlers: optional request fields, JavaScript
    truthiness, and the decimal text of numbers (`String(n)` in JavaScript,
    the canonical text of an INT primary key in MySQL). */
module Common {

  /** A nullable value: SQL NULL, or a request field that is missing or null. */
  datatype Option<+T> = None | Some(value: T)

  /** A JSON body field whose absence (`=== undefined`) is told apart from
      every value it may carry, including null and 0. */
  datatype Given<+T> = Undefined | Given(value: T)

  /** `!field` is false: the field is present, not null and not "". */
  predicate Truthy(field: Option<string>)
  {
    field.Some? && field.value != ""
  }

  /** `field || null` */
  function OrNull(field: Option<string>): (r: Option<string>)
    ensures r.Some? <==> Truthy(field)
    ensures r.Some? ==> r == field
  {
    if Truthy(field) then field else None
  }

  /** `field || fallback` */
  function OrElse(field: Option<string>, fallback: string): (r: string)
    ensures Truthy(field) ==> r == field.value
    ensures !Truthy(field) ==> r == fallback
  {
    if Truthy(field) then field.value else fallback
  }

  predicate IsDigit(c: char)
  {
    '0' <= c <= '9'
  }

  predicate AllDigits(s: string)
  {
    forall i :: 0 <= i < |s| ==> IsDigit(s[i])
  }

  function Digit(n: nat): (c: char)
    requires n < 10
    ensures IsDigit(c)
  {
    ('0' as int + n) as char
  }

  function DigitValue(c: char): (n: nat)
    requires IsDigit(c)
    ensures n < 10 && Digit(n) == c
  {
    c as int - '0' as int
  }

  /** The shortest decimal text of `n`, as `String(n)` writes it. */
  function DecimalText(n: nat): (s: string)
    ensures 1 <= |s| && AllDigits(s)
    ensures |s| == 1 <==> n < 10
  {
    if n < 10 then [Digit(n)] else DecimalText(n / 10) + [Digit(n % 10)]
  }

  /** The number that a string of decimal digits denotes (leading zeros allowed). */
  function ParseDecimal(s: string): nat
    requires AllDigits(s)
  {
    if s == [] then 0 else ParseDecimal(s[..|s| - 1]) * 10 + DigitValue(s[|s| - 1])
  }

  lemma {:induction false} ParseDecimalText(n: nat)
    ensures ParseDecimal(DecimalText(n)) == n
  {
    var s := DecimalText(n);
    if n >= 10 {
      ParseDecimalText(n / 10);
      assert s[..|s| - 1] == DecimalText(n / 10);
    }
  }

  /** Distinct numbers have distinct texts, so a key matches at most one id. */
  lemma DecimalTextInjective(m: nat, n: nat)
    requires DecimalText(m) == DecimalText(n)
    ensures m == n
  {
    ParseDecimalText(m);
    ParseDecimalText(n);
  }

  /** `String(i)` for an integer: a minus sign before the digits when negative. */
  function IntText(i: int): (s: string)
    ensures 1 <= |s|
  {
    if i < 0 then "-" + DecimalText(-i) else DecimalText(i)
  }

  /** Reads back what IntText writes. */
  function ParseInt(s: string): (r: Option<int>)
  {
    if |s| >= 2 && s[0] == '-' && AllDigits(s[1..]) then Some(-(ParseDecimal(s[1..]) as int))
    else if 1 <= |s| && AllDigits(s) then Some(ParseDecimal(s))
    else None
  }

  lemma ParseIntText(i: int)
    ensures ParseInt(IntText(i)) == Some(i)
  {
    if i < 0 {
      var digits := DecimalText(-i);
      var s := "-" + digits;
      assert s[1..] == digits;
      ParseDecimalText(-i);
      assert ParseInt(s) == Some(-(ParseDecimal(digits) as int));
    } else {
      var s := DecimalText(i);
      assert IsDigit(s[0]);
      ParseDecimalText(i);
      assert ParseInt(s) == Some(ParseDecimal(s));
    }
  }

  /** A primary key given as URL path text matches the row whose INT id has
      that decimal text. */
  predicate KeyMatches(key: string, id: nat)
  {
    DecimalText(id) == key
  }

  lemma KeyMatchesOne(key: string, id1: nat, id2: nat)
    requires KeyMatches(key, id1) && KeyMatches(key, id2)
    ensures id1 == id2
  {
    DecimalTextInjective(id1, id2);
  }
}
