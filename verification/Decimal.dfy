/** Decimal text, as printf writes it and strtol reads it. */
module Decimal {
  import opened Wrappers

  predicate IsDigit(c: char) {
    '0' <= c <= '9'
  }

  predicate AllDigits(s: string) {
    forall i :: 0 <= i < |s| ==> IsDigit(s[i])
  }

  function DigitOf(n: nat): (c: char)
    requires n < 10
    ensures IsDigit(c) && ValueOf(c) == n
  {
    '0' + n as char
  }

  function ValueOf(c: char): (n: nat)
    requires IsDigit(c)
    ensures n < 10
  {
    c as int - '0' as int
  }

  /** The number a string of digits denotes. */
  function Value(s: string): nat
    requires AllDigits(s)
  {
    if s == [] then 0 else 10 * Value(s[..|s| - 1]) + ValueOf(s[|s| - 1])
  }

  /** %d of a natural number. */
  function Dec(n: nat): (s: string)
    ensures s != [] && AllDigits(s)
  {
    if n < 10 then [DigitOf(n)] else Dec(n / 10) + [DigitOf(n % 10)]
  }

  /** %0kd of a number that fits k digits. */
  function Padded(n: nat, k: nat): (s: string)
    ensures |s| == k && AllDigits(s)
    decreases k
  {
    if k == 0 then [] else Padded(n / 10, k - 1) + [DigitOf(n % 10)]
  }

  lemma ValueSnoc(s: string, c: char)
    requires AllDigits(s) && IsDigit(c)
    ensures AllDigits(s + [c]) && Value(s + [c]) == 10 * Value(s) + ValueOf(c)
  {
    assert (s + [c])[..|s|] == s;
  }

  lemma {:induction false} ValueDec(n: nat)
    ensures Value(Dec(n)) == n
  {
    if n < 10 {
      assert Dec(n)[..0] == [];
      ValueSnoc([], DigitOf(n));
      assert [] + [DigitOf(n)] == [DigitOf(n)];
    } else {
      ValueDec(n / 10);
      ValueSnoc(Dec(n / 10), DigitOf(n % 10));
    }
  }

  function Pow10(k: nat): nat {
    if k == 0 then 1 else 10 * Pow10(k - 1)
  }

  lemma {:induction false} ValuePadded(n: nat, k: nat)
    requires n < Pow10(k)
    ensures Value(Padded(n, k)) == n
    decreases k
  {
    if k > 0 {
      ValuePadded(n / 10, k - 1);
      ValueSnoc(Padded(n / 10, k - 1), DigitOf(n % 10));
    }
  }

  const LONG_MAX: int := 0x7FFF_FFFF

  predicate IsSpace(c: char) {
    c == ' ' || '\t' <= c <= '\r'
  }

  function SkipSpace(s: string): (r: string)
    ensures |r| <= |s|
  {
    if s != [] && IsSpace(s[0]) then SkipSpace(s[1..]) else s
  }

  /** mosh_string_to_int in base 10 (utils/str_utils.c:143-160): strtol with a 32-bit long, which
      skips white space and takes one sign; the whole string has to be consumed and in range. */
  function StringToInt(s: string): Option<int> {
    var t := SkipSpace(s);
    var signed := t != [] && (t[0] == '-' || t[0] == '+');
    var digits := if signed then t[1..] else t;
    if digits == [] || !AllDigits(digits) then None
    else
      var v: int := if signed && t[0] == '-' then 0 - Value(digits) else Value(digits);
      if -LONG_MAX - 1 <= v <= LONG_MAX then Some(v) else None
  }

  /** What a numeral is made of: white space, at most one sign, digits. */
  datatype Numeral = Numeral(space: string, sign: string, digits: string)

  /** n is a way to write v. */
  predicate Denotes(n: Numeral, v: int) {
    && (forall i :: 0 <= i < |n.space| ==> n.space[i] in " \t\n\U{000B}\U{000C}\r")
    && (n.sign == "" || n.sign == "-" || n.sign == "+")
    && n.digits != "" && AllDigits(n.digits)
    && v == if n.sign == "-" then 0 - Value(n.digits) else Value(n.digits)
  }

  lemma SpaceIs(c: char)
    ensures IsSpace(c) <==> c in " \t\n\U{000B}\U{000C}\r"
  {
    var all := " \t\n\U{000B}\U{000C}\r";
    assert all[0] == ' ' && all[1] == '\t' && all[2] == '\n' && all[3] == '\U{000B}' && all[4] == '\U{000C}' && all[5] == '\r';
  }

  function NumeralText(n: Numeral): string {
    n.space + (n.sign + n.digits)
  }

  lemma {:induction false} SkipSpaceIs(space: string, t: string)
    requires forall i :: 0 <= i < |space| ==> IsSpace(space[i])
    requires t != "" && !IsSpace(t[0])
    ensures SkipSpace(space + t) == t
  {
    if space == "" {
      assert space + t == t;
    } else {
      assert (space + t)[1..] == space[1..] + t;
      SkipSpaceIs(space[1..], t);
    }
  }

  lemma {:induction false} SkipSpaceSplits(s: string)
    ensures var k := |s| - |SkipSpace(s)|;
      SkipSpace(s) == s[k..] && forall i :: 0 <= i < k ==> IsSpace(s[i])
  {
    if s != [] && IsSpace(s[0]) {
      SkipSpaceSplits(s[1..]);
    }
  }

  lemma ReadNumeral(n: Numeral, v: int)
    requires Denotes(n, v) && -LONG_MAX - 1 <= v <= LONG_MAX
    ensures StringToInt(NumeralText(n)) == Some(v)
  {
    hide Value;
    var t := n.sign + n.digits;
    assert IsDigit(n.digits[0]);
    forall i | 0 <= i < |n.space| ensures IsSpace(n.space[i]) { SpaceIs(n.space[i]); }
    if n.sign == "" {
      assert t == n.digits;
    } else {
      assert t[0] == n.sign[0] && t[1..] == n.digits;
    }
    SkipSpaceIs(n.space, t);
  }

  lemma WriteNumeral(s: string, v: int) returns (n: Numeral)
    requires StringToInt(s) == Some(v)
    ensures NumeralText(n) == s && Denotes(n, v)
  {
    hide Value, AllDigits, IsSpace, SkipSpace;
    SkipSpaceSplits(s);
    var t := SkipSpace(s);
    if t[0] == '-' || t[0] == '+' {
      n := Numeral(s[..|s| - |t|], [t[0]], t[1..]);
      assert n.sign + n.digits == t;
    } else {
      n := Numeral(s[..|s| - |t|], "", t);
      assert n.sign + n.digits == t;
    }
    assert s[..|s| - |t|] + t == s;
    forall i | 0 <= i < |n.space| ensures n.space[i] in " \t\n\U{000B}\U{000C}\r" { SpaceIs(n.space[i]); }
  }

  /** The texts that are read, and as what: exactly the numerals in range, with nothing behind the
      digits. */
  lemma StringToIntIff(s: string, v: int)
    ensures StringToInt(s) == Some(v) <==>
            -LONG_MAX - 1 <= v <= LONG_MAX && exists n :: NumeralText(n) == s && Denotes(n, v)
  {
    hide Denotes, NumeralText;
    if StringToInt(s) == Some(v) {
      var n := WriteNumeral(s, v);
    }
    forall n | NumeralText(n) == s && Denotes(n, v) && -LONG_MAX - 1 <= v <= LONG_MAX
      ensures StringToInt(s) == Some(v) {
      ReadNumeral(n, v);
    }
  }

  lemma PlainDigits(s: string)
    requires s != [] && AllDigits(s) && Value(s) <= LONG_MAX
    ensures StringToInt(s) == Some(Value(s))
  {
    hide Value;
    assert IsDigit(s[0]);
  }
}
