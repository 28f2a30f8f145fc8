/** Decimal numbers, as `operator<<` prints them and a reader takes them back. */
module Decimal {
  import opened Wrappers

  const DIGITS := "0123456789"

  predicate IsDigit(c: char) {
    '0' <= c <= '9'
  }

  function NatText(n: nat): (text: string)
    ensures text != "" && forall c :: c in text ==> IsDigit(c)
  {
    if n < 10 then [DIGITS[n]] else NatText(n / 10) + [DIGITS[n % 10]]
  }

  function IntText(n: int): string {
    if n < 0 then "-" + NatText(-n) else NatText(n)
  }

  function ParseNat(text: string): Option<nat> {
    if text == "" || !IsDigit(text[|text| - 1]) then None
    else
      var digit := text[|text| - 1] as int - '0' as int;
      if |text| == 1 then Some(digit)
      else match ParseNat(text[..|text| - 1])
           case None => None
           case Some(n) => Some(10 * n + digit)
  }

  function ParseInt(text: string): Option<int> {
    if text == "" || text[0] != '-' then ParseNat(text)
    else
      match ParseNat(text[1..])
      case None => None
      case Some(n) => var m: int := n; Some(-m)
  }

  lemma {:induction false} ParseNatText(n: nat)
    ensures ParseNat(NatText(n)) == Some(n)
  {
    if n >= 10 {
      ParseNatText(n / 10);
      assert NatText(n)[..|NatText(n)| - 1] == NatText(n / 10);
    }
  }

  lemma IntTextChars(n: int)
    ensures IntText(n) != "" && forall c :: c in IntText(n) ==> IsDigit(c) || c == '-'
  {
    var digits := if n < 0 then NatText(-n) else NatText(n);
    assert forall c :: c in digits ==> IsDigit(c);
  }

  lemma ParseNegative(digits: string, n: int)
    requires ParseNat(digits) == Some(n)
    ensures ParseInt("-" + digits) == Some(-n)
  {
    assert ("-" + digits)[1..] == digits;
  }

  lemma ParsePositive(digits: string, n: nat)
    requires ParseNat(digits) == Some(n) && digits != "" && digits[0] != '-'
    ensures ParseInt(digits) == Some(n)
  {
  }

  /** Printing and reading back any integer. */
  lemma ParseIntText(n: int)
    ensures ParseInt(IntText(n)) == Some(n)
  {
    var digits := NatText(if n < 0 then -n else n);
    ParseNatText(if n < 0 then -n else n);
    if n < 0 {
      ParseNegative(digits, -n);
    } else {
      assert digits[0] in digits;
      ParsePositive(digits, n);
    }
  }

  predicate NoLeadingZero(digits: string) {
    digits != "" && (digits[0] == '0' ==> digits == "0")
  }

  lemma {:induction false} NatTextNoLeadingZero(n: nat)
    ensures NoLeadingZero(NatText(n)) && (n > 0 ==> NatText(n)[0] != '0')
  {
    if n >= 10 { NatTextNoLeadingZero(n / 10); }
  }

  lemma {:induction false} ParseZero(text: string)
    requires ParseNat(text) == Some(0)
    ensures text[0] == '0'
  {
    if |text| > 1 { ParseZero(text[..|text| - 1]); }
  }

  lemma NextDigit(n: nat, m: nat, c: char)
    requires m > 0 && IsDigit(c) && n == 10 * m + (c as int - '0' as int)
    ensures NatText(n) == NatText(m) + [c]
  {
    assert DIGITS[c as int - '0' as int] == c;
    assert n / 10 == m && n % 10 == c as int - '0' as int;
  }

  lemma {:induction false} ParsedIsNatText(text: string, n: nat)
    requires ParseNat(text) == Some(n) && NoLeadingZero(text)
    ensures text == NatText(n)
    decreases |text|
  {
    if |text| == 1 {
      assert DIGITS[n] == text[0];
    } else {
      var front := text[..|text| - 1];
      var m := ParseNat(front).value;
      if m == 0 { ParseZero(front); }
      ParsedIsNatText(front, m);
      NextDigit(n, m, text[|text| - 1]);
      assert text == front + [text[|text| - 1]];
    }
  }

  /** A number has one text without leading zeros. */
  lemma NatTextIff(text: string, n: nat)
    ensures text == NatText(n) <==> ParseNat(text) == Some(n) && NoLeadingZero(text)
  {
    ParseNatText(n);
    NatTextNoLeadingZero(n);
    if ParseNat(text) == Some(n) && NoLeadingZero(text) { ParsedIsNatText(text, n); }
  }

  lemma MinusText(text: string, digits: string)
    ensures text == "-" + digits <==> text != "" && text[0] == '-' && text[1..] == digits
  {
    if text != "" && text[0] == '-' { assert text == "-" + text[1..]; }
  }

  /** An integer has one text: no plus sign, no leading zero, a minus sign exactly when it is negative. */
  lemma IntTextIff(text: string, n: int)
    ensures text == IntText(n) <==>
              if n < 0 then text != "" && text[0] == '-' && ParseNat(text[1..]) == Some(-n) && NoLeadingZero(text[1..])
              else ParseNat(text) == Some(n) && NoLeadingZero(text)
  {
    if n < 0 {
      MinusText(text, NatText(-n));
      if text != "" { NatTextIff(text[1..], -n); }
    } else {
      NatTextIff(text, n);
    }
  }
}
