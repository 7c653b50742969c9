/** Numbers in text: `from_i_to_hex`, `std::to_string`, and the digits that `strtoul`, `stoll` and
    `from_hex_to_i` read back. */
module Numerals {
  import opened Text

  function DigitChar(d: nat): char
    requires d < 16
  {
    if d < 10 then ('0' as int + d) as char else ('a' as int + d - 10) as char
  }

  /** `is_hex`: the value of a hexadecimal digit in either case. */
  function HexDigit(c: char): (v: Option<nat>)
    ensures v.Some? ==> v.value < 16
  {
    if '0' <= c <= '9' then Some(c as int - '0' as int)
    else if 'A' <= c <= 'F' then Some(c as int - 'A' as int + 10)
    else if 'a' <= c <= 'f' then Some(c as int - 'a' as int + 10)
    else None
  }

  predicate IsDigit(c: char, base: nat) { HexDigit(c).Some? && HexDigit(c).value < base }

  predicate AllDigits(s: string, base: nat) { forall i :: 0 <= i < |s| ==> IsDigit(s[i], base) }

  /** The numeral of `n`, most significant digit first, lower case, no leading zero. */
  function Digits(n: nat, base: nat): (s: string)
    requires 2 <= base <= 16
    ensures s != ""
    decreases n
  {
    if n < base then [DigitChar(n)] else Digits(n / base, base) + [DigitChar(n % base)]
  }

  function Value(s: string, base: nat): nat
    requires AllDigits(s, base)
  {
    if s == "" then 0 else Value(s[..|s| - 1], base) * base + HexDigit(s[|s| - 1]).value
  }

  lemma {:induction false} ValueSnoc(s: string, c: char, base: nat)
    requires AllDigits(s, base) && IsDigit(c, base)
    ensures AllDigits(s + [c], base) && Value(s + [c], base) == Value(s, base) * base + HexDigit(c).value
  {
    assert (s + [c])[..|s|] == s;
  }

  lemma DigitCharRead(d: nat)
    requires d < 16
    ensures HexDigit(DigitChar(d)) == Some(d)
  {
  }

  lemma DivMod(n: nat, base: nat, q: nat, d: nat)
    requires base >= 2 && q == n / base && d == n % base
    ensures q * base + d == n && d < base && (n > 0 ==> q < n)
  {
  }

  lemma {:induction false} NoDigits(base: nat)
    ensures AllDigits("", base) && Value("", base) == 0
  {
  }

  lemma {:induction false} DigitsStep(n: nat, base: nat)
    requires 2 <= base <= 16
    ensures n < base ==> Digits(n, base) == [DigitChar(n)]
    ensures n >= base ==> n % base < 16 && Digits(n, base) == Digits(n / base, base) + [DigitChar(n % base)]
  {
  }

  lemma {:induction false} DigitsRead(n: nat, base: nat)
    requires 2 <= base <= 16
    ensures AllDigits(Digits(n, base), base) && Value(Digits(n, base), base) == n
    decreases n
  {
    hide Digits, Value, AllDigits, HexDigit, DigitChar;
    DigitsStep(n, base);
    if n < base {
      DigitCharRead(n);
      NoDigits(base);
      ValueSnoc("", DigitChar(n), base);
      assert "" + [DigitChar(n)] == [DigitChar(n)];
    } else {
      var q, d := n / base, n % base;
      DivMod(n, base, q, d);
      DigitCharRead(d);
      DigitsRead(q, base);
      ValueSnoc(Digits(q, base), DigitChar(d), base);
    }
  }

  predicate LowerDigit(c: char) { '0' <= c <= '9' || 'a' <= c <= 'f' }

  /** A numeral is in lower case and has no leading zero. */
  lemma {:induction false} DigitsAreLower(n: nat, base: nat)
    requires 2 <= base <= 16
    ensures forall i :: 0 <= i < |Digits(n, base)| ==> LowerDigit(Digits(n, base)[i])
    ensures n > 0 ==> Digits(n, base)[0] != '0'
    decreases n
  {
    hide Digits;
    DigitsStep(n, base);
    if n >= base {
      DivMod(n, base, n / base, n % base);
      DigitsAreLower(n / base, base);
    }
  }

  lemma DigitInFront(high: string, digit: char, low: string)
    ensures high + [digit] + low == high + ([digit] + low)
  {
  }

  /** `from_i_to_hex`. */
  method FromIToHex(n0: nat) returns (ret: string)
    ensures ret == Digits(n0, 16)
  {
    hide Digits, DigitChar;
    ret := "";
    var n := n0;
    while true
      invariant Digits(n0, 16) == Digits(n, 16) + ret
      decreases n
    {
      ghost var done := ret;
      DigitsStep(n, 16);
      ret := [DigitChar(n % 16)] + ret;
      if n < 16 { return; }
      DigitInFront(Digits(n / 16, 16), DigitChar(n % 16), done);
      n := n / 16;
    }
  }
}
