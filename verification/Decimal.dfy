/** Decimal text: what printf's %d and %ld write and what atol reads. */
module Decimal {

  predicate IsDigit(c: char) { '0' <= c <= '9' }

  function Digit(d: nat): (c: char)
    requires d < 10
    ensures IsDigit(c)
  {
    ['0', '1', '2', '3', '4', '5', '6', '7', '8', '9'][d]
  }

  function DigitValue(c: char): nat
    requires IsDigit(c)
  {
    c as int - '0' as int
  }

  function TextNat(n: nat): (s: string)
    ensures |s| > 0 && forall i :: 0 <= i < |s| ==> IsDigit(s[i])
  {
    if n < 10 then [Digit(n)] else TextNat(n / 10) + [Digit(n % 10)]
  }

  /** %ld */
  function Text(n: int): (s: string)
    ensures |s| > 0 && forall i :: 0 <= i < |s| ==> IsDigit(s[i]) || s[i] == '-'
  {
    if n < 0 then "-" + TextNat(-n) else TextNat(n)
  }

  /** The number the leading digits of s spell out, after digits worth acc. */
  function ReadDigits(s: string, acc: nat): nat {
    if s == [] || !IsDigit(s[0]) then acc else ReadDigits(s[1..], 10 * acc + DigitValue(s[0]))
  }

  predicate IsSpace(c: char) { c == ' ' || '\t' <= c <= '\r' }

  /** atol(), for numbers that fit a long. */
  function Atol(s: string): int {
    if s == [] then 0
    else if IsSpace(s[0]) then Atol(s[1..])
    else if s[0] == '-' then
      var n: int := ReadDigits(s[1..], 0);
      -n
    else if s[0] == '+' then ReadDigits(s[1..], 0)
    else ReadDigits(s, 0)
  }

  // ------------------------------------------------------------------ lemmas

  /** The digits follow '0', the lower ones stand behind the higher ones, and the sign stands before them all. */
  lemma DigitsInOrder(n: int, d: int)
    requires n > 0 && 0 <= d < 10
    ensures Text(d) == [('0' as int + d) as char] && Text(10 * n + d) == Text(n) + [('0' as int + d) as char]
    ensures Text(-n) == "-" + Text(n)
  {
    assert (10 * n + d) / 10 == n && (10 * n + d) % 10 == d;
    DigitIs(d);
    hide Digit;
  }

  lemma DigitIs(d: nat)
    requires d < 10
    ensures Digit(d) as int == '0' as int + d
  {
  }

  predicate StopsDigits(rest: string) { rest == [] || !IsDigit(rest[0]) }

  lemma DigitBack(d: nat)
    requires d < 10
    ensures DigitValue(Digit(d)) == d
  {
  }

  lemma {:induction false} ReadAppended(s: string, c: char, rest: string, acc: nat)
    requires (forall i :: 0 <= i < |s| ==> IsDigit(s[i])) && IsDigit(c) && StopsDigits(rest)
    ensures ReadDigits(s + [c] + rest, acc) == 10 * ReadDigits(s, acc) + DigitValue(c)
    decreases |s|
  {
    if s == [] {
      assert s + [c] + rest == [c] + rest;
      assert ([c] + rest)[1..] == rest;
      assert ReadDigits(rest, 10 * acc + DigitValue(c)) == 10 * acc + DigitValue(c);
    } else {
      assert (s + [c] + rest)[1..] == s[1..] + [c] + rest;
      ReadAppended(s[1..], c, rest, 10 * acc + DigitValue(s[0]));
    }
  }

  lemma {:induction false} ReadTextNat(n: nat, rest: string)
    requires StopsDigits(rest)
    ensures ReadDigits(TextNat(n) + rest, 0) == n
    decreases n
  {
    if n < 10 {
      ReadAppended([], Digit(n), rest, 0);
      assert [] + [Digit(n)] + rest == TextNat(n) + rest;
      DigitBack(n);
    } else {
      var s, c := TextNat(n / 10), Digit(n % 10);
      ReadAppended(s, c, rest, 0);
      ReadTextNat(n / 10, []);
      assert s + [] == s;
      DigitBack(n % 10);
    }
  }

  /** atol reads back what %ld wrote, whatever non-digit follows. */
  lemma AtolText(n: int, rest: string)
    requires StopsDigits(rest)
    ensures Atol(Text(n) + rest) == n
  {
    hide ReadDigits, TextNat;
    if n < 0 {
      assert (Text(n) + rest)[1..] == TextNat(-n) + rest;
      ReadTextNat(-n, rest);
    } else {
      ReadTextNat(n, rest);
      assert IsDigit((TextNat(n) + rest)[0]);
    }
  }

  function Power10(k: nat): nat { if k == 0 then 1 else 10 * Power10(k - 1) }

  lemma {:induction false} TextNatLength(n: nat, k: nat)
    requires k > 0 && n < Power10(k)
    ensures |TextNat(n)| <= k
    decreases n
  {
    if n >= 10 {
      TextNatLength(n / 10, k - 1);
    }
  }

  predicate IsLong(n: int) { -0x8000_0000_0000_0000 <= n < 0x8000_0000_0000_0000 }

  lemma TextLength(n: int)
    requires IsLong(n)
    ensures |Text(n)| <= 20
  {
    assert Power10(3) == 1000;
    assert Power10(6) == 1_000_000;
    assert Power10(9) == 1_000_000_000;
    assert Power10(12) == 1_000_000_000_000;
    assert Power10(15) == 1_000_000_000_000_000;
    assert Power10(18) == 1_000_000_000_000_000_000;
    TextNatLength(if n < 0 then -n else n, 19);
  }

  lemma {:induction false} ReadBeforeNewline(s: string, acc: nat)
    ensures ReadDigits(s + "\n", acc) == ReadDigits(s, acc)
    decreases |s|
  {
    if s != [] && IsDigit(s[0]) {
      assert (s + "\n")[1..] == s[1..] + "\n";
      ReadBeforeNewline(s[1..], 10 * acc + DigitValue(s[0]));
    }
  }

  /** A newline at the end makes no difference to atol. */
  lemma {:induction false} AtolBeforeNewline(s: string)
    ensures Atol(s + "\n") == Atol(s)
    decreases |s|
  {
    hide ReadDigits;
    if s == [] {
      assert s + "\n" == "\n" && "\n"[1..] == "";
    } else {
      assert (s + "\n")[1..] == s[1..] + "\n";
      AtolBeforeNewline(s[1..]);
      ReadBeforeNewline(s[1..], 0);
      ReadBeforeNewline(s, 0);
    }
  }
}
