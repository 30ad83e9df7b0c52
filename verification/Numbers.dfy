// Numbers in strings, as std::to_string prints them and std::stoul reads them.
module Numbers {
  import opened Wrappers

  const TWO_TO_THE_64: nat := 0x1_0000_0000_0000_0000

  predicate IsSpace(c: char) {
    c == ' ' || 9 as char <= c <= 13 as char
  }

  // A minus negates modulo 2^64.
  function Negated(n: nat): nat {
    (TWO_TO_THE_64 - n) % TWO_TO_THE_64
  }

  // ---- Decimal ----

  function Digit(n: nat): char
    requires n < 10
  {
    '0' + n as char
  }

  predicate IsDigit(c: char) {
    '0' <= c <= '9'
  }

  function DigitValue(c: char): nat
    requires IsDigit(c)
  {
    c as nat - '0' as nat
  }

  function Print(n: nat): (s: string)
    ensures s != "" && forall i | 0 <= i < |s| :: IsDigit(s[i])
  {
    if n < 10 then [Digit(n)] else Print(n / 10) + [Digit(n % 10)]
  }

  // The number of leading digits, and their value after acc.
  function Digits(s: string): nat {
    if s == "" || !IsDigit(s[0]) then 0 else 1 + Digits(s[1..])
  }

  function ReadFrom(s: string, acc: nat): nat {
    if s == "" || !IsDigit(s[0]) then acc else ReadFrom(s[1..], 10 * acc + DigitValue(s[0]))
  }

  lemma {:induction false} ReadMore(s: string, c: char, rest: string, acc: nat)
    requires (forall i | 0 <= i < |s| :: IsDigit(s[i])) && IsDigit(c) && (rest == "" || !IsDigit(rest[0]))
    ensures ReadFrom(s + [c] + rest, acc) == 10 * ReadFrom(s + rest, acc) + DigitValue(c)
  {
    if s == "" {
      assert s + [c] + rest == [c] + rest && s + rest == rest;
      assert ([c] + rest)[1..] == rest;
    } else {
      assert (s + [c] + rest)[1..] == s[1..] + [c] + rest && (s + rest)[1..] == s[1..] + rest;
      ReadMore(s[1..], c, rest, 10 * acc + DigitValue(s[0]));
    }
  }

  // Whatever comes after the digits, what was printed is read.
  lemma {:induction false} ReadPrinted(n: nat, rest: string)
    requires rest == "" || !IsDigit(rest[0])
    ensures ReadFrom(Print(n) + rest, 0) == n
  {
    if n < 10 {
      assert (Print(n) + rest)[1..] == rest;
    } else {
      ReadPrinted(n / 10, rest);
      ReadMore(Print(n / 10), Digit(n % 10), rest, 0);
    }
  }

  lemma PrintInjective(n: nat, m: nat)
    requires Print(n) == Print(m)
    ensures n == m
  {
    ReadPrinted(n, "");
    ReadPrinted(m, "");
  }

  // std::stoul: white space, a sign, digits, and anything; None for its exceptions.
  function Stoul(s: string): Option<nat> {
    if s != "" && IsSpace(s[0]) then Stoul(s[1..])
    else
      var digits := if s != "" && (s[0] == '-' || s[0] == '+') then s[1..] else s;
      if Digits(digits) == 0 || ReadFrom(digits, 0) >= TWO_TO_THE_64 then None
      else if s[0] == '-' then Some(Negated(ReadFrom(digits, 0)))
      else Some(ReadFrom(digits, 0))
  }

  lemma {:induction false} StoulRange(s: string)
    ensures Stoul(s).Some? ==> Stoul(s).value < TWO_TO_THE_64
    decreases |s|
  {
    if s != "" && IsSpace(s[0]) {
      StoulRange(s[1..]);
    }
  }

  lemma StoulPrinted(n: nat)
    requires n < TWO_TO_THE_64
    ensures Stoul(Print(n)) == Some(n)
  {
    var s := Print(n);
    assert IsDigit(s[0]);
    assert s + "" == s;
    ReadPrinted(n, "");
  }

  // ---- Hexadecimal ----

  function HexDigit(n: nat): char
    requires n < 16
  {
    if n < 10 then '0' + n as char else 'a' + (n - 10) as char
  }

  function FromDigit(c: char): Option<nat> {
    if '0' <= c <= '9' then Some(c as nat - '0' as nat)
    else if 'a' <= c <= 'f' then Some(c as nat - 'a' as nat + 10)
    else if 'A' <= c <= 'F' then Some(c as nat - 'A' as nat + 10)
    else None
  }

  function HexFrom(s: string, acc: nat): nat {
    if s == "" || FromDigit(s[0]).None? then acc else HexFrom(s[1..], 16 * acc + FromDigit(s[0]).value)
  }

  // std::stoul to the base 16, of at most two characters.
  function StoulHex(s: string): Option<nat>
    requires |s| <= 2
  {
    if s != "" && IsSpace(s[0]) then StoulHex(s[1..])
    else
      var digits := if s != "" && (s[0] == '-' || s[0] == '+') then s[1..] else s;
      if digits == "" || FromDigit(digits[0]).None? then None
      else if s[0] == '-' then Some(Negated(HexFrom(digits, 0)))
      else Some(HexFrom(digits, 0))
  }
}
