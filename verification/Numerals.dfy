/** Decimal numerals, as `%d` prints them, and hexadecimal digits. */
module Numerals {

  predicate Numeral(s: string) {
    forall i | 0 <= i < |s| :: '0' <= s[i] <= '9'
  }

  function Decimal(n: nat): (r: string)
    ensures r != [] && Numeral(r)
    ensures r[0] == '0' ==> r == "0"
  {
    if n < 10 then [(n as char) + '0'] else Decimal(n / 10) + [(n % 10) as char + '0']
  }

  /** The value of the digits, read from the left. */
  function Value(d: string, acc: nat): nat
    requires Numeral(d)
  {
    if d == [] then acc else Value(d[1..], acc * 10 + (d[0] - '0') as nat)
  }

  lemma {:induction false} ValueSnoc(d: string, c: char, acc: nat)
    requires '0' <= c <= '9' && Numeral(d)
    ensures Value(d + [c], acc) == Value(d, acc) * 10 + (c - '0') as nat
  {
    if d == [] {
      assert d + [c] == [c] && [c][1..] == [];
    } else {
      assert (d + [c])[1..] == d[1..] + [c];
      ValueSnoc(d[1..], c, acc * 10 + (d[0] - '0') as nat);
    }
  }

  lemma {:induction false} DecimalHasValue(n: nat)
    ensures Value(Decimal(n), 0) == n
  {
    if n < 10 {
      assert Decimal(n)[1..] == [];
    } else {
      DecimalHasValue(n / 10);
      ValueSnoc(Decimal(n / 10), (n % 10) as char + '0', 0);
    }
  }

  function Pow10(d: nat): nat { if d == 0 then 1 else 10 * Pow10(d - 1) }

  lemma {:induction false} DecimalShort(n: nat, d: nat)
    requires d >= 1 && n < Pow10(d)
    ensures |Decimal(n)| <= d
  {
    if n >= 10 { DecimalShort(n / 10, d - 1); }
  }

  /** The value of a hexadecimal digit, or -1. */
  function HexValue(c: char): (v: int)
    ensures -1 <= v < 16
  {
    if '0' <= c <= '9' then (c - '0') as int
    else if 'a' <= c <= 'f' then (c - 'a') as int + 10
    else if 'A' <= c <= 'F' then (c - 'A') as int + 10
    else -1
  }

  /** Each digit has its place as its value, in either case; every other character has none. */
  lemma HexExact(c: char)
    ensures forall v | 0 <= v < 16 :: HexValue("0123456789abcdef"[v]) == v == HexValue("0123456789ABCDEF"[v])
    ensures HexValue(c) == -1 <==> c !in "0123456789abcdef" && c !in "0123456789ABCDEF"
  {
    if HexValue(c) >= 0 {
      assert c == "0123456789abcdef"[HexValue(c)] || c == "0123456789ABCDEF"[HexValue(c)];
    }
  }
}
