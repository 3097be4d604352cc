/** Decimal numerals: the hand-written printer of the retry proxy and the digit
    parser of the configuration loader. */
module Decimal {

  const TWO_63 := 0x8000_0000_0000_0000
  const TWO_64 := 0x1_0000_0000_0000_0000

  predicate IsDigit(c: char) {
    '0' <= c <= '9'
  }

  function DigitChar(d: int): (c: char)
    requires 0 <= d < 10
    ensures IsDigit(c) && c as int - '0' as int == d
  {
    (d + '0' as int) as char
  }

  /** The decimal numeral of n, most significant digit first. */
  function Numeral(n: nat): (s: string)
    ensures |s| > 0 && forall c <- s :: IsDigit(c)
  {
    if n < 10 then [DigitChar(n)] else Numeral(n / 10) + [DigitChar(n % 10)]
  }

  /** The number spelled by the digits of s; every other character is skipped. */
  function Value(s: string): nat {
    if s == "" then 0
    else
      var v, c := Value(s[..|s| - 1]), s[|s| - 1];
      if IsDigit(c) then 10 * v + (c as int - '0' as int) else v
  }

  /** Two's complement reduction to a 64-bit signed integer. */
  function Wrap64(x: int): (w: int)
    ensures -TWO_63 <= w < TWO_63
    ensures (x - w) % TWO_64 == 0
    ensures -TWO_63 <= x < TWO_63 ==> w == x
  {
    var m := x % TWO_64;
    if m < TWO_63 then m else m - TWO_64
  }

  lemma {:induction false} ValueOfNumeral(n: nat)
    ensures Value(Numeral(n)) == n
  {
    var s := Numeral(n);
    if n >= 10 {
      ValueOfNumeral(n / 10);
      assert s[..|s| - 1] == Numeral(n / 10);
    } else {
      assert s[..|s| - 1] == "";
    }
  }

  lemma NumeralInjective(m: nat, n: nat)
    requires Numeral(m) == Numeral(n)
    ensures m == n
  {
    ValueOfNumeral(m);
    ValueOfNumeral(n);
  }

  /** Characters that are not digits can be inserted anywhere without changing the value. */
  lemma {:induction false} ValueIgnoresNonDigits(a: string, x: string, b: string)
    requires forall c <- x :: !IsDigit(c)
    ensures Value(a + x + b) == Value(a + b)
  {
    if b != "" {
      var b', c := b[..|b| - 1], b[|b| - 1];
      ValueIgnoresNonDigits(a, x, b');
      assert (a + x + b)[..|a + x + b| - 1] == a + x + b';
      assert (a + b)[..|a + b| - 1] == a + b';
    } else if x != "" {
      var x' := x[..|x| - 1];
      ValueIgnoresNonDigits(a, x', b);
      assert (a + x + b)[..|a + x + b| - 1] == a + x' + b;
      assert !IsDigit(x[|x| - 1]);
    } else {
      assert a + x + b == a + b;
    }
  }

  lemma WrapStep(v: nat, d: nat)
    ensures Wrap64(10 * Wrap64(v) + d) == Wrap64(10 * v + d)
  {
    var k := (v - Wrap64(v)) / TWO_64;
    assert v == Wrap64(v) + k * TWO_64;
    WrapShift(10 * Wrap64(v) + d, 10 * k);
  }

  lemma WrapShift(x: int, k: int)
    ensures Wrap64(x + k * TWO_64) == Wrap64(x)
  {
    var w, w' := Wrap64(x), Wrap64(x + k * TWO_64);
    var a, b := (x - w) / TWO_64, (x + k * TWO_64 - w') / TWO_64;
    assert w' - w == (k + a - b) * TWO_64;
  }

  function Reversed(s: string): string {
    seq(|s|, i requires 0 <= i < |s| => s[|s| - 1 - i])
  }

  method ReverseInPlace(buf: array<char>)
    modifies buf
    ensures buf[..] == Reversed(old(buf[..]))
  {
    ghost var was := buf[..];
    var i, j := 0, buf.Length - 1;
    while i < j
      invariant 0 <= i && i + j == buf.Length - 1 && i <= j + 1
      invariant forall k :: 0 <= k < i || j < k < buf.Length ==> buf[k] == was[buf.Length - 1 - k]
      invariant forall k :: i <= k <= j ==> buf[k] == was[k]
    {
      buf[i], buf[j] := buf[j], buf[i];
      i, j := i + 1, j - 1;
    }
  }

  /** The port printer: digits are collected least significant first and then
      reversed in place; a negative number prints nothing. */
  method Itoa(n: int) returns (s: string)
    ensures n >= 0 ==> s == Numeral(n)
    ensures n < 0 ==> s == ""
  {
    if n == 0 {
      return "0";
    }
    var m, digits := n, [];
    while m > 0
      invariant n > 0 ==> 0 <= m <= n
      invariant n > 0 && m > 0 ==> Numeral(m) + Reversed(digits) == Numeral(n)
      invariant n > 0 && m == 0 ==> Reversed(digits) == Numeral(n)
      invariant n < 0 ==> m == n && digits == []
    {
      var d := DigitChar(m % 10);
      assert Reversed(digits + [d]) == [d] + Reversed(digits);
      assert m >= 10 ==> Numeral(m / 10) + [d] + Reversed(digits) == Numeral(m / 10) + ([d] + Reversed(digits));
      digits := digits + [d];
      m := m / 10;
    }
    var buf := new char[|digits|](i requires 0 <= i < |digits| => digits[i]);
    assert buf[..] == digits;
    ReverseInPlace(buf);
    s := buf[..];
  }

  /** The integer setting an environment value stands for: the 64-bit value of its
      digits, or the default when the value is empty or comes to zero. */
  function Setting(v: string, def: int): int {
    if v == "" || Wrap64(Value(v)) == 0 then def else Wrap64(Value(v))
  }

  method EnvOrDefaultInt(v: string, def: int) returns (n: int)
    ensures n == Setting(v, def)
  {
    if v == "" {
      return def;
    }
    n := 0;
    for i := 0 to |v|
      invariant n == Wrap64(Value(v[..i]))
    {
      assert v[..i + 1][..i] == v[..i];
      var c := v[i];
      if '0' <= c <= '9' {
        WrapStep(Value(v[..i]), c as int - '0' as int);
        n := Wrap64(n * 10 + (c as int - '0' as int));
      }
    }
    assert v[..|v|] == v;
    if n == 0 {
      n := def;
    }
  }

  lemma {:induction false} NoDigitsNoValue(v: string)
    requires forall c <- v :: !IsDigit(c)
    ensures Value(v) == 0
  {
    if v != "" {
      NoDigitsNoValue(v[..|v| - 1]);
    }
  }

  /** A setting is the default exactly if its 64-bit value is zero, above all when it is
      not set at all or has no digit in it, or if it spells the default. */
  lemma SettingExactly(v: string, def: int)
    ensures Setting(v, def) == def <==> Wrap64(Value(v)) == 0 || Wrap64(Value(v)) == def
    ensures (forall c <- v :: !IsDigit(c)) ==> Setting(v, def) == def
    ensures 0 < Value(v) < TWO_63 ==> Setting(v, def) == Value(v)
  {
    if forall c <- v :: !IsDigit(c) {
      NoDigitsNoValue(v);
    }
  }

  /** Printing then parsing a 64-bit number, with non-digits spliced in anywhere,
      gives the number back exactly when it is positive (or the default agrees). */
  lemma PrintThenParse(n: int, cut: nat, noise: string, def: int)
    requires 0 <= n < TWO_63 && cut <= |Numeral(n)|
    requires forall c <- noise :: !IsDigit(c)
    ensures var s := Numeral(n);
            Setting(s[..cut] + noise + s[cut..], def) == n <==> n > 0 || def == 0
  {
    var s := Numeral(n);
    ValueIgnoresNonDigits(s[..cut], noise, s[cut..]);
    assert s[..cut] + s[cut..] == s;
    ValueOfNumeral(n);
  }
}
