/** Decimal numerals as printf's %d writes them and as strtol reads them, and the
    integer arithmetic of C that differs from Dafny's. */
module CNumbers {
  import opened Strings

  // ---------- C integer arithmetic ----------

  // Division truncating toward zero.
  function CDiv(a: int, b: int): int
    requires b > 0
  {
    if a >= 0 then a / b else -((-a) / b)
  }

  // Conversion of a wider integer to a 32-bit int.
  function ToInt32(x: int): (r: int)
    ensures -0x8000_0000 <= r <= 0x7FFF_FFFF
    ensures r == x <==> -0x8000_0000 <= x <= 0x7FFF_FFFF
  {
    (x + 0x8000_0000) % 0x1_0000_0000 - 0x8000_0000
  }

  lemma ByteThereAndBack(v: bv8)
    ensures v as int < 256 && (v as int) as bv8 == v
  {
  }

  // ---------- Numerals ----------

  predicate IsDigit(c: char) { '0' <= c <= '9' }

  predicate AllDigits(s: string) { forall i :: 0 <= i < |s| ==> IsDigit(s[i]) }

  function DigitChar(d: nat): (c: char)
    requires d < 10
    ensures IsDigit(c)
  {
    '0' + d as char
  }

  function Digits(n: nat): (s: string)
    ensures s != "" && AllDigits(s)
  {
    if n < 10 then [DigitChar(n)] else Digits(n / 10) + [DigitChar(n % 10)]
  }

  function Decimal(n: int): (s: string)
    ensures s != "" && ' ' !in s
  {
    if n >= 0 then Digits(n) else "-" + Digits(-n)
  }

  function DigitsValue(s: string): nat
    requires AllDigits(s)
  {
    if s == "" then 0
    else DigitsValue(s[..|s| - 1]) * 10 + (s[|s| - 1] as int - '0' as int)
  }

  function ReadDecimal(s: string): Option<int> {
    if s != "" && AllDigits(s) then Some(DigitsValue(s))
    else if |s| > 1 && s[0] == '-' && AllDigits(s[1..]) then Some(-(DigitsValue(s[1..]) as int))
    else None
  }

  lemma {:induction false} DigitsRead(n: nat)
    ensures DigitsValue(Digits(n)) == n
  {
    if n < 10 {
      assert Digits(n)[..0] == "";
    } else {
      DigitsRead(n / 10);
      assert Digits(n)[..|Digits(n)| - 1] == Digits(n / 10);
    }
  }

  /** What %d writes reads back as the number. */
  lemma DecimalRead(n: int)
    ensures ReadDecimal(Decimal(n)) == Some(n)
  {
    if n >= 0 {
      DigitsRead(n);
    } else {
      DigitsRead(-n);
      assert !IsDigit(Decimal(n)[0]);
      assert Decimal(n)[1..] == Digits(-n);
    }
  }

  function Pow10(k: nat): nat {
    if k == 0 then 1 else 10 * Pow10(k - 1)
  }

  lemma {:induction false} DigitsLength(n: nat, k: nat)
    requires k > 0 && n < Pow10(k)
    ensures |Digits(n)| <= k
  {
    if n >= 10 {
      DigitsLength(n / 10, k - 1);
    }
  }

  // ---------- Numerals by position ----------

  lemma TensProduct(a: nat, p: nat, b: nat, d: nat)
    ensures (a * p + b) * 10 + d == a * (10 * p) + (b * 10 + d)
  {
  }

  lemma TakeAll(s: string, t: string)
    requires AllDigits(s) && AllDigits(t)
    ensures AllDigits(s + t)
  {
  }

  /** Digits weigh ten times as much for each digit behind them. */
  lemma {:induction false} DigitsValueAppend(s: string, t: string)
    requires AllDigits(s) && AllDigits(t)
    ensures AllDigits(s + t)
    ensures DigitsValue(s + t) == DigitsValue(s) * Pow10(|t|) + DigitsValue(t)
  {
    TakeAll(s, t);
    if t == "" {
      assert s + t == s;
    } else {
      var n := |t| - 1;
      assert (s + t)[..|s + t| - 1] == s + t[..n];
      DigitsValueAppend(s, t[..n]);
      TensProduct(DigitsValue(s), Pow10(n), DigitsValue(t[..n]), t[n] as int - '0' as int);
    }
  }

  /** A single digit is worth itself, and a zero in front changes nothing. */
  lemma DigitsValueSmall(d: char, s: string)
    requires '0' <= d <= '9' && AllDigits(s)
    ensures DigitsValue([d]) == d as int - '0' as int
    ensures AllDigits("0" + s) && DigitsValue("0" + s) == DigitsValue(s)
  {
    assert [d][..0] == "";
    DigitsValueAppend("0", s);
    assert "0"[..0] == "";
  }

  /** What %d writes begins with a zero for zero only. */
  lemma {:induction false} NoLeadingZero(n: nat)
    ensures Digits(n)[0] == '0' <==> n == 0
  {
    if n >= 10 { NoLeadingZero(n / 10); }
  }

  lemma TenOf()
    ensures Pow10(0) == 1 && Pow10(1) == 10 && Pow10(2) == 100
  {
  }
}
