/** The binary number printer of ltrace (ltrace/patches/010-fix-reallocarray.patch:31-46),
    which fills its buffer from the end. */
module PrintBinary {
  const BUF_SIZE := 67  // two for the prefix, 64 digits, a terminator
  const LIMIT: nat := 0x1_0000_0000_0000_0000

  predicate IsBinary(s: string) { forall i :: 0 <= i < |s| ==> s[i] == '0' || s[i] == '1' }

  // The number a binary numeral denotes.
  function Value(s: string): nat
    requires IsBinary(s)
  {
    if s == "" then 0 else 2 * Value(s[..|s| - 1]) + if s[|s| - 1] == '1' then 1 else 0
  }

  // No leading zero, except that zero is a single one.
  predicate Shortest(s: string) { s == "0" || (s != "" && s[0] == '1') }

  function Pow2(k: nat): nat { if k == 0 then 1 else 2 * Pow2(k - 1) }

  lemma {:induction false} ValueBounds(s: string)
    requires IsBinary(s)
    ensures Value(s) < Pow2(|s|)
    ensures s != "" && s[0] == '1' ==> Pow2(|s| - 1) <= Value(s)
  {
    if s != "" {
      ValueBounds(s[..|s| - 1]);
    }
  }

  lemma {:induction false} Pow2Monotone(j: nat, k: nat)
    requires j <= k
    ensures Pow2(j) <= Pow2(k)
  {
    if j < k { Pow2Monotone(j, k - 1); }
  }

  lemma OnlyZero(s: string)
    requires IsBinary(s) && Shortest(s)
    ensures Value(s) == 0 <==> s == "0"
  {
    if s == "0" {
      assert s[..0] == "";
    } else {
      ValueBounds(s);
      Pow2Monotone(0, |s| - 1);
    }
  }

  lemma {:induction false} SameLength(s: string, t: string)
    requires IsBinary(s) && IsBinary(t) && |s| == |t| && Value(s) == Value(t)
    ensures s == t
  {
    if s != "" {
      SameLength(s[..|s| - 1], t[..|t| - 1]);
      assert s == s[..|s| - 1] + [s[|s| - 1]] && t == t[..|t| - 1] + [t[|t| - 1]];
    }
  }

  /** A number has only one shortest numeral. */
  lemma {:induction false} ShortestUnique(s: string, t: string)
    requires IsBinary(s) && IsBinary(t) && Shortest(s) && Shortest(t) && Value(s) == Value(t)
    ensures s == t
  {
    ValueBounds(s);
    ValueBounds(t);
    if s == "0" || t == "0" {
      OnlyZero(s);
      OnlyZero(t);
    } else {
      if |s| < |t| { Pow2Monotone(|s|, |t| - 1); }
      if |t| < |s| { Pow2Monotone(|t|, |s| - 1); }
      SameLength(s, t);
    }
  }

  /** The digit on the right counts one, the one before it two, and so on. */
  lemma SixSpelled()
    ensures IsBinary("110") && Value("110") == 6 && Shortest("110") && !Shortest("0110") && !Shortest("")
  {
    assert "110"[..2] == "11" && "11"[..1] == "1" && "1"[..0] == "";
    assert Value("1") == 1 && Value("11") == 3;
  }

  lemma ShiftedSum(a: nat, p: nat, b: nat, d: nat)
    ensures 2 * (a * p + b) + d == a * (2 * p) + (2 * b + d)
  {
  }

  // Digits in front of a numeral weigh in above it.
  lemma {:induction false} ValueAppend(s: string, t: string)
    requires IsBinary(s) && IsBinary(t)
    ensures IsBinary(s + t) && Value(s + t) == Value(s) * Pow2(|t|) + Value(t)
  {
    if t == "" {
      assert s + t == s;
    } else {
      var n := |t| - 1;
      assert (s + t)[..|s + t| - 1] == s + t[..n];
      ValueAppend(s, t[..n]);
      ShiftedSum(Value(s), Pow2(n), Value(t[..n]), if t[n] == '1' then 1 else 0);
    }
  }

  lemma NoDigits(value: nat)
    ensures value == value * Pow2(|""|) + Value("")
  {
  }

  lemma DoubleProduct(p: nat, q: nat)
    ensures (2 * p) * q == 2 * (p * q)
  {
  }

  lemma {:induction false} Pow2Add(a: nat, b: nat)
    ensures Pow2(a + b) == Pow2(a) * Pow2(b)
  {
    if a > 0 {
      Pow2Add(a - 1, b);
      DoubleProduct(Pow2(a - 1), Pow2(b));
    }
  }

  lemma Pow2Double(k: nat)
    ensures Pow2(2 * k) == Pow2(k) * Pow2(k)
  {
    hide Pow2;
    Pow2Add(k, k);
  }

  lemma Pow2Small()
    ensures Pow2(0) == 1 && Pow2(1) == 2
  {
  }

  lemma Weights()
    ensures Pow2(0) == 1 && Pow2(64) == LIMIT
  {
    hide Pow2;
    Pow2Small();
    Pow2Double(1);
    Pow2Double(2);
    Pow2Double(4);
    Pow2Double(8);
    Pow2Double(16);
    Pow2Double(32);
  }

  lemma OneDigit(d: string)
    requires IsBinary(d) && |d| == 1
    ensures Value(d) == if d == "1" then 1 else 0
  {
    assert d[..0] == "";
  }

  lemma ShiftedProduct(q: nat, d: nat, p: nat)
    ensures (2 * q + d) * p == q * (2 * p) + d * p
  {
  }

  lemma Halve(v: nat, k: nat)
    ensures v * Pow2(k) == (v / 2) * Pow2(k + 1) + (v % 2) * Pow2(k)
  {
    assert v == 2 * (v / 2) + v % 2;
    ShiftedProduct(v / 2, v % 2, Pow2(k));
  }

  lemma AtLeastOnce(v: nat, p: nat)
    requires v > 0
    ensures p <= v * p
  {
  }

  // One more digit in front, the low bit of what is left of the value.
  lemma DigitStep(value: nat, v: nat, digits: string, d: string)
    requires value < LIMIT && |digits| <= 64 && IsBinary(digits) && (v != 0 || digits == "")
    requires value == v * Pow2(|digits|) + Value(digits)
    requires d == if v % 2 == 1 then "1" else "0"
    ensures |digits| < 64 && IsBinary(d + digits)
    ensures value == (v / 2) * Pow2(|d + digits|) + Value(d + digits)
    ensures v / 2 == 0 ==> Shortest(d + digits)
  {
    hide Value, Pow2;
    Weights();
    if v > 0 { AtLeastOnce(v, Pow2(|digits|)); }
    ValueAppend(d, digits);
    OneDigit(d);
    Halve(v, |digits|);
  }

  /** The text printed for a 64-bit value: `0b` and the shortest numeral of the value.  The
      pointer moves down through the buffer and never leaves it. */
  method PrintBinary(value: nat) returns (text: string)
    requires value < LIMIT
    ensures |text| > 2 && text[..2] == "0b"
    ensures IsBinary(text[2..]) && Shortest(text[2..]) && Value(text[2..]) == value
    ensures |text| + 1 <= 67
  {
    hide Value, Pow2, Shortest;
    var buf := new char[BUF_SIZE];
    var p := BUF_SIZE;
    p := p - 1;
    buf[p] := '\0';
    var v: nat := value;
    ghost var digits := "";
    NoDigits(value);
    // do ... while (value != 0)
    var more := true;
    while more
      invariant p == BUF_SIZE - 1 - |digits| && 0 <= |digits| <= 64
      invariant buf[p..BUF_SIZE - 1] == digits && IsBinary(digits)
      invariant value == v * Pow2(|digits|) + Value(digits)
      invariant more <==> v != 0 || digits == ""
      invariant !more ==> Shortest(digits)
      decreases v, more
    {
      ghost var d := if v % 2 == 1 then "1" else "0";
      DigitStep(value, v, digits, d);
      p := p - 1;
      buf[p] := if v % 2 == 1 then '1' else '0';
      digits := d + digits;
      v := v / 2;
      more := v != 0;
    }
    p := p - 1;
    buf[p] := 'b';
    p := p - 1;
    buf[p] := '0';
    text := buf[p..BUF_SIZE - 1];
    assert text == "0b" + digits;
  }
}
