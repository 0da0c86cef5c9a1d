/** The bit macros of sd-idle (sd-idle/src/sd-idle-2.6.c:81-84) on 32-bit masks. */
module DiskMask {
  function Mask(b: nat): bv32
    requires b < 32
  {
    (1 as bv32) << (b as bv6)
  }

  predicate IsSet(bits: bv32, b: nat)
    requires b < 32
  {
    bits & Mask(b) != 0
  }

  lemma ShiftsDiffer(b: bv6, c: bv6)
    requires b < 32 && c < 32 && b != c
    ensures ((1 as bv32) << b) & ((1 as bv32) << c) == 0
  {
  }

  lemma ShiftNonzero(b: bv6)
    requires b < 32
    ensures (1 as bv32) << b != 0
  {
  }

  lemma NextIndex(k: bv6)
    requires k < 63
    ensures (k + 1) as int == k as int + 1
  {
  }

  lemma IndexThereAndBack(k: bv6)
    ensures (k as int) as bv6 == k
    ensures k < 63 <==> k as int < 63
  {
  }

  lemma {:induction false} IndexFor(b: nat) returns (k: bv6)
    requires b < 64
    ensures k as int == b
  {
    if b == 0 {
      k := 0;
    } else {
      var j := IndexFor(b - 1);
      IndexThereAndBack(j);
      NextIndex(j);
      k := j + 1;
    }
  }

  lemma IndexInjective(b: nat, c: nat)
    requires b < 32 && c < 32 && b as bv6 == c as bv6
    ensures b == c
  {
    var j := IndexFor(b);
    var k := IndexFor(c);
    IndexThereAndBack(j);
    IndexThereAndBack(k);
  }

  lemma MasksDiffer(b: nat, c: nat)
    requires b < 32 && c < 32 && b != c
    ensures Mask(b) & Mask(c) == 0
  {
    if b as bv6 == c as bv6 { IndexInjective(b, c); }
    ShiftsDiffer(b as bv6, c as bv6);
  }

  lemma MaskNonzero(b: nat)
    requires b < 32
    ensures Mask(b) != 0
  {
    ShiftNonzero(b as bv6);
  }

  lemma OrDisjoint(m: bv32, x: bv32, y: bv32)
    requires x & y == 0
    ensures (m | x) & y == m & y
  {
  }

  lemma AndNotDisjoint(m: bv32, x: bv32, y: bv32)
    requires x & y == 0
    ensures (m & !x) & y == m & y
  {
  }

  lemma OrSelf(m: bv32, x: bv32)
    requires x != 0
    ensures (m | x) & x != 0
  {
  }

  lemma AndNotSelf(m: bv32, x: bv32)
    ensures (m & !x) & x == 0
  {
  }

  lemma OtherMask(m: bv32, b: nat, c: nat)
    requires b < 32 && c < 32 && b != c
    ensures (m | Mask(b)) & Mask(c) == m & Mask(c)
  {
    hide Mask;
    MasksDiffer(b, c);
    OrDisjoint(m, Mask(b), Mask(c));
  }

  lemma OtherMaskCleared(m: bv32, b: nat, c: nat)
    requires b < 32 && c < 32 && b != c
    ensures (m & !Mask(b)) & Mask(c) == m & Mask(c)
  {
    hide Mask;
    MasksDiffer(b, c);
    AndNotDisjoint(m, Mask(b), Mask(c));
  }

  lemma SameBit(m: bv32, b: nat)
    requires b < 32
    ensures IsSet(m | Mask(b), b) && !IsSet(m & !Mask(b), b)
  {
    hide Mask;
    MaskNonzero(b);
    OrSelf(m, Mask(b));
    AndNotSelf(m, Mask(b));
  }

  lemma EqualAtBit(m: bv32, x: bv32, c: nat)
    requires c < 32 && x & Mask(c) == m & Mask(c)
    ensures IsSet(x, c) == IsSet(m, c)
  {
    hide Mask;
  }

  /** Setting bit b is seen at b and nowhere else. */
  lemma SetBit(m: bv32, b: nat, c: nat)
    requires b < 32 && c < 32
    ensures IsSet(m | Mask(b), c) == (b == c || IsSet(m, c))
  {
    hide Mask, IsSet;
    if b == c {
      SameBit(m, b);
    } else {
      OtherMask(m, b, c);
      EqualAtBit(m, m | Mask(b), c);
    }
  }

  /** Clearing bit b is seen at b and nowhere else. */
  lemma ClearBit(m: bv32, b: nat, c: nat)
    requires b < 32 && c < 32
    ensures IsSet(m & !Mask(b), c) == (b != c && IsSet(m, c))
  {
    hide Mask, IsSet;
    if b == c {
      SameBit(m, b);
    } else {
      OtherMaskCleared(m, b, c);
      EqualAtBit(m, m & !Mask(b), c);
    }
  }

  lemma AllOnesAnd(x: bv32)
    ensures 0xFFFF_FFFF & x == x && 0 & x == 0
  {
  }

  lemma Extremes(c: nat)
    requires c < 32
    ensures IsSet(0xFFFF_FFFF, c) && !IsSet(0, c)
  {
    hide Mask;
    MaskNonzero(c);
    AllOnesAnd(Mask(c));
  }
}
