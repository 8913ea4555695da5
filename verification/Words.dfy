/** Bit operations on 32-bit words held as numbers, and what the page-table code's uses of them amount to. */
module Words {
  import opened Kernel

  function Or(a: nat, b: nat): nat
    decreases a + b
  {
    if a == 0 && b == 0 then 0
    else 2 * Or(a / 2, b / 2) + if a % 2 == 1 || b % 2 == 1 then 1 else 0
  }

  function And(a: nat, b: nat): nat
    decreases a + b
  {
    if a == 0 && b == 0 then 0
    else 2 * And(a / 2, b / 2) + if a % 2 == 1 && b % 2 == 1 then 1 else 0
  }

  function Not(a: u32): u32 {
    WORD - 1 - a
  }

  function Pow2(k: nat): (p: nat)
    ensures p > 0
  {
    if k == 0 then 1 else 2 * Pow2(k - 1)
  }

  function Shl(a: u32, k: nat): u32
    decreases k
  {
    if k == 0 then a else Shl(2 * a % WORD, k - 1)
  }

  function Shr(a: nat, k: nat): nat
    decreases k
  {
    if k == 0 then a else Shr(a / 2, k - 1)
  }

  lemma Powers()
    ensures Pow2(1) == 2 && Pow2(2) == 4 && Pow2(10) == 1024
    ensures Pow2(12) == 4096 && Pow2(20) == 0x10_0000 && Pow2(22) == 0x40_0000
  {
    assert Pow2(4) == 16;
    assert Pow2(8) == 256;
    assert Pow2(16) == 0x1_0000;
    assert Pow2(20) == 0x10_0000;
  }

  /** A field placed above k clear bits is added, not just or-ed, to what goes in them. */
  lemma {:induction false} OrField(a: nat, b: nat, k: nat)
    requires b < Pow2(k)
    ensures Or(a * Pow2(k), b) == a * Pow2(k) + b
    decreases k
  {
    if k == 0 {
      OrZero(a);
    } else {
      var h := a * Pow2(k - 1);
      assert a * Pow2(k) == 2 * h;
      OrField(a, b / 2, k - 1);
      OrStep(h, b);
    }
  }

  lemma {:induction false} OrZero(a: nat)
    ensures Or(a, 0) == a
  {
    if a == 0 {
    } else {
      OrZero(a / 2);
    }
  }

  lemma OrStep(h: nat, b: nat)
    requires Or(h, b / 2) == h + b / 2
    ensures Or(2 * h, b) == 2 * h + b
  {}

  /** Masking with 2^k - 1 keeps the remainder. */
  lemma {:induction false} AndLow(a: nat, k: nat)
    ensures And(a, Pow2(k) - 1) == a % Pow2(k)
    decreases k
  {
    if k == 0 {
      AndZero(a);
    } else {
      var p := Pow2(k - 1);
      assert (2 * p - 1) / 2 == p - 1;
      AndLow(a / 2, k - 1);
      HalfParts(a, p);
      if a != 0 || 2 * p - 1 != 0 {
        assert And(a, 2 * p - 1) == 2 * And(a / 2, p - 1) + if a % 2 == 1 then 1 else 0;
      }
    }
  }

  lemma {:induction false} AndZero(a: nat)
    ensures And(a, 0) == 0
  {
    if a == 0 {
    } else {
      AndZero(a / 2);
    }
  }

  lemma HalfParts(a: nat, p: nat)
    requires p > 0
    ensures a % (2 * p) == 2 * (a / 2 % p) + a % 2 && a / (2 * p) == a / 2 / p
  {
    var q, r := a / 2 / p, a / 2 % p;
    assert a / 2 == q * p + r;
    assert a == (2 * p) * q + (2 * r + a % 2);
    assert 0 <= 2 * r + a % 2 < 2 * p;
    ModUnique(a, 2 * p, q, 2 * r + a % 2);
  }

  lemma ModUnique(a: nat, m: nat, q: nat, r: nat)
    requires m > 0 && a == m * q + r && r < m
    ensures a % m == r && a / m == q
  {
    assert a == m * (a / m) + a % m;
    LargerQuotient(m, q, r, a / m, a % m);
    LargerQuotient(m, a / m, a % m, q, r);
  }

  lemma LargerQuotient(m: nat, q: nat, r: nat, q': nat, r': nat)
    requires r' < m
    ensures q > q' ==> m * q + r > m * q' + r'
  {
    if q > q' {
      Distributes(m, q' + 1, q - q' - 1);
      Distributes(m, q', 1);
    }
  }

  lemma Distributes(m: nat, a: nat, b: nat)
    ensures m * (a + b) == m * a + m * b
  {}

  /** a with k zero bits appended. */
  function Scale(a: nat, k: nat): nat
    decreases k
  {
    if k == 0 then a else Scale(2 * a, k - 1)
  }

  lemma Scales(a: nat)
    ensures Scale(a, 2) == 4 * a && Scale(a, 10) == 1024 * a && Scale(a, 12) == 4096 * a
  {
    assert Scale(a, 10) == Scale(32 * a, 5) by { assert Scale(a, 10) == Scale(4 * a, 8) == Scale(16 * a, 6); }
    assert Scale(32 * a, 5) == Scale(128 * a, 3) == Scale(1024 * a, 0);
    assert Scale(a, 12) == Scale(4 * a, 10) == Scale(16 * a, 8) == Scale(64 * a, 6) == Scale(256 * a, 4);
    assert Scale(256 * a, 4) == Scale(4096 * a, 0);
  }

  /** Masking with a number whose low k bits are clear works on the field above them. */
  lemma {:induction false} AndField(a: nat, m: nat, k: nat)
    ensures And(a, Scale(m, k)) == Scale(And(Shr(a, k), m), k)
    decreases k
  {
    if k == 0 {
    } else {
      AndField(a, 2 * m, k - 1);
      AndStep(Shr(a, k - 1), m);
      ShrLast(a, k);
    }
  }

  lemma AndStep(a: nat, h: nat)
    ensures And(a, 2 * h) == 2 * And(a / 2, h)
  {}

  lemma {:induction false} ShrLast(a: nat, k: nat)
    requires k > 0
    ensures Shr(a, k) == Shr(a, k - 1) / 2
    decreases k
  {
    if k <= 1 {
    } else {
      ShrLast(a / 2, k - 1);
    }
  }

  lemma {:induction false} ShrIsDiv(a: nat, k: nat)
    ensures Shr(a, k) == a / Pow2(k)
    decreases k
  {
    if k == 0 {
    } else {
      ShrIsDiv(a / 2, k - 1);
      HalfParts(a, Pow2(k - 1));
    }
  }

  lemma {:induction false} ShlIsScale(a: u32, k: nat)
    requires Scale(a, k) < WORD
    ensures Shl(a, k) == Scale(a, k)
    decreases k
  {
    if k == 0 {
    } else {
      ScaleGrows(2 * a, k - 1);
      ShlIsScale(2 * a, k - 1);
    }
  }

  lemma {:induction false} ScaleGrows(a: nat, k: nat)
    ensures a <= Scale(a, k)
    decreases k
  {
    if k == 0 {
    } else {
      ScaleGrows(2 * a, k - 1);
    }
  }

  // ---------------------------------------------------------------------------------------------
  // The masks and shifts of the page-table code
  // ---------------------------------------------------------------------------------------------

  lemma Bit0(a: nat)
    ensures And(a, 1) == a % 2
  {
    Powers();
    AndLow(a, 1);
  }

  lemma Low10(a: nat)
    ensures And(a, Not(0xFFFF_FC00)) == a % 1024
  {
    Powers();
    AndLow(a, 10);
  }

  lemma AllOfField(a: nat)
    requires a < 0x40_0000
    ensures And(a, 0x3F_FFFF) == a
  {
    hide And;
    Powers();
    AndLow(a, 22);
  }

  lemma Above10(a: u32)
    ensures And(a, Not(0x3FF)) == a - a % 1024
  {
    var f := a / 1024;
    Scales(0x3F_FFFF);
    AndField(a, 0x3F_FFFF, 10);
    Shifts(a);
    AllOfField(f);
    Scales(f);
  }

  lemma Above12(a: u32)
    ensures And(a, Not(0xFFF)) == a - a % 4096
  {
    var f := a / 4096;
    Scales(0xF_FFFF);
    AndField(a, 0xF_FFFF, 12);
    Shifts(a);
    AllOfPage(f);
    Scales(f);
  }

  lemma AllOfPage(a: nat)
    requires a < 0x10_0000
    ensures And(a, 0xF_FFFF) == a
  {
    hide And;
    Powers();
    AndLow(a, 20);
  }

  lemma Shifts(a: u32)
    ensures Shr(a, 12) == a / 4096 && Shr(a, 22) == a / 0x40_0000 && Shr(a, 10) == a / 1024
    ensures a < 1024 ==> Shl(a, 12) == a * 4096 && Shl(a, 2) == a * 4
  {
    Powers();
    ShrIsDiv(a, 12);
    ShrIsDiv(a, 22);
    ShrIsDiv(a, 10);
    if a < 1024 {
      Scales(a);
      ShlIsScale(a, 12);
      ShlIsScale(a, 2);
    }
  }

  lemma OrAt12(a: nat, b: nat)
    requires b < 4096
    ensures Or(a * 4096, b) == a * 4096 + b
  {
    Powers();
    OrField(a, b, 12);
  }

  lemma OrAt22(a: nat, b: nat)
    requires b < 0x40_0000
    ensures Or(a * 0x40_0000, b) == a * 0x40_0000 + b
  {
    Powers();
    OrField(a, b, 22);
  }

  /** Two ten-bit fields or-ed in below a constant field. */
  lemma OrFields(top: nat, mid: nat, low: nat)
    requires mid < 1024 && low < 1024
    ensures Or(Or(top * 0x40_0000, mid * 4096), low * 4) == top * 0x40_0000 + mid * 4096 + low * 4
  {
    OrAt22(top, mid * 4096);
    var above := top * 1024 + mid;
    assert top * 0x40_0000 + mid * 4096 == above * 4096;
    OrAt12(above, low * 4);
  }
}
