/** Rows of the key matrix as 32-bit words, and the two-keys-or-more trick. */
module MatrixBits {

  /** The column's bit. */
  function Mask(k: nat): bv32 {
    if k == 0 then 1 else Mask(k - 1) << 1
  }

  function Common(a: bv32, b: bv32): bv32 {
    a & b
  }

  predicate Meets(x: bv32, m: bv32) {
    Common(x, m) != 0
  }

  predicate Bit(r: bv32, k: nat) {
    Meets(r, Mask(k))
  }

  predicate Single(m: bv32) {
    m != 0 && m & (m - 1) == 0
  }

  /** The word without its lowest set bit. */
  function Fewer(x: bv32): bv32 {
    x & (x - 1)
  }

  function With(x: bv32, m: bv32): bv32 {
    x | m
  }

  /** The bits below a single bit. */
  function Lower(m: bv32): bv32 {
    m - 1
  }

  function Without(x: bv32, m: bv32): bv32 {
    x & !m
  }

  lemma {:induction false} MaskTable()
    ensures Mask(0) == 0x1 && Mask(1) == 0x2 && Mask(2) == 0x4 && Mask(3) == 0x8 && Mask(4) == 0x10 && Mask(5) == 0x20
    ensures Mask(6) == 0x40 && Mask(7) == 0x80
    ensures Mask(8) == 0x100 && Mask(9) == 0x200 && Mask(10) == 0x400 && Mask(11) == 0x800 && Mask(12) == 0x1000
    ensures Mask(13) == 0x2000 && Mask(14) == 0x4000 && Mask(15) == 0x8000
    ensures Mask(16) == 0x10000 && Mask(17) == 0x20000 && Mask(18) == 0x40000 && Mask(19) == 0x80000
    ensures Mask(20) == 0x100000 && Mask(21) == 0x200000 && Mask(22) == 0x400000 && Mask(23) == 0x800000
    ensures Mask(24) == 0x1000000 && Mask(25) == 0x2000000 && Mask(26) == 0x4000000 && Mask(27) == 0x8000000
    ensures Mask(28) == 0x10000000 && Mask(29) == 0x20000000 && Mask(30) == 0x40000000 && Mask(31) == 0x80000000
  {
    assert Mask(0) == 0x1;
    assert Mask(1) == 0x2;
    assert Mask(2) == 0x4;
    assert Mask(3) == 0x8;
    assert Mask(4) == 0x10;
    assert Mask(5) == 0x20;
    assert Mask(6) == 0x40;
    assert Mask(7) == 0x80;
    assert Mask(8) == 0x100;
    assert Mask(9) == 0x200;
    assert Mask(10) == 0x400;
    assert Mask(11) == 0x800;
    assert Mask(12) == 0x1000;
    assert Mask(13) == 0x2000;
    assert Mask(14) == 0x4000;
    assert Mask(15) == 0x8000;
    assert Mask(16) == 0x10000;
    assert Mask(17) == 0x20000;
    assert Mask(18) == 0x40000;
    assert Mask(19) == 0x80000;
    assert Mask(20) == 0x100000;
    assert Mask(21) == 0x200000;
    assert Mask(22) == 0x400000;
    assert Mask(23) == 0x800000;
    assert Mask(24) == 0x1000000;
    assert Mask(25) == 0x2000000;
    assert Mask(26) == 0x4000000;
    assert Mask(27) == 0x8000000;
    assert Mask(28) == 0x10000000;
    assert Mask(29) == 0x20000000;
    assert Mask(30) == 0x40000000;
    assert Mask(31) == 0x80000000;
  }

  lemma {:induction false} MaskIsBit(k: nat)
    requires k < 32
    ensures Single(Mask(k))
  {
    MaskTable();
  }

  lemma {:induction false} MasksApart(i: nat, j: nat)
    requires i != j
    ensures !Meets(Mask(i), Mask(j))
    decreases i + j
  {
    hide Meets;
    if 0 < i && 0 < j {
      MasksApart(i - 1, j - 1);
      ShiftApart(Mask(i - 1), Mask(j - 1));
    } else if i < j {
      ShiftFromOne(Mask(j - 1));
    } else if j < i {
      ShiftFromOne(Mask(i - 1));
    }
  }

  lemma {:induction false} ShiftApart(a: bv32, b: bv32)
    requires !Meets(a, b)
    ensures !Meets(a << 1, b << 1)
  {
    assert (a << 1) & (b << 1) == (a & b) << 1;
  }

  lemma {:induction false} ShiftFromOne(a: bv32)
    ensures !Meets(1, a << 1) && !Meets(a << 1, 1)
  {
  }

  lemma {:induction false} ZeroBits(x: bv32)
    requires x & 0xFF == 0 && x & 0xFF00 == 0 && x & 0xFF0000 == 0 && x & 0xFF000000 == 0
    ensures x == 0
  {
  }

  lemma {:induction false} ZeroByte0(x: bv32)
    requires x & 0x1 == 0 && x & 0x2 == 0 && x & 0x4 == 0 && x & 0x8 == 0 && x & 0x10 == 0 && x & 0x20 == 0
    requires x & 0x40 == 0 && x & 0x80 == 0
    ensures x & 0xff == 0
  {
  }

  lemma {:induction false} ZeroByte1(x: bv32)
    requires x & 0x100 == 0 && x & 0x200 == 0 && x & 0x400 == 0 && x & 0x800 == 0 && x & 0x1000 == 0
    requires x & 0x2000 == 0 && x & 0x4000 == 0 && x & 0x8000 == 0
    ensures x & 0xff00 == 0
  {
  }

  lemma {:induction false} ZeroByte2(x: bv32)
    requires x & 0x10000 == 0 && x & 0x20000 == 0 && x & 0x40000 == 0 && x & 0x80000 == 0 && x & 0x100000 == 0
    requires x & 0x200000 == 0 && x & 0x400000 == 0 && x & 0x800000 == 0
    ensures x & 0xff0000 == 0
  {
  }

  lemma {:induction false} ZeroByte3(x: bv32)
    requires x & 0x1000000 == 0 && x & 0x2000000 == 0 && x & 0x4000000 == 0 && x & 0x8000000 == 0
    requires x & 0x10000000 == 0 && x & 0x20000000 == 0 && x & 0x40000000 == 0 && x & 0x80000000 == 0
    ensures x & 0xff000000 == 0
  {
  }

  lemma {:induction false} NoBit(x: bv32, k: nat)
    requires forall j: nat :: j < 32 ==> !Bit(x, j)
    requires k < 32
    ensures x & Mask(k) == 0
  {
    assert !Bit(x, k);
  }

  lemma {:induction false} NoBitsIsZero(x: bv32)
    requires forall k: nat :: k < 32 ==> !Bit(x, k)
    ensures x == 0
  {
    hide Bit, Mask;
    MaskTable();
    NoBit(x, 0);
    NoBit(x, 1);
    NoBit(x, 2);
    NoBit(x, 3);
    NoBit(x, 4);
    NoBit(x, 5);
    NoBit(x, 6);
    NoBit(x, 7);
    NoBit(x, 8);
    NoBit(x, 9);
    NoBit(x, 10);
    NoBit(x, 11);
    NoBit(x, 12);
    NoBit(x, 13);
    NoBit(x, 14);
    NoBit(x, 15);
    NoBit(x, 16);
    NoBit(x, 17);
    NoBit(x, 18);
    NoBit(x, 19);
    NoBit(x, 20);
    NoBit(x, 21);
    NoBit(x, 22);
    NoBit(x, 23);
    NoBit(x, 24);
    NoBit(x, 25);
    NoBit(x, 26);
    NoBit(x, 27);
    NoBit(x, 28);
    NoBit(x, 29);
    NoBit(x, 30);
    NoBit(x, 31);
    ZeroByte0(x);
    ZeroByte1(x);
    ZeroByte2(x);
    ZeroByte3(x);
    ZeroBits(x);
  }

  lemma {:induction false} SomeBit(x: bv32) returns (k: nat)
    requires x != 0
    ensures k < 32 && Bit(x, k)
  {
    hide Bit;
    if forall k: nat :: k < 32 ==> !Bit(x, k) {
      NoBitsIsZero(x);
    }
    k :| k < 32 && Bit(x, k);
  }

  /** The lowest set bit at or above `k`. */
  lemma {:induction false} LowestBit(x: bv32, k: nat, some: nat) returns (i: nat)
    requires k <= some < 32 && Bit(x, some)
    ensures k <= i <= some && Bit(x, i) && forall j: nat :: k <= j < i ==> !Bit(x, j)
    decreases some - k
  {
    hide Bit;
    if Bit(x, k) {
      i := k;
    } else {
      i := LowestBit(x, k + 1, some);
    }
  }

  lemma {:induction false} BelowIsZero(x: bv32, i: nat)
    requires i < 32 && forall j: nat :: j < i ==> !Bit(x, j)
    ensures !Meets(x, Lower(Mask(i)))
  {
    hide Meets, Single, Lower, Mask;
    if i == 0 {
      LowerOfFirst();
      MeetsNothing(x, Lower(Mask(0)));
    } else {
      BelowIsZero(x, i - 1);
      assert !Bit(x, i - 1);
      MaskIsBit(i - 1);
      OneMoreBit(x, i - 1);
    }
  }

  lemma {:induction false} LowerOfFirst()
    ensures Lower(Mask(0)) == 0
  {
  }

  lemma {:induction false} MeetsNothing(x: bv32, m: bv32)
    ensures x == 0 || m == 0 ==> !Meets(x, m)
  {
  }

  lemma {:induction false} OneMoreBit(x: bv32, i: nat)
    requires Single(Mask(i)) && !Meets(x, Lower(Mask(i))) && !Meets(x, Mask(i))
    ensures !Meets(x, Lower(Mask(i + 1)))
  {
    OneMoreMask(x, Mask(i));
  }

  lemma {:induction false} OneMoreMask(x: bv32, m: bv32)
    requires Single(m) && !Meets(x, Lower(m)) && !Meets(x, m)
    ensures !Meets(x, Lower(m << 1))
  {
    assert (m << 1) - 1 == (m - 1) | m;
  }

  lemma {:induction false} ClearsLowest(x: bv32, m: bv32)
    requires Single(m) && Meets(x, m) && !Meets(x, Lower(m))
    ensures Fewer(x) == Without(x, m)
  {
  }

  lemma {:induction false} Apart(m: bv32, n: bv32)
    requires !Meets(m, n)
    ensures Without(n, m) == n
  {
  }

  lemma {:induction false} WithoutCommon(x: bv32, m: bv32, n: bv32)
    ensures Common(Without(x, m), n) == Common(x, Without(n, m))
  {
  }

  lemma {:induction false} Distribute(a: bv32, m: bv32, n: bv32)
    ensures Common(With(a, m), n) == With(Common(a, n), Common(m, n))
  {
  }

  lemma {:induction false} WithNothing(x: bv32)
    ensures With(x, 0) == x
  {
  }

  lemma {:induction false} WithoutOther(x: bv32, m: bv32, n: bv32)
    requires !Meets(m, n)
    ensures Meets(Without(x, m), n) <==> Meets(x, n)
  {
    hide Common, Without;
    Apart(m, n);
    WithoutCommon(x, m, n);
  }

  lemma {:induction false} WithoutSelf(x: bv32, m: bv32)
    ensures !Meets(Without(x, m), m)
  {
  }

  lemma {:induction false} WithoutSome(x: bv32, m: bv32, n: bv32)
    requires Meets(Without(x, m), n)
    ensures Meets(x, n)
  {
    assert (x & !m) & n == (x & n) & !m;
  }

  ghost predicate TwoBits(x: bv32) {
    exists i: nat, j: nat :: i < j < 32 && Bit(x, i) && Bit(x, j)
  }

  /** The trick is right: the word is not zero after clearing its lowest bit exactly when two bits were set. */
  lemma {:induction false} MoreThanOneExactly(x: bv32)
    ensures Fewer(x) != 0 <==> TwoBits(x)
  {
    hide Meets, Single, Fewer, Without, Mask, Lower;
    if x == 0 {
      forall k: nat ensures !Bit(x, k) {
        MeetsNothing(x, Mask(k));
      }
      FewerOfZero();
    } else {
      var some := SomeBit(x);
      var i := LowestBit(x, 0, some);
      BelowIsZero(x, i);
      MaskIsBit(i);
      ClearsLowest(x, Mask(i));
      SecondBit(x, i);
    }
  }

  lemma {:induction false} FewerOfZero()
    ensures Fewer(0) == 0
  {
  }

  lemma {:induction false} SecondBit(x: bv32, i: nat)
    requires i < 32 && Bit(x, i) && forall k: nat :: k < i ==> !Bit(x, k)
    ensures Without(x, Mask(i)) != 0 <==> TwoBits(x)
  {
    hide Meets, Without, Mask;
    var y := Without(x, Mask(i));
    if y != 0 {
      var j := SomeBit(y);
      WithoutSome(x, Mask(i), Mask(j));
      WithoutSelf(x, Mask(i));
      assert Bit(x, j) && i < j;
    }
    if TwoBits(x) {
      var a: nat, b: nat :| a < b < 32 && Bit(x, a) && Bit(x, b);
      MasksApart(i, b);
      WithoutOther(x, Mask(i), Mask(b));
      MeetsNothing(y, Mask(b));
    }
  }

  lemma {:induction false} XorBit(a: bv32, b: bv32, k: nat)
    requires k < 32
    ensures Bit(a ^ b, k) <==> Bit(a, k) != Bit(b, k)
  {
    hide Meets, Single;
    MaskIsBit(k);
    XorMask(a, b, Mask(k));
  }

  lemma {:induction false} XorMask(a: bv32, b: bv32, m: bv32)
    requires Single(m)
    ensures Meets(a ^ b, m) <==> Meets(a, m) != Meets(b, m)
  {
  }

  lemma {:induction false} AndBit(a: bv32, b: bv32, k: nat)
    requires k < 32
    ensures Bit(a & b, k) <==> Bit(a, k) && Bit(b, k)
  {
    hide Meets, Single;
    MaskIsBit(k);
    AndMask(a, b, Mask(k));
  }

  lemma {:induction false} AndMask(a: bv32, b: bv32, m: bv32)
    requires Single(m)
    ensures Meets(a & b, m) <==> Meets(a, m) && Meets(b, m)
  {
  }

  lemma {:induction false} OrBit(a: bv32, i: nat, k: nat)
    requires i < 32 && k < 32
    ensures Bit(With(a, Mask(i)), k) <==> Bit(a, k) || k == i
  {
    hide Meets, Single, With, Mask;
    MaskIsBit(k);
    if i != k {
      MasksApart(i, k);
      OrOther(a, Mask(i), Mask(k));
    } else {
      OrSelf(a, Mask(k));
    }
  }

  lemma {:induction false} OrOther(a: bv32, m: bv32, n: bv32)
    requires !Meets(m, n)
    ensures Meets(With(a, m), n) <==> Meets(a, n)
  {
    hide Common, With;
    Distribute(a, m, n);
    WithNothing(Common(a, n));
  }

  lemma {:induction false} OrSelf(a: bv32, m: bv32)
    requires Single(m)
    ensures Meets(With(a, m), m)
  {
    assert (a | m) & m == m;
  }
}
