/** The u16 lock masks of the WAL shared-memory locks, bit by bit. */
module ShmMask {

  const SQLITE_SHM_NLOCK: nat := 8

  type Slot = i: nat | i < SQLITE_SHM_NLOCK

  /** 1 << i */
  function Bit(i: nat): bv16
    requires i <= SQLITE_SHM_NLOCK
  {
    if i == 0 then 0x001 else if i == 1 then 0x002 else if i == 2 then 0x004 else if i == 3 then 0x008
    else if i == 4 then 0x010 else if i == 5 then 0x020 else if i == 6 then 0x040 else if i == 7 then 0x080
    else 0x100
  }

  predicate Meets(a: bv16, b: bv16) {
    a & b != 0
  }

  predicate Has(m: bv16, i: Slot) {
    Meets(m, Bit(i))
  }

  /** (1<<(ofst+n)) - (1<<ofst) */
  function Mask(ofst: nat, n: nat): bv16
    requires ofst + n <= SQLITE_SHM_NLOCK
  {
    Bit(ofst + n) - Bit(ofst)
  }

  /** Only bits of lock slots are ever set. */
  predicate InSlots(m: bv16) {
    m & 0xff00 == 0
  }

  /** a |= b */
  function Or(a: bv16, b: bv16): bv16 {
    a | b
  }

  /** a &= ~b */
  function Without(a: bv16, b: bv16): bv16 {
    a & !b
  }

  predicate OneBit(x: bv16) {
    x == 1 || x == 2 || x == 4 || x == 8 || x == 16 || x == 32 || x == 64 || x == 128
  }

  lemma BitIsOne(i: Slot)
    ensures OneBit(Bit(i))
  {
  }

  lemma OrMeets(a: bv16, b: bv16, x: bv16)
    ensures Or(a, b) & x == Or(a & x, b & x)
  {
  }

  lemma OrZero(a: bv16, b: bv16)
    ensures Or(a, b) == 0 <==> a == 0 && b == 0
  {
  }

  lemma OrAt(a: bv16, b: bv16, x: bv16)
    ensures Meets(Or(a, b), x) <==> Meets(a, x) || Meets(b, x)
  {
    hide Or;
    OrMeets(a, b, x);
    OrZero(a & x, b & x);
  }

  lemma WithoutAt(a: bv16, b: bv16, x: bv16)
    requires OneBit(x)
    ensures Meets(Without(a, b), x) <==> Meets(a, x) && !Meets(b, x)
  {
  }

  lemma OrBits(a: bv16, b: bv16, i: Slot)
    ensures Has(Or(a, b), i) <==> Has(a, i) || Has(b, i)
  {
    hide Bit, Or, Meets;
    OrAt(a, b, Bit(i));
  }

  lemma OrSlots(a: bv16, b: bv16)
    requires InSlots(a) && InSlots(b)
    ensures InSlots(Or(a, b))
  {
  }

  lemma WithoutBits(a: bv16, b: bv16, i: Slot)
    ensures Has(Without(a, b), i) <==> Has(a, i) && !Has(b, i)
  {
    hide Bit, OneBit, Or, Without, Meets;
    BitIsOne(i);
    WithoutAt(a, b, Bit(i));
  }

  lemma NoBits()
    ensures InSlots(0)
    ensures forall i: Slot :: !Has(0, i)
  {
  }

  lemma OrEach(a: bv16, b: bv16)
    requires InSlots(a) && InSlots(b)
    ensures InSlots(Or(a, b))
    ensures forall i: Slot :: Has(Or(a, b), i) <==> Has(a, i) || Has(b, i)
  {
    hide Or, Has, InSlots;
    OrSlots(a, b);
    forall i: Slot
      ensures Has(Or(a, b), i) <==> Has(a, i) || Has(b, i)
    {
      OrBits(a, b, i);
    }
  }

  lemma WithoutSlots(a: bv16, b: bv16)
    requires InSlots(a)
    ensures InSlots(Without(a, b))
  {
  }

  lemma LowBits(h: nat, i: Slot)
    requires h <= SQLITE_SHM_NLOCK
    ensures Has(Bit(h) - 1, i) <==> i < h
  {
  }

  lemma LowSlots(h: nat)
    requires h <= SQLITE_SHM_NLOCK
    ensures InSlots(Bit(h) - 1)
  {
  }

  lemma MaskIsLowWithoutLow(ofst: nat, n: nat)
    requires ofst + n <= SQLITE_SHM_NLOCK
    ensures Mask(ofst, n) == Without(Bit(ofst + n) - 1, Bit(ofst) - 1)
  {
  }

  lemma MaskSlots(ofst: nat, n: nat)
    requires ofst + n <= SQLITE_SHM_NLOCK
    ensures InSlots(Mask(ofst, n))
  {
    hide InSlots, Mask, Bit, Without;
    LowSlots(ofst + n);
    MaskIsLowWithoutLow(ofst, n);
    WithoutSlots(Bit(ofst + n) - 1, Bit(ofst) - 1);
  }

  lemma MaskBits(ofst: nat, n: nat, i: Slot)
    requires ofst + n <= SQLITE_SHM_NLOCK
    ensures Has(Mask(ofst, n), i) <==> ofst <= i < ofst + n
  {
    hide Has, Mask, Bit, Without;
    LowBits(ofst + n, i);
    LowBits(ofst, i);
    MaskIsLowWithoutLow(ofst, n);
    WithoutBits(Bit(ofst + n) - 1, Bit(ofst) - 1, i);
  }

  /** Two masks have a common bit exactly if some slot is in both. */
  lemma DisjointBits(a: bv16, b: bv16)
    requires InSlots(a)
    ensures Meets(a, b) <==> exists i: Slot :: Has(a, i) && Has(b, i)
  {
    if forall i: Slot :: !(Has(a, i) && Has(b, i)) {
      assert !(Has(a, 0) && Has(b, 0)) && !(Has(a, 1) && Has(b, 1)) && !(Has(a, 2) && Has(b, 2))
        && !(Has(a, 3) && Has(b, 3));
      assert !(Has(a, 4) && Has(b, 4)) && !(Has(a, 5) && Has(b, 5)) && !(Has(a, 6) && Has(b, 6))
        && !(Has(a, 7) && Has(b, 7));
    }
  }
}
