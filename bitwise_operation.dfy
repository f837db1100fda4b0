/**
 * The bit-manipulation macros of Includes/bitwise_operation.h.  `SET_BIT`,
 * `CLEAR_BIT`, `TOGGLE_BIT`, `ROR` and `ROL` assign to their register
 * argument: each is a method that takes the register's value and returns the
 * value assigned to it.  `GET_BIT`, `BIT_IS_SET` and `BIT_IS_CLEAR` are
 * expressions, so functions.
 *
 * The mask `1 << BIT` is a signed `int` in C, so every macro needs `BIT < 31`.
 * Registers are 32 bits wide, except for the rotations, which are byte
 * rotations and are given an 8-bit register.  Bit positions are unsigned
 * 32-bit values.
 */
module BitwiseOperation {

  /** Bit `i` of `x`, as 0 or 1: the reference the macros are compared against. */
  function Bit(x: bv32, i: bv32): bv32
    requires i < 32
  {
    (x >> i) & 1
  }

  /** Bit `i` of the byte `x`, as 0 or 1. */
  function Bit8(x: bv8, i: bv32): bv8
    requires i < 8
  {
    (x >> i) & 1
  }

  lemma OrMaskBit(reg: bv32, bit: bv32, i: bv32)
    requires bit < 31 && i < 32
    ensures Bit(reg | (1 << bit), i) == if i == bit then 1 else Bit(reg, i)
  {
  }

  lemma AndNotMaskBit(reg: bv32, bit: bv32, i: bv32)
    requires bit < 31 && i < 32
    ensures Bit(reg & !(1 << bit), i) == if i == bit then 0 else Bit(reg, i)
  {
  }

  lemma XorMaskBit(reg: bv32, bit: bv32, i: bv32)
    requires bit < 31 && i < 32
    ensures Bit(reg ^ (1 << bit), i) == if i == bit then 1 - Bit(reg, i) else Bit(reg, i)
  {
  }

  lemma MaskShift(reg: bv32, bit: bv32)
    requires bit < 31
    ensures (reg & (1 << bit)) >> bit == Bit(reg, bit)
  {
  }

  lemma MaskValue(reg: bv32, bit: bv32)
    requires bit < 31
    ensures (reg & (1 << bit) != 0) == (Bit(reg, bit) == 1)
    ensures reg & (1 << bit) == 0 || reg & (1 << bit) == 1 << bit
  {
  }

  /** Two registers that agree on every bit are equal. */
  lemma BitsDetermine(x: bv32, y: bv32)
    requires forall i: bv32 :: i < 32 ==> Bit(x, i) == Bit(y, i)
    ensures x == y
  {
    assert Bit(x, 0) == Bit(y, 0);
    assert Bit(x, 1) == Bit(y, 1);
    assert Bit(x, 2) == Bit(y, 2);
    assert Bit(x, 3) == Bit(y, 3);
    assert Bit(x, 4) == Bit(y, 4);
    assert Bit(x, 5) == Bit(y, 5);
    assert Bit(x, 6) == Bit(y, 6);
    assert Bit(x, 7) == Bit(y, 7);
    assert Bit(x, 8) == Bit(y, 8);
    assert Bit(x, 9) == Bit(y, 9);
    assert Bit(x, 10) == Bit(y, 10);
    assert Bit(x, 11) == Bit(y, 11);
    assert Bit(x, 12) == Bit(y, 12);
    assert Bit(x, 13) == Bit(y, 13);
    assert Bit(x, 14) == Bit(y, 14);
    assert Bit(x, 15) == Bit(y, 15);
    assert Bit(x, 16) == Bit(y, 16);
    assert Bit(x, 17) == Bit(y, 17);
    assert Bit(x, 18) == Bit(y, 18);
    assert Bit(x, 19) == Bit(y, 19);
    assert Bit(x, 20) == Bit(y, 20);
    assert Bit(x, 21) == Bit(y, 21);
    assert Bit(x, 22) == Bit(y, 22);
    assert Bit(x, 23) == Bit(y, 23);
    assert Bit(x, 24) == Bit(y, 24);
    assert Bit(x, 25) == Bit(y, 25);
    assert Bit(x, 26) == Bit(y, 26);
    assert Bit(x, 27) == Bit(y, 27);
    assert Bit(x, 28) == Bit(y, 28);
    assert Bit(x, 29) == Bit(y, 29);
    assert Bit(x, 30) == Bit(y, 30);
    assert Bit(x, 31) == Bit(y, 31);
  }

  /** Two bytes that agree on every bit are equal. */
  lemma Bits8Determine(x: bv8, y: bv8)
    requires forall i: bv32 :: i < 8 ==> Bit8(x, i) == Bit8(y, i)
    ensures x == y
  {
    assert Bit8(x, 0) == Bit8(y, 0);
    assert Bit8(x, 1) == Bit8(y, 1);
    assert Bit8(x, 2) == Bit8(y, 2);
    assert Bit8(x, 3) == Bit8(y, 3);
    assert Bit8(x, 4) == Bit8(y, 4);
    assert Bit8(x, 5) == Bit8(y, 5);
    assert Bit8(x, 6) == Bit8(y, 6);
    assert Bit8(x, 7) == Bit8(y, 7);
  }

  /** `SET_BIT`: bit `bit` becomes 1, every other bit keeps its value. */
  method SetBit(reg: bv32, bit: bv32) returns (r: bv32)
    requires bit < 31
    ensures Bit(r, bit) == 1
    ensures forall i: bv32 :: i < 32 && i != bit ==> Bit(r, i) == Bit(reg, i)
  {
    r := reg | (1 << bit);
    forall i: bv32 | i < 32 ensures Bit(r, i) == if i == bit then 1 else Bit(reg, i) {
      OrMaskBit(reg, bit, i);
    }
  }

  /** `CLEAR_BIT`: bit `bit` becomes 0, every other bit keeps its value. */
  method ClearBit(reg: bv32, bit: bv32) returns (r: bv32)
    requires bit < 31
    ensures Bit(r, bit) == 0
    ensures forall i: bv32 :: i < 32 && i != bit ==> Bit(r, i) == Bit(reg, i)
  {
    r := reg & !(1 << bit);
    forall i: bv32 | i < 32 ensures Bit(r, i) == if i == bit then 0 else Bit(reg, i) {
      AndNotMaskBit(reg, bit, i);
    }
  }

  /** `TOGGLE_BIT`: bit `bit` flips, every other bit keeps its value. */
  method ToggleBit(reg: bv32, bit: bv32) returns (r: bv32)
    requires bit < 31
    ensures Bit(r, bit) == 1 - Bit(reg, bit)
    ensures forall i: bv32 :: i < 32 && i != bit ==> Bit(r, i) == Bit(reg, i)
  {
    r := reg ^ (1 << bit);
    forall i: bv32 | i < 32 ensures Bit(r, i) == if i == bit then 1 - Bit(reg, i) else Bit(reg, i) {
      XorMaskBit(reg, bit, i);
    }
  }

  /** `GET_BIT`: 0 or 1, the value of bit `bit` of `reg`. */
  function GetBit(reg: bv32, bit: bv32): (r: bv32)
    requires bit < 31
    ensures r == 0 || r == 1
    ensures r == Bit(reg, bit)
  {
    MaskShift(reg, bit);
    (reg & (1 << bit)) >> bit
  }

  /** `BIT_IS_SET`: non-zero exactly when bit `bit` is set; the value is then the bit's mask. */
  function BitIsSet(reg: bv32, bit: bv32): (r: bv32)
    requires bit < 31
    ensures r != 0 <==> Bit(reg, bit) == 1
    ensures r == 0 || r == 1 << bit
  {
    MaskValue(reg, bit);
    reg & (1 << bit)
  }

  /** `BIT_IS_CLEAR`: the C negation `!`, so 1 exactly when bit `bit` is clear, else 0. */
  function BitIsClear(reg: bv32, bit: bv32): (r: bv32)
    requires bit < 31
    ensures r == 1 - Bit(reg, bit)
  {
    MaskValue(reg, bit);
    if reg & (1 << bit) == 0 then 1 else 0
  }

  /** `BIT_IS_SET` is non-zero exactly when `BIT_IS_CLEAR` is zero. */
  lemma SetIffNotClear(reg: bv32, bit: bv32)
    requires bit < 31
    ensures BitIsSet(reg, bit) != 0 <==> BitIsClear(reg, bit) == 0
  {
  }

  /** `GET_BIT` reads 1 right after `SET_BIT` and 0 right after `CLEAR_BIT`. */
  method SetThenGet(reg: bv32, bit: bv32) returns (afterSet: bv32, afterClear: bv32)
    requires bit < 31
    ensures afterSet == 1 && afterClear == 0
  {
    var s := SetBit(reg, bit);
    afterSet := GetBit(s, bit);
    var c := ClearBit(reg, bit);
    afterClear := GetBit(c, bit);
  }

  /** Toggling the same bit twice restores the register. */
  method ToggleTwice(reg: bv32, bit: bv32) returns (r: bv32)
    requires bit < 31
    ensures r == reg
  {
    var once := ToggleBit(reg, bit);
    r := ToggleBit(once, bit);
    BitsDetermine(r, reg);
  }

  lemma RorBit(reg: bv8, num: bv32, i: bv32)
    requires num <= 8 && i < 8
    ensures Bit8(((((reg as bv32) >> num) | ((reg as bv32) << (8 - num))) & 0xFF) as bv8,
                 (i + 8 - num) % 8) == Bit8(reg, i)
  {
  }

  lemma RolBit(reg: bv8, num: bv32, i: bv32)
    requires num <= 8 && i < 8
    ensures Bit8(((((reg as bv32) << num) | ((reg as bv32) >> (8 - num))) & 0xFF) as bv8,
                 (i + num) % 8) == Bit8(reg, i)
  {
  }

  /**
   * `ROR(REG, num)` on an 8-bit register: the shifts are done on the promoted
   * `int` and the assignment keeps the low 8 bits.  Bit `i` moves to bit
   * `(i - num) mod 8`.
   */
  method Ror(reg: bv8, num: bv32) returns (r: bv8)
    requires num <= 8
    ensures forall i: bv32 :: i < 8 ==> Bit8(r, (i + 8 - num) % 8) == Bit8(reg, i)
  {
    var wide := reg as bv32;
    r := (((wide >> num) | (wide << (8 - num))) & 0xFF) as bv8;
    forall i: bv32 | i < 8 ensures Bit8(r, (i + 8 - num) % 8) == Bit8(reg, i) {
      RorBit(reg, num, i);
    }
  }

  /** `ROL(REG, num)` on an 8-bit register: bit `i` moves to bit `(i + num) mod 8`. */
  method Rol(reg: bv8, num: bv32) returns (r: bv8)
    requires num <= 8
    ensures forall i: bv32 :: i < 8 ==> Bit8(r, (i + num) % 8) == Bit8(reg, i)
  {
    var wide := reg as bv32;
    r := (((wide << num) | (wide >> (8 - num))) & 0xFF) as bv8;
    forall i: bv32 | i < 8 ensures Bit8(r, (i + num) % 8) == Bit8(reg, i) {
      RolBit(reg, num, i);
    }
  }

  /** `ROR` followed by `ROL` by the same amount restores the byte. */
  method RorThenRol(reg: bv8, num: bv32) returns (r: bv8)
    requires num <= 8
    ensures r == reg
  {
    var rotated := Ror(reg, num);
    r := Rol(rotated, num);
    forall i: bv32 | i < 8 ensures Bit8(r, i) == Bit8(reg, i) {
      var j := (i + 8 - num) % 8;
      assert Bit8(rotated, j) == Bit8(reg, i);
      assert (j + num) % 8 == i;
    }
    Bits8Determine(r, reg);
  }
}
