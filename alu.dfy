/**
 * The arithmetic/logic unit of the emulated processor (proc/alu.c).
 *
 * `alu_eval` reads two 32-bit operands and an opcode from its input pins and
 * drives the output pin with the result.  The pins are left out: the model is
 * the pure function from (A, B, op) to the 32-bit result.  A `uint32_t` is an
 * integer in [0, 2^32); C's wrap-around is written out as `% Modulus`, and the
 * bitwise operators are defined bit by bit on the low `Width` bits.
 */
module Alu {

  const Width: nat := 32
  const Modulus: nat := 0x1_0000_0000

  /** A `uint32_t`. */
  type Word = x: int | 0 <= x < 0x1_0000_0000

  function Pow2(n: nat): (p: nat)
    ensures p >= 1
  {
    if n == 0 then 1 else 2 * Pow2(n - 1)
  }

  /** Bitwise AND of the low n bits of x and y. */
  function BitAnd(x: nat, y: nat, n: nat): (r: nat)
    ensures r < Pow2(n)
  {
    if n == 0 then 0 else 2 * BitAnd(x / 2, y / 2, n - 1) + (if x % 2 == 1 && y % 2 == 1 then 1 else 0)
  }

  /** Bitwise OR of the low n bits of x and y. */
  function BitOr(x: nat, y: nat, n: nat): (r: nat)
    ensures r < Pow2(n)
  {
    if n == 0 then 0 else 2 * BitOr(x / 2, y / 2, n - 1) + (if x % 2 == 1 || y % 2 == 1 then 1 else 0)
  }

  /** Bitwise XOR of the low n bits of x and y. */
  function BitXor(x: nat, y: nat, n: nat): (r: nat)
    ensures r < Pow2(n)
  {
    if n == 0 then 0 else 2 * BitXor(x / 2, y / 2, n - 1) + (if x % 2 != y % 2 then 1 else 0)
  }

  /** Bitwise complement of the low n bits of x. */
  function BitNot(x: nat, n: nat): (r: nat)
    ensures r < Pow2(n)
  {
    if n == 0 then 0 else 2 * BitNot(x / 2, n - 1) + (1 - x % 2)
  }

  lemma Pow2Values()
    ensures Pow2(31) == 0x8000_0000 && Pow2(32) == 0x1_0000_0000
  {
    assert Pow2(8) == 0x100;
    assert Pow2(16) == 0x1_0000;
    assert Pow2(24) == 0x100_0000;
  }

  /** The ALU operations, in the order the switch of `alu_eval` lists them. */
  datatype AluOp = Add | Inv | Sub | Xor | Or | Incr | And | Sra | Srl | Sla | Sll

  /**
   * The numeric opcodes.  The ALUOP_* constants are defined in a header that is
   * not part of this model; they are numbered here in declaration order.
   */
  function OpCode(op: AluOp): Word
  {
    match op
    case Add => 0
    case Inv => 1
    case Sub => 2
    case Xor => 3
    case Or => 4
    case Incr => 5
    case And => 6
    case Sra => 7
    case Srl => 8
    case Sla => 9
    case Sll => 10
  }

  datatype Option<T> = None | Some(value: T)

  /** Decodes an opcode read from the op pin; `None` for an unrecognised code. */
  function Decode(code: Word): (r: Option<AluOp>)
    ensures r.Some? ==> OpCode(r.value) == code
    ensures r.None? <==> code > 10
  {
    if code == 0 then Some(Add)
    else if code == 1 then Some(Inv)
    else if code == 2 then Some(Sub)
    else if code == 3 then Some(Xor)
    else if code == 4 then Some(Or)
    else if code == 5 then Some(Incr)
    else if code == 6 then Some(And)
    else if code == 7 then Some(Sra)
    else if code == 8 then Some(Srl)
    else if code == 9 then Some(Sla)
    else if code == 10 then Some(Sll)
    else None
  }

  /** `1 << 31`. */
  const TopBit: nat := 0x8000_0000

  /**
   * The switch of `alu_eval`: the value driven onto the output pin.  INV is
   * the complement 2^32 - 1 - A, SRA halves A and keeps bit 31, and OR adds
   * the bits of XOR and AND, which never overlap.
   */
  function AluEval(a: Word, b: Word, code: Word): (r: Word)
    ensures Decode(code) == Some(Inv) ==> r == Modulus - 1 - a
    ensures Decode(code) == Some(Sra) ==> r == a / 2 + (if a >= TopBit then TopBit else 0)
    ensures Decode(code) == Some(Or) ==> r == BitXor(a, b, Width) + BitAnd(a, b, Width)
  {
    Pow2Values();
    match Decode(code)
    case None => 0
    case Some(op) =>
      match op
      case Add => (a + b) % Modulus
      case Inv => NotIsComplement(a, Width); BitNot(a, Width)
      case Sub => (a - b) % Modulus
      case Xor => BitXor(a, b, Width)
      case Or => OrIsXorPlusAnd(a, b, Width); BitOr(a, b, Width)
      case Incr => (a + 1) % Modulus
      case And => BitAnd(a, b, Width)
      case Sra =>
        AndPow2(a, 31, Width);
        TopBitOf(a, 31);
        OrHighBit(a / 2, 31, BitAnd(a, TopBit, Width), Width);
        BitOr(a / 2, BitAnd(a, TopBit, Width), Width)
      case Srl => a / 2
      case Sla => (a * 2) % Modulus
      case Sll => (a * 2) % Modulus
  }

  /** ADD and SUB wrap modulo 2^32, and each undoes the other. */
  lemma AddSubInverse(a: Word, b: Word)
    ensures AluEval(AluEval(a, b, OpCode(Add)), b, OpCode(Sub)) == a
    ensures AluEval(AluEval(a, b, OpCode(Sub)), b, OpCode(Add)) == a
    ensures a + b >= Modulus ==> AluEval(a, b, OpCode(Add)) == a + b - Modulus
    ensures a < b ==> AluEval(a, b, OpCode(Sub)) == a - b + Modulus
  {
    var s := AluEval(a, b, OpCode(Add));
    var d := AluEval(a, b, OpCode(Sub));
    assert s == (a + b) % Modulus;
    assert d == (a - b) % Modulus;
    if a + b >= Modulus {
      assert s == a + b - Modulus;
    } else {
      assert s == a + b;
    }
    if a < b {
      assert d == a - b + Modulus;
    } else {
      assert d == a - b;
    }
    assert AluEval(s, b, OpCode(Sub)) == (s - b) % Modulus;
    assert AluEval(d, b, OpCode(Add)) == (d + b) % Modulus;
  }

  /** INCR ignores B and is ADD of one, so the largest word increments to 0. */
  lemma IncrIsAddOne(a: Word, b: Word)
    ensures AluEval(a, b, OpCode(Incr)) == AluEval(a, 1, OpCode(Add))
    ensures AluEval(Modulus - 1, b, OpCode(Incr)) == 0
  {
  }

  /** The complement of the low n bits of x is 2^n - 1 - x. */
  lemma {:induction false} NotIsComplement(x: nat, n: nat)
    requires x < Pow2(n)
    ensures BitNot(x, n) == Pow2(n) - 1 - x
  {
    if n > 0 {
      NotIsComplement(x / 2, n - 1);
    }
  }

  /** INV is the bitwise complement of A: A plus its inverse is all ones, and INV is an involution. */
  lemma InvComplements(a: Word, b: Word)
    ensures a + AluEval(a, b, OpCode(Inv)) == Modulus - 1
    ensures AluEval(AluEval(a, b, OpCode(Inv)), b, OpCode(Inv)) == a
  {
    Pow2Values();
    NotIsComplement(a, Width);
    var r := AluEval(a, b, OpCode(Inv));
    NotIsComplement(r, Width);
  }

  /** Bit by bit, XOR equals (~x & y) | (x & ~y). */
  lemma {:induction false} XorIsSumOfProducts(x: nat, y: nat, n: nat)
    ensures BitXor(x, y, n) == BitOr(BitAnd(BitNot(x, n), y, n), BitAnd(x, BitNot(y, n), n), n)
  {
    if n > 0 {
      XorIsSumOfProducts(x / 2, y / 2, n - 1);
      var nx, ny := BitNot(x, n), BitNot(y, n);
      assert nx / 2 == BitNot(x / 2, n - 1) && nx % 2 == 1 - x % 2;
      assert ny / 2 == BitNot(y / 2, n - 1) && ny % 2 == 1 - y % 2;
      var l, r := BitAnd(nx, y, n), BitAnd(x, ny, n);
      assert l / 2 == BitAnd(nx / 2, y / 2, n - 1);
      assert r / 2 == BitAnd(x / 2, ny / 2, n - 1);
    }
  }

  /** XOR agrees with the sum-of-products form the source keeps in a comment beside it. */
  lemma XorSumOfProducts(a: Word, b: Word)
    ensures AluEval(a, b, OpCode(Xor)) == BitOr(BitAnd(BitNot(a, Width), b, Width), BitAnd(a, BitNot(b, Width), Width), Width)
  {
    XorIsSumOfProducts(a, b, Width);
  }

  /** OR is the sum of XOR and AND, which never share a bit. */
  lemma {:induction false} OrIsXorPlusAnd(x: nat, y: nat, n: nat)
    ensures BitOr(x, y, n) == BitXor(x, y, n) + BitAnd(x, y, n)
    ensures BitAnd(BitXor(x, y, n), BitAnd(x, y, n), n) == 0
  {
    if n > 0 {
      OrIsXorPlusAnd(x / 2, y / 2, n - 1);
      var xo, an := BitXor(x, y, n), BitAnd(x, y, n);
      assert xo / 2 == BitXor(x / 2, y / 2, n - 1) && an / 2 == BitAnd(x / 2, y / 2, n - 1);
    }
  }

  /** OR, AND and XOR of the ALU are the bitwise operations: OR is XOR plus AND, with no carry. */
  lemma OrAndXor(a: Word, b: Word)
    ensures AluEval(a, b, OpCode(Or)) == AluEval(a, b, OpCode(Xor)) + AluEval(a, b, OpCode(And))
    ensures BitAnd(AluEval(a, b, OpCode(Xor)), AluEval(a, b, OpCode(And)), Width) == 0
  {
    OrIsXorPlusAnd(a, b, Width);
  }

  /** Bit k of x, as 0 or 1. */
  function Bit(x: nat, k: nat): nat
  {
    if k == 0 then x % 2 else Bit(x / 2, k - 1)
  }

  /** Below 2^(k+1), bit k is set exactly from 2^k upwards. */
  lemma {:induction false} TopBitOf(x: nat, k: nat)
    requires x < 2 * Pow2(k)
    ensures Bit(x, k) == if x >= Pow2(k) then 1 else 0
  {
    if k > 0 {
      TopBitOf(x / 2, k - 1);
    }
  }

  lemma {:induction false} AndZero(x: nat, n: nat)
    ensures BitAnd(x, 0, n) == 0
  {
    if n > 0 {
      AndZero(x / 2, n - 1);
    }
  }

  /** AND with 2^k keeps exactly bit k. */
  lemma {:induction false} AndPow2(x: nat, k: nat, n: nat)
    requires k < n
    ensures BitAnd(x, Pow2(k), n) == Bit(x, k) * Pow2(k)
  {
    if k == 0 {
      AndZero(x / 2, n - 1);
    } else {
      AndPow2(x / 2, k - 1, n - 1);
    }
  }

  lemma {:induction false} OrZero(x: nat, n: nat)
    requires x < Pow2(n)
    ensures BitOr(x, 0, n) == x
  {
    if n > 0 {
      OrZero(x / 2, n - 1);
    }
  }

  /** OR of a number below 2^k with 0 or 2^k is their sum: the set bits are disjoint. */
  lemma {:induction false} OrHighBit(x: nat, k: nat, c: nat, n: nat)
    requires k < n && x < Pow2(k) && (c == 0 || c == Pow2(k))
    ensures BitOr(x, c, n) == x + c
  {
    if k == 0 {
      if c == 0 { OrZero(0, n); } else { OrZero(0, n - 1); }
    } else {
      OrHighBit(x / 2, k - 1, c / 2, n - 1);
    }
  }

  /** Reads a word as a two's-complement signed 32-bit integer. */
  function Signed(x: Word): int
  {
    if x < TopBit then x else x - Modulus
  }

  /**
   * SRA shifts right by one and keeps bit 31: read as signed integers, the
   * result is A halved and rounded down, and bit 31 is unchanged.
   */
  lemma SraHalvesSigned(a: Word, b: Word)
    ensures Signed(AluEval(a, b, OpCode(Sra))) == Signed(a) / 2
    ensures AluEval(a, b, OpCode(Sra)) >= TopBit <==> a >= TopBit
  {
    Pow2Values();
    AndPow2(a, 31, Width);
    TopBitOf(a, 31);
    OrHighBit(a / 2, 31, BitAnd(a, TopBit, Width), Width);
  }

  /** SRL shifts right by one and clears bit 31: the unsigned value halved, rounded down. */
  lemma SrlHalves(a: Word, b: Word)
    ensures AluEval(a, b, OpCode(Srl)) == a / 2
    ensures AluEval(a, b, OpCode(Srl)) < TopBit
  {
  }

  /** SRA and SRL agree exactly on words whose bit 31 is clear. */
  lemma SraSrlAgree(a: Word, b: Word)
    ensures AluEval(a, b, OpCode(Sra)) == AluEval(a, b, OpCode(Srl)) <==> a < TopBit
  {
    SraHalvesSigned(a, b);
  }

  /**
   * SLA and SLL give the same value: A shifted left by one with bit 31 lost.
   * The result is even, and SRL of it gives back A with bit 31 cleared.
   */
  lemma ShiftLeftSame(a: Word, b: Word)
    ensures AluEval(a, b, OpCode(Sla)) == AluEval(a, b, OpCode(Sll))
    ensures AluEval(a, b, OpCode(Sla)) % 2 == 0
    ensures AluEval(AluEval(a, b, OpCode(Sla)), b, OpCode(Srl)) == a % TopBit
  {
  }

  /** An unrecognised opcode yields 0, whatever A and B are. */
  lemma UnknownOpIsZero(a: Word, b: Word, code: Word)
    requires code > 10
    ensures AluEval(a, b, code) == 0
  {
  }
}
