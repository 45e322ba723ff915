/**
  * Reversal of the bit order of a 32-bit unsigned word (src/reverse_bits/reverse_bits.c).
  *
  * Bit positions are `bv32` values below 32, so that every shift in the model is a shift
  * of one 32-bit word by another, as in the C code.
  */
module ReverseBits {

  /** Bit `i` of `x`, counting from the least significant bit. */
  predicate Bit(x: bv32, i: bv32)
    requires i < 32
  {
    (x >> i) & 1 == 1
  }

  /** The value `res` holds after `j` turns of the loop: the low `j` bits of `x`, reversed. */
  function ReversedLow(x: bv32, j: bv32): bv32
    requires j <= 32
    decreases j as int
  {
    if j == 0 then 0 else (ReversedLow(x, j - 1) << 1) | ((x >> (j - 1)) & 1)
  }

  /** `(r << 1) | b` moves every bit of `r` up by one and puts `b` at the bottom. */
  lemma ShiftIn(r: bv32, b: bv32, k: bv32)
    requires b == 0 || b == 1
    requires k < 32
    ensures k == 0 ==> Bit((r << 1) | b, k) == (b == 1)
    ensures 0 < k ==> Bit((r << 1) | b, k) == Bit(r, k - 1)
  {
  }

  /** One turn of the loop, unfolded: the bit shifted in is bit `j - 1` of the input. */
  lemma Unfold(x: bv32, j: bv32) returns (r: bv32, b: bv32)
    requires 0 < j <= 32
    ensures r == ReversedLow(x, j - 1)
    ensures ReversedLow(x, j) == (r << 1) | b
    ensures b == 0 || b == 1
    ensures (b == 1) == Bit(x, j - 1)
  {
    r := ReversedLow(x, j - 1);
    b := (x >> (j - 1)) & 1;
  }

  /** After `j` turns, bit `k` of `res` is bit `j - 1 - k` of the input below `j`, and 0 from `j` on. */
  lemma {:induction false} ReversedLowBits(x: bv32, j: bv32, k: bv32)
    requires j <= 32 && k < 32
    ensures Bit(ReversedLow(x, j), k) == (k < j && Bit(x, j - 1 - k))
    decreases j as int
  {
    if j > 0 {
      var r, b := Unfold(x, j);
      ShiftIn(r, b, k);
      if k > 0 {
        ReversedLowBits(x, j - 1, k - 1);
        assert j - 1 - 1 - (k - 1) == j - 1 - k;
      }
    }
  }

  /** After all 32 turns, bit `i` of `res` is bit `31 - i` of the input. */
  lemma FullReversal(x: bv32)
    ensures forall i: bv32 :: i < 32 ==> Bit(ReversedLow(x, 32), i) == Bit(x, 31 - i)
  {
    forall i: bv32 | i < 32
      ensures Bit(ReversedLow(x, 32), i) == Bit(x, 31 - i)
    {
      ReversedLowBits(x, 32, i);
    }
  }

  /** The result of `reverse_bits`: bit `i` of the result is bit `31 - i` of the input. */
  function Reverse(x: bv32): (r: bv32)
    ensures forall i: bv32 :: i < 32 ==> Bit(r, i) == Bit(x, 31 - i)
  {
    FullReversal(x);
    ReversedLow(x, 32)
  }

  /** Two words that agree on their low `j` bits agree under the mask of those bits. */
  lemma {:induction false} LowBitsAgree(a: bv32, b: bv32, j: bv32)
    requires j <= 32
    requires forall i: bv32 :: i < j ==> Bit(a, i) == Bit(b, i)
    ensures (a ^ b) & ((1 << j) - 1) == 0
    decreases j as int
  {
    if j > 0 {
      LowBitsAgree(a, b, j - 1);
      assert Bit(a, j - 1) == Bit(b, j - 1);
    }
  }

  /** The bit characterisation determines the reversal: a word whose bit `i` is bit `31 - i`
      of `x`, for every `i`, is `Reverse(x)`. */
  lemma ReverseUnique(x: bv32, y: bv32)
    requires forall i: bv32 :: i < 32 ==> Bit(y, i) == Bit(x, 31 - i)
    ensures Reverse(x) == y
  {
    LowBitsAgree(Reverse(x), y, 32);
  }

  /** Reversing twice gives the input back. */
  lemma ReverseInvolution(x: bv32)
    ensures Reverse(Reverse(x)) == x
  {
    forall i: bv32 | i < 32
      ensures Bit(x, i) == Bit(Reverse(x), 31 - i)
    {
      assert 31 - (31 - i) == i;
    }
    ReverseUnique(Reverse(x), x);
  }

  /** The fixed points and the lowest bit, the first values the function is checked against. */
  lemma KnownValues()
    ensures Reverse(0) == 0
    ensures Reverse(0xFFFF_FFFF) == 0xFFFF_FFFF
    ensures Reverse(1) == 0x8000_0000
  {
    ReverseUnique(0, 0);
    ReverseUnique(0xFFFF_FFFF, 0xFFFF_FFFF);
    ReverseUnique(1, 0x8000_0000);
  }

  /** The bit patterns the function is checked against: one byte, and two mixed words. */
  lemma PatternValues()
    ensures Reverse(0xCC) == 0x3300_0000
    ensures Reverse(0x1234_5678) == 0x1E6A_2C48
    ensures Reverse(0xABCD_EF00) == 0x00F7_B3D5
  {
    ReverseUnique(0xCC, 0x3300_0000);
    ReverseUnique(0x1234_5678, 0x1E6A_2C48);
    ReverseUnique(0xABCD_EF00, 0x00F7_B3D5);
  }

  /** One turn of the loop, as a step of `ReversedLow` and of the shift of the input. */
  lemma TurnStep(x: bv32, j: bv32)
    requires j < 32
    ensures ReversedLow(x, j + 1) == (ReversedLow(x, j) << 1) | ((x >> j) & 1)
    ensures (x >> j) >> 1 == x >> (j + 1)
  {
  }

  /** `reverse_bits`: 32 turns, each shifting the low bit of `n` into `res` and `n` right by one.
      The loop counter, an `int` in C, runs from 0 to 32 and is kept as a `bv32` here. */
  method ReverseBitsLoop(input: bv32) returns (res: bv32)
    ensures forall i: bv32 :: i < 32 ==> Bit(res, i) == Bit(input, 31 - i)
    ensures res == Reverse(input)
  {
    var n := input;
    res := 0;
    var bits: bv32 := 32;
    var i: bv32 := 0;
    while i < bits
      invariant bits == 32 && i <= bits
      invariant res == ReversedLow(input, i)
      invariant n == input >> i
      decreases bits - i
    {
      TurnStep(input, i);
      res := (res << 1) | (n & 1);
      n := n >> 1;
      i := i + 1;
    }
    FullReversal(input);
  }
}
