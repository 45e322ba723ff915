/**
  * The register bit helpers of src/register_toggle/register_toggle.c.
  *
  * Both C functions receive the 8-bit register BY VALUE and return nothing: the bitwise
  * update lands in the callee's copy, which is discarded on return. A call is modelled as the
  * pair of what is left after it: the caller's register and the callee's local copy.
  */
module RegisterToggle {

  /** Bit `i` of an 8-bit register. */
  predicate Bit(x: bv8, i: bv8)
    requires i < 8
  {
    (x >> i) & 1 == 1
  }

  /** What one call leaves behind: the caller's register and the local copy at return. */
  datatype Call = Call(callerReg: bv8, localCopy: bv8)

  /** The conversion of an `int` result back to `uint8_t` on assignment: the value modulo 256. */
  function Low8(v: bv32): (b: bv8)
    ensures b as bv32 == v % 0x100
  {
    (v & 0xFF) as bv8
  }

  /** `set_bit(r, n)`: the local copy gets `r | (1 << n)`, computed as an `int` and cut back to
      8 bits; the caller's register is untouched. The position `n` is an `int` the source does
      not check: `1 << n` is defined for `0 <= n <= 30`, and from 8 on the set bit falls outside
      the 8 bits that are kept. */
  function SetBit(r: bv8, n: bv32): (c: Call)
    requires n < 31
    ensures c.callerReg == r
    ensures n < 8 ==> forall i: bv8 :: i < 8 ==> Bit(c.localCopy, i) == (i == n as bv8 || Bit(r, i))
    ensures n >= 8 ==> c.localCopy == r
  {
    Call(r, Low8(r as bv32 | (1 << n)))
  }

  /** `clear_bit(r, n)`: the local copy gets `r & (1 << n)`, which keeps bit `n` of `r` and
      clears every OTHER bit (all of them when `n >= 8`); the caller's register is untouched. */
  function ClearBit(r: bv8, n: bv32): (c: Call)
    requires n < 31
    ensures c.callerReg == r
    ensures n < 8 ==> forall i: bv8 :: i < 8 ==> Bit(c.localCopy, i) == (i == n as bv8 && Bit(r, i))
    ensures n >= 8 ==> c.localCopy == 0
  {
    Call(r, Low8(r as bv32 & (1 << n)))
  }

  /** Neither helper has an effect the caller can see, whatever the register and bit. */
  lemma CallerUnchanged(r: bv8, n: bv32)
    requires n < 31
    ensures SetBit(r, n).callerReg == r && ClearBit(r, n).callerReg == r
  {
  }

  /** Setting the same bit twice gives the local value of setting it once. */
  lemma SetBitIdempotent(r: bv8, n: bv32)
    requires n < 31
    ensures SetBit(SetBit(r, n).localCopy, n).localCopy == SetBit(r, n).localCopy
  {
  }

  /** The caller in the register tests sees no change: `set_bit(0x00, 0)` leaves 0x00 where 0x01
      was meant, and `clear_bit(0xFF, 0)` leaves 0xFF where 0xFE was meant. */
  lemma ByValueCounterexample()
    ensures SetBit(0x00, 0).callerReg == 0x00 != SetBitIntended(0x00, 0)
    ensures ClearBit(0xFF, 0).callerReg == 0xFF != ClearBitIntended(0xFF, 0)
  {
  }

  /** The mask of `clear_bit` is not inverted: even its discarded local copy of 0xFF with bit 0
      "cleared" is 0x01 rather than 0xFE. */
  lemma ClearMaskCounterexample()
    ensures ClearBit(0xFF, 0).localCopy == 0x01
    ensures ClearBitIntended(0xFF, 0) == 0xFE
  {
  }

  /** The register value `set_bit` is meant to produce: bit `n` set, the others unchanged. */
  function SetBitIntended(r: bv8, n: bv8): (v: bv8)
    requires n < 8
    ensures forall i: bv8 :: i < 8 ==> Bit(v, i) == (i == n || Bit(r, i))
  {
    r | (1 << n)
  }

  /** The register value `clear_bit` is meant to produce: bit `n` cleared, the others unchanged. */
  function ClearBitIntended(r: bv8, n: bv8): (v: bv8)
    requires n < 8
    ensures forall i: bv8 :: i < 8 ==> Bit(v, i) == (i != n && Bit(r, i))
  {
    r & !(1 << n)
  }

  /** A register updated in place, as the helpers are evidently meant to work. */
  class Register {
    var value: bv8

    constructor (v: bv8)
      ensures value == v
    {
      value := v;
    }

    method SetBit(n: bv8)
      requires n < 8
      modifies this
      ensures value == SetBitIntended(old(value), n)
      ensures Bit(value, n)
      ensures forall i: bv8 :: i < 8 && i != n ==> Bit(value, i) == Bit(old(value), i)
    {
      value := value | (1 << n);
    }

    method ClearBit(n: bv8)
      requires n < 8
      modifies this
      ensures value == ClearBitIntended(old(value), n)
      ensures !Bit(value, n)
      ensures forall i: bv8 :: i < 8 && i != n ==> Bit(value, i) == Bit(old(value), i)
    {
      value := value & !(1 << n);
    }
  }

  /** The intended helpers are idempotent, and clearing undoes setting a bit that was clear. */
  lemma IntendedIdempotent(r: bv8, n: bv8)
    requires n < 8
    ensures SetBitIntended(SetBitIntended(r, n), n) == SetBitIntended(r, n)
    ensures ClearBitIntended(ClearBitIntended(r, n), n) == ClearBitIntended(r, n)
    ensures !Bit(r, n) ==> ClearBitIntended(SetBitIntended(r, n), n) == r
  {
  }
}
