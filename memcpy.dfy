/**
  * The two copy routines of src/memcpy/mymemcpy.h, over two distinct byte arrays.
  *
  * A C pointer into a buffer is an index into the array: `d` and `s` are the offsets the
  * routines have advanced their destination and source pointers to.
  */
module MemCopy {

  /** `sizeof(uint64_t)`: the step of the word loop of `mymemcpy`. */
  const WordSize: nat := 8

  /** The least multiple of the word size that is at least `n`. */
  function RoundUp(n: nat): (r: nat)
    ensures r % WordSize == 0
    ensures n <= r < n + WordSize
    ensures r == n <==> n % WordSize == 0
  {
    if n % WordSize == 0 then n else n + (WordSize - n % WordSize)
  }

  /** `mymemcpy1`: copies `sz` bytes one at a time, counting `sz` down to zero. */
  method MyMemcpy1(dst: array<bv8>, src: array<bv8>, sz: nat) returns (ret: array<bv8>)
    requires dst != src
    requires sz <= dst.Length && sz <= src.Length
    modifies dst
    ensures ret == dst
    ensures dst[..sz] == src[..sz]
    ensures dst[sz..] == old(dst[sz..])
    ensures src[..] == old(src[..])
  {
    var d, s := 0, 0;
    var remaining := sz;
    while remaining != 0
      invariant d == s && d + remaining == sz
      invariant dst[..d] == src[..d]
      invariant dst[d..] == old(dst[d..])
    {
      dst[d] := src[s];
      d := d + 1;
      s := s + 1;
      remaining := remaining - 1;
    }
    ret := dst;
  }

  /** Copies the 8-byte word at `src[s..s + 8]` to `dst[d..d + 8]`: one 64-bit load and store. */
  method CopyWord(dst: array<bv8>, src: array<bv8>, d: nat, s: nat)
    requires dst != src
    requires d + WordSize <= dst.Length && s + WordSize <= src.Length
    modifies dst
    ensures dst[d..d + WordSize] == src[s..s + WordSize]
    ensures forall k :: 0 <= k < dst.Length && !(d <= k < d + WordSize) ==> dst[k] == old(dst[k])
  {
    forall k | d <= k < d + WordSize {
      dst[k] := src[s + (k - d)];
    }
  }

  /** `mymemcpy`: copies 8-byte words while `i < sz`, stepping `i` by 8. When `sz` is not a
      multiple of 8 the last word runs past `sz`, so both buffers must hold `RoundUp(sz)`
      bytes. The word loop always leaves `i >= sz`, so the byte loop that follows it in the
      source never runs: its guard is shown false below. */
  method MyMemcpy(dst: array<bv8>, src: array<bv8>, sz: nat) returns (ret: array<bv8>)
    requires dst != src
    requires RoundUp(sz) <= dst.Length && RoundUp(sz) <= src.Length
    modifies dst
    ensures ret == dst
    ensures dst[..RoundUp(sz)] == src[..RoundUp(sz)]
    ensures dst[RoundUp(sz)..] == old(dst[RoundUp(sz)..])
    ensures sz % WordSize == 0 ==> dst[..sz] == src[..sz] && dst[sz..] == old(dst[sz..])
    ensures src[..] == old(src[..])
  {
    var end := RoundUp(sz);
    var d, s := 0, 0;
    var i := 0;
    while i < sz
      invariant i % WordSize == 0 && i <= end
      invariant d == i && s == i
      invariant dst[..i] == src[..i]
      invariant dst[i..] == old(dst[i..])
    {
      ghost var before := dst[..];
      CopyWord(dst, src, d, s);
      assert dst[i + WordSize..] == before[i + WordSize..];
      assert dst[..i + WordSize] == dst[..i] + dst[i..i + WordSize];
      assert src[..i + WordSize] == src[..i] + src[i..i + WordSize];
      d := d + WordSize;
      s := s + WordSize;
      i := i + WordSize;
    }
    assert i == end;
    // The byte loop `while (i < sz)` of the source: its guard is false here, so it is dead code.
    assert !(i < sz);
    ret := dst;
  }

  /** The over-copy of `mymemcpy`: a 17-byte copy, the length of the string test, between
      24-byte buffers also writes the 7 bytes past `sz`. Had the destination been 17 bytes long,
      as in that test, they would have landed past its end. */
  method OverCopyExample() returns (dst: array<bv8>, src: array<bv8>)
    ensures dst.Length == 24 && src.Length == 24
    ensures dst[..17] == src[..17]
    ensures dst[17..24] == src[17..24]
    ensures dst[17..24] != seq(7, _ => 0)
  {
    dst := new bv8[24](_ => 0);
    src := new bv8[24](_ => 0xAA);
    assert RoundUp(17) == 24;
    var ret := MyMemcpy(dst, src, 17);
    assert dst[..24] == src[..24];
    assert dst[17..24] == dst[..24][17..24];
    assert dst[17] == 0xAA;
  }

  /** The word copy as evidently intended: whole words while a whole word is left, then the
      remaining bytes one at a time, so that exactly `sz` bytes are copied. */
  method MyMemcpyExact(dst: array<bv8>, src: array<bv8>, sz: nat) returns (ret: array<bv8>)
    requires dst != src
    requires sz <= dst.Length && sz <= src.Length
    modifies dst
    ensures ret == dst
    ensures dst[..sz] == src[..sz]
    ensures dst[sz..] == old(dst[sz..])
    ensures src[..] == old(src[..])
  {
    var d, s := 0, 0;
    var i := 0;
    while i + WordSize <= sz
      invariant i <= sz && d == i && s == i
      invariant dst[..i] == src[..i]
      invariant dst[i..] == old(dst[i..])
    {
      ghost var before := dst[..];
      CopyWord(dst, src, d, s);
      assert dst[i + WordSize..] == before[i + WordSize..];
      assert dst[..i + WordSize] == dst[..i] + dst[i..i + WordSize];
      assert src[..i + WordSize] == src[..i] + src[i..i + WordSize];
      d := d + WordSize;
      s := s + WordSize;
      i := i + WordSize;
    }
    while i < sz
      invariant i <= sz && d == i && s == i
      invariant dst[..i] == src[..i]
      invariant dst[i..] == old(dst[i..])
    {
      dst[d] := src[s];
      d := d + 1;
      s := s + 1;
      i := i + 1;
    }
    ret := dst;
  }
}
