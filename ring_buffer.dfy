/**
  * The 256-byte FIFO ring buffer of src/ring_buffer/ring_buffer.c.
  *
  * The source keeps one static buffer; here it is an object of class `Ring`, whose fields are
  * the fields of the C struct: the byte array `buf`, the head index `h` (next byte to read),
  * the tail index `t` (next slot to write) and the `full` flag that tells a full buffer from an
  * empty one when `h == t`. The ghost field `Contents` is the sequence of stored bytes, oldest
  * first. A NULL `dst` or `src` pointer is a `null` array.
  */
module RingBuffer {

  /** `BUF_SZ`: the capacity, a power of two so that indices wrap with a mask. */
  const BufSize: nat := 256

  /** On a `size_t`, masking with `BUF_SZ - 1` is taking the remainder modulo `BUF_SZ`. */
  lemma MaskIsModulo(x: bv64)
    ensures x & 0xFF == x % 0x100
  {
  }

  /** The increment of an index as the source writes it, `(i + 1) & (BUF_SZ - 1)` on a `size_t`:
      from an index in range it gives the next slot, wrapping from the last slot to slot 0. */
  lemma MaskedAdvance(i: bv64)
    requires i < 0x100
    ensures (i + 1) & 0xFF == if i == 0xFF then 0 else i + 1
  {
    MaskIsModulo(i + 1);
  }

  /** The index after `i`, wrapping from the last slot to slot 0: on indices kept as numbers, the
      same step as the mask of `MaskedAdvance`. */
  function Advance(i: nat): (j: nat)
    requires i < BufSize
    ensures j < BufSize
  {
    if i == BufSize - 1 then 0 else i + 1
  }

  /** Advancing an index reduced modulo the capacity is reducing the next count. */
  lemma AdvanceModulo(x: nat)
    ensures Advance(x % BufSize) == (x + 1) % BufSize
  {
  }

  /** The index `i` slots after `h`, reached one `Advance` at a time. */
  function Steps(h: nat, i: nat): (j: nat)
    requires h < BufSize
    ensures j < BufSize
  {
    if i == 0 then h else Advance(Steps(h, i - 1))
  }

  /** Advancing `i` times is adding `i` modulo the capacity. */
  lemma {:induction false} StepsModulo(h: nat, i: nat)
    requires h < BufSize
    ensures Steps(h, i) == (h + i) % BufSize
  {
    if i > 0 {
      StepsModulo(h, i - 1);
      AdvanceModulo(h + i - 1);
    }
  }

  /** The number of stored bytes the indices and the flag stand for: the slots from `h` forward
      to `t`, wrapping past the last slot. */
  function Count(h: nat, t: nat, full: bool): (c: nat)
    requires h < BufSize && t < BufSize
    ensures c <= BufSize
    ensures full <==> c == BufSize
  {
    if full then BufSize else if h <= t then t - h else BufSize - h + t
  }

  /** The `c` bytes of `b` from slot `h` on, wrapping past the last slot. */
  function Window(b: seq<bv8>, h: nat, c: nat): (w: seq<bv8>)
    requires |b| == BufSize && h < BufSize && c <= BufSize
    ensures |w| == c
    decreases c
  {
    if c == 0 then [] else [b[h]] + Window(b, Advance(h), c - 1)
  }

  /** Byte `k` of the window is the byte in slot `h + k` modulo the capacity. */
  lemma {:induction false} WindowAt(b: seq<bv8>, h: nat, c: nat, k: nat)
    requires |b| == BufSize && h < BufSize && k < c <= BufSize
    ensures Window(b, h, c)[k] == b[(h + k) % BufSize]
    decreases c
  {
    if k > 0 {
      WindowAt(b, Advance(h), c - 1, k - 1);
      AdvanceModulo(h);
      assert (Advance(h) + (k - 1)) % BufSize == (h + k) % BufSize;
    }
  }

  /** Taking the oldest byte moves the window's start one slot on, wrapping at the end. */
  lemma WindowPop(b: seq<bv8>, h: nat, c: nat)
    requires |b| == BufSize && h < BufSize && 0 < c <= BufSize
    ensures Window(b, h, c)[0] == b[h]
    ensures Window(b, Advance(h), c - 1) == Window(b, h, c)[1..]
  {
  }

  /** Storing a byte in the slot just past the window extends the window by that byte and
      leaves the bytes already in it alone. */
  lemma {:induction false} WindowPush(b: seq<bv8>, h: nat, c: nat, x: bv8)
    requires |b| == BufSize && h < BufSize && c < BufSize
    ensures Window(b[(h + c) % BufSize := x], h, c + 1) == Window(b, h, c) + [x]
    decreases c
  {
    var b' := b[(h + c) % BufSize := x];
    if c == 0 {
      assert Window(b', h, 1) == [b'[h]] + Window(b', Advance(h), 0);
    } else {
      AdvanceModulo(h);
      assert (Advance(h) + (c - 1)) % BufSize == (h + c) % BufSize;
      WindowPush(b, Advance(h), c - 1, x);
      assert (h + c) % BufSize != h;
      assert Window(b', h, c + 1) == [b[h]] + Window(b', Advance(h), c);
      assert Window(b, h, c) == [b[h]] + Window(b, Advance(h), c - 1);
    }
  }

  /** A shorter window from the same slot is a prefix of a longer one. */
  lemma {:induction false} WindowPrefix(b: seq<bv8>, h: nat, m: nat, n: nat)
    requires |b| == BufSize && h < BufSize && n <= m <= BufSize
    ensures Window(b, h, m)[..n] == Window(b, h, n)
    decreases n
  {
    if n > 0 {
      WindowPrefix(b, Advance(h), m - 1, n - 1);
      assert Window(b, h, m)[..n] == [b[h]] + Window(b, Advance(h), m - 1)[..n - 1];
    }
  }

  /** The ring buffer's invariant on plain values: indices in range, `full` only when the
      indices meet, and `c` is what the indices and the flag delimit in `b`. */
  ghost predicate Consistent(b: seq<bv8>, h: nat, t: nat, full: bool, c: seq<bv8>) {
    |b| == BufSize && h < BufSize && t < BufSize && (full ==> h == t) &&
    |c| == Count(h, t, full) &&
    c == Window(b, h, |c|)
  }

  /** In a consistent state the tail and the flag follow from the head and the byte count. */
  lemma ConsistentIndices(b: seq<bv8>, h: nat, t: nat, full: bool, c: seq<bv8>)
    requires Consistent(b, h, t, full, c)
    ensures t == (h + |c|) % BufSize
    ensures full <==> |c| == BufSize
    ensures (!full && h == t) <==> |c| == 0
  {
  }

  /** One turn of the read loop on a non-empty buffer hands out `b[h]`, the oldest byte, and
      leaves a consistent state holding the rest. */
  lemma PopStep(b: seq<bv8>, h: nat, t: nat, full: bool, c: seq<bv8>)
    requires Consistent(b, h, t, full, c) && |c| > 0
    ensures c[0] == b[h]
    ensures Consistent(b, Advance(h), t, false, c[1..])
  {
    ConsistentIndices(b, h, t, full, c);
    WindowPop(b, h, |c|);
  }

  /** One turn of the write loop on a buffer that is not full stores `x` in slot `t`, keeps the
      stored bytes, and leaves a consistent state holding them followed by `x`. */
  lemma PushStep(b: seq<bv8>, h: nat, t: nat, full: bool, c: seq<bv8>, x: bv8)
    requires Consistent(b, h, t, full, c) && |c| < BufSize
    ensures Window(b[t := x], h, |c|) == c
    ensures Consistent(b[t := x], h, Advance(t), Advance(t) == h, c + [x])
  {
    ConsistentIndices(b, h, t, full, c);
    WindowPush(b, h, |c|, x);
    WindowPrefix(b[t := x], h, |c| + 1, |c|);
  }

  /** The lesser of two counts. */
  function Min(a: nat, b: nat): nat {
    if a <= b then a else b
  }

  class Ring {
    var buf: array<bv8>
    var h: nat
    var t: nat
    var full: bool
    ghost var Contents: seq<bv8>

    /** The invariant the read and write loops keep: indices in range, `full` only when the
        indices meet, and `Contents` is what the indices and the flag delimit in `buf`. */
    ghost predicate Valid()
      reads this, buf
      ensures Valid() ==> buf.Length == BufSize && h < BufSize && t < BufSize
      ensures Valid() ==> |Contents| <= BufSize && (full ==> h == t)
    {
      Consistent(buf[..], h, t, full, Contents)
    }

    /** The static initialiser: both indices 0, not full, and so empty. */
    constructor ()
      ensures Valid() && fresh(buf)
      ensures h == 0 && t == 0 && !full
      ensures Contents == []
    {
      buf := new bv8[BufSize];
      h, t, full := 0, 0, false;
      Contents := [];
    }

    /** `empty()`: the indices meet and the buffer is not full. */
    function Empty(): (e: bool)
      reads this, buf
      requires Valid()
      ensures e <==> |Contents| == 0
    {
      !full && h == t
    }

    /** `full()`: the flag. */
    function Full(): (f: bool)
      reads this, buf
      requires Valid()
      ensures f <==> |Contents| == BufSize
      ensures !(f && Empty())
    {
      full
    }

    /** One turn of the read loop: takes the byte at `h` and moves `h` on a slot. */
    method Pop() returns (x: bv8)
      requires Valid() && |Contents| > 0
      modifies this
      ensures Valid() && buf == old(buf) && t == old(t) && !full
      ensures x == old(Contents)[0] && Contents == old(Contents)[1..] && h == Advance(old(h))
    {
      PopStep(buf[..], h, t, full, Contents);
      x := buf[h];
      h := Advance(h);
      full := false;
      Contents := Contents[1..];
    }

    /** One turn of the write loop: stores `x` at `t`, moves `t` on a slot, and sets `full`
        when `t` meets `h`. */
    method Push(x: bv8)
      requires Valid() && |Contents| < BufSize
      modifies this, buf
      ensures Valid() && buf == old(buf) && h == old(h)
      ensures Contents == old(Contents) + [x] && t == Advance(old(t))
      ensures Window(buf[..], h, |old(Contents)|) == old(Contents)
    {
      PushStep(buf[..], h, t, full, Contents, x);
      buf[t] := x;
      t := Advance(t);
      if t == h {
        full := true;
      }
      Contents := Contents + [x];
    }

    /** `ringbuf_read`: -1 for a NULL `dst`; otherwise copies the oldest `min(sz, count)` bytes
        into `dst[0..k)` in FIFO order, removes them, and returns `k`. */
    method Read(dst: array?<bv8>, sz: nat) returns (r: int)
      requires Valid()
      requires dst != null ==> dst != buf && Min(sz, |Contents|) <= dst.Length
      modifies this, dst
      ensures Valid() && buf == old(buf) && buf[..] == old(buf[..]) && t == old(t)
      ensures dst == null ==> r == -1 && h == old(h) && full == old(full) && Contents == old(Contents)
      ensures dst != null ==> r == Min(sz, |old(Contents)|)
      ensures dst != null ==> dst[..r] == old(Contents)[..r] && dst[r..] == old(dst[r..])
      ensures dst != null ==> Contents == old(Contents)[r..] && h == Steps(old(h), r)
    {
      if dst == null {
        return -1;
      }
      ghost var b0, c0, d0, h0 := buf[..], Contents, dst[..], h;
      var i := 0;
      while i < sz
        invariant Valid() && buf == old(buf) && buf[..] == b0 && t == old(t)
        invariant i <= sz && i <= |c0|
        invariant Contents == c0[i..] && h == Steps(h0, i)
        invariant dst.Length == |d0| && dst[..i] == c0[..i] && dst[i..] == d0[i..]
        decreases sz - i
      {
        var e := Empty();
        if e {
          break;
        }
        assert |Contents| > 0;
        var x := Pop();
        assert x == c0[i] && Contents == c0[i + 1..];
        ghost var d := dst[..];
        dst[i] := x;
        assert buf[..] == b0;
        assert dst[..i + 1] == d[..i] + [x];
        assert dst[i + 1..] == d[i + 1..];
        i := i + 1;
      }
      r := i;
    }

    /** `ringbuf_write`: -1 for a NULL `src`; otherwise appends `src[0..k)` for
        `k = min(sz, 256 - count)`, writing only slots that held no stored byte, and returns `k`. */
    method Write(src: array?<bv8>, sz: nat) returns (r: int)
      requires Valid()
      requires src != null ==> src != buf && Min(sz, BufSize - |Contents|) <= src.Length
      modifies this, buf
      ensures Valid() && buf == old(buf) && h == old(h)
      ensures src == null ==> r == -1 && t == old(t) && full == old(full) && Contents == old(Contents)
      ensures src == null ==> buf[..] == old(buf[..])
      ensures src != null ==> r == Min(sz, BufSize - |old(Contents)|)
      ensures src != null ==> Contents == old(Contents) + src[..r] && t == Steps(old(t), r)
      ensures Window(buf[..], h, |old(Contents)|) == old(Contents)
    {
      if src == null {
        return -1;
      }
      ghost var c0, t0 := Contents, t;
      var i := 0;
      while i < sz
        invariant Valid() && buf == old(buf) && h == old(h)
        invariant i <= sz && |c0| + i <= BufSize
        invariant Contents == c0 + src[..i] && t == Steps(t0, i)
        decreases sz - i
      {
        var f := Full();
        if f {
          break;
        }
        Push(src[i]);
        assert src[..i + 1] == src[..i] + [src[i]];
        i := i + 1;
      }
      r := i;
      WindowPrefix(buf[..], h, |Contents|, |c0|);
    }
  }

  /** Bytes come out in the order they went in: writing `k` bytes that fit and then reading
      the whole buffer hands back the earlier contents followed by exactly those bytes, whatever slot
      the head is at, so also across the wrap from slot 255 to slot 0. */
  method WriteThenRead(rb: Ring, src: array<bv8>, k: nat, dst: array<bv8>)
    requires rb.Valid() && src != rb.buf && dst != rb.buf && src != dst
    requires |rb.Contents| + k <= BufSize && k <= src.Length
    requires dst.Length == BufSize
    modifies rb, rb.buf, dst
    ensures rb.Valid() && rb.Contents == []
    ensures dst[..|old(rb.Contents)| + k] == old(rb.Contents) + src[..k]
  {
    ghost var before := rb.Contents;
    var written := rb.Write(src, k);
    assert written == k;
    var read := rb.Read(dst, BufSize);
    assert read == |before| + k;
  }
}
