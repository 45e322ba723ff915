/**
  * The first-fit arena allocator of src/memory_allocator/memory_allocator.c.
  *
  * The arena holds an intrusive singly linked list of `block` headers. The model keeps that
  * list as a sequence of header records in list order, so the `next` link of a header is the
  * record after it. A header record is its arena offset and its `size` and `free` fields. A
  * payload pointer is the arena offset just past its header, and NULL is `None`.
  *
  * The model follows the code and not the invariants one might expect: a split leaves the
  * chosen block's `size` as it was, so sizes stop matching the space between headers (see
  * `StaleSizeScenario`).
  */
module Allocator {

  datatype Option<T> = None | Some(value: T)

  /** `MEM_SZ`: the arena capacity, 1 GiB. */
  const MemSize: nat := 0x4000_0000

  /** `sizeof(block)` on an LP64 target: an 8-byte `size_t`, an `int` padded to 8 bytes, and an
      8-byte pointer. */
  const HeaderSize: nat := 24

  /** One `block` header: where it sits in the arena, its `size` field and its `free` field. */
  datatype Block = Block(offset: nat, size: nat, free: bool)

  /** The list `mem_init` lays down: one free header at offset 0 spanning the arena. */
  function InitBlocks(): (bs: seq<Block>)
    ensures |bs| == 1 && bs[0].offset == 0 && bs[0].free
    ensures HeaderSize + bs[0].size == MemSize
  {
    [Block(0, MemSize - HeaderSize, true)]
  }

  /** The test `mem_alloc` applies to each header: free and large enough. */
  predicate Fits(b: Block, n: nat) {
    b.free && b.size >= n
  }

  /** The test for splitting: room for the request and one more header (not strict). */
  predicate Splits(b: Block, n: nat) {
    b.size >= n + HeaderSize
  }

  /** Header `i` is the first in list order that fits a request of `n` bytes. */
  ghost predicate IsFirstFit(bs: seq<Block>, n: nat, i: nat) {
    i < |bs| && Fits(bs[i], n) && forall j :: 0 <= j < i ==> !Fits(bs[j], n)
  }

  /** The index of the header the search of `mem_alloc` stops at, if any. */
  function FirstFit(bs: seq<Block>, n: nat): (r: Option<nat>)
    ensures r.Some? ==> IsFirstFit(bs, n, r.value)
    ensures r.None? <==> forall j :: 0 <= j < |bs| ==> !Fits(bs[j], n)
  {
    if |bs| == 0 then None
    else if Fits(bs[0], n) then Some(0)
    else match FirstFit(bs[1..], n)
      case None => None
      case Some(i) => Some(i + 1)
  }

  /** The header a split writes after a block chosen for `n` bytes: at `curr + H + n`, free,
      with the bytes left over after the request and its own header. */
  function SplitHeader(b: Block, n: nat): (s: Block)
    requires Splits(b, n)
    ensures s.offset == b.offset + HeaderSize + n && s.free
    ensures s.offset + HeaderSize + s.size == b.offset + HeaderSize + b.size
  {
    Block(b.offset + HeaderSize + n, b.size - n - HeaderSize, true)
  }

  /** The list after `mem_alloc` has chosen header `i` for `n` bytes: header `i` is marked used
      with its `size` unchanged, and on a split the new header is linked in right after it. */
  function Carve(bs: seq<Block>, i: nat, n: nat): (r: seq<Block>)
    requires i < |bs|
    ensures |r| == |bs| + (if Splits(bs[i], n) then 1 else 0)
    ensures r[..i] == bs[..i]
    ensures r[i] == Block(bs[i].offset, bs[i].size, false)
    ensures Splits(bs[i], n) ==> r[i + 1] == SplitHeader(bs[i], n) && r[i + 2..] == bs[i + 1..]
    ensures !Splits(bs[i], n) ==> r[i + 1..] == bs[i + 1..]
  {
    var b := bs[i];
    if Splits(b, n) then bs[..i] + [b.(free := false), SplitHeader(b, n)] + bs[i + 1..]
    else bs[..i] + [b.(free := false)] + bs[i + 1..]
  }

  /** What a call of `mem_alloc` leaves: the new list and the returned pointer. */
  datatype AllocResult = AllocResult(blocks: seq<Block>, ptr: Option<nat>)

  /** `mem_alloc(n)` on plain values. NULL comes back exactly when no header fits, and then
      nothing changes; otherwise the pointer is the payload of a used header of size `>= n`. */
  function AllocSpec(bs: seq<Block>, n: nat): (r: AllocResult)
    ensures r.ptr.None? <==> forall j :: 0 <= j < |bs| ==> !Fits(bs[j], n)
    ensures r.ptr.None? ==> r.blocks == bs
    ensures r.ptr.Some? ==>
              (r.ptr.value >= HeaderSize &&
               exists k :: 0 <= k < |r.blocks| && r.blocks[k].offset == r.ptr.value - HeaderSize &&
                           !r.blocks[k].free && r.blocks[k].size >= n)
  {
    match FirstFit(bs, n)
    case None => AllocResult(bs, None)
    case Some(i) =>
      var r := Carve(bs, i, n);
      assert r[i] == bs[i].(free := false);
      AllocResult(r, Some(bs[i].offset + HeaderSize))
  }

  /** The chosen header and, on a split, the new header after it are the only headers
      `mem_alloc` touches; the chosen header keeps its offset and its size. */
  lemma AllocTouchesOnlyChosen(bs: seq<Block>, n: nat, i: nat)
    requires IsFirstFit(bs, n, i)
    ensures AllocSpec(bs, n).ptr == Some(bs[i].offset + HeaderSize)
    ensures var r := AllocSpec(bs, n).blocks;
            var extra := if Splits(bs[i], n) then 1 else 0;
            |r| == |bs| + extra &&
            r[..i] == bs[..i] &&
            r[i] == Block(bs[i].offset, bs[i].size, false) &&
            (Splits(bs[i], n) ==> r[i + 1] == SplitHeader(bs[i], n)) &&
            r[i + 1 + extra..] == bs[i + 1..]
  {
    FirstFitUnique(bs, n, i);
  }

  /** There is only one first fit. */
  lemma FirstFitUnique(bs: seq<Block>, n: nat, i: nat)
    requires IsFirstFit(bs, n, i)
    ensures FirstFit(bs, n) == Some(i)
  {
  }

  /** `free = 1` written through the header at offset `a`. Every record at that offset is marked:
      in the arena they would be one and the same header. */
  function MarkFree(bs: seq<Block>, a: nat): (r: seq<Block>)
    ensures |r| == |bs|
    ensures forall k :: 0 <= k < |bs| ==>
              r[k].offset == bs[k].offset && r[k].size == bs[k].size &&
              r[k].free == (bs[k].free || bs[k].offset == a)
  {
    seq(|bs|, k requires 0 <= k < |bs| => if bs[k].offset == a then bs[k].(free := true) else bs[k])
  }

  /** One merge of the coalescing pass: `curr->size += next->size + sizeof(block)`. */
  function Merge(curr: Block, next: Block): (m: Block)
    ensures m.offset == curr.offset && m.free == curr.free
    ensures HeaderSize + m.size == (HeaderSize + curr.size) + (HeaderSize + next.size)
  {
    curr.(size := curr.size + next.size + HeaderSize)
  }

  /** The coalescing pass of `mem_free`, from the head of the list: when a header and the next
      are both free, the next is absorbed and the pass stays put; otherwise it moves on. */
  function Coalesce(bs: seq<Block>): (r: seq<Block>)
    ensures |r| <= |bs|
    ensures |bs| > 0 ==> |r| > 0 && r[0].offset == bs[0].offset && r[0].free == bs[0].free
    decreases |bs|
  {
    if |bs| < 2 then bs
    else if bs[0].free && bs[1].free then Coalesce([Merge(bs[0], bs[1])] + bs[2..])
    else [bs[0]] + Coalesce(bs[1..])
  }

  /** `mem_free(ptr)` on plain values: nothing for NULL, otherwise mark the header at
      `ptr - sizeof(block)` free and run the coalescing pass. */
  function FreeSpec(bs: seq<Block>, ptr: Option<nat>): (r: seq<Block>)
    requires ptr.Some? ==> ptr.value >= HeaderSize
    ensures ptr.None? ==> r == bs
    ensures ptr.Some? ==> NoAdjacentFree(r)
    ensures ptr.Some? ==> UsedBlocks(r) == UsedBlocks(MarkFree(bs, ptr.value - HeaderSize))
  {
    match ptr
    case None => bs
    case Some(p) =>
      var marked := MarkFree(bs, p - HeaderSize);
      CoalesceNoAdjacentFree(marked);
      CoalesceKeepsUsed(marked);
      Coalesce(marked)
  }

  /** No two neighbours in the list are both free. */
  predicate NoAdjacentFree(bs: seq<Block>) {
    forall k :: 0 <= k < |bs| - 1 ==> !(bs[k].free && bs[k + 1].free)
  }

  /** After the pass no two neighbours are both free. */
  lemma {:induction false} CoalesceNoAdjacentFree(bs: seq<Block>)
    ensures NoAdjacentFree(Coalesce(bs))
    decreases |bs|
  {
    if |bs| >= 2 {
      if bs[0].free && bs[1].free {
        CoalesceNoAdjacentFree([Merge(bs[0], bs[1])] + bs[2..]);
      } else {
        var rest := Coalesce(bs[1..]);
        CoalesceNoAdjacentFree(bs[1..]);
        assert Coalesce(bs) == [bs[0]] + rest;
      }
    }
  }

  /** A list with no two free neighbours is left as it is: the pass is idempotent. */
  lemma {:induction false} CoalesceFixpoint(bs: seq<Block>)
    requires NoAdjacentFree(bs)
    ensures Coalesce(bs) == bs
    decreases |bs|
  {
    if |bs| >= 2 {
      assert !(bs[0].free && bs[1].free);
      CoalesceFixpoint(bs[1..]);
      assert [bs[0]] + bs[1..] == bs;
    }
  }

  /** The headers of used blocks, in list order. */
  function UsedBlocks(bs: seq<Block>): seq<Block>
    decreases |bs|
  {
    if bs == [] then [] else (if bs[0].free then [] else [bs[0]]) + UsedBlocks(bs[1..])
  }

  /** The pass never touches a used block: the used headers are the same, in the same order. */
  lemma {:induction false} CoalesceKeepsUsed(bs: seq<Block>)
    ensures UsedBlocks(Coalesce(bs)) == UsedBlocks(bs)
    decreases |bs|
  {
    if |bs| >= 2 {
      if bs[0].free && bs[1].free {
        var m := [Merge(bs[0], bs[1])] + bs[2..];
        CoalesceKeepsUsed(m);
        assert m[1..] == bs[2..] && bs[1..][1..] == bs[2..];
      } else {
        CoalesceKeepsUsed(bs[1..]);
        assert ([bs[0]] + Coalesce(bs[1..]))[1..] == Coalesce(bs[1..]);
      }
    }
  }

  /** The space the list accounts for: each header plus the `size` it records. */
  function Footprint(bs: seq<Block>): nat
    decreases |bs|
  {
    if bs == [] then 0 else HeaderSize + bs[0].size + Footprint(bs[1..])
  }

  /** Each merge moves a header and its size into the block before it, so the pass keeps the
      space the list accounts for. */
  lemma {:induction false} CoalesceKeepsFootprint(bs: seq<Block>)
    ensures Footprint(Coalesce(bs)) == Footprint(bs)
    decreases |bs|
  {
    if |bs| >= 2 {
      if bs[0].free && bs[1].free {
        var m := [Merge(bs[0], bs[1])] + bs[2..];
        CoalesceKeepsFootprint(m);
        assert m[1..] == bs[2..] && bs[1..][1..] == bs[2..];
      } else {
        CoalesceKeepsFootprint(bs[1..]);
        assert ([bs[0]] + Coalesce(bs[1..]))[1..] == Coalesce(bs[1..]);
      }
    }
  }

  /** The offsets of the headers, in list order. */
  function Offsets(bs: seq<Block>): (r: seq<nat>)
    ensures |r| == |bs|
    decreases |bs|
  {
    if bs == [] then [] else [bs[0].offset] + Offsets(bs[1..])
  }

  /** `a` is `b` with some elements left out. */
  predicate SubsequenceOf(a: seq<nat>, b: seq<nat>)
    decreases |b|
  {
    if a == [] then true
    else if b == [] then false
    else (a[0] == b[0] && SubsequenceOf(a[1..], b[1..])) || SubsequenceOf(a, b[1..])
  }

  lemma {:induction false} SubsequenceRefl(a: seq<nat>)
    ensures SubsequenceOf(a, a)
    decreases |a|
  {
    if a != [] {
      SubsequenceRefl(a[1..]);
    }
  }

  /** Putting one more element in front of `b` keeps `a` a subsequence of it. */
  lemma SubsequenceCons(a: seq<nat>, e: nat, b: seq<nat>)
    requires SubsequenceOf(a, b)
    ensures SubsequenceOf(a, [e] + b)
  {
    assert ([e] + b)[1..] == b;
  }

  /** Putting one more element after the head of `b` keeps `a` a subsequence of it. */
  lemma SubsequenceInsertSecond(a: seq<nat>, x: nat, e: nat, b: seq<nat>)
    requires SubsequenceOf(a, [x] + b)
    ensures SubsequenceOf(a, [x, e] + b)
  {
    var xb, xeb := [x] + b, [x, e] + b;
    assert xb[1..] == b && xeb[1..] == [e] + b;
    if a != [] {
      if a[0] == x && SubsequenceOf(a[1..], b) {
        SubsequenceCons(a[1..], e, b);
      } else {
        SubsequenceCons(a, e, b);
      }
    }
  }

  /** The pass keeps the order of the headers it does not unlink: the offsets after it are a
      subsequence of the offsets before it. */
  lemma {:induction false} CoalesceKeepsOrder(bs: seq<Block>)
    ensures SubsequenceOf(Offsets(Coalesce(bs)), Offsets(bs))
    decreases |bs|
  {
    if |bs| < 2 {
      SubsequenceRefl(Offsets(bs));
    } else if bs[0].free && bs[1].free {
      var m := [Merge(bs[0], bs[1])] + bs[2..];
      CoalesceKeepsOrder(m);
      assert m[1..] == bs[2..] && bs[1..][1..] == bs[2..];
      assert Offsets(m) == [bs[0].offset] + Offsets(bs[2..]);
      assert Offsets(bs) == [bs[0].offset, bs[1].offset] + Offsets(bs[2..]);
      SubsequenceInsertSecond(Offsets(Coalesce(m)), bs[0].offset, bs[1].offset, Offsets(bs[2..]));
    } else {
      CoalesceKeepsOrder(bs[1..]);
      var c := [bs[0]] + Coalesce(bs[1..]);
      assert c[1..] == Coalesce(bs[1..]);
      assert Offsets(c) == [bs[0].offset] + Offsets(Coalesce(bs[1..]));
    }
  }

  /** Every header at offset `a` is free. */
  predicate AllFreeAt(bs: seq<Block>, a: nat) {
    forall k :: 0 <= k < |bs| && bs[k].offset == a ==> bs[k].free
  }

  /** The pass keeps free every header it leaves at an offset whose headers were all free. */
  lemma {:induction false} CoalesceKeepsFreeAt(bs: seq<Block>, a: nat)
    requires AllFreeAt(bs, a)
    ensures AllFreeAt(Coalesce(bs), a)
    decreases |bs|
  {
    if |bs| >= 2 {
      if bs[0].free && bs[1].free {
        var m := [Merge(bs[0], bs[1])] + bs[2..];
        assert forall k :: 1 <= k < |m| ==> m[k] == bs[k + 1];
        CoalesceKeepsFreeAt(m, a);
      } else {
        assert forall k :: 0 <= k < |bs| - 1 ==> bs[1..][k] == bs[k + 1];
        CoalesceKeepsFreeAt(bs[1..], a);
        var c := [bs[0]] + Coalesce(bs[1..]);
        assert forall k :: 1 <= k < |c| ==> c[k] == Coalesce(bs[1..])[k - 1];
      }
    }
  }

  /** Marking headers that are all free already changes nothing. */
  lemma MarkFreeNoop(bs: seq<Block>, a: nat)
    requires AllFreeAt(bs, a)
    ensures MarkFree(bs, a) == bs
  {
    var r := MarkFree(bs, a);
    forall k | 0 <= k < |bs|
      ensures r[k] == bs[k]
    {
    }
  }

  /** `mem_free(NULL)` changes nothing, so a following `mem_alloc` behaves as it would alone. */
  lemma FreeNullNoop(bs: seq<Block>, n: nat)
    ensures FreeSpec(bs, None) == bs
    ensures AllocSpec(FreeSpec(bs, None), n) == AllocSpec(bs, n)
  {
  }

  /** A pointer from `mem_alloc` leads `mem_free` back to the header it came from: marking
      through it makes the chosen header free again, with the offset and size it had. */
  lemma AllocThenMarkTargetsHeader(bs: seq<Block>, n: nat, i: nat)
    requires IsFirstFit(bs, n, i)
    ensures var r := AllocSpec(bs, n);
            r.ptr.Some? && i < |r.blocks| &&
            r.blocks[i].offset == r.ptr.value - HeaderSize &&
            MarkFree(r.blocks, r.ptr.value - HeaderSize)[i] == bs[i]
  {
    AllocTouchesOnlyChosen(bs, n, i);
  }

  /** Freeing the same pointer twice gives the list of freeing it once: the second marking
      finds its headers free, and the list then has no free neighbours left to merge. */
  lemma DoubleFreeIdempotent(bs: seq<Block>, p: nat)
    requires p >= HeaderSize
    ensures FreeSpec(FreeSpec(bs, Some(p)), Some(p)) == FreeSpec(bs, Some(p))
  {
    var a := p - HeaderSize;
    var once := FreeSpec(bs, Some(p));
    CoalesceKeepsFreeAt(MarkFree(bs, a), a);
    MarkFreeNoop(once, a);
    CoalesceNoAdjacentFree(MarkFree(bs, a));
    CoalesceFixpoint(once);
  }

  /** A first fit determines what `mem_alloc` returns and leaves. */
  lemma AllocAt(bs: seq<Block>, n: nat, i: nat, after: seq<Block>)
    requires IsFirstFit(bs, n, i) && Carve(bs, i, n) == after
    ensures AllocSpec(bs, n) == AllocResult(after, Some(bs[i].offset + HeaderSize))
  {
    FirstFitUnique(bs, n, i);
  }

  /** The headers of the stale-size scenario below. */
  function ScenarioHeaders(): (hs: seq<Block>)
    ensures |hs| == 5
  {
    [Block(0, MemSize - HeaderSize, false),
     Block(HeaderSize + 100, MemSize - 2 * HeaderSize - 100, true),
     Block(2 * HeaderSize + 200, MemSize - 3 * HeaderSize - 200, true),
     Block(HeaderSize + 200, MemSize - 2 * HeaderSize - 200, true),
     Block(0, MemSize - HeaderSize, true)]
  }

  /** `p = mem_alloc(100)` right after `mem_init`: `p` is `H`, and the rest of the arena is a
      free header at `H + 100`. */
  lemma ScenarioFirstAlloc()
    ensures var hs := ScenarioHeaders();
            AllocSpec(InitBlocks(), 100) == AllocResult([hs[0], hs[1]], Some(HeaderSize))
  {
    var hs := ScenarioHeaders();
    assert Carve(InitBlocks(), 0, 100) == [hs[0], hs[1]];
    AllocAt(InitBlocks(), 100, 0, [hs[0], hs[1]]);
  }

  /** `q = mem_alloc(100)`: the header at `H + 100` is split in turn, so `q` is `2H + 100`. */
  lemma ScenarioSecondAlloc()
    ensures var hs := ScenarioHeaders();
            AllocSpec([hs[0], hs[1]], 100) ==
            AllocResult([hs[0], hs[1].(free := false), hs[2]], Some(2 * HeaderSize + 100))
  {
    var hs := ScenarioHeaders();
    var bs := [hs[0], hs[1]];
    assert Carve(bs, 1, 100) == [hs[0], hs[1].(free := false), hs[2]];
    AllocAt(bs, 100, 1, [hs[0], hs[1].(free := false), hs[2]]);
  }

  /** `mem_free(p)`: the first header is free again, with the size it was given by `mem_init`;
      its neighbour is used, so nothing merges. */
  lemma ScenarioFree()
    ensures var hs := ScenarioHeaders();
            FreeSpec([hs[0], hs[1].(free := false), hs[2]], Some(HeaderSize)) ==
            [hs[4], hs[1].(free := false), hs[2]]
  {
    var hs := ScenarioHeaders();
    var m := MarkFree([hs[0], hs[1].(free := false), hs[2]], 0);
    assert m == [hs[4], hs[1].(free := false), hs[2]];
    assert NoAdjacentFree(m);
    CoalesceFixpoint(m);
  }

  /** `mem_alloc(200)`: the first header still claims nearly the whole arena, so it is split
      again, with the new header at `H + 200`. */
  lemma ScenarioThirdAlloc()
    ensures var hs := ScenarioHeaders();
            AllocSpec([hs[4], hs[1].(free := false), hs[2]], 200) ==
            AllocResult([hs[0], hs[3], hs[1].(free := false), hs[2]], Some(HeaderSize))
  {
    var hs := ScenarioHeaders();
    var bs := [hs[4], hs[1].(free := false), hs[2]];
    assert Carve(bs, 0, 200) == [hs[0], hs[3], hs[1].(free := false), hs[2]];
    AllocAt(bs, 200, 0, [hs[0], hs[3], hs[1].(free := false), hs[2]]);
  }

  /** The stale size a split leaves behind. After `mem_init`, `p = mem_alloc(100)`,
      `q = mem_alloc(100)`, `mem_free(p)` and `mem_alloc(200)`, the last call writes a free
      header at `H + 200`: inside the 100 payload bytes of `q`, and ahead of `q`'s header in
      list order although it lies at a higher offset. The list then accounts for more space
      than the arena has. */
  lemma StaleSizeScenario()
    ensures var r1 := AllocSpec(InitBlocks(), 100);
            var r2 := AllocSpec(r1.blocks, 100);
            var f := FreeSpec(r2.blocks, r1.ptr);
            var r3 := AllocSpec(f, 200);
            r1.ptr == Some(HeaderSize) &&
            r2.ptr == Some(2 * HeaderSize + 100) &&
            r3.ptr == Some(HeaderSize) &&
            |r3.blocks| == 4 &&
            r3.blocks[1].free && !r3.blocks[2].free &&
            r3.blocks[2].offset == r2.ptr.value - HeaderSize &&
            r2.ptr.value <= r3.blocks[1].offset < r2.ptr.value + 100 &&
            r3.blocks[1].offset > r3.blocks[2].offset &&
            Footprint(r3.blocks) > MemSize
  {
    var hs := ScenarioHeaders();
    ScenarioFirstAlloc();
    ScenarioSecondAlloc();
    ScenarioFree();
    ScenarioThirdAlloc();
    var last := [hs[0], hs[3], hs[1].(free := false), hs[2]];
    assert Footprint(last) == HeaderSize + hs[0].size + Footprint(last[1..]);
  }

  /** `mem_alloc(100)` in place of the last call above: the first header is split at `H + 100`,
      the very offset of `q`'s header, and the new record there is free. */
  lemma ScenarioThirdAllocSameSize()
    ensures var hs := ScenarioHeaders();
            AllocSpec([hs[4], hs[1].(free := false), hs[2]], 100) ==
            AllocResult([hs[0], hs[1], hs[1].(free := false), hs[2]], Some(HeaderSize))
  {
    var hs := ScenarioHeaders();
    var bs := [hs[4], hs[1].(free := false), hs[2]];
    assert Carve(bs, 0, 100) == [hs[0], hs[1], hs[1].(free := false), hs[2]];
    AllocAt(bs, 100, 0, [hs[0], hs[1], hs[1].(free := false), hs[2]]);
  }

  /** A split header written onto a live header. After `mem_init`, `p = mem_alloc(100)`,
      `q = mem_alloc(100)`, `mem_free(p)` and `mem_alloc(100)`, the last split puts its header
      at `q - H`, where `q`'s header is. The list then holds two records at that offset, one
      free and one used. In the arena they are one header: `q`'s block is marked free while `q`
      is live, and the split's `next` is that header itself, so the list becomes a cycle. */
  lemma SharedHeaderScenario()
    ensures var r1 := AllocSpec(InitBlocks(), 100);
            var r2 := AllocSpec(r1.blocks, 100);
            var f := FreeSpec(r2.blocks, r1.ptr);
            var r3 := AllocSpec(f, 100);
            r2.ptr == Some(2 * HeaderSize + 100) &&
            r3.ptr == Some(HeaderSize) &&
            |r3.blocks| == 4 &&
            r3.blocks[1].offset == r2.ptr.value - HeaderSize &&
            r3.blocks[2].offset == r2.ptr.value - HeaderSize &&
            r3.blocks[1].free && !r3.blocks[2].free
  {
    ScenarioFirstAlloc();
    ScenarioSecondAlloc();
    ScenarioFree();
    ScenarioThirdAllocSameSize();
  }

  /** A point of the coalescing loop of `mem_free`: the headers before `i` are final, and the
      pass from `i` on yields `target`. */
  ghost predicate PassAt(bs: seq<Block>, i: nat, target: seq<Block>) {
    i <= |bs| && bs[..i] + Coalesce(bs[i..]) == target
  }

  /** Merging the free header at `i` with its free successor keeps the loop on course. */
  lemma PassMerge(bs: seq<Block>, i: nat, target: seq<Block>)
    requires PassAt(bs, i, target) && i + 1 < |bs| && bs[i].free && bs[i + 1].free
    ensures PassAt(bs[..i] + [Merge(bs[i], bs[i + 1])] + bs[i + 2..], i, target)
  {
    var next := bs[..i] + [Merge(bs[i], bs[i + 1])] + bs[i + 2..];
    assert bs[i..][2..] == bs[i + 2..];
    assert next[..i] == bs[..i] && next[i..] == [Merge(bs[i], bs[i + 1])] + bs[i + 2..];
  }

  /** Moving past a header that is used, or whose successor is used, keeps the loop on course. */
  lemma PassSkip(bs: seq<Block>, i: nat, target: seq<Block>)
    requires PassAt(bs, i, target) && i + 1 < |bs| && !(bs[i].free && bs[i + 1].free)
    ensures PassAt(bs, i + 1, target)
  {
    assert bs[i..][1..] == bs[i + 1..];
    assert bs[..i + 1] == bs[..i] + [bs[i]];
  }

  /** When fewer than two headers remain the loop has produced the pass's result. */
  lemma PassEnd(bs: seq<Block>, i: nat, target: seq<Block>)
    requires PassAt(bs, i, target) && i + 1 >= |bs|
    ensures bs == target
  {
    assert bs == bs[..i] + bs[i..];
  }

  /** The two writes of `mem_alloc` on a split, linking the new header in after the chosen one
      and then clearing the chosen one's `free`, build the carved list. */
  lemma CarveInPlace(bs: seq<Block>, i: nat, n: nat)
    requires i < |bs|
    ensures Splits(bs[i], n) ==>
              (bs[..i + 1] + [SplitHeader(bs[i], n)] + bs[i + 1..])[i := bs[i].(free := false)] == Carve(bs, i, n)
    ensures !Splits(bs[i], n) ==> bs[i := bs[i].(free := false)] == Carve(bs, i, n)
  {
  }

  /** The allocator state: the header list in list order, empty until `mem_init` (the static
      `block_list` starts out NULL). */
  class Heap {
    var blocks: seq<Block>

    constructor ()
      ensures blocks == []
    {
      blocks := [];
    }

    /** `mem_init`: one free header at offset 0 for the whole arena; the old list is dropped. */
    method Init()
      modifies this
      ensures blocks == InitBlocks()
    {
      blocks := [Block(0, MemSize - HeaderSize, true)];
    }

    /** `mem_alloc(size)`: walk the list from the head to the first header that is free and
        large enough; split it when there is room for another header, mark it used and return
        its payload. NULL when the walk reaches the end. */
    method Alloc(size: nat) returns (p: Option<nat>)
      modifies this
      ensures AllocResult(blocks, p) == AllocSpec(old(blocks), size)
      ensures p.None? <==> forall j :: 0 <= j < |old(blocks)| ==> !Fits(old(blocks)[j], size)
      ensures p.None? ==> blocks == old(blocks)
      ensures p.Some? ==>
                exists i: nat :: (IsFirstFit(old(blocks), size, i) &&
                             p.value == old(blocks)[i].offset + HeaderSize &&
                             blocks == Carve(old(blocks), i, size))
    {
      var list := blocks;
      var i := 0;
      while i < |list|
        invariant i <= |list|
        invariant forall j :: 0 <= j < i ==> !Fits(list[j], size)
      {
        var curr := list[i];
        if curr.free && curr.size >= size {
          assert IsFirstFit(list, size, i);
          FirstFitUnique(list, size, i);
          CarveInPlace(list, i, size);
          if curr.size >= size + HeaderSize {
            var split := Block(curr.offset + HeaderSize + size, curr.size - size - HeaderSize, true);
            list := list[..i + 1] + [split] + list[i + 1..];
          }
          list := list[i := curr.(free := false)];
          assert list == Carve(blocks, i, size);
          assert AllocSpec(blocks, size) == AllocResult(list, Some(curr.offset + HeaderSize));
          blocks := list;
          return Some(curr.offset + HeaderSize);
        }
        i := i + 1;
      }
      assert AllocSpec(blocks, size) == AllocResult(blocks, None);
      return None;
    }

    /** `mem_free(ptr)`: nothing for NULL; otherwise set `free` in the header at
        `ptr - sizeof(block)`, then make one pass from the head merging each free header with
        a free successor. The pointer must lead to a header of the list: the source does not
        check it, and anything else is undefined. */
    method Free(ptr: Option<nat>)
      requires ptr.Some? ==>
                 (ptr.value >= HeaderSize &&
                  exists k :: 0 <= k < |blocks| && blocks[k].offset == ptr.value - HeaderSize)
      modifies this
      ensures blocks == FreeSpec(old(blocks), ptr)
      ensures ptr.None? ==> blocks == old(blocks)
      ensures ptr.Some? ==> NoAdjacentFree(blocks)
      ensures ptr.Some? ==> UsedBlocks(blocks) == UsedBlocks(MarkFree(old(blocks), ptr.value - HeaderSize))
    {
      if ptr.None? {
        return;
      }
      var hdr := ptr.value - HeaderSize;
      ghost var target := FreeSpec(blocks, ptr);
      blocks := MarkFree(blocks, hdr);
      var list := blocks;
      assert target == Coalesce(list);
      var i := 0;
      while i + 1 < |list|
        invariant PassAt(list, i, target)
        decreases |list| - i
      {
        if list[i].free && list[i + 1].free {
          PassMerge(list, i, target);
          list := list[..i] + [Merge(list[i], list[i + 1])] + list[i + 2..];
        } else {
          PassSkip(list, i, target);
          i := i + 1;
        }
      }
      PassEnd(list, i, target);
      blocks := list;
    }
  }
}
