/**
  * The allocator of src/memory_allocator/memory_allocator.c with its split as evidently meant:
  * a split shrinks the chosen block to the requested size, as its new neighbour takes the rest.
  *
  * With that change the headers tile the arena: each block's header and payload end where the
  * next header begins, and the last block ends at the end of the arena. `mem_init`, the
  * corrected `mem_alloc` and `mem_free` keep that invariant, so no header is ever written into
  * another block's payload. The split as written breaks it on the first call.
  */
module AllocatorFixed {
  import opened Allocator

  /** The blocks `bs`, in list order, cover `[lo, hi)` exactly, each header followed by the
      `size` bytes it records. */
  ghost predicate Tiles(bs: seq<Block>, lo: nat, hi: nat)
    decreases |bs|
  {
    if bs == [] then lo == hi
    else bs[0].offset == lo && Tiles(bs[1..], lo + HeaderSize + bs[0].size, hi)
  }

  /** The blocks cover the whole arena. */
  ghost predicate Tiled(bs: seq<Block>) {
    Tiles(bs, 0, MemSize)
  }

  /** A tiling of `a + b` is a tiling of `a` followed by one of `b`, meeting where the space `a`
      accounts for ends. */
  lemma {:induction false} TilesAppend(a: seq<Block>, b: seq<Block>, lo: nat, hi: nat)
    ensures Tiles(a + b, lo, hi) <==> Tiles(a, lo, lo + Footprint(a)) && Tiles(b, lo + Footprint(a), hi)
    decreases |a|
  {
    if a == [] {
      assert a + b == b;
    } else {
      assert (a + b)[1..] == a[1..] + b;
      TilesAppend(a[1..], b, lo + HeaderSize + a[0].size, hi);
    }
  }

  /** A tiling covers exactly the space the list accounts for. */
  lemma {:induction false} TilesFootprint(bs: seq<Block>, lo: nat, hi: nat)
    requires Tiles(bs, lo, hi)
    ensures hi == lo + Footprint(bs)
    decreases |bs|
  {
    if bs != [] {
      TilesFootprint(bs[1..], lo + HeaderSize + bs[0].size, hi);
    }
  }

  /** In a tiling every block ends at or before the header of any later block: no header lies
      inside an earlier block's payload, and offsets rise along the list. */
  lemma {:induction false} TilesDisjoint(bs: seq<Block>, lo: nat, hi: nat)
    requires Tiles(bs, lo, hi)
    ensures forall j, k :: 0 <= j < k < |bs| ==> bs[j].offset + HeaderSize + bs[j].size <= bs[k].offset
    ensures forall k :: 0 <= k < |bs| ==> lo <= bs[k].offset && bs[k].offset + HeaderSize + bs[k].size <= hi
    decreases |bs|
  {
    if bs != [] {
      var rest := bs[1..];
      TilesDisjoint(rest, lo + HeaderSize + bs[0].size, hi);
      assert forall k :: 1 <= k < |bs| ==> bs[k] == rest[k - 1];
    }
  }

  /** Only offsets and sizes matter to a tiling, not the `free` flags. */
  lemma {:induction false} TilesShape(a: seq<Block>, b: seq<Block>, lo: nat, hi: nat)
    requires |a| == |b|
    requires forall k :: 0 <= k < |a| ==> a[k].offset == b[k].offset && a[k].size == b[k].size
    requires Tiles(a, lo, hi)
    ensures Tiles(b, lo, hi)
    decreases |a|
  {
    if a != [] {
      TilesShape(a[1..], b[1..], lo + HeaderSize + a[0].size, hi);
    }
  }

  /** The coalescing pass keeps a tiling: each merge hands the absorbed header and its payload
      to the block in front of it. */
  lemma {:induction false} CoalesceKeepsTiles(bs: seq<Block>, lo: nat, hi: nat)
    requires Tiles(bs, lo, hi)
    ensures Tiles(Coalesce(bs), lo, hi)
    decreases |bs|
  {
    if |bs| >= 2 {
      if bs[0].free && bs[1].free {
        var m := [Merge(bs[0], bs[1])] + bs[2..];
        assert m[1..] == bs[2..] && bs[1..][1..] == bs[2..];
        CoalesceKeepsTiles(m, lo, hi);
      } else {
        CoalesceKeepsTiles(bs[1..], lo + HeaderSize + bs[0].size, hi);
        assert ([bs[0]] + Coalesce(bs[1..]))[1..] == Coalesce(bs[1..]);
      }
    }
  }

  /** `mem_free` keeps the arena tiled. */
  lemma FreeKeepsTiled(bs: seq<Block>, ptr: Option<nat>)
    requires ptr.Some? ==> ptr.value >= HeaderSize
    requires Tiled(bs)
    ensures Tiled(FreeSpec(bs, ptr))
  {
    if ptr.Some? {
      var m := MarkFree(bs, ptr.value - HeaderSize);
      TilesShape(bs, m, 0, MemSize);
      CoalesceKeepsTiles(m, 0, MemSize);
    }
  }

  /** `mem_init` tiles the arena with one block. */
  lemma InitTiled()
    ensures Tiled(InitBlocks())
  {
    var bs := InitBlocks();
    assert Tiles(bs[1..], MemSize, MemSize);
  }

  /** The split as meant: the chosen block shrinks to `n` bytes and the new header takes the
      rest; without a split the block keeps its size. */
  function CarveExact(bs: seq<Block>, i: nat, n: nat): (r: seq<Block>)
    requires i < |bs|
    ensures |r| == |bs| + (if Splits(bs[i], n) then 1 else 0)
    ensures r[..i] == bs[..i]
    ensures r[i] == Block(bs[i].offset, if Splits(bs[i], n) then n else bs[i].size, false)
    ensures Splits(bs[i], n) ==> r[i + 1] == SplitHeader(bs[i], n) && r[i + 2..] == bs[i + 1..]
    ensures !Splits(bs[i], n) ==> r[i + 1..] == bs[i + 1..]
  {
    var b := bs[i];
    if Splits(b, n) then bs[..i] + [Block(b.offset, n, false), SplitHeader(b, n)] + bs[i + 1..]
    else bs[..i] + [b.(free := false)] + bs[i + 1..]
  }

  /** `mem_alloc` with the corrected split. It returns NULL exactly when the version as written
      does, and otherwise hands out the same first-fit header, now recording the request plus
      less than one header of slack. */
  function AllocExact(bs: seq<Block>, n: nat): (r: AllocResult)
    ensures r.ptr == AllocSpec(bs, n).ptr
    ensures r.ptr.None? ==> r.blocks == bs
    ensures r.ptr.Some? ==>
              (exists k :: 0 <= k < |r.blocks| && r.blocks[k].offset == r.ptr.value - HeaderSize &&
                           !r.blocks[k].free && n <= r.blocks[k].size < n + HeaderSize)
  {
    match FirstFit(bs, n)
    case None => AllocResult(bs, None)
    case Some(i) =>
      var r := CarveExact(bs, i, n);
      assert r[i].offset == bs[i].offset && !r[i].free && n <= r[i].size < n + HeaderSize;
      AllocResult(r, Some(bs[i].offset + HeaderSize))
  }

  /** A block covering `[o, o + H + size)` split for `n` bytes still covers the same range. */
  lemma SplitTiles(b: Block, n: nat)
    requires Splits(b, n)
    ensures Tiles([Block(b.offset, n, false), SplitHeader(b, n)], b.offset, b.offset + HeaderSize + b.size)
  {
    var pair := [Block(b.offset, n, false), SplitHeader(b, n)];
    assert pair[1..][1..] == [];
  }

  /** Replacing one block of a tiling by blocks that tile exactly its range keeps the tiling. */
  lemma TilesReplace(pre: seq<Block>, b: Block, post: seq<Block>, mid: seq<Block>, lo: nat, hi: nat)
    requires Tiles(pre + [b] + post, lo, hi)
    requires Tiles(mid, b.offset, b.offset + HeaderSize + b.size)
    ensures Tiles(pre + mid + post, lo, hi)
  {
    var o := lo + Footprint(pre);
    assert pre + [b] + post == pre + ([b] + post);
    TilesAppend(pre, [b] + post, lo, hi);
    assert b.offset == o;
    assert ([b] + post)[1..] == post;
    TilesFootprint(mid, o, o + HeaderSize + b.size);
    TilesAppend(mid, post, o, hi);
    assert pre + mid + post == pre + (mid + post);
    TilesAppend(pre, mid + post, lo, hi);
  }

  /** The corrected `mem_alloc` keeps the arena tiled. */
  lemma AllocExactKeepsTiled(bs: seq<Block>, n: nat)
    requires Tiled(bs)
    ensures Tiled(AllocExact(bs, n).blocks)
  {
    var f := FirstFit(bs, n);
    if f.Some? {
      var i := f.value;
      var b := bs[i];
      var mid: seq<Block>;
      if Splits(b, n) {
        mid := [Block(b.offset, n, false), SplitHeader(b, n)];
        SplitTiles(b, n);
      } else {
        mid := [b.(free := false)];
        assert mid[1..] == [];
      }
      assert bs == bs[..i] + [b] + bs[i + 1..];
      assert CarveExact(bs, i, n) == bs[..i] + mid + bs[i + 1..];
      TilesReplace(bs[..i], b, bs[i + 1..], mid, 0, MemSize);
    }
  }

  /** Under the corrected split a block handed out right after `mem_init` and freed again gives
      back the initial list. */
  lemma InitAllocFreeRoundTrip(n: nat)
    requires n + HeaderSize <= MemSize
    ensures AllocExact(InitBlocks(), n).ptr == Some(HeaderSize)
    ensures FreeSpec(AllocExact(InitBlocks(), n).blocks, Some(HeaderSize)) == InitBlocks()
  {
    var bs := InitBlocks();
    FirstFitUnique(bs, n, 0);
    if Splits(bs[0], n) {
      RoundTripSplit(n);
    } else {
      assert AllocExact(bs, n).blocks == [Block(0, bs[0].size, false)];
      assert MarkFree([Block(0, bs[0].size, false)], 0) == bs;
    }
  }

  /** The round trip when the initial block is split: the freed block merges with the rest. */
  lemma RoundTripSplit(n: nat)
    requires n + 2 * HeaderSize <= MemSize
    ensures FreeSpec(AllocExact(InitBlocks(), n).blocks, Some(HeaderSize)) == InitBlocks()
  {
    var bs := InitBlocks();
    FirstFitUnique(bs, n, 0);
    var carved := [Block(0, n, false), SplitHeader(bs[0], n)];
    assert AllocExact(bs, n).blocks == carved;
    var m := MarkFree(carved, 0);
    assert m == [Block(0, n, true), SplitHeader(bs[0], n)];
    assert Coalesce(m) == Coalesce([Merge(m[0], m[1])]);
  }

  /** In a tiled list no two records share an offset, so no header is ever written over
      another. */
  lemma TiledOffsetsDistinct(bs: seq<Block>)
    requires Tiled(bs)
    ensures forall j, k :: 0 <= j < k < |bs| ==> bs[j].offset < bs[k].offset
  {
    TilesDisjoint(bs, 0, MemSize);
  }

  /** The call sequence that makes the split as written overwrite `q`'s header (`mem_init`,
      `p = mem_alloc(100)`, `q = mem_alloc(100)`, `mem_free(p)`, `mem_alloc(100)`) under the
      corrected split: the first block was shrunk to 100 bytes, so it is reused without a
      split, and the three headers stay at distinct offsets. */
  lemma ExactSharedHeaderScenario()
    ensures var r1 := AllocExact(InitBlocks(), 100);
            var r2 := AllocExact(r1.blocks, 100);
            var f := FreeSpec(r2.blocks, r1.ptr);
            var r3 := AllocExact(f, 100);
            r1.ptr == Some(HeaderSize) && r2.ptr == Some(2 * HeaderSize + 100) &&
            r3.ptr == Some(HeaderSize) &&
            r3.blocks == [Block(0, 100, false), Block(HeaderSize + 100, 100, false),
                          Block(2 * HeaderSize + 200, MemSize - 3 * HeaderSize - 200, true)]
  {
    var e0 := InitBlocks();
    FirstFitUnique(e0, 100, 0);
    var e1 := [Block(0, 100, false), Block(HeaderSize + 100, MemSize - 2 * HeaderSize - 100, true)];
    assert AllocExact(e0, 100) == AllocResult(e1, Some(HeaderSize));
    FirstFitUnique(e1, 100, 1);
    var e2 := [Block(0, 100, false), Block(HeaderSize + 100, 100, false),
               Block(2 * HeaderSize + 200, MemSize - 3 * HeaderSize - 200, true)];
    assert CarveExact(e1, 1, 100) == e2;
    assert AllocExact(e1, 100) == AllocResult(e2, Some(2 * HeaderSize + 100));
    var m := e2[0 := Block(0, 100, true)];
    assert MarkFree(e2, 0) == m;
    assert Coalesce(m[1..][1..]) == m[1..][1..];
    assert Coalesce(m[1..]) == m[1..];
    assert Coalesce(m) == m;
    FirstFitUnique(m, 100, 0);
    assert CarveExact(m, 0, 100) == e2;
  }

  /** The split as written breaks the tiling on its first use, and with it the round trip:
      `mem_alloc(100)` after `mem_init` puts the new header at `H + 100`, inside the first
      block's recorded extent, and freeing the result yields a block claiming nearly twice the
      arena. */
  lemma AsWrittenBreaksTiling()
    ensures Tiled(InitBlocks())
    ensures !Tiled(AllocSpec(InitBlocks(), 100).blocks)
    ensures var r := AllocSpec(InitBlocks(), 100);
            r.ptr == Some(HeaderSize) &&
            FreeSpec(r.blocks, r.ptr) == [Block(0, 2 * MemSize - 2 * HeaderSize - 100, true)]
  {
    InitTiled();
    ScenarioFirstAlloc();
    var hs := ScenarioHeaders();
    var r := [hs[0], hs[1]];
    var m := MarkFree(r, 0);
    assert m == [hs[4], hs[1]];
    assert Coalesce(m) == Coalesce([Merge(m[0], m[1])]);
    assert !Tiles(r[1..], MemSize, MemSize);
  }
  /** The split as written reaches past the arena. After `mem_init`, `p = mem_alloc(100)` and
      `mem_free(p)` the one free block claims nearly twice the arena, so `mem_alloc(MEM_SZ)`
      succeeds: it hands out a payload of `MEM_SZ` bytes starting at `H`, which runs past the
      arena's end, and records its split header at `MEM_SZ + H`, wholly beyond it. */
  lemma PastArenaScenario()
    ensures var r := AllocSpec(InitBlocks(), 100);
            var after := AllocSpec(FreeSpec(r.blocks, r.ptr), MemSize);
            after.ptr == Some(HeaderSize) &&
            after.blocks == [Block(0, 2 * MemSize - 2 * HeaderSize - 100, false),
                             Block(MemSize + HeaderSize, MemSize - 3 * HeaderSize - 100, true)] &&
            after.ptr.value + MemSize > MemSize && after.blocks[1].offset >= MemSize
  {
    AsWrittenBreaksTiling();
    var big := [Block(0, 2 * MemSize - 2 * HeaderSize - 100, true)];
    assert IsFirstFit(big, MemSize, 0);
    AllocAt(big, MemSize, 0, [big[0].(free := false), SplitHeader(big[0], MemSize)]);
  }

  /** Under the corrected split every block of a tiled list, header and recorded payload, ends
      at or before `MEM_SZ`, and so does the payload of `n` bytes that `mem_alloc` hands out. */
  lemma AllocExactInArena(bs: seq<Block>, n: nat)
    requires Tiled(bs)
    ensures var r := AllocExact(bs, n);
            (forall k :: 0 <= k < |r.blocks| ==> r.blocks[k].offset + HeaderSize + r.blocks[k].size <= MemSize) &&
            (r.ptr.Some? ==> r.ptr.value + n <= MemSize)
  {
    var r := AllocExact(bs, n);
    AllocExactKeepsTiled(bs, n);
    TilesDisjoint(r.blocks, 0, MemSize);
  }

  /** The calls of `PastArenaScenario` under the corrected split: the freed block merges back
      into the initial list, and a request the size of the whole arena gets NULL. */
  lemma ExactPastArenaScenario()
    ensures var r := AllocExact(InitBlocks(), 100);
            FreeSpec(r.blocks, r.ptr) == InitBlocks() &&
            AllocExact(FreeSpec(r.blocks, r.ptr), MemSize).ptr == None
  {
    InitAllocFreeRoundTrip(100);
    assert !Fits(InitBlocks()[0], MemSize);
  }
}
