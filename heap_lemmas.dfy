/** What mem_alloc and mem_free promise, proved about the functions of MemSpec. */
module MemLemmas {
  import opened Machine
  import opened MemSpec

  // ----- Span and Offset -----

  lemma {:induction false} SpanAppend(a: seq<Block>, b: seq<Block>)
    ensures Span(a + b) == Span(a) + Span(b)
  {
    if a == [] {
      assert a + b == b;
    } else {
      assert (a + b)[1..] == a[1..] + b;
      SpanAppend(a[1..], b);
    }
  }

  lemma SpanOne(x: Block)
    ensures Span([x]) == H + x.size
  {
    assert [x][1..] == [];
  }

  /** The arena seen from block k: what lies before it, its header and payload, what follows. */
  lemma SpanAround(bs: seq<Block>, k: nat)
    requires k < |bs|
    ensures Span(bs) == Offset(bs, k) + H + bs[k].size + Span(bs[k + 1..])
    ensures Offset(bs, k + 1) == Offset(bs, k) + H + bs[k].size
  {
    assert bs == bs[..k] + [bs[k]] + bs[k + 1..];
    assert bs[..k + 1] == bs[..k] + [bs[k]];
    SpanAppend(bs[..k] + [bs[k]], bs[k + 1..]);
    SpanAppend(bs[..k], [bs[k]]);
    SpanOne(bs[k]);
  }

  /** Headers lie in strictly ascending address order. */
  lemma {:induction false} OffsetMonotone(bs: seq<Block>, j: nat, k: nat)
    requires j < k <= |bs|
    ensures Offset(bs, j) + H + bs[j].size <= Offset(bs, k)
    decreases k - j
  {
    SpanAround(bs, j);
    if j + 1 < k {
      OffsetMonotone(bs, j + 1, k);
    }
  }

  lemma OffsetShift(bs: seq<Block>, k: nat)
    requires 0 < k <= |bs|
    ensures Offset(bs, k) == H + bs[0].size + Offset(bs[1..], k - 1)
  {
    assert bs[..k][1..] == bs[1..][..k - 1];
  }

  /** mem_free's `ptr - sizeof(mem_block_t)` finds exactly the block mem_alloc returned. */
  lemma {:induction false} BlockIndexOfOffset(bs: seq<Block>, k: nat)
    requires k < |bs|
    ensures BlockIndex(bs, Offset(bs, k) + H) == k
  {
    if k > 0 {
      OffsetShift(bs, k);
      BlockIndexOfOffset(bs[1..], k - 1);
    }
  }

  // ----- Sets of blocks in use -----

  lemma {:induction false} AllocatedBounds(bs: seq<Block>, base: nat)
    ensures forall a | a in AllocatedFrom(bs, base) :: base + H <= a <= base + Span(bs)
  {
    if bs != [] {
      AllocatedBounds(bs[1..], base + H + bs[0].size);
    }
  }

  lemma {:induction false} AllocatedAppend(a: seq<Block>, b: seq<Block>, base: nat)
    ensures AllocatedFrom(a + b, base) == AllocatedFrom(a, base) + AllocatedFrom(b, base + Span(a))
  {
    if a == [] {
      assert a + b == b;
    } else {
      assert (a + b)[1..] == a[1..] + b;
      AllocatedAppend(a[1..], b, base + H + a[0].size);
    }
  }

  lemma AllocatedOne(x: Block, base: nat)
    ensures AllocatedFrom([x], base) == if x.free then {} else {base + H}
  {
    assert [x][1..] == [];
  }

  lemma Span3(p: seq<Block>, c: seq<Block>, s: seq<Block>)
    ensures Span(p + c + s) == Span(p) + Span(c) + Span(s)
  {
    SpanAppend(p + c, s);
    SpanAppend(p, c);
  }

  lemma Allocated3(p: seq<Block>, c: seq<Block>, s: seq<Block>, base: nat)
    ensures AllocatedFrom(p + c + s, base)
         == AllocatedFrom(p, base) + AllocatedFrom(c, base + Span(p)) + AllocatedFrom(s, base + Span(p) + Span(c))
  {
    AllocatedAppend(p + c, s, base);
    AllocatedAppend(p, c, base);
    SpanAppend(p, c);
  }

  /** Replacing block k by blocks c of the same span leaves every other block
      in use where it was. */
  lemma AllocatedReplace(bs: seq<Block>, k: nat, c: seq<Block>, base: nat)
    requires k < |bs| && Span(c) == H + bs[k].size
    ensures AllocatedFrom(bs[..k] + c + bs[k + 1..], base)
         == AllocatedFrom(bs[..k], base) + AllocatedFrom(c, base + Offset(bs, k))
          + AllocatedFrom(bs[k + 1..], base + Offset(bs, k) + H + bs[k].size)
    ensures AllocatedFrom(bs, base)
         == AllocatedFrom(bs[..k], base) + AllocatedFrom([bs[k]], base + Offset(bs, k))
          + AllocatedFrom(bs[k + 1..], base + Offset(bs, k) + H + bs[k].size)
  {
    assert bs == bs[..k] + [bs[k]] + bs[k + 1..];
    Allocated3(bs[..k], c, bs[k + 1..], base);
    Allocated3(bs[..k], [bs[k]], bs[k + 1..], base);
    SpanOne(bs[k]);
  }

  /** An in-use payload address names an in-use block. */
  lemma {:induction false} AllocatedIsBlock(bs: seq<Block>, base: nat, a: nat)
    requires a in AllocatedFrom(bs, base)
    ensures a >= base
    ensures BlockIndex(bs, a - base) < |bs| && !bs[BlockIndex(bs, a - base)].free
  {
    AllocatedBounds(bs, base);
    var rest := AllocatedFrom(bs[1..], base + H + bs[0].size);
    if a - base == H && !bs[0].free {
    } else {
      AllocatedBounds(bs[1..], base + H + bs[0].size);
      assert a in rest;
      AllocatedIsBlock(bs[1..], base + H + bs[0].size, a);
    }
  }

  /** Every payload mem_alloc handed out and mem_free has not reclaimed may be passed to mem_free. */
  lemma AllocatedFreeable(bs: seq<Block>, a: nat)
    requires a in Allocated(bs)
    ensures Freeable(bs, At(a))
    ensures !bs[BlockIndex(bs, a)].free
  {
    AllocatedIsBlock(bs, 0, a);
  }

  // ----- Carving a block for mem_alloc -----

  lemma SpanPair(x: Block, y: Block)
    ensures Span([x, y]) == H + x.size + H + y.size
  {
    assert [x, y][1..] == [y];
    SpanOne(y);
  }

  /** Rewriting one header without changing its size keeps every offset. */
  lemma SpanSameSize(bs: seq<Block>, k: nat, x: Block)
    requires k < |bs| && x.size == bs[k].size
    ensures Span(bs[k := x]) == Span(bs)
    ensures bs[k := x][..k] == bs[..k]
  {
    assert bs[k := x] == bs[..k] + [x] + bs[k + 1..];
    assert bs == bs[..k] + [bs[k]] + bs[k + 1..];
    Span3(bs[..k], [x], bs[k + 1..]);
    Span3(bs[..k], [bs[k]], bs[k + 1..]);
    SpanOne(x);
    SpanOne(bs[k]);
  }

  lemma CarveSplitParts(bs: seq<Block>, k: nat, n: nat)
    requires k < |bs| && n + H < bs[k].size
    ensures Carve(bs, k, n) == bs[..k] + [Block(n, false), Block(bs[k].size - n - H, true)] + bs[k + 1..]
  {
  }

  lemma CarveSpan(bs: seq<Block>, k: nat, n: nat)
    requires k < |bs| && n <= bs[k].size
    ensures Span(Carve(bs, k, n)) == Span(bs)
  {
    if bs[k].size > n + H {
      var c := [Block(n, false), Block(bs[k].size - n - H, true)];
      CarveSplitParts(bs, k, n);
      assert bs == bs[..k] + [bs[k]] + bs[k + 1..];
      Span3(bs[..k], c, bs[k + 1..]);
      Span3(bs[..k], [bs[k]], bs[k + 1..]);
      SpanOne(bs[k]);
      SpanPair(c[0], c[1]);
    } else {
      SpanSameSize(bs, k, Block(bs[k].size, false));
    }
  }

  lemma CarveAligned(bs: seq<Block>, k: nat, n: nat)
    requires k < |bs| && n <= bs[k].size && Aligned(bs) && n % 4 == 0
    ensures Aligned(Carve(bs, k, n))
  {
    var r := Carve(bs, k, n);
    if bs[k].size > n + H {
      CarveSplitParts(bs, k, n);
      forall i | 0 <= i < |r| ensures r[i].size % 4 == 0 {
        if i < k {
          assert r[i] == bs[i];
        } else if i > k + 1 {
          assert r[i] == bs[i - 1];
        }
      }
    }
  }

  lemma CarvePrefix(bs: seq<Block>, k: nat, n: nat)
    requires k < |bs| && n <= bs[k].size
    ensures Carve(bs, k, n)[..k] == bs[..k]
    ensures Offset(Carve(bs, k, n), k) == Offset(bs, k)
  {
    if bs[k].size > n + H {
      CarveSplitParts(bs, k, n);
      assert Carve(bs, k, n)[..k] == bs[..k];
    } else {
      SpanSameSize(bs, k, Block(bs[k].size, false));
    }
  }

  lemma CarveShape(bs: seq<Block>, k: nat, n: nat)
    requires k < |bs| && n <= bs[k].size
    ensures Span(Carve(bs, k, n)) == Span(bs)
    ensures Aligned(bs) && n % 4 == 0 ==> Aligned(Carve(bs, k, n))
    ensures Carve(bs, k, n)[..k] == bs[..k]
    ensures Offset(Carve(bs, k, n), k) == Offset(bs, k)
  {
    CarveSpan(bs, k, n);
    if Aligned(bs) && n % 4 == 0 {
      CarveAligned(bs, k, n);
    }
    CarvePrefix(bs, k, n);
  }

  lemma CarveAllocated(bs: seq<Block>, k: nat, n: nat)
    requires k < |bs| && n <= bs[k].size && bs[k].free
    ensures Offset(bs, k) + H !in Allocated(bs)
    ensures Allocated(Carve(bs, k, n)) == Allocated(bs) + {Offset(bs, k) + H}
  {
    var off := Offset(bs, k);
    var c := if bs[k].size > n + H then [Block(n, false), Block(bs[k].size - n - H, true)]
             else [Block(bs[k].size, false)];
    assert Carve(bs, k, n) == bs[..k] + c + bs[k + 1..];
    if bs[k].size > n + H {
      assert c == [c[0]] + [c[1]];
      SpanAppend([c[0]], [c[1]]);
      SpanOne(c[0]);
      SpanOne(c[1]);
      AllocatedAppend([c[0]], [c[1]], off);
      AllocatedOne(c[0], off);
      AllocatedOne(c[1], off + H + n);
    } else {
      SpanOne(c[0]);
      AllocatedOne(c[0], off);
    }
    AllocatedReplace(bs, k, c, 0);
    AllocatedOne(bs[k], off);
    AllocatedBounds(bs[..k], 0);
    AllocatedBounds(bs[k + 1..], off + H + bs[k].size);
  }

  lemma CountAppend(a: seq<Block>, b: seq<Block>, m: nat)
    ensures CountInUse(a + b, m) == CountInUse(a, m) + CountInUse(b, m)
  {
    if a == [] {
      assert a + b == b;
    } else {
      assert (a + b)[1..] == a[1..] + b;
      CountAppend(a[1..], b, m);
    }
  }

  lemma CarveCount(bs: seq<Block>, k: nat, n: nat, m: nat)
    requires k < |bs| && n <= bs[k].size && bs[k].free && m <= n
    ensures CountInUse(Carve(bs, k, n), m) == CountInUse(bs, m) + 1
  {
    var c := if bs[k].size > n + H then [Block(n, false), Block(bs[k].size - n - H, true)]
             else [Block(bs[k].size, false)];
    assert Carve(bs, k, n) == bs[..k] + c + bs[k + 1..];
    assert bs == bs[..k] + [bs[k]] + bs[k + 1..];
    CountAppend(bs[..k] + c, bs[k + 1..], m);
    CountAppend(bs[..k], c, m);
    CountAppend(bs[..k] + [bs[k]], bs[k + 1..], m);
    CountAppend(bs[..k], [bs[k]], m);
    assert [bs[k]][1..] == [];
    if bs[k].size > n + H {
      assert c[1..] == [c[1]] && [c[1]][1..] == [];
    } else {
      assert c[1..] == [];
    }
  }

  // ----- mem_alloc -----

  /** mem_alloc keeps the arena tiled. */
  lemma AllocKeepsTiling(bs: seq<Block>, size: nat)
    requires size < WORD_MOD && HeapOk(bs)
    ensures HeapOk(Alloc(bs, size).blocks)
    ensures |Alloc(bs, size).blocks| >= |bs|
  {
    var n := Round4(size);
    var k := FirstFit(bs, n, 0);
    if k < |bs| {
      CarveShape(bs, k, n);
    }
  }

  lemma CarveAt(bs: seq<Block>, k: nat, n: nat)
    requires k < |bs| && n <= bs[k].size
    ensures k < |Carve(bs, k, n)|
    ensures !Carve(bs, k, n)[k].free && Carve(bs, k, n)[k].size >= n
  {
    if bs[k].size > n + H {
      CarveSplitParts(bs, k, n);
    }
  }

  /** What Alloc returns when block k is the first fit. */
  lemma AllocAt(bs: seq<Block>, size: nat, k: nat)
    requires size < WORD_MOD && k == FirstFit(bs, Round4(size), 0) && k < |bs|
    ensures Alloc(bs, size) == AllocResult(Carve(bs, k, Round4(size)), At(Offset(bs, k) + H))
    ensures BlockIndex(bs, Alloc(bs, size).ptr.off) == k
  {
    BlockIndexOfOffset(bs, k);
  }

  /** First fit: mem_alloc fails exactly when no free block holds the rounded
      request, and then changes nothing; otherwise the returned pointer is the
      payload of the first free block that holds it, and that block is now in use. */
  lemma AllocIsFirstFit(bs: seq<Block>, size: nat)
    requires size < WORD_MOD
    ensures Alloc(bs, size).ptr.Null? <==> forall j | 0 <= j < |bs| :: !Fits(bs[j], Round4(size))
    ensures Alloc(bs, size).ptr.Null? ==> Alloc(bs, size).blocks == bs
    ensures Alloc(bs, size).ptr.At? ==>
      var r := Alloc(bs, size);
      var k := BlockIndex(bs, r.ptr.off);
      k < |bs| && Fits(bs[k], Round4(size))
      && (forall j | 0 <= j < k :: !Fits(bs[j], Round4(size)))
      && k < |r.blocks| && BlockIndex(r.blocks, r.ptr.off) == k
      && !r.blocks[k].free && r.blocks[k].size >= Round4(size)
  {
    var n := Round4(size);
    var k := FirstFit(bs, n, 0);
    if k < |bs| {
      AllocAt(bs, size, k);
      var c := Carve(bs, k, n);
      CarvePrefix(bs, k, n);
      CarveAt(bs, k, n);
      BlockIndexOfOffset(c, k);
    }
  }

  /** The split rule: a block is split only when it exceeds the rounded
      request by more than one header; the new free block starts right after
      the requested bytes and holds the rest minus a header; otherwise the
      whole block is handed out. */
  lemma AllocSplitsOnlyWithRoom(bs: seq<Block>, size: nat)
    requires size < WORD_MOD && Alloc(bs, size).ptr.At?
    ensures BlockIndex(bs, Alloc(bs, size).ptr.off) < |bs|
    ensures var r := Alloc(bs, size); var n := Round4(size);
      var k := BlockIndex(bs, r.ptr.off); var s := bs[k].size;
      r.ptr.off == Offset(bs, k) + H
      && (s > n + H ==>
            |r.blocks| == |bs| + 1 && r.blocks[..k] == bs[..k]
            && r.blocks[k] == Block(n, false)
            && r.blocks[k + 1] == Block(s - n - H, true)
            && Offset(r.blocks, k + 1) == r.ptr.off + n
            && r.blocks[k + 2..] == bs[k + 1..])
      && (s <= n + H ==> r.blocks == bs[k := Block(s, false)])
  {
    var n := Round4(size);
    var k := FirstFit(bs, n, 0);
    AllocAt(bs, size, k);
    var r := Alloc(bs, size);
    if bs[k].size > n + H {
      CarveSplitParts(bs, k, n);
      CarvePrefix(bs, k, n);
      SpanAround(r.blocks, k);
      assert r.blocks[k + 2..] == bs[k + 1..];
    }
  }

  /** The payload mem_alloc returns lies inside the arena. */
  lemma AllocWithinArena(bs: seq<Block>, size: nat)
    requires size < WORD_MOD && Tiles(bs) && Alloc(bs, size).ptr.At?
    ensures H <= Alloc(bs, size).ptr.off && Alloc(bs, size).ptr.off + Round4(size) <= HEAP_SIZE
  {
    var n := Round4(size);
    var k := FirstFit(bs, n, 0);
    SpanAround(bs, k);
  }

  /** mem_alloc adds exactly the returned payload to the set of blocks in use. */
  lemma AllocInUse(bs: seq<Block>, size: nat)
    requires size < WORD_MOD
    ensures var r := Alloc(bs, size);
      (r.ptr.Null? ==> Allocated(r.blocks) == Allocated(bs))
      && (r.ptr.At? ==> r.ptr.off !in Allocated(bs) && Allocated(r.blocks) == Allocated(bs) + {r.ptr.off})
  {
    var n := Round4(size);
    var k := FirstFit(bs, n, 0);
    if k < |bs| {
      CarveAllocated(bs, k, n);
    }
  }

  // ----- The coalescing pass -----

  lemma MergeParts(bs: seq<Block>, i: nat)
    requires i + 1 < |bs|
    ensures MergeAt(bs, i) == bs[..i] + [Block(bs[i].size + H + bs[i + 1].size, bs[i].free)] + bs[i + 2..]
    ensures bs == bs[..i] + [bs[i], bs[i + 1]] + bs[i + 2..]
  {
    assert bs == bs[..i] + [bs[i], bs[i + 1]] + bs[i + 2..];
  }

  lemma MergeShape(bs: seq<Block>, i: nat)
    requires i + 1 < |bs| && bs[i].free && bs[i + 1].free
    ensures Span(MergeAt(bs, i)) == Span(bs)
    ensures Aligned(bs) ==> Aligned(MergeAt(bs, i))
    ensures Allocated(MergeAt(bs, i)) == Allocated(bs)
    ensures |MergeAt(bs, i)| == |bs| - 1
  {
    var x := Block(bs[i].size + H + bs[i + 1].size, true);
    var pair := [bs[i], bs[i + 1]];
    var p, s := bs[..i], bs[i + 2..];
    MergeParts(bs, i);
    Span3(p, [x], s);
    Span3(p, pair, s);
    SpanOne(x);
    SpanPair(bs[i], bs[i + 1]);
    Allocated3(p, [x], s, 0);
    Allocated3(p, pair, s, 0);
    AllocatedOne(x, Span(p));
    assert pair == [bs[i]] + [bs[i + 1]];
    AllocatedAppend([bs[i]], [bs[i + 1]], Span(p));
    SpanOne(bs[i]);
    AllocatedOne(bs[i], Span(p));
    AllocatedOne(bs[i + 1], Span(p) + H + bs[i].size);
    if Aligned(bs) {
      var m := MergeAt(bs, i);
      forall j | 0 <= j < |m| ensures m[j].size % 4 == 0 {
        if j < i {
          assert m[j] == bs[j];
        } else if j > i {
          assert m[j] == bs[j + 1];
        }
      }
    }
  }

  lemma {:induction false} CoalesceShape(bs: seq<Block>, i: nat)
    ensures Span(Coalesce(bs, i)) == Span(bs)
    ensures Aligned(bs) ==> Aligned(Coalesce(bs, i))
    ensures Allocated(Coalesce(bs, i)) == Allocated(bs)
    ensures |Coalesce(bs, i)| <= |bs|
    ensures bs != [] ==> Coalesce(bs, i) != []
    decreases |bs| - i
  {
    if i + 1 >= |bs| {
    } else if bs[i].free && bs[i + 1].free {
      MergeShape(bs, i);
      CoalesceShape(MergeAt(bs, i), i);
    } else {
      CoalesceShape(bs, i + 1);
    }
  }

  /** The pass leaves no two neighbouring free blocks behind, given none among the blocks before i. */
  lemma {:induction false} CoalesceLeavesNoAdjacentFree(bs: seq<Block>, i: nat)
    requires forall j | 0 <= j < i && j + 1 < |bs| :: !(bs[j].free && bs[j + 1].free)
    ensures NoAdjacentFree(Coalesce(bs, i))
    decreases |bs| - i
  {
    if i + 1 >= |bs| {
    } else if bs[i].free && bs[i + 1].free {
      var m := MergeAt(bs, i);
      assert forall j | 0 <= j < i :: m[j] == bs[j];
      assert m[i].free;
      CoalesceLeavesNoAdjacentFree(m, i);
    } else {
      CoalesceLeavesNoAdjacentFree(bs, i + 1);
    }
  }

  /** The pass changes nothing where no two neighbouring blocks are free. */
  lemma {:induction false} CoalesceIdentity(bs: seq<Block>, i: nat)
    requires NoAdjacentFree(bs)
    ensures Coalesce(bs, i) == bs
    decreases |bs| - i
  {
    if i + 1 < |bs| {
      CoalesceIdentity(bs, i + 1);
    }
  }

  /** The pass walks past blocks i .. j - 1 when none of them has a free right neighbour pair. */
  lemma {:induction false} CoalesceSkip(bs: seq<Block>, i: nat, j: nat)
    requires i <= j
    requires forall m | i <= m < j && m + 1 < |bs| :: !(bs[m].free && bs[m + 1].free)
    ensures Coalesce(bs, i) == Coalesce(bs, j)
    decreases j - i
  {
    if i < j && i + 1 < |bs| {
      CoalesceSkip(bs, i + 1, j);
    } else if i < j {
      assert Coalesce(bs, j) == bs;
    }
  }

  // ----- mem_free -----

  /** mem_free keeps the arena tiled and leaves no two neighbouring free blocks. */
  lemma FreeKeepsTiling(bs: seq<Block>, p: Ptr)
    requires HeapOk(bs) && Freeable(bs, p)
    ensures HeapOk(Free(bs, p))
    ensures p.At? ==> NoAdjacentFree(Free(bs, p))
  {
    if p.At? {
      var k := BlockIndex(bs, p.off);
      var marked := bs[k := Block(bs[k].size, true)];
      assert marked == bs[..k] + [marked[k]] + bs[k + 1..];
      AllocatedReplace(bs, k, [marked[k]], 0);
      SpanOne(marked[k]);
      SpanAround(bs, k);
      SpanAround(marked, k);
      assert marked[..k] == bs[..k] && marked[k + 1..] == bs[k + 1..];
      CoalesceShape(marked, 0);
      CoalesceLeavesNoAdjacentFree(marked, 0);
    }
  }

  /** mem_free(NULL) changes nothing. */
  lemma FreeNull(bs: seq<Block>)
    ensures Free(bs, Null) == bs
  {
  }

  /** mem_free takes exactly the freed payload out of the set of blocks in use;
      no block that stays in use moves. */
  lemma FreeInUse(bs: seq<Block>, a: nat)
    requires Freeable(bs, At(a))
    ensures Allocated(Free(bs, At(a))) == Allocated(bs) - {a}
  {
    var k := BlockIndex(bs, a);
    var marked := bs[k := Block(bs[k].size, true)];
    assert marked == bs[..k] + [marked[k]] + bs[k + 1..];
    SpanOne(marked[k]);
    AllocatedReplace(bs, k, [marked[k]], 0);
    AllocatedOne(marked[k], Offset(bs, k));
    AllocatedOne(bs[k], Offset(bs, k));
    AllocatedBounds(bs[..k], 0);
    AllocatedBounds(bs[k + 1..], Offset(bs, k) + H + bs[k].size);
    CoalesceShape(marked, 0);
  }

  /** Round trip: where no two neighbouring blocks were free, freeing the
      pointer mem_alloc just returned restores the identical block list. */
  lemma AllocThenFree(bs: seq<Block>, size: nat)
    requires size < WORD_MOD && NoAdjacentFree(bs)
    requires Alloc(bs, size).ptr.At?
    ensures Freeable(Alloc(bs, size).blocks, Alloc(bs, size).ptr)
    ensures Free(Alloc(bs, size).blocks, Alloc(bs, size).ptr) == bs
  {
    var n := Round4(size);
    var k := FirstFit(bs, n, 0);
    var c := Carve(bs, k, n);
    CarveShape(bs, k, n);
    BlockIndexOfOffset(c, k);
    var marked := c[k := Block(c[k].size, true)];
    assert Free(c, At(Offset(c, k) + H)) == Coalesce(marked, 0);
    if bs[k].size > n + H {
      SplitThenMerge(bs, n, k);
    } else {
      assert marked == bs;
      CoalesceIdentity(bs, 0);
    }
  }

  /** The split case of the round trip: marking the carved block free and
      running the pass merges it with its split-off tail and nothing else. */
  lemma SplitThenMerge(bs: seq<Block>, n: nat, k: nat)
    requires NoAdjacentFree(bs) && k < |bs| && Fits(bs[k], n) && bs[k].size > n + H
    ensures var c := Carve(bs, k, n); Coalesce(c[k := Block(c[k].size, true)], 0) == bs
  {
    var c := Carve(bs, k, n);
    var marked := c[k := Block(c[k].size, true)];
    var tail := Block(bs[k].size - n - H, true);
    assert c == bs[..k] + [Block(n, false), tail] + bs[k + 1..];
    assert marked == bs[..k] + [Block(n, true), tail] + bs[k + 1..];
    assert forall m | 0 <= m < k :: marked[m] == bs[m];
    assert marked[k + 1] == tail;
    forall m | 0 <= m < k && m + 1 < |marked|
      ensures !(marked[m].free && marked[m + 1].free)
    {
      if m + 1 == k {
        assert bs[m + 1].free;
      }
    }
    CoalesceSkip(marked, 0, k);
    assert Coalesce(marked, k) == Coalesce(MergeAt(marked, k), k);
    assert MergeAt(marked, k) == bs[..k] + [bs[k]] + bs[k + 1..];
    assert bs[..k] + [bs[k]] + bs[k + 1..] == bs;
    CoalesceIdentity(bs, k);
  }

  /** The first fit is the first fitting block: FirstFit agrees with its definition. */
  lemma {:induction false} FirstFitSkips(bs: seq<Block>, n: nat, i: nat, k: nat)
    requires i <= k < |bs| && Fits(bs[k], n)
    requires forall j | i <= j < k :: !Fits(bs[j], n)
    ensures FirstFit(bs, n, i) == k
    decreases k - i
  {
    if i < k {
      FirstFitSkips(bs, n, i + 1, k);
    }
  }

  // ----- How many 4096-byte stacks the arena holds -----

  const STACK: nat := 4096

  lemma {:induction false} CountBound(bs: seq<Block>, m: nat)
    ensures CountInUse(bs, m) * (H + m) <= Span(bs)
  {
    if bs != [] {
      CountBound(bs[1..], m);
    }
  }

  /** With 12-byte headers, at most 15 blocks of 4096 bytes or more are in use at once. */
  lemma AtMostFifteenStacks(bs: seq<Block>)
    requires Tiles(bs)
    ensures CountInUse(bs, STACK) <= 15
  {
    CountBound(bs, STACK);
  }

  /** Once 15 such blocks are in use, a request for another 4096 bytes fails. */
  lemma SixteenthStackFails(bs: seq<Block>)
    requires Tiles(bs) && CountInUse(bs, STACK) >= 15
    ensures Alloc(bs, STACK).ptr.Null?
  {
    var k := FirstFit(bs, STACK, 0);
    if k < |bs| {
      CarveShape(bs, k, STACK);
      CarveCount(bs, k, STACK, STACK);
      AtMostFifteenStacks(Carve(bs, k, STACK));
    }
  }

  /** The arena after k successive 4096-byte allocations from mem_init. */
  function Stacks(k: nat): seq<Block>
    requires k <= 15
  {
    seq(k, _ => Block(STACK, false)) + [Block(HEAP_SIZE - H - k * (H + STACK), true)]
  }

  lemma {:induction false} StacksSpan(k: nat)
    ensures Span(seq(k, _ => Block(STACK, false))) == k * (H + STACK)
  {
    if k > 0 {
      var s := seq(k, _ => Block(STACK, false));
      assert s[1..] == seq(k - 1, _ => Block(STACK, false));
      StacksSpan(k - 1);
    }
  }

  /** From mem_init, 15 stacks are handed out one after another, at
      payload offsets 12, 4120, 8228, ...; the sixteenth request fails. */
  lemma FifteenStacksFit(k: nat)
    requires k <= 15
    ensures Stacks(0) == Initial()
    ensures k < 15 ==> Alloc(Stacks(k), STACK) == AllocResult(Stacks(k + 1), At(k * (H + STACK) + H))
    ensures k == 15 ==> Alloc(Stacks(k), STACK).ptr.Null?
  {
    assert Stacks(0) == [Block(HEAP_SIZE - H, true)];
    var bs := Stacks(k);
    assert Round4(STACK) == STACK;
    assert forall j | 0 <= j < k :: !Fits(bs[j], STACK);
    if k < 15 {
      FirstFitSkips(bs, STACK, 0, k);
    } else {
      assert !Fits(bs[k], STACK);
    }
    if k < 15 {
      assert Offset(bs, k) == k * (H + STACK) by {
        assert bs[..k] == seq(k, _ => Block(STACK, false));
        StacksSpan(k);
      }
      assert Carve(bs, k, STACK) == Stacks(k + 1);
    }
  }
}
