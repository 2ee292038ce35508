/** mem.c as state: the static `free_list` and the headers it links,
    updated in place by mem_init, mem_alloc and mem_free. */
module Mem {
  import opened Machine
  import opened MemSpec
  import MemLemmas

  class Arena {
    /** The headers reachable from `free_list`, in list (= address) order. */
    var blocks: seq<Block>

    ghost predicate Valid()
      reads this
    {
      HeapOk(blocks)
    }

    /** The static storage before mem_init: `free_list == NULL`. */
    constructor ()
      ensures Valid() && blocks == []
    {
      blocks := [];
    }

    /** mem_init: one free block whose header and payload cover the whole arena. */
    method Init()
      modifies this
      ensures Valid() && blocks == Initial()
    {
      blocks := [Block(HEAP_SIZE - H, true)];
      assert blocks == Initial();
    }

    /** mem_alloc: walk the list from the head and take the first free block
        that holds the request rounded up to 4 bytes. */
    method Alloc(size: nat) returns (p: Ptr)
      requires size < WORD_MOD
      requires Valid()
      modifies this
      ensures Valid()
      ensures AllocResult(blocks, p) == MemSpec.Alloc(old(blocks), size)
    {
      var n := Round4(size);
      var i, off := 0, 0;
      while i < |blocks|
        invariant i <= |blocks| && off == Offset(blocks, i)
        invariant FirstFit(blocks, n, i) == FirstFit(blocks, n, 0)
        invariant blocks == old(blocks)
      {
        var b := blocks[i];
        if b.free && b.size >= n {
          if b.size > n + H {
            blocks := blocks[..i] + [Block(n, false), Block(b.size - n - H, true)] + blocks[i + 1..];
          } else {
            blocks := blocks[i := Block(b.size, false)];
          }
          p := At(off + H);
          MemLemmas.AllocKeepsTiling(old(blocks), size);
          return;
        }
        MemLemmas.SpanAround(blocks, i);
        off := off + H + b.size;
        i := i + 1;
      }
      p := Null;
    }

    /** mem_free: step back from the pointer to its header, mark it free,
        then make one coalescing pass from the head of the list; the pass
        stays on a block after merging its successor into it. */
    method Free(p: Ptr)
      requires Valid() && Freeable(blocks, p)
      modifies this
      ensures Valid()
      ensures blocks == MemSpec.Free(old(blocks), p)
    {
      if p.Null? {
        return;
      }
      MemLemmas.FreeKeepsTiling(blocks, p);
      var k := BlockIndex(blocks, p.off);
      blocks := blocks[k := Block(blocks[k].size, true)];
      ghost var marked := blocks;
      var i := 0;
      while i + 1 < |blocks|
        invariant Coalesce(blocks, i) == Coalesce(marked, 0)
        decreases |blocks| - i
      {
        if blocks[i].free && blocks[i + 1].free {
          ghost var before := blocks;
          blocks := blocks[..i] + [Block(blocks[i].size + H + blocks[i + 1].size, blocks[i].free)] + blocks[i + 2..];
          assert blocks == MergeAt(before, i);
        } else {
          i := i + 1;
        }
      }
    }
  }
}
