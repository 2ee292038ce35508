/** The first-fit free-list heap of mem.c, as values.

    The block list is a sequence of (size, free) headers in address order.
    Block k's header starts at Offset(bs, k), the sum of header plus payload
    of every block before it, so the `next` link of the C list is simply the
    following element and the tiling of the arena is a property of the sizes.
    The empty list stands for `free_list == NULL`, the state before mem_init. */
module MemSpec {
  import opened Machine

  /** HEAP_SIZE: the 64 KiB static arena. */
  const HEAP_SIZE: nat := 64 * 1024

  /** sizeof(mem_block_t) on i386: a 4-byte size_t, a 4-byte int and a 4-byte pointer. */
  const H: nat := 12

  datatype Block = Block(size: nat, free: bool)

  /** Bytes covered by a run of blocks: each header plus its payload. */
  function Span(bs: seq<Block>): nat
  {
    if bs == [] then 0 else H + bs[0].size + Span(bs[1..])
  }

  /** Offset of block k's header from the start of the arena. */
  function Offset(bs: seq<Block>, k: nat): nat
    requires k <= |bs|
  {
    Span(bs[..k])
  }

  predicate Aligned(bs: seq<Block>)
  {
    forall i | 0 <= i < |bs| :: bs[i].size % 4 == 0
  }

  /** The blocks tile the whole arena, with 4-byte aligned payload sizes. */
  predicate Tiles(bs: seq<Block>)
  {
    Span(bs) == HEAP_SIZE && Aligned(bs)
  }

  /** A heap state mem.c can be in: not yet initialised, or a tiling. */
  predicate HeapOk(bs: seq<Block>)
  {
    bs == [] || Tiles(bs)
  }

  predicate NoAdjacentFree(bs: seq<Block>)
  {
    forall i | 0 <= i < |bs| - 1 :: !(bs[i].free && bs[i + 1].free)
  }

  /** The block list mem_init writes: one free block over the whole arena. */
  function Initial(): (bs: seq<Block>)
    ensures Tiles(bs) && NoAdjacentFree(bs)
    ensures |bs| == 1 && Offset(bs, 0) == 0 && H + bs[0].size == HEAP_SIZE && bs[0].free
  {
    [Block(HEAP_SIZE - H, true)]
  }

  /** `(size + 3) & ~3` evaluated in a 32-bit size_t. */
  function Round4(size: nat): (n: nat)
    requires size < WORD_MOD
    ensures n % 4 == 0 && n < WORD_MOD
    ensures size <= WORD_MOD - 4 ==> size <= n < size + 4
    ensures size > WORD_MOD - 4 ==> n == 0
  {
    (size + 3) % WORD_MOD / 4 * 4
  }

  predicate Fits(b: Block, n: nat)
  {
    b.free && b.size >= n
  }

  /** The first block at or after index i that is free and holds n bytes, or |bs|. */
  function FirstFit(bs: seq<Block>, n: nat, i: nat): (k: nat)
    requires i <= |bs|
    ensures i <= k <= |bs|
    ensures k < |bs| ==> Fits(bs[k], n)
    ensures forall j | i <= j < k :: !Fits(bs[j], n)
    decreases |bs| - i
  {
    if i == |bs| then |bs|
    else if Fits(bs[i], n) then i
    else FirstFit(bs, n, i + 1)
  }

  /** Hand block k out for n bytes, splitting off the tail when it has room
      for a header and at least one more byte. */
  function Carve(bs: seq<Block>, k: nat, n: nat): seq<Block>
    requires k < |bs| && n <= bs[k].size
  {
    if bs[k].size > n + H then
      bs[..k] + [Block(n, false), Block(bs[k].size - n - H, true)] + bs[k + 1..]
    else
      bs[k := Block(bs[k].size, false)]
  }

  datatype AllocResult = AllocResult(blocks: seq<Block>, ptr: Ptr)

  /** mem_alloc: the new block list and the returned pointer. */
  function Alloc(bs: seq<Block>, size: nat): AllocResult
    requires size < WORD_MOD
  {
    var n := Round4(size);
    var k := FirstFit(bs, n, 0);
    if k == |bs| then AllocResult(bs, Null)
    else AllocResult(Carve(bs, k, n), At(Offset(bs, k) + H))
  }

  /** The index of the block whose payload starts at offset a (|bs| when none does):
      the `ptr - sizeof(mem_block_t)` step of mem_free on the block list. */
  function BlockIndex(bs: seq<Block>, a: int): (k: nat)
    ensures k <= |bs|
    ensures k < |bs| ==> Offset(bs, k) + H == a
  {
    if bs == [] then 0
    else if a == H then 0
    else
      var k := 1 + BlockIndex(bs[1..], a - H - bs[0].size);
      assert k < |bs| ==> bs[..k][1..] == bs[1..][..k - 1];
      k
  }

  /** What mem_free accepts: NULL or a pointer to the payload of some block. */
  predicate Freeable(bs: seq<Block>, p: Ptr)
  {
    p.Null? || BlockIndex(bs, p.off) < |bs|
  }

  /** Fold block i + 1 into block i. */
  function MergeAt(bs: seq<Block>, i: nat): seq<Block>
    requires i + 1 < |bs|
  {
    bs[..i] + [Block(bs[i].size + H + bs[i + 1].size, bs[i].free)] + bs[i + 2..]
  }

  /** The coalescing pass of mem_free from block i on: after a merge the
      pass stays on the same block, so a whole run of free blocks collapses. */
  function Coalesce(bs: seq<Block>, i: nat): seq<Block>
    decreases |bs| - i
  {
    if i + 1 >= |bs| then bs
    else if bs[i].free && bs[i + 1].free then Coalesce(MergeAt(bs, i), i)
    else Coalesce(bs, i + 1)
  }

  /** mem_free: mark the block free, then make one coalescing pass from the head. */
  function Free(bs: seq<Block>, p: Ptr): seq<Block>
    requires Freeable(bs, p)
  {
    match p
    case Null => bs
    case At(a) =>
      var k := BlockIndex(bs, a);
      Coalesce(bs[k := Block(bs[k].size, true)], 0)
  }

  /** Payload offsets (shifted by base) of the blocks that are handed out. */
  function AllocatedFrom(bs: seq<Block>, base: nat): set<nat>
  {
    if bs == [] then {}
    else (if bs[0].free then {} else {base + H}) + AllocatedFrom(bs[1..], base + H + bs[0].size)
  }

  /** Payload offsets of every block that is not free. */
  function Allocated(bs: seq<Block>): set<nat>
  {
    AllocatedFrom(bs, 0)
  }

  /** Number of blocks in use whose payload holds at least m bytes. */
  function CountInUse(bs: seq<Block>, m: nat): nat
  {
    if bs == [] then 0
    else (if !bs[0].free && bs[0].size >= m then 1 else 0) + CountInUse(bs[1..], m)
  }
}
