// The first-fit allocator of boot-loader/core/memory/heap.c. Every block is a 16-byte header,
// stored in the memory it manages, followed by its payload. The memory is an array of aligned
// 32-bit words, the width of every header field; address a lies in word a / 4.

module Heap {
  import opened Bits

  const USED_MAGIC: Word := 0x4445_5355
  const FREE_MAGIC: Word := 0x4545_5246
  const HEAD_SIZE: nat := 16
  const MEM_ALIGN: nat := 16

  // Word index of each header field.
  const NEXT: nat := 0
  const MAGIC: nat := 1
  const SIZE: nat := 2

  datatype Block = Block(addr: nat, size: nat, used: bool) {
    function Payload(): nat { addr + HEAD_SIZE }

    function End(): nat { addr + HEAD_SIZE + size }
  }

  /** Strictly ascending, non-overlapping blocks whose headers are 16-byte aligned. */
  ghost predicate Ordered(bs: seq<Block>) {
    && (forall i :: 0 <= i < |bs| ==> bs[i].addr % MEM_ALIGN == 0 && bs[i].addr > 0)
    && (forall i :: 0 < i < |bs| ==> bs[i - 1].End() <= bs[i].addr)
  }

  lemma {:induction false} Ascending(bs: seq<Block>, i: nat, j: nat)
    requires Ordered(bs) && i < j < |bs|
    ensures bs[i].End() <= bs[j].addr
  {
    if i + 1 < j {
      Ascending(bs, i, j - 1);
      assert bs[j - 1].End() <= bs[j].addr;
    }
  }

  // ---------------------------------------------------------------- specification

  predicate Reusable(b: Block, sz: nat, align: nat)
    requires align > 0
  {
    !b.used && b.Payload() % align == 0 && b.size >= sz
  }

  /** Index of the first reusable block, or the last index when there is none: the last block
      is never considered for reuse. */
  function FirstFit(bs: seq<Block>, sz: nat, align: nat, from: nat): (k: nat)
    requires align > 0 && from < |bs|
    ensures from <= k < |bs|
    ensures k < |bs| - 1 ==> Reusable(bs[k], sz, align)
    ensures forall i :: from <= i < k ==> !Reusable(bs[i], sz, align)
    decreases |bs| - from
  {
    if from == |bs| - 1 || Reusable(bs[from], sz, align) then from
    else FirstFit(bs, sz, align, from + 1)
  }

  ghost predicate NoWrap(end: nat, align: Word) {
    && end + 2 * HEAD_SIZE - 1 < TWO_32
    && AlignUp(end + HEAD_SIZE, MEM_ALIGN) + align - 1 < TWO_32
  }

  /** Payload address of a block appended behind a block ending at `end`. */
  function FreshPayload(end: nat, align: Word): (a: Word)
    requires IsPow2(align) && NoWrap(end, align)
    ensures a >= end + HEAD_SIZE && a % align == 0 && a % MEM_ALIGN == 0
  {
    RoundedAddress(end + HEAD_SIZE, align);
    var a := AlignUp(end + HEAD_SIZE, MEM_ALIGN);
    if a % align != 0 then AlignUp(a, align) else a
  }

  /** Rounding up to 16 and then to a larger power of two keeps both alignments. */
  lemma {:induction false} RoundedAddress(x: Word, align: Word)
    requires IsPow2(align) && x + MEM_ALIGN - 1 < TWO_32 && AlignUp(x, MEM_ALIGN) + align - 1 < TWO_32
    ensures var a := AlignUp(x, MEM_ALIGN);
      && x <= a <= AlignUp(a, align) && a % MEM_ALIGN == 0
      && AlignUp(a, align) % align == 0
      && (a % align != 0 ==> AlignUp(a, align) % MEM_ALIGN == 0)
  {
    SixteenIsPow2();
    AlignUpSpec(x, MEM_ALIGN);
    var a := AlignUp(x, MEM_ALIGN);
    AlignUpSpec(a, align);
    if align <= MEM_ALIGN {
      AlignedToSmaller(a, align, MEM_ALIGN);
    } else {
      AlignedToSmaller(AlignUp(a, align), MEM_ALIGN, align);
    }
  }

  lemma {:induction false} SixteenIsPow2()
    ensures IsPow2(MEM_ALIGN)
  {
    assert IsPow2(8);
  }

  /** Address of the very first header: the alignment is applied to the header, not to the
      payload. */
  function FirstHeader(base: Word, align: Word): (h: Word)
    requires IsPow2(align) && base % MEM_ALIGN == 0 && base > 0 && base + align - 1 < TWO_32
    ensures h >= base && h % MEM_ALIGN == 0 && h % align == 0
  {
    FirstRounded(base, align);
    if base % align != 0 then AlignUp(base, align) else base
  }

  lemma {:induction false} FirstRounded(base: Word, align: Word)
    requires IsPow2(align) && base % MEM_ALIGN == 0 && base + align - 1 < TWO_32
    ensures base <= AlignUp(base, align) && AlignUp(base, align) % align == 0
    ensures base % align != 0 ==> AlignUp(base, align) % MEM_ALIGN == 0
  {
    SixteenIsPow2();
    AlignUpSpec(base, align);
    if align <= MEM_ALIGN {
      AlignedToSmaller(base, align, MEM_ALIGN);
    } else {
      AlignedToSmaller(AlignUp(base, align), MEM_ALIGN, align);
    }
  }

  /** The allocation stays below `limit` and no address computation wraps. */
  ghost predicate Fits(base: Word, bs: seq<Block>, sz: Word, align: Word, limit: nat) {
    && IsPow2(align) && base % MEM_ALIGN == 0 && base > 0
    && if bs == [] then
         base + align - 1 < TWO_32 && FirstHeader(base, align) + HEAD_SIZE + sz <= limit
       else
         FirstFit(bs, sz, align, 0) < |bs| - 1 ||
         (var end := bs[|bs| - 1].End(); NoWrap(end, align) && FreshPayload(end, align) + sz <= limit)
  }

  /** Blocks after a successful request, and the address handed out. */
  function Allocate(base: Word, bs: seq<Block>, sz: Word, align: Word, ghost limit: nat): (r: (seq<Block>, nat))
    requires Fits(base, bs, sz, align, limit)
  {
    if bs == [] then
      var h := FirstHeader(base, align);
      ([Block(h, sz, true)], h + HEAD_SIZE)
    else
      var k := FirstFit(bs, sz, align, 0);
      if k < |bs| - 1 then
        (bs[k := bs[k].(used := true)], bs[k].Payload())
      else
        var a := FreshPayload(bs[|bs| - 1].End(), align);
        (bs + [Block(a - HEAD_SIZE, sz, true)], a)
  }

  /** Blocks after freeing: only a used block's mark changes. */
  function Release(bs: seq<Block>, p: nat): (r: seq<Block>)
    ensures |r| == |bs|
    ensures forall i :: 0 <= i < |bs| ==> r[i] == if bs[i].Payload() == p then bs[i].(used := false) else bs[i]
  {
    if bs == [] then []
    else [if bs[0].Payload() == p then bs[0].(used := false) else bs[0]] + Release(bs[1..], p)
  }

  // ---------------------------------------------------------------- the list in memory

  ghost predicate Within(bs: seq<Block>, limit: nat) {
    forall i :: 0 <= i < |bs| ==> bs[i].End() <= limit
  }

  function Mark(used: bool): Word {
    if used then USED_MAGIC else FREE_MAGIC
  }

  ghost predicate HeaderAt(m: seq<Word>, bs: seq<Block>, i: nat)
    requires i < |bs| && bs[i].End() <= 4 * |m|
  {
    var w := bs[i].addr / 4;
    && m[w + NEXT] == (if i + 1 < |bs| then bs[i + 1].addr else 0)
    && m[w + MAGIC] == Mark(bs[i].used)
    && m[w + SIZE] == bs[i].size
  }

  /** The headers stored in m spell out exactly the list bs. */
  ghost predicate ListAt(m: seq<Word>, bs: seq<Block>) {
    && Ordered(bs) && Within(bs, 4 * |m|) && 4 * |m| <= TWO_32
    && forall i :: 0 <= i < |bs| ==> HeaderAt(m, bs, i)
  }

  /** Every word overlapping a payload of bs is the same in both memories. */
  ghost predicate PayloadsKept(m: seq<Word>, m': seq<Word>, bs: seq<Block>)
    requires |m| == |m'| && Within(bs, 4 * |m|)
  {
    forall i, w :: 0 <= i < |bs| && bs[i].Payload() <= 4 * w + 3 && 4 * w < bs[i].End() ==> m'[w] == m[w]
  }

  /** A word of block k's header lies in no other header and in no payload. */
  lemma {:induction false} HeaderWordsApart(bs: seq<Block>, k: nat, i: nat)
    requires Ordered(bs) && k < |bs| && i < |bs|
    ensures i != k ==> bs[i].End() <= bs[k].addr || bs[k].End() <= bs[i].addr
  {
    if i < k {
      Ascending(bs, i, k);
    } else if k < i {
      Ascending(bs, k, i);
    }
  }

  lemma {:induction false} MarkHeader(m: seq<Word>, bs: seq<Block>, k: nat, used: bool, i: nat)
    requires ListAt(m, bs) && k < |bs| && i < |bs|
    ensures HeaderAt(m[bs[k].addr / 4 + MAGIC := Mark(used)], bs[k := bs[k].(used := used)], i)
  {
    assert HeaderAt(m, bs, i);
    HeaderWordsApart(bs, k, i);
  }

  /** Rewriting the mark of one block is the same as setting its flag. */
  lemma {:induction false} MarkList(m: seq<Word>, m': seq<Word>, bs: seq<Block>, bs': seq<Block>, k: nat, used: bool)
    requires ListAt(m, bs) && k < |bs|
    requires m' == m[bs[k].addr / 4 + MAGIC := Mark(used)] && bs' == bs[k := bs[k].(used := used)]
    ensures ListAt(m', bs') && PayloadsKept(m, m', bs)
  {
    forall i | 0 <= i < |bs'|
      ensures HeaderAt(m', bs', i)
    {
      MarkHeader(m, bs, k, used, i);
    }
    forall i, w | 0 <= i < |bs| && bs[i].Payload() <= 4 * w + 3 && 4 * w < bs[i].End()
      ensures m'[w] == m[w]
    {
      HeaderWordsApart(bs, k, i);
    }
  }

  /** Memory after a header for b is written and linked behind the last block. */
  ghost function Appended(m: seq<Word>, last: nat, b: Block): (m': seq<Word>)
    requires last % MEM_ALIGN == 0 && last + HEAD_SIZE <= b.addr
    requires b.End() <= 4 * |m| <= TWO_32 && b.addr % MEM_ALIGN == 0
    ensures |m'| == |m|
  {
    var w := b.addr / 4;
    m[w + MAGIC := USED_MAGIC][w + SIZE := b.size][w + NEXT := 0][last / 4 + NEXT := b.addr]
  }

  lemma {:induction false} BeforeLast(bs: seq<Block>, i: nat)
    requires Ordered(bs) && i < |bs|
    ensures i < |bs| - 1 ==> bs[i].End() <= bs[|bs| - 1].addr
  {
    if i < |bs| - 1 {
      Ascending(bs, i, |bs| - 1);
    }
  }

  lemma {:induction false} AppendHeader(m: seq<Word>, bs: seq<Block>, b: Block, i: nat)
    requires ListAt(m, bs) && bs != [] && b.used && b.addr % MEM_ALIGN == 0
    requires bs[|bs| - 1].End() <= b.addr && b.End() <= 4 * |m| && i <= |bs|
    requires i < |bs| ==> bs[i].End() <= 4 * |m|
    ensures HeaderAt(Appended(m, bs[|bs| - 1].addr, b), bs + [b], i)
  {
    if i < |bs| {
      assert HeaderAt(m, bs, i);
      BeforeLast(bs, i);
    }
  }

  lemma {:induction false} AppendKeepsWord(m: seq<Word>, bs: seq<Block>, b: Block, i: nat, w: nat)
    requires Ordered(bs) && i < |bs| && b.addr % MEM_ALIGN == 0
    requires bs[|bs| - 1].End() <= b.addr && b.End() <= 4 * |m| <= TWO_32
    requires bs[i].Payload() <= 4 * w + 3 && 4 * w < bs[i].End()
    ensures w < |m| && Appended(m, bs[|bs| - 1].addr, b)[w] == m[w]
  {
    BeforeLast(bs, i);
    WordApart(bs[|bs| - 1].addr, w);
    WordApart(b.addr, w);
  }

  /** A word outside a header is none of its four words. */
  lemma {:induction false} WordApart(a: nat, w: nat)
    requires a % MEM_ALIGN == 0 && (4 * w < a || a + HEAD_SIZE <= 4 * w + 3)
    ensures w < a / 4 || a / 4 + 4 <= w
  {
    assert a == 4 * (a / 4);
  }

  lemma {:induction false} AppendList(m: seq<Word>, m': seq<Word>, bs: seq<Block>, b: Block)
    requires ListAt(m, bs) && bs != [] && b.used && b.addr % MEM_ALIGN == 0
    requires bs[|bs| - 1].End() <= b.addr && b.End() <= 4 * |m|
    requires m' == Appended(m, bs[|bs| - 1].addr, b)
    ensures ListAt(m', bs + [b]) && PayloadsKept(m, m', bs)
  {
    var bs' := bs + [b];
    forall i | 0 <= i < |bs'|
      ensures HeaderAt(m', bs', i)
    {
      AppendHeader(m, bs, b, i);
    }
    forall i, w | 0 <= i < |bs| && bs[i].Payload() <= 4 * w + 3 && 4 * w < bs[i].End()
      ensures m'[w] == m[w]
    {
      AppendKeepsWord(m, bs, b, i, w);
    }
  }

  /** Writing one header makes the list of one block. */
  lemma {:induction false} FirstList(m: seq<Word>, b: Block)
    requires b.addr % MEM_ALIGN == 0 && b.addr > 0 && b.End() <= 4 * |m| <= TWO_32 && b.used
    ensures var w := b.addr / 4;
      && w + SIZE < |m|
      && ListAt(m[w + NEXT := 0][w + MAGIC := USED_MAGIC][w + SIZE := b.size], [b])
  {
  }

  /** The address arithmetic of the allocator, with masks as the code has them. */
  method RoundFresh(end: nat, align: Word) returns (a: nat)
    requires IsPow2(align) && NoWrap(end, align)
    ensures a == FreshPayload(end, align)
  {
    a := AlignUp(end + HEAD_SIZE, MEM_ALIGN);
    MaskIsMod(a, align);
    if BitAnd(a, align - 1) != 0 {
      a := AlignUp(a, align);
    }
  }

  method RoundFirst(base: Word, align: Word) returns (h: Word)
    requires IsPow2(align) && base % MEM_ALIGN == 0 && base > 0 && base + align - 1 < TWO_32
    ensures h == FirstHeader(base, align)
  {
    h := base;
    MaskIsMod(base, align);
    if BitAnd(base, align - 1) != 0 {
      h := AlignUp(base, align);
    }
  }

  method CanReuse(b: Block, sz: Word, align: Word) returns (fit: bool)
    requires IsPow2(align) && !b.used
    ensures fit == Reusable(b, sz, align)
  {
    MaskIsMod(b.Payload(), align);
    fit := BitAnd(b.Payload(), align - 1) == 0 && b.size >= sz;
  }

  method IsMisaligned(p: nat) returns (bad: bool)
    ensures bad == (p % MEM_ALIGN != 0)
  {
    SixteenIsPow2();
    MaskIsMod(p, MEM_ALIGN);
    bad := BitAnd(p, MEM_ALIGN - 1) != 0;
  }

  lemma {:induction false} ReleaseNone(bs: seq<Block>, p: nat)
    requires forall i :: 0 <= i < |bs| ==> bs[i].Payload() != p
    ensures Release(bs, p) == bs
  {
  }

  lemma {:induction false} ReleaseOne(bs: seq<Block>, p: nat, k: nat)
    requires Ordered(bs) && k < |bs| && bs[k].Payload() == p
    ensures Release(bs, p) == bs[k := bs[k].(used := false)]
  {
    forall i | 0 <= i < |bs| && i != k
      ensures bs[i].Payload() != p
    {
      if i < k {
        Ascending(bs, i, k);
      } else {
        Ascending(bs, k, i);
      }
    }
  }

  // ---------------------------------------------------------------- the allocator

  class Heap {
    const mem: array<Word>
    var base: Word          // bl_heap; 0 stands for NULL
    var occupied: nat       // occupied_blocks
    var freed: nat          // free_blocks
    ghost var blocks: seq<Block>

    ghost predicate Valid()
      reads this, mem
    {
      && ListAt(mem[..], blocks)
      && base % MEM_ALIGN == 0
      && (base == 0 ==> blocks == [])
      && (blocks == [] <==> occupied == 0 && freed == 0)
      && (blocks != [] ==> blocks[0].addr == base)
    }

    ghost function Limit(): nat {
      4 * mem.Length
    }

    /** bl_heap_init: the chosen start address, or 0 when initialisation gave up. */
    constructor (memory: array<Word>, start: Word)
      requires 4 * memory.Length <= TWO_32 && start % MEM_ALIGN == 0
      ensures Valid() && blocks == [] && base == start && mem == memory
    {
      mem := memory;
      base := start;
      occupied := 0;
      freed := 0;
      blocks := [];
    }

    /** bl_heap_alloc_align. An alignment of 0 counts as 1; any other that is not a power of two, like
        a missing heap, gives null and changes nothing. The requested alignment is met unless the heap
        was empty. */
    method AllocAlign(sz: Word, align: Word) returns (p: nat)
      requires Valid()
      requires base != 0 && IsPow2(align) ==> Fits(base, blocks, sz, align, Limit())
      requires base != 0 && align == 0 ==> Fits(base, blocks, sz, 1, Limit())
      modifies this, mem
      ensures Valid() && PayloadsKept(old(mem[..]), mem[..], old(blocks))
      ensures old(base) == 0 || (align != 0 && !IsPow2(align)) ==>
        p == 0 && blocks == old(blocks) && base == old(base) && mem[..] == old(mem[..])
      ensures old(base) != 0 && IsPow2(align) ==>
        (blocks, p) == Allocate(old(base), old(blocks), sz, align, Limit())
      ensures old(base) != 0 && align == 0 ==> (blocks, p) == Allocate(old(base), old(blocks), sz, 1, Limit())
      ensures p != 0 <==> old(base) != 0 && (align == 0 || IsPow2(align))
      ensures p % 16 == 0 && (p != 0 && old(blocks) != [] && align != 0 ==> p % align == 0)
    {
      if base == 0 {
        return 0;
      }
      var n := if align == 0 then 1 else align;
      PowerOfTwoTest(n);
      if BitAnd(n, n - 1) != 0 {
        return 0;
      }
      if occupied == 0 && freed == 0 {
        p := AllocFirst(sz, n);
      } else {
        p := AllocFrom(sz, n);
      }
    }

    /** The first request: the heap start is rounded up and the only header is written there. */
    method AllocFirst(sz: Word, align: Word) returns (p: nat)
      requires Valid() && base != 0 && blocks == [] && Fits(base, blocks, sz, align, Limit())
      modifies this, mem
      ensures Valid() && (blocks, p) == Allocate(old(base), [], sz, align, Limit())
      ensures p > 0 && p % MEM_ALIGN == 0
    {
      var h := RoundFirst(base, align);
      p := WriteFirst(h, sz);
    }

    method WriteFirst(h: Word, sz: Word) returns (p: nat)
      requires Valid() && blocks == [] && h % MEM_ALIGN == 0 && h > 0 && h + HEAD_SIZE + sz <= Limit()
      modifies this, mem
      ensures Valid() && blocks == [Block(h, sz, true)] && p == h + HEAD_SIZE && p % MEM_ALIGN == 0
    {
      ghost var m0: seq<Word> := mem[..];
      base := h;
      occupied := occupied + 1;
      mem[h / 4 + NEXT], mem[h / 4 + MAGIC], mem[h / 4 + SIZE] := 0, USED_MAGIC, sz;
      assert mem[..] == m0[h / 4 + NEXT := 0][h / 4 + MAGIC := USED_MAGIC][h / 4 + SIZE := sz];
      blocks := [Block(h, sz, true)];
      FirstList(m0, blocks[0]);
      p := h + HEAD_SIZE;
    }

    /** The header of block k, read at its address. A mark that is neither USED nor FREE would
        end the walk with a null pointer; no valid list holds one. */
    method ReadHeader(q: nat, ghost k: nat) returns (b: Block, next: Word)
      requires Valid() && k < |blocks| && q == blocks[k].addr
      ensures b == blocks[k] && next == if k + 1 < |blocks| then blocks[k + 1].addr else 0
    {
      assert HeaderAt(mem[..], blocks, k);
      next := mem[q / 4 + NEXT];
      b := Block(q, mem[q / 4 + SIZE], mem[q / 4 + MAGIC] == USED_MAGIC);
      if mem[q / 4 + MAGIC] != FREE_MAGIC && mem[q / 4 + MAGIC] != USED_MAGIC {
        assert false;
      }
    }

    /** The list walk of __bl_heap_alloc_align: stops at the first reusable block or, with
        `found` false, at the last one. */
    method Walk(sz: Word, align: Word) returns (q: nat, found: bool, ghost k: nat)
      requires Valid() && blocks != [] && IsPow2(align)
      ensures k == FirstFit(blocks, sz, align, 0)
      ensures q == blocks[FirstFit(blocks, sz, align, 0)].addr
      ensures found == (FirstFit(blocks, sz, align, 0) < |blocks| - 1)
    {
      ghost var stop := FirstFit(blocks, sz, align, 0);
      k, found := 0, false;
      var b, next := ReadHeader(base, 0);
      while next != 0
        invariant k < |blocks| && b == blocks[k]
        invariant next == if k + 1 < |blocks| then blocks[k + 1].addr else 0
        invariant stop == FirstFit(blocks, sz, align, k)
        decreases |blocks| - k
      {
        if !b.used {
          var fit := CanReuse(b, sz, align);
          if fit {
            return b.addr, true, k;
          }
        }
        k := k + 1;
        b, next := ReadHeader(next, k);
      }
      q := b.addr;
    }

    /** __bl_heap_alloc_align: reuse a block or append one. */
    method AllocFrom(sz: Word, align: Word) returns (p: nat)
      requires Valid() && base != 0 && blocks != [] && Fits(base, blocks, sz, align, Limit())
      modifies this, mem
      ensures Valid() && PayloadsKept(old(mem[..]), mem[..], old(blocks))
      ensures (blocks, p) == Allocate(old(base), old(blocks), sz, align, Limit())
      ensures p > 0 && p % MEM_ALIGN == 0 && p % align == 0
    {
      var q, found, k := Walk(sz, align);
      if found {
        SetMark(q, k, true);
        return q + HEAD_SIZE;
      }
      p := AppendBehind(q, sz, align);
    }

    /** A new block of the wanted size behind the last one. */
    method AppendBehind(q: nat, sz: Word, align: Word) returns (p: nat)
      requires Valid() && blocks != [] && q == blocks[|blocks| - 1].addr
      requires IsPow2(align) && NoWrap(blocks[|blocks| - 1].End(), align)
      requires FreshPayload(blocks[|blocks| - 1].End(), align) + sz <= Limit()
      modifies this`blocks, mem
      ensures Valid() && PayloadsKept(old(mem[..]), mem[..], old(blocks))
      ensures p == FreshPayload(old(blocks)[|old(blocks)| - 1].End(), align)
      ensures blocks == old(blocks) + [Block(p - HEAD_SIZE, sz, true)]
    {
      assert HeaderAt(mem[..], blocks, |blocks| - 1);
      p := RoundFresh(q + HEAD_SIZE + mem[q / 4 + SIZE], align);
      Append(q, p, sz);
    }

    method SetMark(q: nat, ghost k: nat, used: bool)
      requires Valid() && k < |blocks| && q == blocks[k].addr
      modifies this`blocks, mem
      ensures Valid() && PayloadsKept(old(mem[..]), mem[..], old(blocks))
      ensures blocks == old(blocks)[k := old(blocks)[k].(used := used)]
    {
      ghost var m0, bs0 := mem[..], blocks;
      mem[q / 4 + MAGIC] := Mark(used);
      blocks := blocks[k := blocks[k].(used := used)];
      MarkList(m0, mem[..], bs0, blocks, k, used);
    }

    /** Header of a new last block, then the link from the old one. */
    method Append(q: nat, p: Word, sz: Word)
      requires Valid() && blocks != [] && q == blocks[|blocks| - 1].addr
      requires p % MEM_ALIGN == 0 && p >= blocks[|blocks| - 1].End() + HEAD_SIZE && p + sz <= Limit()
      modifies this`blocks, mem
      ensures Valid() && PayloadsKept(old(mem[..]), mem[..], old(blocks))
      ensures blocks == old(blocks) + [Block(p - HEAD_SIZE, sz, true)]
    {
      ghost var m0, bs0, b := mem[..], blocks, Block(p - HEAD_SIZE, sz, true);
      var h := (p - HEAD_SIZE) / 4;
      mem[h + MAGIC] := USED_MAGIC;
      mem[h + SIZE] := sz;
      mem[h + NEXT] := 0;
      mem[q / 4 + NEXT] := p - HEAD_SIZE;
      assert mem[..] == Appended(m0, q, b);
      AppendList(m0, mem[..], bs0, b);
      blocks := blocks + [b];
    }

    /** bl_heap_free. A misaligned address is ignored; so is a block that is already free. */
    method Free(p: nat)
      requires Valid()
      requires p % MEM_ALIGN == 0 ==> exists i :: 0 <= i < |blocks| && blocks[i].Payload() == p
      modifies this`blocks, this`freed, mem
      ensures Valid() && PayloadsKept(old(mem[..]), mem[..], old(blocks))
      ensures blocks == Release(old(blocks), p)
    {
      var bad := IsMisaligned(p);
      if bad {
        ReleaseNone(blocks, p);
        return;
      }
      ghost var k :| 0 <= k < |blocks| && blocks[k].Payload() == p;
      ReleaseOne(blocks, p, k);
      FreeBlock(p - HEAD_SIZE, k);
    }

    method FreeBlock(q: nat, ghost k: nat)
      requires Valid() && k < |blocks| && q == blocks[k].addr
      modifies this`blocks, this`freed, mem
      ensures Valid() && PayloadsKept(old(mem[..]), mem[..], old(blocks))
      ensures blocks == old(blocks)[k := old(blocks)[k].(used := false)]
    {
      assert HeaderAt(mem[..], blocks, k);
      if mem[q / 4 + MAGIC] == USED_MAGIC {
        freed := freed + 1;
        SetMark(q, k, false);
      }
    }

    /** A client storing to a word of its own payload. */
    method WritePayload(w: nat, v: Word)
      requires Valid()
      requires exists i :: 0 <= i < |blocks| && blocks[i].Payload() <= 4 * w + 3 && 4 * w < blocks[i].End()
      modifies mem
      ensures Valid()
      ensures mem[..] == old(mem[..])[w := v]
    {
      ghost var k :| 0 <= k < |blocks| && blocks[k].Payload() <= 4 * w + 3 && 4 * w < blocks[k].End();
      ghost var m0: seq<Word> := mem[..];
      mem[w] := v;
      assert mem[..] == m0[w := v];
      PayloadList(m0, blocks, k, w, v);
    }
  }

  lemma {:induction false} PayloadHeader(m: seq<Word>, bs: seq<Block>, k: nat, w: nat, v: Word, i: nat)
    requires ListAt(m, bs) && k < |bs| && bs[k].Payload() <= 4 * w + 3 && 4 * w < bs[k].End() && i < |bs|
    ensures w < |m| && HeaderAt(m[w := v], bs, i)
  {
    assert HeaderAt(m, bs, i);
    HeaderWordsApart(bs, k, i);
    WordApart(bs[i].addr, w);
  }

  /** Writes inside a payload leave the list alone. */
  lemma {:induction false} PayloadList(m: seq<Word>, bs: seq<Block>, k: nat, w: nat, v: Word)
    requires ListAt(m, bs) && k < |bs| && bs[k].Payload() <= 4 * w + 3 && 4 * w < bs[k].End()
    ensures w < |m| && ListAt(m[w := v], bs)
  {
    var m' := m[w := v];
    forall i | 0 <= i < |bs|
      ensures HeaderAt(m', bs, i)
    {
      PayloadHeader(m, bs, k, w, v, i);
    }
  }
}
