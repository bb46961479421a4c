// Whole-run safety of the allocator: every history of requests and valid frees.

module HeapRuns {
  import opened Bits
  import opened Heap

  datatype Op = Alloc(sz: Word, align: Word) | Free(p: nat)

  /** `live` records what clients hold: each address handed out and not yet freed, with the
      size that was asked for. */
  datatype State = State(base: Word, blocks: seq<Block>, live: map<nat, nat>)

  ghost predicate Init(s: State) {
    s.blocks == [] && s.live == map[] && s.base % MEM_ALIGN == 0 && s.base > 0
  }

  /** A free is valid when the address is misaligned, is held, or belongs to a block that is
      already free (a double free). */
  ghost predicate ValidFree(s: State, p: nat) {
    p % MEM_ALIGN != 0 || exists i :: 0 <= i < |s.blocks| && s.blocks[i].Payload() == p
  }

  ghost predicate Step(s: State, op: Op, s': State, limit: nat)
    requires limit <= TWO_32
  {
    match op
    case Alloc(sz, align) =>
      && Fits(s.base, s.blocks, sz, align, limit)
      && (var (bs, p) := Allocate(s.base, s.blocks, sz, align, limit);
          && s'.blocks == bs && s'.live == s.live[p := sz]
          && s'.base == if s.blocks == [] then FirstHeader(s.base, align) else s.base)
    case Free(p) =>
      ValidFree(s, p) && s' == s.(blocks := Release(s.blocks, p), live := s.live - {p})
  }

  /** Histories leave out no request that the memory has room for, ... */
  lemma {:induction false} RequestsAreSteps(s: State, sz: Word, align: Word, limit: nat)
    requires limit <= TWO_32 && Fits(s.base, s.blocks, sz, align, limit)
    ensures exists s' :: Step(s, Alloc(sz, align), s', limit)
  {
    var (bs, p) := Allocate(s.base, s.blocks, sz, align, limit);
    var base := if s.blocks == [] then FirstHeader(s.base, align) else s.base;
    assert Step(s, Alloc(sz, align), State(base, bs, s.live[p := sz]), limit);
  }

  /** ... and no free of a misaligned address or of any block, used or not. */
  lemma {:induction false} FreesAreSteps(s: State, p: nat, limit: nat)
    requires limit <= TWO_32
    requires p % 16 != 0 || exists i :: 0 <= i < |s.blocks| && s.blocks[i].addr + 16 == p
    ensures exists s' :: Step(s, Free(p), s', limit)
  {
    if i :| 0 <= i < |s.blocks| && s.blocks[i].addr + 16 == p {
      assert s.blocks[i].Payload() == p;
    }
    assert Step(s, Free(p), s.(blocks := Release(s.blocks, p), live := s.live - {p}), limit);
  }

  ghost predicate Run(states: seq<State>, ops: seq<Op>, limit: nat)
    requires limit <= TWO_32
  {
    && |states| == |ops| + 1
    && Init(states[0])
    && forall i :: 0 <= i < |ops| ==> Step(states[i], ops[i], states[i + 1], limit)
  }

  ghost predicate Holds(bs: seq<Block>, p: nat, sz: nat, i: nat) {
    i < |bs| && bs[i].used && bs[i].Payload() == p && sz <= bs[i].size
  }

  ghost predicate Inv(s: State, limit: nat) {
    && s.base % MEM_ALIGN == 0 && s.base > 0
    && Ordered(s.blocks) && Within(s.blocks, limit)
    && (forall p :: p in s.live ==> exists i :: Holds(s.blocks, p, s.live[p], i))
    && (forall i :: 0 <= i < |s.blocks| && s.blocks[i].used ==> s.blocks[i].Payload() in s.live)
  }

  /** Position of the block that serves a request. */
  ghost function Slot(bs: seq<Block>, sz: Word, align: Word): nat
    requires align > 0
  {
    if bs == [] then 0
    else if FirstFit(bs, sz, align, 0) < |bs| - 1 then FirstFit(bs, sz, align, 0)
    else |bs|
  }

  /** bs' differs from bs in one block, which is used, has payload p and room for sz: either a
      free block taken over as it is, or a new last block. */
  ghost predicate TouchesOneBlock(bs: seq<Block>, bs': seq<Block>, p: nat, sz: nat, k: nat) {
    && k < |bs'| == (if k < |bs| then |bs| else |bs| + 1)
    && Holds(bs', p, sz, k)
    && (k < |bs| ==> !bs[k].used && bs'[k] == bs[k].(used := true))
    && (forall i :: 0 <= i < |bs| && i != k ==> bs'[i] == bs[i])
  }

  /** What one request does to the list. */
  lemma {:induction false} AllocateTouchesOneBlock(base: Word, bs: seq<Block>, sz: Word, align: Word, limit: nat)
    requires limit <= TWO_32 && Ordered(bs) && Within(bs, limit)
    requires Fits(base, bs, sz, align, limit)
    ensures var (bs', p) := Allocate(base, bs, sz, align, limit);
      Ordered(bs') && Within(bs', limit) && TouchesOneBlock(bs, bs', p, sz, Slot(bs, sz, align))
  {
    if bs != [] {
      if FirstFit(bs, sz, align, 0) < |bs| - 1 {
        MarkedOrdered(bs, FirstFit(bs, sz, align, 0), limit);
      } else {
        AppendTouchesOneBlock(base, bs, sz, align, limit);
      }
    }
  }

  lemma {:induction false} NewBlockFresh(base: Word, bs: seq<Block>, sz: Word, align: Word, limit: nat)
    requires bs != [] && Fits(base, bs, sz, align, limit) && FirstFit(bs, sz, align, 0) == |bs| - 1
    ensures var end := bs[|bs| - 1].addr + 16 + bs[|bs| - 1].size;
      && NoWrap(end, align)
      && var a := FreshPayload(end, align);
      Allocate(base, bs, sz, align, limit) == (bs + [Block(a - 16, sz, true)], a)
  {
  }

  lemma {:induction false} AppendTouchesOneBlock(base: Word, bs: seq<Block>, sz: Word, align: Word, limit: nat)
    requires limit <= TWO_32 && Ordered(bs) && Within(bs, limit) && bs != []
    requires Fits(base, bs, sz, align, limit) && FirstFit(bs, sz, align, 0) == |bs| - 1
    ensures var (bs', p) := Allocate(base, bs, sz, align, limit);
      Ordered(bs') && Within(bs', limit) && TouchesOneBlock(bs, bs', p, sz, |bs|)
  {
    NewBlockFresh(base, bs, sz, align, limit);
    AppendedTouches(bs, FreshPayload(bs[|bs| - 1].End(), align), sz, limit);
  }

  lemma {:induction false} AppendedTouches(bs: seq<Block>, a: nat, sz: Word, limit: nat)
    requires Ordered(bs) && Within(bs, limit) && bs != []
    requires a % MEM_ALIGN == 0 && a >= bs[|bs| - 1].End() + HEAD_SIZE && a + sz <= limit
    ensures var bs' := bs + [Block(a - HEAD_SIZE, sz, true)];
      Ordered(bs') && Within(bs', limit) && TouchesOneBlock(bs, bs', a, sz, |bs|)
  {
    var b := Block(a - HEAD_SIZE, sz, true);
    assert b.addr % MEM_ALIGN == 0;
    OrderedAppend(bs, b);
  }

  lemma {:induction false} MarkedOrdered(bs: seq<Block>, k: nat, limit: nat)
    requires Ordered(bs) && Within(bs, limit) && k < |bs|
    ensures Ordered(bs[k := bs[k].(used := true)]) && Within(bs[k := bs[k].(used := true)], limit)
  {
  }

  lemma {:induction false} OrderedAppend(bs: seq<Block>, b: Block)
    requires Ordered(bs) && bs != [] && b.addr % MEM_ALIGN == 0 && bs[|bs| - 1].End() <= b.addr
    ensures Ordered(bs + [b])
  {
  }

  lemma {:induction false} FirstAlignment(base: Word, sz: Word, align: Word, limit: nat)
    requires Fits(base, [], sz, align, limit)
    ensures var p := Allocate(base, [], sz, align, limit).1;
      p % MEM_ALIGN == 0 && (p % align == 0 <==> align <= MEM_ALIGN)
  {
    var h := FirstHeader(base, align);
    HeaderSpoils(h, align);
    SixteenMore(h);
    assert Allocate(base, [], sz, align, limit).1 == h + HEAD_SIZE;
  }

  lemma {:induction false} LaterAlignment(base: Word, bs: seq<Block>, sz: Word, align: Word, limit: nat)
    requires Fits(base, bs, sz, align, limit) && bs != [] && Ordered(bs)
    ensures var p := Allocate(base, bs, sz, align, limit).1;
      p % MEM_ALIGN == 0 && p % align == 0
  {
    var k := FirstFit(bs, sz, align, 0);
    if k < |bs| - 1 {
      assert Allocate(base, bs, sz, align, limit).1 == bs[k].Payload();
    } else {
      assert Allocate(base, bs, sz, align, limit).1 == FreshPayload(bs[|bs| - 1].End(), align);
    }
  }

  /** The requested alignment is met by every request except the first, where the 16-byte
      header spoils any alignment above 16. */
  lemma {:induction false} AlignmentMet(base: Word, bs: seq<Block>, sz: Word, align: Word, limit: nat)
    requires Fits(base, bs, sz, align, limit) && Ordered(bs)
    ensures var p := Allocate(base, bs, sz, align, limit).1;
      && p % MEM_ALIGN == 0
      && (p % align == 0 <==> bs != [] || align <= MEM_ALIGN)
  {
    if bs == [] {
      FirstAlignment(base, sz, align, limit);
    } else {
      LaterAlignment(base, bs, sz, align, limit);
    }
  }

  lemma {:induction false} SixteenMore(h: nat)
    requires h % MEM_ALIGN == 0
    ensures (h + HEAD_SIZE) % MEM_ALIGN == 0
  {
  }

  /** Behind an aligned header the payload is aligned up to 16 only. */
  lemma {:induction false} HeaderSpoils(h: nat, align: nat)
    requires IsPow2(align) && h % align == 0
    ensures (h + HEAD_SIZE) % align == 0 <==> align <= MEM_ALIGN
  {
    SumAligned(h, HEAD_SIZE, align);
    SixteenIsPow2();
    if align <= MEM_ALIGN {
      Pow2Divides(align, MEM_ALIGN);
    } else {
      ModUnique(HEAD_SIZE, align, 0, HEAD_SIZE);
    }
  }

  lemma {:induction false} SamePayload(bs: seq<Block>, i: nat, j: nat)
    requires Ordered(bs) && i < |bs| && j < |bs| && bs[i].Payload() == bs[j].Payload()
    ensures i == j
  {
    HeaderWordsApart(bs, i, j);
  }

  lemma {:induction false} StepKeepsInv(s: State, op: Op, s': State, limit: nat)
    requires limit <= TWO_32 && Inv(s, limit) && Step(s, op, s', limit)
    ensures Inv(s', limit)
    ensures op.Alloc? ==> Allocate(s.base, s.blocks, op.sz, op.align, limit).1 !in s.live
  {
    match op
    case Alloc(sz, align) =>
      AllocKeepsInv(s, sz, align, s', limit);
    case Free(p) =>
      FreeKeepsInv(s, p, s', limit);
  }

  lemma {:induction false} AllocKeepsInv(s: State, sz: Word, align: Word, s': State, limit: nat)
    requires limit <= TWO_32 && Inv(s, limit) && Step(s, Alloc(sz, align), s', limit)
    ensures Inv(s', limit)
    ensures Allocate(s.base, s.blocks, sz, align, limit).1 !in s.live
  {
    AllocateTouchesOneBlock(s.base, s.blocks, sz, align, limit);
    var (bs, p) := Allocate(s.base, s.blocks, sz, align, limit);
    var k := Slot(s.blocks, sz, align);
    forall x | x in s.live
      ensures x != p && exists i :: Holds(bs, x, s.live[x], i)
    {
      HeldStays(s, bs, p, sz, k, limit, x);
    }
  }

  /** What is held stays held where it is, and is not what the request answers with. */
  lemma {:induction false} HeldStays(s: State, bs: seq<Block>, p: nat, sz: nat, k: nat, limit: nat, x: nat)
    requires Inv(s, limit) && Ordered(bs) && TouchesOneBlock(s.blocks, bs, p, sz, k) && x in s.live
    ensures x != p && exists i :: Holds(bs, x, s.live[x], i)
  {
    var i :| Holds(s.blocks, x, s.live[x], i);
    if x == p {
      SamePayload(bs, i, k);
    }
    assert Holds(bs, x, s.live[x], i);
  }

  lemma {:induction false} ReleasedLive(s: State, p: nat, limit: nat, x: nat)
    requires Inv(s, limit) && x in s.live && x != p
    ensures exists i :: Holds(Release(s.blocks, p), x, s.live[x], i)
  {
    var i :| Holds(s.blocks, x, s.live[x], i);
    assert Holds(Release(s.blocks, p), x, s.live[x], i);
  }

  lemma {:induction false} ReleasedUsed(s: State, p: nat, limit: nat, i: nat)
    requires Inv(s, limit) && i < |s.blocks| && Release(s.blocks, p)[i].used
    ensures Release(s.blocks, p)[i].Payload() in s.live - {p}
  {
  }

  lemma {:induction false} FreeKeepsInv(s: State, p: nat, s': State, limit: nat)
    requires limit <= TWO_32 && Inv(s, limit) && Step(s, Free(p), s', limit)
    ensures Inv(s', limit)
  {
    var r := Release(s.blocks, p);
    ReleasedOrdered(s.blocks, p, limit);
    forall x | x in s'.live
      ensures exists i :: Holds(r, x, s'.live[x], i)
    {
      ReleasedLive(s, p, limit, x);
    }
    forall i | 0 <= i < |r| && r[i].used
      ensures r[i].Payload() in s'.live
    {
      ReleasedUsed(s, p, limit, i);
    }
  }

  lemma {:induction false} ReleasedOrdered(bs: seq<Block>, p: nat, limit: nat)
    requires Ordered(bs) && Within(bs, limit)
    ensures Ordered(Release(bs, p)) && Within(Release(bs, p), limit)
  {
    var r := Release(bs, p);
    forall i | 0 < i < |r|
      ensures r[i - 1].End() <= r[i].addr
    {
      assert bs[i - 1].End() <= bs[i].addr;
    }
  }

  /** Every state of every run satisfies the invariant. */
  lemma {:induction false} RunKeepsInv(states: seq<State>, ops: seq<Op>, limit: nat, n: nat)
    requires limit <= TWO_32 && Run(states, ops, limit) && n < |states|
    ensures Inv(states[n], limit)
  {
    if n > 0 {
      RunKeepsInv(states, ops, limit, n - 1);
      StepKeepsInv(states[n - 1], ops[n - 1], states[n], limit);
    }
  }

  ghost predicate Apart(a: nat, m: nat, b: nat, n: nat) {
    a + m <= b || b + n <= a
  }

  /** What clients hold is 16-byte aligned, inside the memory, disjoint from everything else they
      hold, and disjoint from every header. */
  ghost predicate SafeAt(s: State, p: nat, limit: nat)
    requires p in s.live
  {
    && p % MEM_ALIGN == 0 && p + s.live[p] <= limit
    && (forall q :: q in s.live && q != p ==> Apart(p, s.live[p], q, s.live[q]))
    && (forall i :: 0 <= i < |s.blocks| ==> Apart(p, s.live[p], s.blocks[i].addr, HEAD_SIZE))
  }

  lemma {:induction false} HeldApart(s: State, limit: nat, p: nat, q: nat)
    requires Inv(s, limit) && p in s.live && q in s.live && q != p
    ensures Apart(p, s.live[p], q, s.live[q])
  {
    var j :| Holds(s.blocks, p, s.live[p], j);
    var i :| Holds(s.blocks, q, s.live[q], i);
    HeaderWordsApart(s.blocks, j, i);
  }

  lemma {:induction false} HeldInside(s: State, limit: nat, p: nat, j: nat, i: nat)
    requires Inv(s, limit) && p in s.live && Holds(s.blocks, p, s.live[p], j) && i < |s.blocks|
    ensures p % MEM_ALIGN == 0 && p + s.live[p] <= limit
    ensures Apart(p, s.live[p], s.blocks[i].addr, HEAD_SIZE)
  {
    SixteenMore(s.blocks[j].addr);
    HeaderWordsApart(s.blocks, j, i);
  }

  lemma {:induction false} StateSafety(s: State, limit: nat, p: nat)
    requires Inv(s, limit) && p in s.live
    ensures SafeAt(s, p, limit)
  {
    var j :| Holds(s.blocks, p, s.live[p], j);
    HeldInside(s, limit, p, j, j);
    forall i | 0 <= i < |s.blocks|
      ensures Apart(p, s.live[p], s.blocks[i].addr, HEAD_SIZE)
    {
      HeldInside(s, limit, p, j, i);
    }
    forall q | q in s.live && q != p
      ensures Apart(p, s.live[p], q, s.live[q])
    {
      HeldApart(s, limit, p, q);
    }
  }

  /** Safety over every run. */
  lemma {:induction false} RunSafety(states: seq<State>, ops: seq<Op>, limit: nat, n: nat, p: nat)
    requires limit <= TWO_32 && Run(states, ops, limit) && n < |states|
    requires p in states[n].live
    ensures SafeAt(states[n], p, limit)
  {
    RunKeepsInv(states, ops, limit, n);
    StateSafety(states[n], limit, p);
  }

  /** A request answered in a run returns an address nobody holds. */
  lemma {:induction false} RunReturnsFresh(states: seq<State>, ops: seq<Op>, limit: nat, n: nat)
    requires limit <= TWO_32 && Run(states, ops, limit) && n < |ops| && ops[n].Alloc?
    ensures Step(states[n], ops[n], states[n + 1], limit)
    ensures Allocate(states[n].base, states[n].blocks, ops[n].sz, ops[n].align, limit).1 !in states[n].live
  {
    RunKeepsInv(states, ops, limit, n);
    StepKeepsInv(states[n], ops[n], states[n + 1], limit);
  }

  /** The walk finds a block before the last exactly when one of those is reusable. */
  lemma {:induction false} FirstFitExists(bs: seq<Block>, sz: nat, align: nat, from: nat)
    requires align > 0 && from < |bs|
    ensures FirstFit(bs, sz, align, from) < |bs| - 1 <==>
            exists i :: from <= i < |bs| - 1 && Reusable(bs[i], sz, align)
    decreases |bs| - from
  {
    if from < |bs| - 1 && !Reusable(bs[from], sz, align) {
      FirstFitExists(bs, sz, align, from + 1);
    }
  }

  /** A request is served without a new block if and only if some block before the last is free,
      large enough and, behind its 16-byte header, aligned as requested. */
  lemma {:induction false} ReusedExactly(base: Word, bs: seq<Block>, sz: Word, align: Word, limit: nat)
    requires Ordered(bs) && bs != [] && Fits(base, bs, sz, align, limit)
    ensures |Allocate(base, bs, sz, align, limit).0| == |bs| <==>
            exists i :: 0 <= i < |bs| - 1 && !bs[i].used && bs[i].size >= sz && (bs[i].addr + 16) % align == 0
  {
    FirstFitExists(bs, sz, align, 0);
    AllocateLength(base, bs, sz, align, limit);
    var k := FirstFit(bs, sz, align, 0);
    if k < |bs| - 1 {
      assert !bs[k].used && bs[k].size >= sz && (bs[k].addr + 16) % align == 0;
    }
  }

  /** The first such block is taken, its payload handed out whole, and nothing else changes. */
  lemma {:induction false} FirstReused(base: Word, bs: seq<Block>, sz: Word, align: Word, limit: nat, k: nat)
    requires Ordered(bs) && k < |bs| - 1 && Fits(base, bs, sz, align, limit)
    requires !bs[k].used && bs[k].size >= sz && (bs[k].addr + 16) % align == 0
    requires forall i :: 0 <= i < k ==> bs[i].used || bs[i].size < sz || (bs[i].addr + 16) % align != 0
    ensures Allocate(base, bs, sz, align, limit) == (bs[k := Block(bs[k].addr, bs[k].size, true)], bs[k].addr + 16)
  {
    FirstFitIs(bs, sz, align, 0, k);
  }

  lemma {:induction false} FirstFitIs(bs: seq<Block>, sz: nat, align: nat, from: nat, k: nat)
    requires align > 0 && from <= k < |bs|
    requires k < |bs| - 1 ==> !bs[k].used && bs[k].size >= sz && (bs[k].addr + 16) % align == 0
    requires forall i :: from <= i < k ==> bs[i].used || bs[i].size < sz || (bs[i].addr + 16) % align != 0
    ensures FirstFit(bs, sz, align, from) == k
    decreases k - from
  {
    if from < k {
      FirstFitIs(bs, sz, align, from + 1, k);
    }
  }

  lemma {:induction false} FreshIsLeast(end: nat, align: Word, a: nat)
    requires IsPow2(align) && NoWrap(end, align) && a == FreshPayload(end, align)
    ensures a >= end + 16 && a % 16 == 0 && a % align == 0
    ensures forall x :: end + 16 <= x < a ==> x % 16 != 0 || x % align != 0
  {
    forall x | end + 16 <= x < a
      ensures x % 16 != 0 || x % align != 0
    {
      if x % 16 == 0 && x % align == 0 {
        FreshLeast(end, align, x);
      }
    }
  }

  /** Without one, a block of exactly the size asked for is added. Its payload is the least address with
      room for a header behind the last block that is a multiple of 16 and of the alignment. */
  lemma {:induction false} NewBlockLeast(base: Word, bs: seq<Block>, sz: Word, align: Word, limit: nat, p: nat)
    requires Ordered(bs) && bs != [] && Fits(base, bs, sz, align, limit)
    requires forall i :: 0 <= i < |bs| - 1 ==> bs[i].used || bs[i].size < sz || (bs[i].addr + 16) % align != 0
    requires p == Allocate(base, bs, sz, align, limit).1
    ensures p >= bs[|bs| - 1].addr + 16 + bs[|bs| - 1].size + 16 && p % 16 == 0 && p % align == 0
    ensures Allocate(base, bs, sz, align, limit).0 == bs + [Block(p - 16, sz, true)]
    ensures forall x :: bs[|bs| - 1].addr + 16 + bs[|bs| - 1].size + 16 <= x < p ==> x % 16 != 0 || x % align != 0
  {
    FirstFitIs(bs, sz, align, 0, |bs| - 1);
    NewBlockFresh(base, bs, sz, align, limit);
    FreshIsLeast(bs[|bs| - 1].addr + 16 + bs[|bs| - 1].size, align, p);
  }

  lemma {:induction false} FreshLeast(end: nat, align: Word, x: nat)
    requires IsPow2(align) && NoWrap(end, align) && end + HEAD_SIZE <= x && x % 16 == 0 && x % align == 0
    ensures FreshPayload(end, align) <= x
  {
    SixteenIsPow2();
    AlignUpIsRoundUp(end + HEAD_SIZE, MEM_ALIGN);
    RoundUpLeast(end + HEAD_SIZE, MEM_ALIGN, x);
    var a := AlignUp(end + HEAD_SIZE, MEM_ALIGN);
    AlignUpIsRoundUp(a, align);
    RoundUpLeast(a, align, x);
  }

  /** The very first block: its header is the least address at or above the start that is a multiple of
      16 and of the alignment. */
  lemma {:induction false} FirstBlockLeast(base: Word, sz: Word, align: Word, limit: nat)
    requires Fits(base, [], sz, align, limit)
    ensures var (bs, p) := Allocate(base, [], sz, align, limit);
      && p >= base + 16 && p % 16 == 0 && (p - 16) % align == 0 && bs == [Block(p - 16, sz, true)]
      && forall x :: base <= x < p - 16 ==> x % 16 != 0 || x % align != 0
  {
    var h := FirstHeader(base, align);
    SixteenMore(h);
    forall x | base <= x < h
      ensures x % 16 != 0 || x % align != 0
    {
      if x % align == 0 {
        AlignUpIsRoundUp(base, align);
        RoundUpLeast(base, align, x);
      }
    }
  }

  /** Requests are within the model as long as the memory has room for two headers, the padding of both
      alignments and the payload behind the last block. */
  lemma {:induction false} RoomSuffices(base: Word, bs: seq<Block>, sz: Word, align: Word, limit: nat)
    requires IsPow2(align) && base % 16 == 0 && base > 0 && limit <= TWO_32
    requires (if bs == [] then base else bs[|bs| - 1].addr + 16 + bs[|bs| - 1].size) + 32 + align + sz <= limit
    ensures Fits(base, bs, sz, align, limit)
  {
    if bs == [] {
      AlignUpSpec(base, align);
    } else {
      var end := bs[|bs| - 1].End();
      SixteenIsPow2();
      AlignUpSpec(end + HEAD_SIZE, MEM_ALIGN);
      AlignUpSpec(AlignUp(end + HEAD_SIZE, MEM_ALIGN), align);
    }
  }

  lemma {:induction false} AllocateLength(base: Word, bs: seq<Block>, sz: Word, align: Word, limit: nat)
    requires bs != [] && Fits(base, bs, sz, align, limit)
    ensures |Allocate(base, bs, sz, align, limit).0| ==
            if FirstFit(bs, sz, align, 0) < |bs| - 1 then |bs| else |bs| + 1
  {
  }

  /** The last block of any list is never handed out again, however large and aligned it is: no
      request changes it, and one that it alone could serve is answered behind it. */
  lemma {:induction false} LastBlockNeverReused(base: Word, bs: seq<Block>, sz: Word, align: Word, limit: nat)
    requires Ordered(bs) && bs != [] && Fits(base, bs, sz, align, limit)
    ensures var (bs', p) := Allocate(base, bs, sz, align, limit);
      var last := bs[|bs| - 1];
      && bs'[|bs| - 1] == last && p != last.Payload()
      && ((forall i :: 0 <= i < |bs| - 1 ==> bs[i].used || bs[i].size < sz || (bs[i].addr + 16) % align != 0) ==>
            p >= last.addr + 16 + last.size + 16)
  {
    var k := FirstFit(bs, sz, align, 0);
    FirstFitExists(bs, sz, align, 0);
    if k < |bs| - 1 {
      Ascending(bs, k, |bs| - 1);
    }
  }
}
