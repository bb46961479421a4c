// Two users of the heap: bl_strndup of boot-loader/core/utils/string.c, which stores one byte behind
// what it asked for, and the module linker, which asks for the image its first pass measured.

module HeapClients {
  import opened Bits
  import opened ElfLink
  import opened ElfLoad
  import opened ElfObject
  import opened Heap
  import opened HeapRuns
  import opened Memory
  import Relocation

  // ---------------------------------------------------------------- the byte behind a string

  /** A word with byte k, counted from the least significant, cleared. */
  function ClearByte(w: Word, k: nat): (r: Word) {
    if k == 0 then w - w % 0x100
    else if k == 1 then w / 0x1_0000 * 0x1_0000 + w % 0x100
    else if k == 2 then w / 0x100_0000 * 0x100_0000 + w % 0x1_0000
    else w % 0x100_0000
  }

  /** Memory after a NUL is stored at byte address a. */
  function NulAt(m: seq<Word>, a: nat): seq<Word>
    requires a < 4 * |m|
  {
    m[a / 4 := ClearByte(m[a / 4], a % 4)]
  }

  lemma {:induction false} BetweenHeader(m: seq<Word>, bs: seq<Block>, k: nat, a: nat, i: nat)
    requires ListAt(m, bs) && k < |bs| && i < |bs| && bs[k].Payload() <= a < 4 * |m|
    requires k + 1 < |bs| ==> a < bs[k + 1].addr
    ensures HeaderAt(NulAt(m, a), bs, i)
  {
    assert HeaderAt(m, bs, i);
    if i < k {
      Ascending(bs, i, k);
    } else if k + 1 < i {
      Ascending(bs, k + 1, i);
    }
    assert 4 * (a / 4) <= a <= 4 * (a / 4) + 3;
    WordApart(bs[i].addr, a / 4);
  }

  /** A byte stored behind the header of block k and before the next header leaves the list alone. */
  lemma {:induction false} BetweenHeaders(m: seq<Word>, bs: seq<Block>, k: nat, a: nat)
    requires ListAt(m, bs) && k < |bs| && bs[k].Payload() <= a < 4 * |m|
    requires k + 1 < |bs| ==> a < bs[k + 1].addr
    ensures ListAt(NulAt(m, a), bs)
  {
    forall i | 0 <= i < |bs|
      ensures HeaderAt(NulAt(m, a), bs, i)
    {
      BetweenHeader(m, bs, k, a, i);
    }
  }

  /** A NUL on the link of block j keeps the list if and only if the link ends in a zero byte. */
  lemma {:induction false} LinkCleared(m: seq<Word>, bs: seq<Block>, j: nat)
    requires ListAt(m, bs) && j < |bs| && bs[j].addr < 4 * |m|
    ensures ListAt(NulAt(m, bs[j].addr), bs) <==> j + 1 < |bs| ==> bs[j + 1].addr % 0x100 == 0
  {
    var w := bs[j].addr / 4;
    assert HeaderAt(m, bs, j);
    assert NulAt(m, bs[j].addr) == m[w := m[w] - m[w] % 0x100];
    if m[w] % 0x100 == 0 {
      assert m[w := m[w]] == m;
    } else {
      assert !HeaderAt(NulAt(m, bs[j].addr), bs, j);
    }
  }

  /** Whether a NUL behind len bytes of block k's payload damages the list: it falls on the link
      of a header directly behind the payload, and that link does not end in a zero byte. */
  predicate Damaging(bs: seq<Block>, k: nat, len: nat)
    requires k < |bs|
  {
    && k + 2 < |bs| && len == bs[k].size
    && bs[k].End() == bs[k + 1].addr && bs[k + 2].addr % 0x100 != 0
  }

  lemma {:induction false} StrayByte(m: seq<Word>, bs: seq<Block>, k: nat, len: nat)
    requires ListAt(m, bs) && k < |bs| && len <= bs[k].size && bs[k].Payload() + len < 4 * |m|
    ensures ListAt(NulAt(m, bs[k].Payload() + len), bs) <==> !Damaging(bs, k, len)
  {
    var a := bs[k].Payload() + len;
    if k + 1 < |bs| && a == bs[k + 1].addr {
      LinkCleared(m, bs, k + 1);
    } else {
      BetweenHeaders(m, bs, k, a);
    }
  }

  /** bl_strndup asks for len bytes and stores a NUL behind them. The list of blocks survives that
      unless a block of exactly this size is reused, the next block lies directly behind it, and
      that one's link does not end in a zero byte. */
  lemma {:induction false} CopyDamagesExactly(m: seq<Word>, base: Word, bs: seq<Block>, len: Word, limit: nat)
    requires limit <= TWO_32 && Ordered(bs) && Within(bs, limit) && Fits(base, bs, len, 1, limit)
    requires var (bs', p) := Allocate(base, bs, len, 1, limit);
      ListAt(m, bs') && p + len < 4 * |m|
    ensures var (bs', p) := Allocate(base, bs, len, 1, limit);
      var k := Slot(bs, len, 1);
      ListAt(NulAt(m, p + len), bs') <==> !(k < |bs| && Damaging(bs, k, len))
  {
    AllocateTouchesOneBlock(base, bs, len, 1, limit);
    StrayByte(m, Allocate(base, bs, len, 1, limit).0, Slot(bs, len, 1), len);
  }

  const ROW := [Block(16, 16, false), Block(48, 16, true), Block(80, 16, true)]

  /** Such a case: three blocks of 16 bytes in a row, the first of them free, and a copy of 15
      characters. */
  lemma {:induction false} CopyOfFifteenDamages(m: seq<Word>, base: Word)
    requires base % MEM_ALIGN == 0 && base > 0 && 4 * |m| <= TWO_32
    requires ListAt(m, ROW[0 := ROW[0].(used := true)])
    ensures Fits(base, ROW, 16, 1, 4 * |m|)
    ensures Allocate(base, ROW, 16, 1, 4 * |m|) == (ROW[0 := ROW[0].(used := true)], 32) && 48 < 4 * |m|
    ensures !ListAt(NulAt(m, 48), ROW[0 := ROW[0].(used := true)])
  {
    OneIsPow2();
    assert Reusable(ROW[0], 16, 1);
    assert FirstFit(ROW, 16, 1, 0) == 0;
    var bs := ROW[0 := ROW[0].(used := true)];
    assert bs[2].End() <= 4 * |m|;
    StrayByte(m, bs, 0, 16);
  }

  lemma {:induction false} OneIsPow2()
    ensures IsPow2(1)
  {
  }

  // ---------------------------------------------------------------- the image of a module

  /** The heap after the linker's request for the image of an object. */
  ghost function WithImage(s: State, secs: seq<Section>, limit: nat): State
    requires ImageSize(secs, |secs|) < TWO_32
    requires Fits(s.base, s.blocks, ImageSize(secs, |secs|), MaxAlign(secs, |secs|), limit)
  {
    var (bs, p) := Allocate(s.base, s.blocks, ImageSize(secs, |secs|), MaxAlign(secs, |secs|), limit);
    State(if s.blocks == [] then FirstHeader(s.base, MaxAlign(secs, |secs|)) else s.base, bs,
          s.live[p := ImageSize(secs, |secs|)])
  }

  /** The address of the image. */
  ghost function ImageAt(s: State, secs: seq<Section>, limit: nat): nat
    requires ImageSize(secs, |secs|) < TWO_32
    requires Fits(s.base, s.blocks, ImageSize(secs, |secs|), MaxAlign(secs, |secs|), limit)
  {
    Allocate(s.base, s.blocks, ImageSize(secs, |secs|), MaxAlign(secs, |secs|), limit).1
  }

  /** What the linker has when it asks for the image: a heap in use, and an object whose layout the
      first pass covers and whose image fits into what the heap may take. */
  ghost predicate CanLoad(s: State, secs: seq<Section>, limit: nat) {
    && limit <= TWO_32 && Inv(s, limit) && s.blocks != []
    && WellAligned(secs) && Admissible(secs) && ImageSize(secs, |secs|) < TWO_32
    && (forall i :: 0 <= i < |secs| && secs[i].kind == SHT_PROGBITS ==> |secs[i].bytes| == secs[i].size)
    && Fits(s.base, s.blocks, ImageSize(secs, |secs|), MaxAlign(secs, |secs|), limit)
  }

  /** The object is loaded at that address of the memory m, every patched word lying inside of it. */
  ghost predicate Loads(m: seq<Byte>, s: State, secs: seq<Section>, t: Tables, ex: Exports, limit: nat) {
    && CanLoad(s, secs, limit) && limit <= |m| <= TWO_32
    && Relocation.AllInside(LinkFixes(secs, t, ImageAt(s, secs, limit), ex), |m|)
  }

  ghost function Loaded(m: seq<Byte>, s: State, secs: seq<Section>, t: Tables, ex: Exports, limit: nat)
    : (m': seq<Byte>)
    requires Loads(m, s, secs, t, ex, limit)
    ensures |m'| == |m|
  {
    ImageLoadable(s, secs, limit, |m|);
    Link(m, secs, t, ImageAt(s, secs, limit), ex)
  }

  /** No relocation patches anything in [at, at + n). */
  ghost predicate NotReached(secs: seq<Section>, base: nat, at: nat, n: nat)
    requires WellAligned(secs)
  {
    forall i: nat, k: nat, a: nat :: IsEntry(secs, i, k) && at <= a < at + n ==> !Reaches(secs, base, i, k, a)
  }

  lemma {:induction false} ImageKeepsInv(s: State, secs: seq<Section>, limit: nat)
    requires CanLoad(s, secs, limit)
    ensures Inv(WithImage(s, secs, limit), limit) && ImageAt(s, secs, limit) !in s.live
  {
    AllocKeepsInv(s, ImageSize(secs, |secs|), MaxAlign(secs, |secs|), WithImage(s, secs, limit), limit);
  }

  lemma {:induction false} ImageLoadable(s: State, secs: seq<Section>, limit: nat, len: nat)
    requires CanLoad(s, secs, limit) && limit <= len <= TWO_32
    ensures Loadable(secs, ImageAt(s, secs, limit), |secs|, len)
    ensures EndOf(secs, ImageAt(s, secs, limit), |secs|) <= ImageAt(s, secs, limit) + ImageSize(secs, |secs|)
  {
    var p := ImageAt(s, secs, limit);
    LaterAlignment(s.base, s.blocks, ImageSize(secs, |secs|), MaxAlign(secs, |secs|), limit);
    AdmissibleFits(secs, p, |secs|);
    ImageKeepsInv(s, secs, limit);
    StateSafety(WithImage(s, secs, limit), limit, p);
  }

  /** Loading an object into the payload the heap gave for it changes no byte outside of that payload
      that its relocations do not reach. */
  lemma {:induction false} LoadStaysInImage(m: seq<Byte>, s: State, secs: seq<Section>, t: Tables, ex: Exports,
        limit: nat, a: nat)
    requires Loads(m, s, secs, t, ex, limit) && a < |m| && NotReached(secs, ImageAt(s, secs, limit), a, 1)
    requires !(ImageAt(s, secs, limit) <= a < ImageAt(s, secs, limit) + ImageSize(secs, |secs|))
    ensures Loaded(m, s, secs, t, ex, limit)[a] == m[a]
  {
    var p := ImageAt(s, secs, limit);
    ImageLoadable(s, secs, limit, |m|);
    forall n | 0 <= n < |secs| && Placed(secs[n])
      ensures !(StartOf(secs, p, n) <= a < StartOf(secs, p, n) + secs[n].size)
    {
      SegmentWithinEnd(secs, p, n, |secs|);
    }
    LinkKeepsOutside(m, secs, t, p, ex, a);
  }

  ghost predicate SameBytes(m: seq<Byte>, m': seq<Byte>, at: nat, n: nat)
    requires at + n <= |m| == |m'|
  {
    forall a :: at <= a < at + n ==> m'[a] == m[a]
  }

  lemma {:induction false} KeptApart(m: seq<Byte>, s: State, secs: seq<Section>, t: Tables, ex: Exports, limit: nat,
        at: nat, n: nat)
    requires Loads(m, s, secs, t, ex, limit) && at + n <= |m| && NotReached(secs, ImageAt(s, secs, limit), at, n)
    requires Apart(ImageAt(s, secs, limit), ImageSize(secs, |secs|), at, n)
    ensures SameBytes(m, Loaded(m, s, secs, t, ex, limit), at, n)
  {
    forall a | at <= a < at + n
      ensures Loaded(m, s, secs, t, ex, limit)[a] == m[a]
    {
      LoadStaysInImage(m, s, secs, t, ex, limit, a);
    }
  }

  /** Relocations for loaded sections reach nothing outside of the image. */
  lemma {:induction false} LinkableStays(s: State, secs: seq<Section>, t: Tables, limit: nat, at: nat, n: nat)
    requires CanLoad(s, secs, limit) && Linkable(secs, t)
    requires Apart(ImageAt(s, secs, limit), ImageSize(secs, |secs|), at, n)
    ensures NotReached(secs, ImageAt(s, secs, limit), at, n)
  {
    var p := ImageAt(s, secs, limit);
    ImageLoadable(s, secs, limit, TWO_32);
    forall i: nat, k: nat, a: nat | IsEntry(secs, i, k) && at <= a < at + n
      ensures !Reaches(secs, p, i, k, a)
    {
      if Reaches(secs, p, i, k, a) {
        LinkableReaches(secs, t, p, TWO_32, i, k, a);
        var x :| 0 <= x < |secs| && Placed(secs[x]) && StartOf(secs, p, x) <= a < StartOf(secs, p, x) + secs[x].size;
        SegmentWithinEnd(secs, p, x, |secs|);
      }
    }
  }

  lemma {:induction false} HeldApart(s: State, secs: seq<Section>, limit: nat, q: nat)
    requires CanLoad(s, secs, limit) && q in s.live
    ensures q + s.live[q] <= limit && Apart(ImageAt(s, secs, limit), ImageSize(secs, |secs|), q, s.live[q])
  {
    var p, s' := ImageAt(s, secs, limit), WithImage(s, secs, limit);
    ImageKeepsInv(s, secs, limit);
    assert s'.live[p] == ImageSize(secs, |secs|) && s'.live[q] == s.live[q];
    StateSafety(s', limit, q);
  }

  /** So loading a module leaves everything else that clients hold as it was, unless a relocation
      reaches it. */
  lemma {:induction false} LoadKeepsHeld(m: seq<Byte>, s: State, secs: seq<Section>, t: Tables, ex: Exports,
        limit: nat, q: nat)
    requires Loads(m, s, secs, t, ex, limit) && q in s.live
    requires NotReached(secs, ImageAt(s, secs, limit), q, s.live[q])
    ensures q + s.live[q] <= |m| && SameBytes(m, Loaded(m, s, secs, t, ex, limit), q, s.live[q])
  {
    HeldApart(s, secs, limit, q);
    KeptApart(m, s, secs, t, ex, limit, q, s.live[q]);
  }

  lemma {:induction false} HeaderApart(s: State, secs: seq<Section>, limit: nat, b: Block)
    requires CanLoad(s, secs, limit) && b in WithImage(s, secs, limit).blocks
    ensures b.Payload() <= limit && Apart(ImageAt(s, secs, limit), ImageSize(secs, |secs|), b.addr, HEAD_SIZE)
  {
    ImageKeepsInv(s, secs, limit);
    StateSafety(WithImage(s, secs, limit), limit, ImageAt(s, secs, limit));
  }

  /** And every header of the heap. */
  lemma {:induction false} LoadKeepsHeaders(m: seq<Byte>, s: State, secs: seq<Section>, t: Tables, ex: Exports,
        limit: nat, b: Block)
    requires Loads(m, s, secs, t, ex, limit) && b in WithImage(s, secs, limit).blocks
    requires NotReached(secs, ImageAt(s, secs, limit), b.addr, HEAD_SIZE)
    ensures b.Payload() <= |m| && SameBytes(m, Loaded(m, s, secs, t, ex, limit), b.addr, HEAD_SIZE)
  {
    HeaderApart(s, secs, limit, b);
    KeptApart(m, s, secs, t, ex, limit, b.addr, HEAD_SIZE);
  }

  /** In particular an object whose relocations are all for loaded sections leaves both alone. */
  lemma {:induction false} LinkableKeepsHeap(s: State, secs: seq<Section>, t: Tables, limit: nat)
    requires CanLoad(s, secs, limit) && Linkable(secs, t)
    ensures forall q :: q in s.live ==> NotReached(secs, ImageAt(s, secs, limit), q, s.live[q])
    ensures forall b :: b in WithImage(s, secs, limit).blocks ==>
      NotReached(secs, ImageAt(s, secs, limit), b.addr, HEAD_SIZE)
  {
    forall q | q in s.live
      ensures NotReached(secs, ImageAt(s, secs, limit), q, s.live[q])
    {
      HeldApart(s, secs, limit, q);
      LinkableStays(s, secs, t, limit, q, s.live[q]);
    }
    forall b | b in WithImage(s, secs, limit).blocks
      ensures NotReached(secs, ImageAt(s, secs, limit), b.addr, HEAD_SIZE)
    {
      HeaderApart(s, secs, limit, b);
      LinkableStays(s, secs, t, limit, b.addr, HEAD_SIZE);
    }
  }
}
