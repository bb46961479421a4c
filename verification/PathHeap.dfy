// The byte behind the copy of a path is heap memory. bl_strtok reads it after callbacks have run, and by
// then it may be part of a header: boot-loader/core/fs/file.c, core/utils/string.c, core/memory/heap.c.

module PathHeap {
  import opened Bits
  import opened Heap
  import HeapClients
  import HeapRuns
  import opened PathResolution
  import opened PathTokens
  import opened PathWalk
  import opened Wrappers

  // ---------------------------------------------------------------- bytes of the memory

  function ByteOf(w: Word, k: nat): (b: nat)
    ensures b < 0x100
  {
    if k == 0 then w % 0x100
    else if k == 1 then w / 0x100 % 0x100
    else if k == 2 then w / 0x1_0000 % 0x100
    else w / 0x100_0000
  }

  function ByteAt(m: seq<Word>, a: nat): (b: nat)
    requires a < 4 * |m|
    ensures b < 0x100
  {
    ByteOf(m[a / 4], a % 4)
  }

  /** The memory from address a on, as a program that reads characters sees it. */
  function BytesFrom(m: seq<Word>, a: nat): (s: string)
    requires a <= 4 * |m|
    ensures |s| == 4 * |m| - a
    decreases 4 * |m| - a
  {
    if a == 4 * |m| then [] else [ByteAt(m, a) as char] + BytesFrom(m, a + 1)
  }

  lemma {:induction false} ByteBehind(m: seq<Word>, a: nat, i: nat)
    requires a + i < 4 * |m|
    ensures BytesFrom(m, a)[i] == ByteAt(m, a + i) as char
    decreases i
  {
    if i > 0 {
      ByteBehind(m, a + 1, i - 1);
    }
  }

  // ---------------------------------------------------------------- histories

  /** What somebody does with the processor: the requests and frees made, and the memory left. */
  datatype Turn = Turn(ops: seq<HeapRuns.Op>, mem: seq<Word>)

  /** The heap before the path is copied, the memory once it is, and the turns of others from then on. */
  datatype History = History(start: HeapRuns.State, mem: seq<Word>, turns: seq<Turn>)

  ghost predicate CanDo(s: HeapRuns.State, op: HeapRuns.Op, limit: nat) {
    match op
    case Alloc(sz, align) => Fits(s.base, s.blocks, sz, align, limit)
    case Free(p) => HeapRuns.ValidFree(s, p)
  }

  ghost function Done(s: HeapRuns.State, op: HeapRuns.Op, limit: nat): HeapRuns.State
    requires CanDo(s, op, limit)
  {
    match op
    case Alloc(sz, align) =>
      var (bs, p) := Allocate(s.base, s.blocks, sz, align, limit);
      HeapRuns.State(if s.blocks == [] then FirstHeader(s.base, align) else s.base, bs, s.live[p := sz])
    case Free(p) => s.(blocks := Release(s.blocks, p), live := s.live - {p})
  }

  /** Requests that succeed and frees of what is not the copy at address `at`. */
  ghost predicate CanDoAll(s: HeapRuns.State, ops: seq<HeapRuns.Op>, limit: nat, at: nat)
    decreases |ops|
  {
    ops == [] ||
    (CanDo(s, ops[0], limit) && ops[0] != HeapRuns.Free(at) && CanDoAll(Done(s, ops[0], limit), ops[1..], limit, at))
  }

  ghost function AllDone(s: HeapRuns.State, ops: seq<HeapRuns.Op>, limit: nat, at: nat): HeapRuns.State
    requires CanDoAll(s, ops, limit, at)
    decreases |ops|
  {
    if ops == [] then s else AllDone(Done(s, ops[0], limit), ops[1..], limit, at)
  }

  /** Byte a lies in a header or in the payload of a block other than the copy at address `at`. */
  ghost predicate Foreign(bs: seq<Block>, at: nat, a: nat) {
    exists i :: 0 <= i < |bs| && bs[i].addr <= a &&
                if bs[i].Payload() == at then a < bs[i].Payload() else a < bs[i].End()
  }

  /** From address `from` on, only what belongs to the heap or to others has changed. */
  ghost predicate OthersWrote(m: seq<Word>, m': seq<Word>, bs: seq<Block>, at: nat, from: nat)
    requires |m| == |m'|
  {
    forall a :: from <= a < 4 * |m| && !Foreign(bs, at, a) ==> ByteAt(m', a) == ByteAt(m, a)
  }

  /** The turns lead from one heap and memory to the next. */
  ghost predicate TurnsFrom(s: HeapRuns.State, mem: seq<Word>, turns: seq<Turn>, at: nat, from: nat)
    decreases |turns|
  {
    turns == [] ||
    (var t, limit := turns[0], 4 * |mem|;
     && |t.mem| == |mem| && CanDoAll(s, t.ops, limit, at)
     && var s' := AllDone(s, t.ops, limit, at);
        ListAt(t.mem, s'.blocks) && OthersWrote(mem, t.mem, s'.blocks, at, from) &&
        TurnsFrom(s', t.mem, turns[1..], at, from))
  }

  /** The request bl_strndup makes for a path. */
  function Request(path: string): HeapRuns.Op
    requires |path| + 1 < TWO_32
  {
    HeapRuns.Alloc(|path| + 1, 1)
  }

  /** The heap the path is copied into. */
  ghost predicate Starts(h: History, path: string) {
    && 4 * |h.mem| <= TWO_32 && HeapRuns.Inv(h.start, 4 * |h.mem|) && |path| + 1 < TWO_32
    && CanDo(h.start, Request(path), 4 * |h.mem|)
  }

  /** The heap once the copy is made, and where that lies. */
  ghost function Made(h: History, path: string): HeapRuns.State
    requires Starts(h, path)
  {
    Done(h.start, Request(path), 4 * |h.mem|)
  }

  ghost function CopyAt(h: History, path: string): nat
    requires Starts(h, path)
  {
    Allocate(h.start.base, h.start.blocks, |path| + 1, 1, 4 * |h.mem|).1
  }

  /** A copy of len bytes lies at address `at`, the NUL behind it has left the list of blocks whole, and
      others have their turns. */
  ghost predicate Course(s: HeapRuns.State, mem: seq<Word>, turns: seq<Turn>, at: nat, len: nat) {
    && at + len < 4 * |mem| && ListAt(mem, s.blocks) && ByteAt(mem, at + len) == 0
    && TurnsFrom(s, mem, turns, at, at + len)
  }

  ghost predicate Possible(h: History, path: string) {
    Starts(h, path) && Course(Made(h, path), h.mem, h.turns, CopyAt(h, path), |path| + 1)
  }

  lemma {:induction false} TurnSizes(s: HeapRuns.State, mem: seq<Word>, turns: seq<Turn>, at: nat, from: nat)
    requires TurnsFrom(s, mem, turns, at, from)
    ensures forall n :: 0 <= n < |turns| ==> |turns[n].mem| == |mem|
    decreases |turns|
  {
    if turns != [] {
      TurnSizes(AllDone(s, turns[0].ops, 4 * |mem|, at), turns[0].mem, turns[1..], at, from);
      assert forall n :: 0 < n < |turns| ==> turns[n] == turns[1..][n - 1];
    }
  }

  ghost function Later(size: nat, turns: seq<Turn>, from: nat): (later: seq<string>)
    requires from < 4 * size && forall n :: 0 <= n < |turns| ==> |turns[n].mem| == size
    ensures |later| == |turns|
    ensures forall n :: 0 <= n < |turns| ==> later[n] == BytesFrom(turns[n].mem, from)
  {
    if turns == [] then [] else Later(size, turns[..|turns| - 1], from) + [BytesFrom(turns[|turns| - 1].mem, from)]
  }

  /** The memory behind the copy in the course of a walk. */
  ghost function BehindCopy(s: HeapRuns.State, mem: seq<Word>, turns: seq<Turn>, at: nat, len: nat): (b: Behind)
    requires Course(s, mem, turns, at, len)
    ensures SameLength(b)
  {
    TurnSizes(s, mem, turns, at, at + len);
    Behind(BytesFrom(mem, at + len), Later(|mem|, turns, at + len))
  }

  ghost function BehindOf(h: History, path: string): (b: Behind)
    requires Possible(h, path)
    ensures SameLength(b)
  {
    BehindCopy(Made(h, path), h.mem, h.turns, CopyAt(h, path), |path| + 1)
  }

  lemma {:induction false} SecondGone(q: nat, r: nat)
    requires r < 0x100
    ensures (q * 0x1_0000 + r) / 0x100 % 0x100 == 0
  {
    assert (q * 0x1_0000 + r) / 0x100 == q * 0x100;
  }

  lemma {:induction false} ThirdGone(q: nat, r: nat)
    requires r < 0x1_0000
    ensures (q * 0x100_0000 + r) / 0x1_0000 % 0x100 == 0
  {
    assert (q * 0x100_0000 + r) / 0x1_0000 == q * 0x100;
  }

  lemma {:induction false} ByteCleared(w: Word, k: nat)
    requires k < 4
    ensures ByteOf(HeapClients.ClearByte(w, k), k) == 0
  {
    if k == 1 {
      SecondGone(w / 0x1_0000, w % 0x100);
    } else if k == 2 {
      ThirdGone(w / 0x100_0000, w % 0x1_0000);
    }
  }

  /** From a heap in which the copy lies, the NUL bl_strndup stores behind it begins a history, unless
      the store damages the list of blocks. */
  lemma {:induction false} StoreBegins(start: HeapRuns.State, m: seq<Word>, path: string)
    requires Starts(History(start, m, []), path)
    requires var h := History(start, m, []);
      ListAt(m, Made(h, path).blocks) && CopyAt(h, path) + |path| + 1 < 4 * |m|
    ensures var from := CopyAt(History(start, m, []), path) + |path| + 1;
      var k := HeapRuns.Slot(start.blocks, |path| + 1, 1);
      Possible(History(start, HeapClients.NulAt(m, from), []), path) <==>
      !(k < |start.blocks| && HeapClients.Damaging(start.blocks, k, |path| + 1))
  {
    var from := CopyAt(History(start, m, []), path) + |path| + 1;
    ByteCleared(m[from / 4], from % 4);
    HeapClients.CopyDamagesExactly(m, start.base, start.blocks, |path| + 1, 4 * |m|);
  }

  // ---------------------------------------------------------------- nobody else's byte

  /** A heap in which a copy of len bytes is held at address `at`. */
  ghost predicate Held(s: HeapRuns.State, limit: nat, at: nat, len: nat) {
    limit <= TWO_32 && HeapRuns.Inv(s, limit) && at in s.live && s.live[at] == len
  }

  lemma {:induction false} DoneKeeps(s: HeapRuns.State, op: HeapRuns.Op, limit: nat, at: nat, len: nat)
    requires Held(s, limit, at, len) && CanDo(s, op, limit) && op != HeapRuns.Free(at)
    ensures Held(Done(s, op, limit), limit, at, len)
  {
    HeapRuns.StepKeepsInv(s, op, Done(s, op, limit), limit);
  }

  lemma {:induction false} AllDoneKeeps(s: HeapRuns.State, ops: seq<HeapRuns.Op>, limit: nat, at: nat, len: nat)
    requires Held(s, limit, at, len) && CanDoAll(s, ops, limit, at)
    ensures Held(AllDone(s, ops, limit, at), limit, at, len)
    decreases |ops|
  {
    if ops != [] {
      DoneKeeps(s, ops[0], limit, at, len);
      AllDoneKeeps(Done(s, ops[0], limit), ops[1..], limit, at, len);
    }
  }

  lemma {:induction false} OutsideBlock(bs: seq<Block>, k: nat, i: nat, len: nat)
    requires Ordered(bs) && k < |bs| && i < |bs| && len <= bs[k].size && len % MEM_ALIGN != 0
    requires bs[i].addr <= bs[k].Payload() + len
    ensures if i == k then bs[k].Payload() + len >= bs[i].Payload() else bs[k].Payload() + len >= bs[i].End()
  {
    HeaderWordsApart(bs, k, i);
  }

  /** Behind a copy whose length is no multiple of 16 lies neither a header nor anybody's payload. */
  lemma {:induction false} NotForeign(s: HeapRuns.State, limit: nat, at: nat, len: nat)
    requires Held(s, limit, at, len) && len % MEM_ALIGN != 0
    ensures !Foreign(s.blocks, at, at + len)
  {
    var k :| HeapRuns.Holds(s.blocks, at, len, k);
    if Foreign(s.blocks, at, at + len) {
      var i :| 0 <= i < |s.blocks| && s.blocks[i].addr <= at + len &&
               if s.blocks[i].Payload() == at then at + len < s.blocks[i].Payload()
               else at + len < s.blocks[i].End();
      OutsideBlock(s.blocks, k, i, len);
    }
  }

  lemma {:induction false} ByteStays(s: HeapRuns.State, mem: seq<Word>, turns: seq<Turn>, at: nat, len: nat, n: nat)
    requires Held(s, 4 * |mem|, at, len) && at + len < 4 * |mem| && len % MEM_ALIGN != 0
    requires TurnsFrom(s, mem, turns, at, at + len) && n < |turns|
    ensures |turns[n].mem| == |mem| && ByteAt(turns[n].mem, at + len) == ByteAt(mem, at + len)
    decreases n
  {
    var t, limit := turns[0], 4 * |mem|;
    var s' := AllDone(s, t.ops, limit, at);
    AllDoneKeeps(s, t.ops, limit, at, len);
    NotForeign(s', limit, at, len);
    assert ByteAt(t.mem, at + len) == ByteAt(mem, at + len);
    if n > 0 {
      ByteStays(s', t.mem, turns[1..], at, len, n - 1);
    }
  }

  lemma {:induction false} TurnsStayNul(s: HeapRuns.State, mem: seq<Word>, turns: seq<Turn>, at: nat, len: nat)
    requires Course(s, mem, turns, at, len) && Held(s, 4 * |mem|, at, len) && len % MEM_ALIGN != 0
    ensures StaysNul(BehindCopy(s, mem, turns, at, len))
  {
    var b := BehindCopy(s, mem, turns, at, len);
    TurnSizes(s, mem, turns, at, at + len);
    forall n | 0 <= n < |b.later|
      ensures b.later[n][0] == NUL
    {
      ByteStays(s, mem, turns, at, len, n);
      ByteBehind(turns[n].mem, at + len, 0);
    }
  }

  lemma {:induction false} CopyHeld(h: History, path: string)
    requires Starts(h, path)
    ensures Held(Made(h, path), 4 * |h.mem|, CopyAt(h, path), |path| + 1)
  {
    HeapRuns.StepKeepsInv(h.start, Request(path), Made(h, path), 4 * |h.mem|);
  }

  /** Such a copy has a NUL behind it whatever others do. */
  lemma {:induction false} UnalignedStaysNul(h: History, path: string)
    requires Possible(h, path) && (|path| + 1) % MEM_ALIGN != 0
    ensures StaysNul(BehindOf(h, path))
  {
    CopyHeld(h, path);
    TurnsStayNul(Made(h, path), h.mem, h.turns, CopyAt(h, path), |path| + 1);
  }

  // ---------------------------------------------------------------- a header behind the copy

  /** A heap whose blocks are all used and whose last block ends on a header boundary. */
  ghost predicate Full(s: HeapRuns.State) {
    && s.blocks != [] && (forall i :: 0 <= i < |s.blocks| ==> s.blocks[i].used)
    && s.blocks[|s.blocks| - 1].End() % MEM_ALIGN == 0 && s.base % MEM_ALIGN == 0 && s.base > 0
  }

  ghost function EndOfHeap(s: HeapRuns.State): nat
    requires s.blocks != []
  {
    s.blocks[|s.blocks| - 1].End()
  }

  lemma {:induction false} FreshBehind(end: Word)
    requires end % MEM_ALIGN == 0 && end + 2 * HEAD_SIZE - 1 < TWO_32
    ensures IsPow2(1) && NoWrap(end, 1) && FreshPayload(end, 1) == end + HEAD_SIZE
  {
    SixteenIsPow2();
    AlignUpSpec(end + HEAD_SIZE, MEM_ALIGN);
  }

  /** In such a heap a request is answered directly behind the last block. */
  lemma {:induction false} FullAppends(s: HeapRuns.State, sz: Word, limit: nat)
    requires Full(s) && limit <= TWO_32 && EndOfHeap(s) + HEAD_SIZE + sz <= limit
    requires EndOfHeap(s) + 2 * HEAD_SIZE - 1 < TWO_32
    ensures CanDo(s, HeapRuns.Alloc(sz, 1), limit)
    ensures var end := EndOfHeap(s);
      && Allocate(s.base, s.blocks, sz, 1, limit).1 == end + HEAD_SIZE
      && Done(s, HeapRuns.Alloc(sz, 1), limit) ==
         HeapRuns.State(s.base, s.blocks + [Block(end, sz, true)], s.live[end + HEAD_SIZE := sz])
  {
    FreshBehind(EndOfHeap(s));
    assert FirstFit(s.blocks, sz, 1, 0) == |s.blocks| - 1;
  }

  /** A word the new header and its link do not take is kept. */
  lemma {:induction false} AppendedElsewhere(m: seq<Word>, last: nat, b: Block, a: nat)
    requires last % MEM_ALIGN == 0 && last + HEAD_SIZE <= b.addr
    requires b.End() <= 4 * |m| <= TWO_32 && b.addr % MEM_ALIGN == 0
    requires a < 4 * |m| && !(b.addr <= a < b.addr + HEAD_SIZE) && !(last <= a < last + HEAD_SIZE)
    ensures ByteAt(Appended(m, last, b), a) == ByteAt(m, a)
  {
    assert a / 4 != b.addr / 4 + MAGIC && a / 4 != b.addr / 4 + SIZE && a / 4 != b.addr / 4 && a / 4 != last / 4;
  }

  function Zeros(n: nat): (m: seq<Word>)
    ensures |m| == n && forall i :: 0 <= i < n ==> m[i] == 0
  {
    if n == 0 then [] else Zeros(n - 1) + [0]
  }

  const FIRST := Block(16, 16, true)

  /** Memory with one used block of 16 bytes. */
  ghost function OneBlock(n: nat): (m: seq<Word>)
    requires 12 <= n
    ensures |m| == n && forall i :: 12 <= i < n ==> m[i] == 0
  {
    Zeros(n)[4 + MAGIC := USED_MAGIC][4 + SIZE := 16]
  }

  lemma {:induction false} OneBlockListed(n: nat)
    requires 12 <= n && 4 * n <= TWO_32
    ensures ListAt(OneBlock(n), [FIRST])
  {
    assert HeaderAt(OneBlock(n), [FIRST], 0);
  }

  const BEFORE := HeapRuns.State(16, [FIRST], map[32 := 16])

  /** Blocks in a row: the copy of len bytes behind the first one, then two requests of sz and 8. */
  function Row(len: nat, sz: nat): seq<Block> {
    [FIRST, Block(48, len, true), Block(64 + len, sz, true), Block(80 + len + sz, 8, true)]
  }

  ghost predicate RowFits(len: nat, sz: nat, n: nat) {
    && len % MEM_ALIGN == 0 && sz % MEM_ALIGN == 0 && len > 0
    && 4 * n == len + sz + 112 <= TWO_32
  }

  ghost function MemBefore(len: nat, sz: nat, n: nat): (m: seq<Word>)
    requires RowFits(len, sz, n)
    ensures |m| == n
  {
    Appended(OneBlock(n), 16, Row(len, sz)[1])
  }

  ghost function MemBetween(len: nat, sz: nat, n: nat): (m: seq<Word>)
    requires RowFits(len, sz, n)
    ensures |m| == n
  {
    Appended(MemBefore(len, sz, n), 48, Row(len, sz)[2])
  }

  ghost function MemAfter(len: nat, sz: nat, n: nat): (m: seq<Word>)
    requires RowFits(len, sz, n)
    ensures |m| == n
  {
    Appended(MemBetween(len, sz, n), 64 + len, Row(len, sz)[3])
  }

  lemma {:induction false} CopyListed(len: nat, sz: nat, n: nat)
    requires RowFits(len, sz, n)
    ensures ListAt(MemBefore(len, sz, n), Row(len, sz)[..2]) && ByteAt(MemBefore(len, sz, n), 64 + len) == 0
  {
    OneBlockListed(n);
    AppendList(OneBlock(n), MemBefore(len, sz, n), [FIRST], Row(len, sz)[1]);
    assert [FIRST] + [Row(len, sz)[1]] == Row(len, sz)[..2];
  }

  lemma {:induction false} ThreeListed(len: nat, sz: nat, n: nat)
    requires RowFits(len, sz, n)
    ensures ListAt(MemBetween(len, sz, n), Row(len, sz)[..3])
  {
    CopyListed(len, sz, n);
    var m, b := MemBefore(len, sz, n), Row(len, sz)[2];
    AppendList(m, MemBetween(len, sz, n), Row(len, sz)[..2], b);
    assert Row(len, sz)[..2] + [b] == Row(len, sz)[..3];
  }

  lemma {:induction false} RowListed(len: nat, sz: nat, n: nat)
    requires RowFits(len, sz, n)
    ensures ListAt(MemAfter(len, sz, n), Row(len, sz))
  {
    ThreeListed(len, sz, n);
    var m, b := MemBetween(len, sz, n), Row(len, sz)[3];
    AppendList(m, MemAfter(len, sz, n), Row(len, sz)[..3], b);
    assert Row(len, sz)[..3] + [b] == Row(len, sz);
  }

  lemma {:induction false} BehindRow(len: nat, sz: nat, n: nat, a: nat)
    requires RowFits(len, sz, n) && 64 + len <= a < 4 * n && !Foreign(Row(len, sz), 64, a)
    ensures a >= 104 + len + sz
  {
    var row := Row(len, sz);
    assert row[2].addr <= a ==> a >= row[2].End();
    assert row[3].addr <= a ==> a >= row[3].End();
  }

  lemma {:induction false} RowAppended(len: nat, sz: nat, n: nat, a: nat)
    requires RowFits(len, sz, n) && 96 + len + sz <= a < 4 * n
    ensures ByteAt(MemAfter(len, sz, n), a) == ByteAt(MemBefore(len, sz, n), a)
  {
    AppendedElsewhere(MemBefore(len, sz, n), 48, Block(64 + len, sz, true), a);
    AppendedElsewhere(MemBetween(len, sz, n), 64 + len, Block(80 + len + sz, 8, true), a);
  }

  lemma {:induction false} RowWritten(len: nat, sz: nat, n: nat)
    requires RowFits(len, sz, n)
    ensures OthersWrote(MemBefore(len, sz, n), MemAfter(len, sz, n), Row(len, sz), 64, 64 + len)
  {
    forall a | 64 + len <= a < 4 * n && !Foreign(Row(len, sz), 64, a)
      ensures ByteAt(MemAfter(len, sz, n), a) == ByteAt(MemBefore(len, sz, n), a)
    {
      BehindRow(len, sz, n, a);
      RowAppended(len, sz, n, a);
    }
  }

  /** Behind the copy then lies the address of the last block. */
  lemma {:induction false} RowLink(len: nat, sz: nat, n: nat)
    requires RowFits(len, sz, n)
    ensures ByteAt(MemAfter(len, sz, n), 64 + len) == (80 + len + sz) % 0x100
    ensures ByteAt(MemAfter(len, sz, n), 65 + len) == (80 + len + sz) / 0x100 % 0x100
    ensures ByteAt(MemAfter(len, sz, n), 66 + len) == (80 + len + sz) / 0x1_0000 % 0x100
  {
    RowListed(len, sz, n);
    assert HeaderAt(MemAfter(len, sz, n), Row(len, sz), 2);
  }

  /** The path is copied, and then somebody asks for sz and for 8 bytes. */
  ghost function TwoRequests(path: string, sz: nat, n: nat): History
    requires RowFits(|path| + 1, sz, n)
  {
    var len := |path| + 1;
    History(BEFORE, MemBefore(len, sz, n),
            [Turn([HeapRuns.Alloc(sz, 1), HeapRuns.Alloc(8, 1)], MemAfter(len, sz, n))])
  }

  lemma {:induction false} OneDone(s: HeapRuns.State, a: HeapRuns.Op, limit: nat, at: nat)
    requires CanDo(s, a, limit) && a != HeapRuns.Free(at)
    ensures CanDoAll(s, [a], limit, at) && AllDone(s, [a], limit, at) == Done(s, a, limit)
  {
    assert [a][1..] == [];
    assert CanDoAll(Done(s, a, limit), [], limit, at);
    assert AllDone(Done(s, a, limit), [], limit, at) == Done(s, a, limit);
  }

  lemma {:induction false} TwoDone(s: HeapRuns.State, a: HeapRuns.Op, b: HeapRuns.Op, limit: nat, at: nat)
    requires CanDo(s, a, limit) && CanDo(Done(s, a, limit), b, limit)
    requires a != HeapRuns.Free(at) && b != HeapRuns.Free(at)
    ensures CanDoAll(s, [a, b], limit, at) && AllDone(s, [a, b], limit, at) == Done(Done(s, a, limit), b, limit)
  {
    assert [a, b][1..] == [b];
    OneDone(Done(s, a, limit), b, limit, at);
  }

  /** The heap is the first k blocks of the row. */
  ghost predicate RowIs(s: HeapRuns.State, len: nat, sz: nat, k: nat) {
    1 <= k <= 4 && s.base == 16 && s.blocks == Row(len, sz)[..k]
  }

  lemma {:induction false} RowGrows(s: HeapRuns.State, len: nat, sz: nat, k: nat, limit: nat)
    requires len % MEM_ALIGN == 0 && sz % MEM_ALIGN == 0 && limit == len + sz + 112 <= TWO_32
    requires k < 4 && RowIs(s, len, sz, k)
    ensures var op := HeapRuns.Alloc(Row(len, sz)[k].size, 1);
      && CanDo(s, op, limit) && RowIs(Done(s, op, limit), len, sz, k + 1)
      && Allocate(s.base, s.blocks, Row(len, sz)[k].size, 1, limit).1 == Row(len, sz)[k].Payload()
  {
    var row := Row(len, sz);
    assert s.blocks[k - 1] == row[k - 1] && row[k - 1].End() == row[k].addr && row[k].addr % MEM_ALIGN == 0;
    FullAppends(s, row[k].size, limit);
    assert row[..k] + [row[k]] == row[..k + 1];
  }

  lemma {:induction false} RowAnswers(len: nat, sz: nat, limit: nat)
    requires len % MEM_ALIGN == 0 && sz % MEM_ALIGN == 0 && len > 0 && limit == len + sz + 112 <= TWO_32
    ensures HeapRuns.Inv(BEFORE, limit) && CanDo(BEFORE, HeapRuns.Alloc(len, 1), limit)
    ensures Allocate(BEFORE.base, BEFORE.blocks, len, 1, limit).1 == 64
    ensures var s, ops := Done(BEFORE, HeapRuns.Alloc(len, 1), limit), [HeapRuns.Alloc(sz, 1), HeapRuns.Alloc(8, 1)];
      && s.blocks == Row(len, sz)[..2] && CanDoAll(s, ops, limit, 64)
      && AllDone(s, ops, limit, 64).blocks == Row(len, sz)
  {
    assert HeapRuns.Holds(BEFORE.blocks, 32, 16, 0);
    assert Row(len, sz)[..1] == [FIRST] && Row(len, sz)[..4] == Row(len, sz);
    RowGrows(BEFORE, len, sz, 1, limit);
    var s := Done(BEFORE, HeapRuns.Alloc(len, 1), limit);
    RowGrows(s, len, sz, 2, limit);
    RowGrows(Done(s, HeapRuns.Alloc(sz, 1), limit), len, sz, 3, limit);
    TwoDone(s, HeapRuns.Alloc(sz, 1), HeapRuns.Alloc(8, 1), limit, 64);
  }

  lemma {:induction false} TwoRequestsPossible(path: string, sz: nat, n: nat)
    requires RowFits(|path| + 1, sz, n)
    ensures var h := TwoRequests(path, sz, n); Starts(h, path) && CopyAt(h, path) == 64 && Possible(h, path)
  {
    var h, len := TwoRequests(path, sz, n), |path| + 1;
    RowAnswers(len, sz, 4 * n);
    CopyListed(len, sz, n);
    RowListed(len, sz, n);
    RowWritten(len, sz, n);
    assert h.turns[1..] == [];
  }

  // ---------------------------------------------------------------- exactly when the walk is the fold

  lemma {:induction false} LowDigits(x: nat)
    requires x % 0x100_0000 == 0x70
    ensures x % 0x100 == 0x70 && x / 0x100 % 0x100 == 0 && x / 0x1_0000 % 0x100 == 0
  {
  }

  lemma {:induction false} SpellsToken(m: seq<Word>, a: nat)
    requires a + 2 < 4 * |m| && ByteAt(m, a) == 0x70 && ByteAt(m, a + 1) == 0 && ByteAt(m, a + 2) == 0
    ensures HoldsToken(BytesFrom(m, a), "p")
  {
    ByteBehind(m, a, 0);
    ByteBehind(m, a, 1);
    ByteBehind(m, a, 2);
    assert BytesFrom(m, a)[..1] == "p";
  }

  lemma {:induction false} LinkHoldsToken(len: nat, sz: nat, n: nat)
    requires RowFits(len, sz, n) && (80 + len + sz) % 0x100_0000 == 0x70
    ensures HoldsToken(BytesFrom(MemAfter(len, sz, n), 64 + len), "p")
  {
    RowLink(len, sz, n);
    LowDigits(80 + len + sz);
    SpellsToken(MemAfter(len, sz, n), 64 + len);
  }

  lemma {:induction false} BehindIs(h: History, path: string)
    requires Possible(h, path)
    ensures var b, from := BehindOf(h, path), CopyAt(h, path) + |path| + 1;
      && from <= 4 * |h.mem| && |b.later| == |h.turns|
      && forall n :: 0 <= n < |h.turns| ==> |h.turns[n].mem| == |h.mem| && b.later[n] == BytesFrom(h.turns[n].mem, from)
  {
    TurnSizes(Made(h, path), h.mem, h.turns, CopyAt(h, path), CopyAt(h, path) + |path| + 1);
  }

  lemma {:induction false} LinkIsToken(path: string, sz: nat, n: nat)
    requires RowFits(|path| + 1, sz, n) && (81 + |path| + sz) % 0x100_0000 == 0x70
    ensures Possible(TwoRequests(path, sz, n), path)
    ensures LeavesToken(BehindOf(TwoRequests(path, sz, n), path), "p")
  {
    TwoRequestsPossible(path, sz, n);
    BehindIs(TwoRequests(path, sz, n), path);
    LinkHoldsToken(|path| + 1, sz, n);
  }

  /** After such requests the walk takes "p" for a further component. */
  lemma {:induction false} RequestsRunOn(lookup: Lookup, path: string, root: File, sz: nat, n: nat)
    requires NulFree(path) && !Trailing(path) && !NoNameBeforeLast(TokensFrom(path, 0))
    requires RowFits(|path| + 1, sz, n) && (81 + |path| + sz) % 0x100_0000 == 0x70
    ensures Possible(TwoRequests(path, sz, n), path)
    ensures Walked(lookup, BehindOf(TwoRequests(path, sz, n), path), path, root) ==
            Resolve(lookup, [root], TokensFrom(path, 0) + ["p"], false)
  {
    LinkIsToken(path, sz, n);
    WalkRunsOn(lookup, BehindOf(TwoRequests(path, sz, n), path), path, root, "p");
  }

  const MENU := "/boot/menu.list"

  lemma {:induction false} MenuTokens()
    ensures TokensFrom(MENU, 0) == ["boot", "menu.list"]
    ensures NulFree(MENU) && !Trailing(MENU) && !NoNameBeforeLast(TokensFrom(MENU, 0))
  {
    assert EndOf(MENU, 5) == 5 && EndOf(MENU, 1) == 5 && MENU[1..5] == "boot";
    assert EndOf(MENU, 15) == 15 && EndOf(MENU, 6) == 15 && MENU[6..15] == "menu.list";
    assert TokensFrom(MENU, 15) == [] && TokensFrom(MENU, 6) == ["menu.list"];
    assert TokensFrom(MENU, 5) == ["menu.list"] && TokensFrom(MENU, 1) == ["boot", "menu.list"];
    assert TokensFrom(MENU, 0)[0] == "boot";
  }

  /** A size for which the last block of the row gets an address ending in 0x70 0 0. */
  function SizeFor(path: string): (sz: nat)
    ensures sz < 0x100_0000 && (81 + |path| + sz) % 0x100_0000 == 0x70
    ensures (|path| + 1) % MEM_ALIGN == 0 ==> sz % MEM_ALIGN == 0
  {
    (0x1f - |path|) % 0x100_0000
  }

  lemma {:induction false} RowFor(path: string) returns (sz: nat, n: nat)
    requires |path| < 0x8000_0000 && (|path| + 1) % MEM_ALIGN == 0
    ensures RowFits(|path| + 1, sz, n) && (81 + |path| + sz) % 0x100_0000 == 0x70 && sz == SizeFor(path)
  {
    sz := SizeFor(path);
    n := (|path| + 1 + sz) / 4 + 28;
  }

  /** Such a case, for every file system: the heap holds a block of 16 bytes, the callback for "boot" asks
      for 16 and for 8 bytes, and then menu.list is asked for as a directory and "p" is sought in it. */
  lemma {:induction false} MenuListRunsOn(lookup: Lookup, path: string, root: File) returns (h: History)
    requires path == MENU
    ensures TokensFrom(path, 0) == ["boot", "menu.list"] && !Trailing(path)
    ensures Possible(h, path) && h.start.blocks == [Block(16, 16, true)] && |h.turns| == 1
    ensures h.turns[0].ops == [HeapRuns.Alloc(16, 1), HeapRuns.Alloc(8, 1)]
    ensures Walked(lookup, BehindOf(h, path), path, root) ==
            Resolve(lookup, [root], ["boot", "menu.list", "p"], false)
  {
    MenuTokens();
    var sz, n := RowFor(path);
    h := TwoRequests(path, sz, n);
    RequestsRunOn(lookup, path, root, sz, n);
    assert ["boot", "menu.list"] + ["p"] == ["boot", "menu.list", "p"];
  }

  lemma {:induction false} AlignedRunsOn(path: string, root: File) returns (h: History)
    requires NulFree(path) && |path| < 0x8000_0000 && (|path| + 1) % MEM_ALIGN == 0
    requires !Trailing(path) && !NoNameBeforeLast(TokensFrom(path, 0))
    ensures Possible(h, path)
    ensures Walked(DEEPER, BehindOf(h, path), path, root) !=
            Resolve(DEEPER, [root], TokensFrom(path, 0), Trailing(path))
  {
    var sz, n := RowFor(path);
    h := TwoRequests(path, sz, n);
    RequestsRunOn(DEEPER, path, root, sz, n);
    OneMoreShows(root, TokensFrom(path, 0), "p");
  }

  /** Whatever the heap, the callbacks and what they do with the heap, the walk over a path is the fold of
      its components, if and only if the copy's length is no multiple of 16, the path ends in a
      delimiter, or no name comes before its last component. A path and its copy both lie in a 32-bit
      memory, so that it has less than 2^31 characters. */
  lemma {:induction false} WalkIsFoldExactly(path: string, root: File)
    requires NulFree(path) && |path| < 0x8000_0000
    ensures (forall lookup: Lookup, h: History :: Possible(h, path) ==>
               Walked(lookup, BehindOf(h, path), path, root) ==
               Resolve(lookup, [root], TokensFrom(path, 0), Trailing(path)))
            <==> (|path| + 1) % MEM_ALIGN != 0 || Trailing(path) || NoNameBeforeLast(TokensFrom(path, 0))
  {
    if (|path| + 1) % MEM_ALIGN != 0 || Trailing(path) || NoNameBeforeLast(TokensFrom(path, 0)) {
      forall lookup: Lookup, h: History | Possible(h, path)
        ensures Walked(lookup, BehindOf(h, path), path, root) ==
                Resolve(lookup, [root], TokensFrom(path, 0), Trailing(path))
      {
        if (|path| + 1) % MEM_ALIGN != 0 {
          UnalignedStaysNul(h, path);
        }
        WalkIsFold(lookup, BehindOf(h, path), path, root);
      }
    } else {
      var h := AlignedRunsOn(path, root);
    }
  }
}
