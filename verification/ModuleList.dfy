// The binary module list: packed by tools/bl-modules.py, walked by bl_loader_init
// (boot-loader/core/loader/loader.c) and again by bl_heap_init (boot-loader/core/memory/heap.c).

module ModuleList {
  import opened Bits
  import opened Memory
  import opened Wrappers

  const LIST_MAGIC: nat := 0x5453_4c44_4f4d_4c42
  const MODULE_MAGIC: nat := 0x0000_0044_4f4d_4c42
  const LIST_HEADER: nat := 16
  const MODULE_HEADER: nat := 12

  type Bytes = seq<Byte>

  // ---------------------------------------------------------------- the packer

  /** A packed number of n bytes, and what follows it. */
  function Field(v: nat, n: nat, rest: Bytes): (r: Bytes)
    ensures |r| == n + |rest|
    decreases n, rest
  {
    if n == 0 then rest else [v % 0x100] + Field(v / 0x100, n - 1, rest)
  }

  lemma {:induction false} FieldIsLE(v: nat, n: nat, rest: Bytes)
    ensures Field(v, n, rest) == ToLE(v, n) + rest
    decreases n
  {
    if n > 0 {
      FieldIsLE(v / 0x100, n - 1, rest);
    } else {
      assert [] + rest == rest;
    }
  }

  function PackModule(buf: Bytes): (r: Bytes)
    ensures |r| == MODULE_HEADER + |buf|
  {
    Field(MODULE_MAGIC, 8, Field(|buf|, 4, buf))
  }

  lemma {:induction false} PackedModule(buf: Bytes)
    ensures PackModule(buf) == ToLE(MODULE_MAGIC, 8) + ToLE(|buf|, 4) + buf
  {
    FieldIsLE(MODULE_MAGIC, 8, Field(|buf|, 4, buf));
    FieldIsLE(|buf|, 4, buf);
    Associative(ToLE(MODULE_MAGIC, 8), ToLE(|buf|, 4), buf);
  }

  function PackAll(mods: seq<Bytes>): (r: Bytes)
  {
    if mods == [] then [] else PackAll(mods[..|mods| - 1]) + PackModule(mods[|mods| - 1])
  }

  function TotalSize(mods: seq<Bytes>): nat
  {
    if mods == [] then 0 else TotalSize(mods[..|mods| - 1]) + |mods[|mods| - 1]|
  }

  function Image(mods: seq<Bytes>): Bytes {
    ToLE(LIST_MAGIC, 8) + ToLE(|mods|, 4) + ToLE(TotalSize(mods), 4) + PackAll(mods)
  }

  /** struct.pack refuses numbers that do not fit their field. */
  predicate Packable(mods: seq<Bytes>) {
    && |mods| < TWO_32 && TotalSize(mods) < TWO_32
    && forall i :: 0 <= i < |mods| ==> |mods[i]| < TWO_32
  }

  lemma {:induction false} NextPacked(mods: seq<Bytes>, i: nat)
    requires i < |mods|
    ensures PackAll(mods[..i + 1]) == PackAll(mods[..i]) + PackModule(mods[i])
    ensures TotalSize(mods[..i + 1]) == TotalSize(mods[..i]) + |mods[i]|
  {
    assert mods[..i + 1][..i] == mods[..i];
  }

  lemma {:induction false} OneOfTotal(mods: seq<Bytes>, i: nat)
    requires i < |mods|
    ensures |mods[i]| <= TotalSize(mods)
  {
    if i < |mods| - 1 {
      OneOfTotal(mods[..|mods| - 1], i);
    }
  }

  /** modules_list; None stands for the exception struct.pack raises. */
  method Pack(mods: seq<Bytes>) returns (r: Option<Bytes>)
    ensures r == if Packable(mods) then Some(Image(mods)) else None
    ensures r == None <==> |mods| >= 0x1_0000_0000 || TotalSize(mods) >= 0x1_0000_0000
  {
    var l: Bytes := [];
    var total := 0;
    for i := 0 to |mods|
      invariant l == PackAll(mods[..i]) && total == TotalSize(mods[..i])
      invariant forall j :: 0 <= j < i ==> |mods[j]| < TWO_32
    {
      NextPacked(mods, i);
      total := total + |mods[i]|;
      if |mods[i]| >= TWO_32 {
        OneOfTotal(mods, i);
        return None;
      }
      l := l + PackModule(mods[i]);
    }
    assert mods[..|mods|] == mods;
    if |mods| >= TWO_32 || total >= TWO_32 {
      return None;
    }
    assert Packable(mods);
    r := Some(ToLE(LIST_MAGIC, 8) + ToLE(|mods|, 4) + ToLE(total, 4) + l);
  }

  // ---------------------------------------------------------------- the walkers

  datatype Status = Success | InvalidModuleList | InvalidModule | LoadFailed

  /** How a walk ended, the byte strings handed to the module loader, the final position. */
  datatype Outcome = Outcome(status: Status, handed: seq<Bytes>, end: nat)

  /** The magic test of both walkers. */
  predicate IsModule(m: Bytes, pos: nat)
    requires pos + MODULE_HEADER <= |m|
  {
    Get(m, pos, 8) == MODULE_MAGIC
  }

  function SizeAt(m: Bytes, pos: nat): nat
    requires pos + MODULE_HEADER <= |m|
  {
    Get(m, pos + 8, 4)
  }

  /** Position behind the module at pos. */
  function Behind(m: Bytes, pos: nat): nat
    requires pos + MODULE_HEADER <= |m|
  {
    pos + MODULE_HEADER + SizeAt(m, pos)
  }

  function Body(m: Bytes, pos: nat): Bytes
    requires pos + MODULE_HEADER <= |m| && Behind(m, pos) <= |m|
  {
    m[pos + MODULE_HEADER..Behind(m, pos)]
  }

  /** Everything a walk over n modules may touch lies inside the memory. */
  ghost predicate Covered(m: Bytes, pos: nat, n: nat)
    decreases n
  {
    n == 0 ||
    (pos + MODULE_HEADER <= |m| &&
     (IsModule(m, pos) ==> Behind(m, pos) <= |m| && Covered(m, Behind(m, pos), n - 1)))
  }

  /** Walk over n modules from pos, when module number `bad` (counted from here) is the first
      that does not load. */
  ghost function Walk(m: Bytes, pos: nat, n: nat, bad: nat): (r: Outcome)
    requires Covered(m, pos, n)
    decreases n
  {
    if n == 0 then Outcome(Success, [], pos)
    else if !IsModule(m, pos) then Outcome(InvalidModule, [], pos)
    else if bad == 0 then Outcome(LoadFailed, [Body(m, pos)], pos)
    else After([Body(m, pos)], Walk(m, Behind(m, pos), n - 1, bad - 1))
  }

  /** Prepend what was handed over before. */
  ghost function After(handed: seq<Bytes>, o: Outcome): Outcome {
    Outcome(o.status, handed + o.handed, o.end)
  }

  lemma {:induction false} AfterTwice(a: seq<Bytes>, b: seq<Bytes>, o: Outcome)
    ensures After(a, After(b, o)) == After(a + b, o)
  {
  }

  /** The loop of bl_loader_init. */
  method WalkModules(m: Bytes, start: nat, count: nat, bad: nat) returns (status: Status, handed: seq<Bytes>, pos: nat)
    requires Covered(m, start, count)
    ensures Outcome(status, handed, pos) == Walk(m, start, count, bad)
  {
    handed, pos := [], start;
    ghost var all := Walk(m, start, count, bad);
    for i := 0 to count
      invariant i <= bad && Covered(m, pos, count - i)
      invariant all == After(handed, Walk(m, pos, count - i, bad - i))
    {
      if !IsModule(m, pos) {
        return InvalidModule, handed, pos;
      }
      var body := Body(m, pos);
      AfterTwice(handed, [body], Walk(m, Behind(m, pos), count - i - 1, if bad > i then bad - i - 1 else 0));
      handed := handed + [body];
      if i == bad {
        return LoadFailed, handed, pos;
      }
      pos := Behind(m, pos);
    }
    status := Success;
  }

  /** bl_loader_init over a memory that starts with the list. */
  method LoaderInit(m: Bytes, bad: nat) returns (status: Status, handed: seq<Bytes>, pos: nat)
    requires LIST_HEADER <= |m|
    requires Get(m, 0, 8) == LIST_MAGIC ==> Covered(m, LIST_HEADER, Get(m, 8, 4))
    ensures Get(m, 0, 8) != LIST_MAGIC ==> status == InvalidModuleList && handed == []
    ensures Get(m, 0, 8) == LIST_MAGIC ==>
      Outcome(status, handed, pos) == Walk(m, LIST_HEADER, Get(m, 8, 4), bad)
  {
    if Get(m, 0, 8) != LIST_MAGIC {
      return InvalidModuleList, [], 0;
    }
    status, handed, pos := WalkModules(m, LIST_HEADER, Get(m, 8, 4), bad);
  }

  /** Position behind n modules, None if one of them has a wrong magic. */
  ghost function EndOfWalk(m: Bytes, pos: nat, n: nat): (r: Option<nat>)
    requires Covered(m, pos, n)
    decreases n
  {
    if n == 0 then Some(pos) else if !IsModule(m, pos) then None else EndOfWalk(m, Behind(m, pos), n - 1)
  }

  /** The address walk of bl_heap_init. */
  method FindEnd(m: Bytes, start: nat, count: nat) returns (r: Option<nat>)
    requires start <= |m| && Covered(m, start, count)
    ensures r == EndOfWalk(m, start, count) && (r.Some? ==> r.value <= |m|)
  {
    var pos: nat := start;
    for i := 0 to count
      invariant pos <= |m| && Covered(m, pos, count - i)
      invariant EndOfWalk(m, start, count) == EndOfWalk(m, pos, count - i)
    {
      if !IsModule(m, pos) {
        return None;
      }
      pos := Behind(m, pos);
    }
    r := Some(pos);
  }

  /** bl_heap_init of the non-BIOS build: 0 stands for a heap left unset. `start` is the
      address of the list. */
  method HeapStart(m: Bytes, start: nat) returns (heap: nat)
    requires LIST_HEADER <= |m| && start + |m| + 15 < TWO_32
    requires Get(m, 0, 8) == LIST_MAGIC ==> Covered(m, LIST_HEADER, Get(m, 8, 4))
    ensures Get(m, 0, 8) != LIST_MAGIC ==> heap == RoundUp(start, 16)
    ensures Get(m, 0, 8) == LIST_MAGIC ==>
      var end := EndOfWalk(m, LIST_HEADER, Get(m, 8, 4));
      heap == if end.Some? then RoundUp(start + end.value, 16) else 0
  {
    assert IsPow2(8);
    if Get(m, 0, 8) != LIST_MAGIC {
      AlignUpIsRoundUp(start, 16);
      return AlignUp(start, 16);
    }
    var end := FindEnd(m, LIST_HEADER, Get(m, 8, 4));
    if end == None {
      return 0;
    }
    AlignUpIsRoundUp(start + end.value, 16);
    heap := AlignUp(start + end.value, 16);
  }

  // ---------------------------------------------------------------- round trip

  lemma {:induction false} GetPacked(m: Bytes, a: nat, n: nat, v: nat)
    requires a + n <= |m| && m[a..a + n] == ToLE(v, n) && v < Pow256(n)
    ensures Get(m, a, n) == v
  {
    GetIsFromLE(m, a, n);
    FromToLE(v, n);
    ModUnique(v, Pow256(n), 0, v);
  }

  lemma {:induction false} SliceOfSlice<T>(m: seq<T>, p: nat, q: nat, i: nat, j: nat)
    requires p <= q <= |m| && i <= j <= q - p
    ensures m[p..q][i..j] == m[p + i..p + j]
  {
    var a, b := m[p..q][i..j], m[p + i..p + j];
    assert |a| == |b| && forall k :: 0 <= k < |a| ==> a[k] == b[k];
  }

  lemma {:induction false} Parts<T>(m: seq<T>, pos: nat, a: seq<T>, b: seq<T>, c: seq<T>)
    requires pos + |a| + |b| + |c| <= |m| && m[pos..pos + |a| + |b| + |c|] == a + b + c
    ensures m[pos..pos + |a|] == a && m[pos + |a|..pos + |a| + |b|] == b
    ensures m[pos + |a| + |b|..pos + |a| + |b| + |c|] == c
  {
    var all := a + b + c;
    assert all[0..|a|] == a && all[|a|..|a| + |b|] == b && all[|a| + |b|..|all|] == c;
    SliceOfSlice(m, pos, pos + |all|, 0, |a|);
    SliceOfSlice(m, pos, pos + |all|, |a|, |a| + |b|);
    SliceOfSlice(m, pos, pos + |all|, |a| + |b|, |all|);
  }

  /** A module lies packed in m at pos. */
  ghost predicate ModuleAt(m: Bytes, pos: nat, buf: Bytes) {
    && pos + MODULE_HEADER + |buf| <= |m|
    && m[pos..pos + MODULE_HEADER + |buf|] == PackModule(buf)
  }

  /** A packed module is read back from wherever it lies. */
  lemma {:induction false} ReadModule(m: Bytes, pos: nat, buf: Bytes)
    requires ModuleAt(m, pos, buf) && |buf| < TWO_32
    ensures IsModule(m, pos) && SizeAt(m, pos) == |buf| && Body(m, pos) == buf
    ensures Behind(m, pos) == pos + MODULE_HEADER + |buf|
  {
    Pow256Values();
    PackedModule(buf);
    Parts(m, pos, ToLE(MODULE_MAGIC, 8), ToLE(|buf|, 4), buf);
    GetPacked(m, pos, 8, MODULE_MAGIC);
    GetPacked(m, pos + 8, 4, |buf|);
  }

  /** And only a packed module is read that way. */
  lemma {:induction false} ReadOnlyPacked(m: Bytes, pos: nat)
    requires pos + MODULE_HEADER <= |m| && IsModule(m, pos) && Behind(m, pos) <= |m|
    ensures ModuleAt(m, pos, Body(m, pos)) && Behind(m, pos) == pos + MODULE_HEADER + |Body(m, pos)|
  {
    ToFromGet(m, pos, 8);
    ToFromGet(m, pos + 8, 4);
    PackedModule(Body(m, pos));
    Joined(m, pos, ToLE(MODULE_MAGIC, 8), ToLE(SizeAt(m, pos), 4), Body(m, pos));
  }

  lemma {:induction false} ToFromGet(m: Bytes, a: nat, n: nat)
    requires a + n <= |m|
    ensures m[a..a + n] == ToLE(Get(m, a, n), n)
  {
    GetIsFromLE(m, a, n);
    ToFromLE(m[a..a + n]);
  }

  /** The converse of Parts. */
  lemma {:induction false} Joined<T>(m: seq<T>, pos: nat, a: seq<T>, b: seq<T>, c: seq<T>)
    requires pos + |a| + |b| + |c| <= |m|
    requires m[pos..pos + |a|] == a && m[pos + |a|..pos + |a| + |b|] == b
    requires m[pos + |a| + |b|..pos + |a| + |b| + |c|] == c
    ensures m[pos..pos + |a| + |b| + |c|] == a + b + c
  {
  }

  /** Packed size of a list of modules. */
  ghost function PackedSize(mods: seq<Bytes>): nat {
    if mods == [] then 0 else MODULE_HEADER + |mods[0]| + PackedSize(mods[1..])
  }

  /** The modules lie packed in m, one behind the other from pos. */
  ghost predicate PackedAt(m: Bytes, pos: nat, mods: seq<Bytes>)
    decreases |mods|
  {
    mods == [] || (ModuleAt(m, pos, mods[0]) && PackedAt(m, pos + MODULE_HEADER + |mods[0]|, mods[1..]))
  }

  lemma {:induction false} PackedCons(m: Bytes, pos: nat, buf: Bytes, rest: seq<Bytes>)
    requires ModuleAt(m, pos, buf) && PackedAt(m, pos + MODULE_HEADER + |buf|, rest)
    ensures PackedAt(m, pos, [buf] + rest)
    ensures PackedSize([buf] + rest) == MODULE_HEADER + |buf| + PackedSize(rest)
  {
    assert ([buf] + rest)[1..] == rest;
  }

  lemma {:induction false} PackedAppend(m: Bytes, pos: nat, mods: seq<Bytes>, buf: Bytes)
    requires PackedAt(m, pos, mods) && ModuleAt(m, pos + PackedSize(mods), buf)
    ensures PackedAt(m, pos, mods + [buf])
    ensures PackedSize(mods + [buf]) == PackedSize(mods) + MODULE_HEADER + |buf|
    decreases |mods|
  {
    if mods == [] {
      PackedCons(m, pos, buf, []);
      assert mods + [buf] == [buf] + [];
    } else {
      PackedAppend(m, pos + MODULE_HEADER + |mods[0]|, mods[1..], buf);
      PackedCons(m, pos, mods[0], mods[1..] + [buf]);
      assert mods + [buf] == [mods[0]] + (mods[1..] + [buf]);
    }
  }

  lemma {:induction false} TwoParts<T>(m: seq<T>, pos: nat, a: seq<T>, b: seq<T>)
    requires pos + |a| + |b| <= |m| && m[pos..pos + |a| + |b|] == a + b
    ensures m[pos..pos + |a|] == a && m[pos + |a|..pos + |a| + |b|] == b
  {
    assert a + b == a + b + [];
    Parts(m, pos, a, b, []);
  }

  /** The packer's output is the modules one behind the other. */
  lemma {:induction false} PackedEverywhere(m: Bytes, pos: nat, mods: seq<Bytes>, image: Bytes)
    requires image == PackAll(mods) && pos + |image| <= |m| && m[pos..pos + |image|] == image
    ensures PackedAt(m, pos, mods) && PackedSize(mods) == |image|
    decreases |mods|
  {
    if mods != [] {
      var front, buf := mods[..|mods| - 1], mods[|mods| - 1];
      var before := PackAll(front);
      TwoParts(m, pos, before, PackModule(buf));
      PackedEverywhere(m, pos, front, before);
      PackedAppend(m, pos, front, buf);
      assert mods == front + [buf];
    }
  }

  ghost predicate SizesFit(mods: seq<Bytes>) {
    forall j :: 0 <= j < |mods| ==> |mods[j]| < TWO_32
  }

  /** Walking packed modules hands over each of them in order, up to the first that does not
      load; if all load it ends behind the last. */
  ghost predicate WalksThrough(m: Bytes, pos: nat, mods: seq<Bytes>, bad: nat) {
    && Covered(m, pos, |mods|)
    && var w := Walk(m, pos, |mods|, bad);
       if bad < |mods| then w.status == LoadFailed && w.handed == mods[..bad + 1]
       else w == Outcome(Success, mods, pos + PackedSize(mods))
  }

  lemma {:induction false} OneMore(m: Bytes, pos: nat, mods: seq<Bytes>, bad: nat)
    requires mods != [] && pos + MODULE_HEADER <= |m| && IsModule(m, pos) && SizeAt(m, pos) == |mods[0]|
    requires Behind(m, pos) <= |m| && Body(m, pos) == mods[0]
    requires WalksThrough(m, Behind(m, pos), mods[1..], if bad == 0 then 0 else bad - 1)
    ensures WalksThrough(m, pos, mods, bad)
  {
    var rest := mods[1..];
    assert mods == [mods[0]] + rest;
    if 0 < bad < |mods| {
      assert [mods[0]] + rest[..bad] == mods[..bad + 1];
    } else if bad == 0 {
      assert [mods[0]] == mods[..1];
    }
  }

  lemma {:induction false} PackedHead(m: Bytes, pos: nat, mods: seq<Bytes>)
    requires PackedAt(m, pos, mods) && mods != [] && SizesFit(mods)
    ensures pos + MODULE_HEADER <= |m| && IsModule(m, pos) && SizeAt(m, pos) == |mods[0]|
    ensures Behind(m, pos) <= |m| && Body(m, pos) == mods[0] && PackedAt(m, Behind(m, pos), mods[1..])
  {
    var buf, rest := mods[0], mods[1..];
    assert ModuleAt(m, pos, buf) && PackedAt(m, pos + MODULE_HEADER + |buf|, rest);
    ReadModule(m, pos, buf);
  }

  lemma {:induction false} WalkPacked(m: Bytes, pos: nat, mods: seq<Bytes>, bad: nat)
    requires PackedAt(m, pos, mods) && SizesFit(mods)
    ensures WalksThrough(m, pos, mods, bad)
    decreases |mods|
  {
    if mods != [] {
      PackedHead(m, pos, mods);
      RestFits(mods);
      WalkPacked(m, Behind(m, pos), mods[1..], if bad == 0 then 0 else bad - 1);
      OneMore(m, pos, mods, bad);
    }
  }

  lemma {:induction false} RestFits(mods: seq<Bytes>)
    requires SizesFit(mods) && mods != []
    ensures SizesFit(mods[1..])
  {
  }

  /** Where the four parts of a list image lie when anything follows it. */
  lemma {:induction false} FourParts<T>(a: seq<T>, b: seq<T>, c: seq<T>, p: seq<T>, rest: seq<T>)
    ensures var m := a + b + c + p + rest;
      && |m| == |a| + |b| + |c| + |p| + |rest|
      && m[0..|a|] == a && m[|a|..|a| + |b|] == b
      && m[|a| + |b| + |c|..|a| + |b| + |c| + |p|] == p
  {
  }

  lemma {:induction false} ImageHeader(m: Bytes, mods: seq<Bytes>, rest: Bytes)
    requires Packable(mods) && m == Image(mods) + rest
    ensures |m| >= LIST_HEADER && Get(m, 0, 8) == LIST_MAGIC && Get(m, 8, 4) == |mods|
    ensures PackedAt(m, LIST_HEADER, mods) && LIST_HEADER + PackedSize(mods) == |Image(mods)|
  {
    FourParts(ToLE(LIST_MAGIC, 8), ToLE(|mods|, 4), ToLE(TotalSize(mods), 4), PackAll(mods), rest);
    HeaderRead(m, |mods|);
    PackedEverywhere(m, LIST_HEADER, mods, PackAll(mods));
  }

  lemma {:induction false} HeaderRead(m: Bytes, count: nat)
    requires |m| >= LIST_HEADER && m[0..8] == ToLE(LIST_MAGIC, 8) && m[8..12] == ToLE(count, 4) && count < TWO_32
    ensures Get(m, 0, 8) == LIST_MAGIC && Get(m, 8, 4) == count
  {
    Pow256Values();
    GetPacked(m, 0, 8, LIST_MAGIC);
    GetPacked(m, 8, 4, count);
  }

  /** Round trip: the packer's output followed by anything is walked to its end, handing over
      exactly the packed byte strings when each of them loads, and a prefix of them up to the
      first one that does not. */
  lemma {:induction false} RoundTrip(m: Bytes, mods: seq<Bytes>, rest: Bytes, bad: nat)
    requires Packable(mods) && m == Image(mods) + rest
    ensures |m| >= LIST_HEADER && Get(m, 0, 8) == LIST_MAGIC && Get(m, 8, 4) == |mods|
    ensures Covered(m, LIST_HEADER, |mods|)
    ensures var w := Walk(m, LIST_HEADER, |mods|, bad);
      if bad < |mods| then w.status == LoadFailed && w.handed == mods[..bad + 1]
      else w == Outcome(Success, mods, |Image(mods)|)
  {
    ImageHeader(m, mods, rest);
    WalkPacked(m, LIST_HEADER, mods, bad);
  }

  lemma {:induction false} PackedLength(mods: seq<Bytes>)
    ensures |PackAll(mods)| == 12 * |mods| + TotalSize(mods)
  {
    if mods != [] {
      PackedLength(mods[..|mods| - 1]);
    }
  }

  lemma {:induction false} ThirdPart<T>(a: seq<T>, b: seq<T>, c: seq<T>, p: seq<T>, rest: seq<T>)
    ensures (a + b + c + p + rest)[|a| + |b|..|a| + |b| + |c|] == c
  {
  }

  /** The list header: magic, count, and the size of the modules without their headers. */
  lemma {:induction false} HeaderFields(m: Bytes, mods: seq<Bytes>, rest: Bytes)
    requires Packable(mods) && m == Image(mods) + rest
    ensures |m| >= |Image(mods)| >= 16 + 12 * |mods|
    ensures Get(m, 0, 8) == 0x5453_4c44_4f4d_4c42 && Get(m, 8, 4) == |mods|
    ensures Get(m, 12, 4) == |Image(mods)| - 16 - 12 * |mods|
  {
    ImageHeader(m, mods, rest);
    PackedLength(mods);
    Pow256Values();
    ThirdPart(ToLE(LIST_MAGIC, 8), ToLE(|mods|, 4), ToLE(TotalSize(mods), 4), PackAll(mods), rest);
    GetPacked(m, 12, 4, TotalSize(mods));
  }

  lemma {:induction false} NthPacked(m: Bytes, pos: nat, mods: seq<Bytes>, i: nat)
    requires PackedAt(m, pos, mods) && i < |mods|
    ensures ModuleAt(m, pos + PackedSize(mods[..i]), mods[i])
    decreases i
  {
    if i > 0 {
      NthPacked(m, pos + MODULE_HEADER + |mods[0]|, mods[1..], i - 1);
      assert mods[..i][1..] == mods[1..][..i - 1];
    }
  }

  lemma {:induction false} ImageLength(mods: seq<Bytes>)
    ensures |Image(mods)| == 16 + PackedSize(mods)
  {
    PackedEverywhere(PackAll(mods), 0, mods, PackAll(mods));
  }

  lemma {:induction false} FieldsOfModule(m: Bytes, p: nat, buf: Bytes)
    requires ModuleAt(m, p, buf) && |buf| < TWO_32
    ensures p + 12 + |buf| <= |m| && Get(m, p, 8) == 0x0000_0044_4f4d_4c42 && Get(m, p + 8, 4) == |buf|
    ensures m[p + 12..p + 12 + |buf|] == buf
  {
    ReadModule(m, p, buf);
  }

  /** Each module lies behind the image of those before it: magic, size, its bytes. */
  lemma {:induction false} ModuleFields(m: Bytes, mods: seq<Bytes>, rest: Bytes, i: nat, p: nat)
    requires Packable(mods) && m == Image(mods) + rest && i < |mods| && p == |Image(mods[..i])|
    ensures p + 12 + |mods[i]| <= |m|
    ensures Get(m, p, 8) == 0x0000_0044_4f4d_4c42 && Get(m, p + 8, 4) == |mods[i]|
    ensures m[p + 12..p + 12 + |mods[i]|] == mods[i]
  {
    ImageHeader(m, mods, rest);
    NthPacked(m, LIST_HEADER, mods, i);
    ImageLength(mods[..i]);
    FieldsOfModule(m, p, mods[i]);
  }

  /** A wrong magic behind packed modules ends the walk with INVALID_MODULE when all of them load; they
      have been handed over then. The heap's walk finds no end. */
  lemma {:induction false} WrongMagicStops(m: Bytes, pos: nat, mods: seq<Bytes>, n: nat, bad: nat)
    requires PackedAt(m, pos, mods) && SizesFit(mods) && |mods| < n && |mods| <= bad
    requires var p := pos + PackedSize(mods); p + 12 <= |m| && Get(m, p, 8) != 0x0000_0044_4f4d_4c42
    ensures Covered(m, pos, n)
    ensures Walk(m, pos, n, bad) == Outcome(InvalidModule, mods, pos + PackedSize(mods))
    ensures EndOfWalk(m, pos, n) == None
    decreases |mods|
  {
    if mods != [] {
      PackedHead(m, pos, mods);
      RestFits(mods);
      WrongMagicStops(m, Behind(m, pos), mods[1..], n - 1, bad - 1);
      assert [mods[0]] + mods[1..] == mods;
    }
  }

  lemma {:induction false} WalkAndEnd(m: Bytes, pos: nat, n: nat)
    requires Covered(m, pos, n)
    ensures var w := Walk(m, pos, n, n);
      EndOfWalk(m, pos, n) == if w.status == Success then Some(w.end) else None
    decreases n
  {
    if n > 0 && IsModule(m, pos) {
      WalkAndEnd(m, Behind(m, pos), n - 1);
    }
  }

  /** The heap initialisation finds the end of the packed list. */
  lemma {:induction false} WalkEndsBehindImage(m: Bytes, mods: seq<Bytes>, rest: Bytes)
    requires Packable(mods) && m == Image(mods) + rest
    ensures |m| >= LIST_HEADER && Covered(m, LIST_HEADER, |mods|)
    ensures EndOfWalk(m, LIST_HEADER, |mods|) == Some(|Image(mods)|)
  {
    RoundTrip(m, mods, rest, |mods|);
    WalkAndEnd(m, LIST_HEADER, |mods|);
  }

  /** The heap starts at the least 16-byte boundary at or behind the end of the list. */
  lemma {:induction false} HeapStartIsLeast(end: nat)
    ensures end <= RoundUp(end, 16) && RoundUp(end, 16) % 16 == 0
    ensures forall a: nat :: a % 16 == 0 && end <= a ==> RoundUp(end, 16) <= a
  {
    RoundUpSpec(end, 16);
    forall a: nat | a % 16 == 0 && end <= a
      ensures RoundUp(end, 16) <= a
    {
      RoundUpLeast(end, 16, a);
    }
  }

  /** The walk accepted n modules, and they are the packed form of what it handed over. */
  ghost predicate AcceptedPacked(m: Bytes, pos: nat, n: nat, w: Outcome) {
    && w.status == Success && |w.handed| == n
    && PackedAt(m, pos, w.handed) && w.end == pos + PackedSize(w.handed)
  }

  lemma {:induction false} AcceptCons(m: Bytes, pos: nat, buf: Bytes, n: nat, w: Outcome)
    requires ModuleAt(m, pos, buf) && AcceptedPacked(m, pos + MODULE_HEADER + |buf|, n, w)
    ensures AcceptedPacked(m, pos, n + 1, After([buf], w))
  {
    PackedCons(m, pos, buf, w.handed);
  }

  lemma {:induction false} AcceptOneMore(m: Bytes, pos: nat, n: nat, w: Outcome)
    requires pos + MODULE_HEADER <= |m| && IsModule(m, pos) && Behind(m, pos) <= |m|
    requires AcceptedPacked(m, Behind(m, pos), n, w)
    ensures AcceptedPacked(m, pos, n + 1, After([Body(m, pos)], w))
  {
    ReadOnlyPacked(m, pos);
    AcceptCons(m, pos, Body(m, pos), n, w);
  }

  /** Conversely, whatever a complete walk accepts is the packed form of what it handed over. */
  lemma {:induction false} WalkAcceptsOnlyPacked(m: Bytes, pos: nat, n: nat, bad: nat)
    requires Covered(m, pos, n) && Walk(m, pos, n, bad).status == Success
    ensures AcceptedPacked(m, pos, n, Walk(m, pos, n, bad))
    decreases n
  {
    if n > 0 {
      WalkAcceptsOnlyPacked(m, Behind(m, pos), n - 1, bad - 1);
      AcceptOneMore(m, pos, n - 1, Walk(m, Behind(m, pos), n - 1, bad - 1));
    }
  }
}
