// The parts of a 32-bit relocatable ELF object that the module linker reads, and the layout it
// gives the loaded sections: boot-loader/core/loader/elf/elf.c and include/elf/elf32.h.

module ElfObject {
  import opened Bits
  import opened Memory

  const SHT_PROGBITS := 1
  const SHT_SYMTAB := 2
  const SHT_NOBITS := 8
  const SHT_REL := 9

  const SHN_UNDEF := 0

  const STT_NOTYPE := 0
  const STT_OBJECT := 1
  const STT_FUNC := 2
  const STT_SECTION := 3
  const STT_FILE := 4

  const R_386_32 := 1
  const R_386_PC32 := 2
  const R_386_16 := 20
  const R_386_PC16 := 21

  /** One relocation entry; `sym` and `kind` are the halves of r_info. */
  datatype Rel = Rel(offset: Word, sym: nat, kind: nat)

  /** A section header with what it refers to: `bytes` for PROGBITS, `rels` for REL. `alloc`
      is the SHF_ALLOC flag, `link` and `info` are sh_link and sh_info. */
  datatype Section = Section(kind: nat, alloc: bool, size: Word, align: Word,
                             link: nat, info: nat, bytes: seq<Byte>, rels: seq<Rel>)

  /** A symbol table entry. `named` says that st_name is not 0, `typ` and `bind` are the halves
      of st_info. */
  datatype Sym = Sym(name: string, named: bool, value: Word, typ: nat, bind: nat, shndx: nat)

  datatype Segment = Segment(index: nat, address: nat, size: Word)

  predicate Placed(s: Section) {
    s.alloc && s.size != 0
  }

  /** Alignments are powers of two, or 0 where nothing is placed. */
  ghost predicate WellAligned(secs: seq<Section>) {
    forall i :: 0 <= i < |secs| ==>
      (secs[i].align == 0 || IsPow2(secs[i].align)) && (Placed(secs[i]) ==> secs[i].align != 0)
  }

  // ------------------------------------------------------------- the size-computing pass

  /** Largest alignment among the first n sections, at least 1. */
  function MaxAlign(secs: seq<Section>, n: nat): (a: nat)
    requires n <= |secs|
    ensures a >= 1 && forall i :: 0 <= i < n ==> secs[i].align <= a
    ensures a < TWO_32
  {
    if n == 0 then 1
    else
      var a := MaxAlign(secs, n - 1);
      if secs[n - 1].align > a then secs[n - 1].align else a
  }

  /** Every section is counted, loaded or not, each rounded up by the alignment seen before it. */
  function ImageSize(secs: seq<Section>, n: nat): nat
    requires n <= |secs|
  {
    if n == 0 then 0
    else RoundUp(ImageSize(secs, n - 1), MaxAlign(secs, n - 1)) + secs[n - 1].size
  }

  // ------------------------------------------------------------- the placing pass

  /** Value of the placing pointer after the first n sections. */
  function EndOf(secs: seq<Section>, base: nat, n: nat): (e: nat)
    requires WellAligned(secs) && n <= |secs|
    decreases n, 0
  {
    if n == 0 then base
    else if Placed(secs[n - 1]) then StartOf(secs, base, n - 1) + secs[n - 1].size
    else EndOf(secs, base, n - 1)
  }

  /** Where section k goes when it is placed. */
  function StartOf(secs: seq<Section>, base: nat, k: nat): (a: nat)
    requires WellAligned(secs) && k < |secs| && Placed(secs[k])
    decreases k, 1
  {
    RoundUp(EndOf(secs, base, k), secs[k].align)
  }

  /** The segment table after the first n sections. */
  function Segments(secs: seq<Section>, base: nat, n: nat): (segs: seq<Segment>)
    requires WellAligned(secs) && n <= |secs|
    ensures |segs| <= n
    ensures forall j :: 0 <= j < |segs| ==>
      && segs[j].index < n && Placed(secs[segs[j].index])
      && segs[j].address == StartOf(secs, base, segs[j].index)
      && segs[j].size == secs[segs[j].index].size
  {
    if n == 0 then []
    else if Placed(secs[n - 1]) then
      Segments(secs, base, n - 1) + [Segment(n - 1, StartOf(secs, base, n - 1), secs[n - 1].size)]
    else Segments(secs, base, n - 1)
  }

  /** Number of placed sections among the first n, the length of the segment table. */
  function PlacedCount(secs: seq<Section>, n: nat): nat
    requires n <= |secs|
  {
    if n == 0 then 0 else PlacedCount(secs, n - 1) + if Placed(secs[n - 1]) then 1 else 0
  }

  lemma {:induction false} SegmentCount(secs: seq<Section>, base: nat, n: nat)
    requires WellAligned(secs) && n <= |secs|
    ensures |Segments(secs, base, n)| == PlacedCount(secs, n)
  {
    if n > 0 {
      SegmentCount(secs, base, n - 1);
    }
  }

  /** One step of the size pass with the 32-bit macro, when the final sum does not wrap. */
  lemma {:induction false} NextSize(secs: seq<Section>, n: nat)
    requires WellAligned(secs) && n < |secs| && ImageSize(secs, n) < TWO_32 && ImageSize(secs, n + 1) < TWO_32
    ensures AlignUp(ImageSize(secs, n), MaxAlign(secs, n)) + secs[n].size == ImageSize(secs, n + 1)
  {
    MaxAlignIsPow2(secs, n);
    RoundUpNoWrap(ImageSize(secs, n), MaxAlign(secs, n));
  }

  // ------------------------------------------------------------- layout properties

  lemma {:induction false} EndMonotone(secs: seq<Section>, base: nat, m: nat, n: nat)
    requires WellAligned(secs) && m <= n <= |secs|
    ensures EndOf(secs, base, m) <= EndOf(secs, base, n)
  {
    if m < n {
      EndMonotone(secs, base, m, n - 1);
      if Placed(secs[n - 1]) {
        RoundUpSpec(EndOf(secs, base, n - 1), secs[n - 1].align);
      }
    }
  }

  /** Placed sections keep section order, meet their alignment and do not overlap. */
  lemma {:induction false} SegmentsDisjoint(secs: seq<Section>, base: nat, i: nat, j: nat)
    requires WellAligned(secs) && i < j < |secs| && Placed(secs[i]) && Placed(secs[j])
    ensures StartOf(secs, base, i) + secs[i].size <= StartOf(secs, base, j)
    ensures StartOf(secs, base, i) % secs[i].align == 0
  {
    RoundUpSpec(EndOf(secs, base, i), secs[i].align);
    EndMonotone(secs, base, i + 1, j);
    RoundUpSpec(EndOf(secs, base, j), secs[j].align);
  }

  /** Every segment lies between the base and the final placing pointer. */
  lemma {:induction false} SegmentWithinEnd(secs: seq<Section>, base: nat, k: nat, n: nat)
    requires WellAligned(secs) && k < n <= |secs| && Placed(secs[k])
    ensures base <= StartOf(secs, base, k)
    ensures StartOf(secs, base, k) + secs[k].size <= EndOf(secs, base, n)
  {
    EndMonotone(secs, base, 0, k);
    RoundUpSpec(EndOf(secs, base, k), secs[k].align);
    EndMonotone(secs, base, k + 1, n);
  }

  /** Segments come in section order, so no section has two. */
  lemma {:induction false} SegmentsInOrder(secs: seq<Section>, base: nat, n: nat, i: nat, j: nat)
    requires WellAligned(secs) && n <= |secs| && i < j < |Segments(secs, base, n)|
    ensures Segments(secs, base, n)[i].index < Segments(secs, base, n)[j].index
  {
    if !Placed(secs[n - 1]) || j < |Segments(secs, base, n - 1)| {
      SegmentsInOrder(secs, base, n - 1, i, j);
    }
  }

  /** Every placed section has its segment in the table. */
  lemma {:induction false} SegmentsComplete(secs: seq<Section>, base: nat, k: nat, n: nat)
    requires WellAligned(secs) && k < n <= |secs| && Placed(secs[k])
    ensures Segment(k, StartOf(secs, base, k), secs[k].size) in Segments(secs, base, n)
  {
    if k < n - 1 {
      SegmentsComplete(secs, base, k, n - 1);
    }
  }

  /** Moving the base by a multiple of every alignment moves the whole layout. */
  lemma {:induction false} LayoutShift(secs: seq<Section>, base: nat, d: nat, n: nat)
    requires WellAligned(secs) && n <= |secs|
    requires forall i :: 0 <= i < |secs| && Placed(secs[i]) ==> Multiple(d, secs[i].align)
    ensures EndOf(secs, d + base, n) == d + EndOf(secs, base, n)
    ensures n < |secs| && Placed(secs[n]) ==> StartOf(secs, d + base, n) == d + StartOf(secs, base, n)
  {
    if n > 0 {
      LayoutShift(secs, base, d, n - 1);
    }
    if n < |secs| && Placed(secs[n]) {
      RoundUpShift(EndOf(secs, base, n), d, secs[n].align);
    }
  }

  // ------------------------------------------------------------- does the image fit?

  ghost predicate FitsImage(secs: seq<Section>, base: nat, n: nat)
    requires WellAligned(secs) && n <= |secs|
  {
    EndOf(secs, base, n) <= base + ImageSize(secs, n)
  }
  /** Whether section i's alignment is covered by the size pass: some section before it asks for
      at least as much, or nothing before it is placed. */
  ghost predicate Covered(secs: seq<Section>, i: nat)
    requires i < |secs|
  {
    secs[i].align <= MaxAlign(secs, i) || forall j :: 0 <= j < i ==> !Placed(secs[j])
  }

  ghost predicate Admissible(secs: seq<Section>) {
    forall i :: 0 <= i < |secs| && Placed(secs[i]) ==> Covered(secs, i)
  }

  lemma {:induction false} MaxAlignIsPow2(secs: seq<Section>, n: nat)
    requires WellAligned(secs) && n <= |secs|
    ensures IsPow2(MaxAlign(secs, n))
  {
    if n > 0 {
      MaxAlignIsPow2(secs, n - 1);
    }
  }

  lemma {:induction false} MaxAlignMonotone(secs: seq<Section>, m: nat, n: nat)
    requires m <= n <= |secs|
    ensures MaxAlign(secs, m) <= MaxAlign(secs, n)
  {
    if m < n {
      MaxAlignMonotone(secs, m, n - 1);
    }
  }

  lemma {:induction false} BaseAligned(secs: seq<Section>, base: nat, i: nat)
    requires WellAligned(secs) && i < |secs| && secs[i].align != 0
    requires base % MaxAlign(secs, |secs|) == 0
    ensures base % secs[i].align == 0
  {
    MaxAlignIsPow2(secs, |secs|);
    AlignedToSmaller(base, secs[i].align, MaxAlign(secs, |secs|));
  }

  lemma {:induction false} NothingPlaced(secs: seq<Section>, base: nat, n: nat)
    requires WellAligned(secs) && n <= |secs| && forall j :: 0 <= j < n ==> !Placed(secs[j])
    ensures EndOf(secs, base, n) == base
  {
    if n > 0 {
      NothingPlaced(secs, base, n - 1);
    }
  }

  /** The separate size pass reserves enough whenever every alignment is covered. */
  lemma {:induction false} AdmissibleFits(secs: seq<Section>, base: nat, n: nat)
    requires WellAligned(secs) && n <= |secs| && Admissible(secs)
    requires base % MaxAlign(secs, |secs|) == 0
    ensures FitsImage(secs, base, n)
  {
    if n > 0 {
      AdmissibleFits(secs, base, n - 1);
      var img, a, s := ImageSize(secs, n - 1), MaxAlign(secs, n - 1), secs[n - 1];
      RoundUpSpec(img, a);
      if Placed(s) {
        if s.align <= a {
          CoveredStart(secs, base, n - 1);
        } else {
          NothingPlaced(secs, base, n - 1);
          BaseAligned(secs, base, n - 1);
          RoundUpSpec(base, s.align);
        }
      }
    }
  }

  lemma {:induction false} CoveredStart(secs: seq<Section>, base: nat, k: nat)
    requires WellAligned(secs) && k < |secs| && Placed(secs[k]) && secs[k].align <= MaxAlign(secs, k)
    requires base % MaxAlign(secs, |secs|) == 0 && FitsImage(secs, base, k)
    ensures StartOf(secs, base, k) <= base + RoundUp(ImageSize(secs, k), MaxAlign(secs, k))
  {
    var img, a := ImageSize(secs, k), MaxAlign(secs, k);
    MaxAlignIsPow2(secs, k);
    MaxAlignIsPow2(secs, |secs|);
    MaxAlignMonotone(secs, k, |secs|);
    AlignedToSmaller(base, a, MaxAlign(secs, |secs|));
    MultipleIsMod(base, a);
    RoundUpMonotone(EndOf(secs, base, k), base + img, secs[k].align);
    RoundUpCoarser(base + img, secs[k].align, a);
    RoundUpShift(img, base, a);
  }

  // ---------------------------------------------------- exactly when the image always fits

  /** Whatever the sizes: an allocatable section may be placed, so each must have an alignment,
      and be covered by the sections before it unless none of them is allocatable. */
  ghost predicate AlwaysCovered(secs: seq<Section>, i: nat)
    requires i < |secs|
  {
    secs[i].align <= MaxAlign(secs, i) || forall j :: 0 <= j < i ==> !secs[j].alloc
  }

  ghost predicate AlwaysAdmissible(secs: seq<Section>) {
    forall i :: 0 <= i < |secs| && secs[i].alloc ==> AlwaysCovered(secs, i)
  }

  ghost predicate AllAligned(secs: seq<Section>) {
    WellAligned(secs) && forall i :: 0 <= i < |secs| && secs[i].alloc ==> secs[i].align != 0
  }

  /** The same section table with other sizes. */
  ghost function Resized(secs: seq<Section>, sizes: seq<Word>): (r: seq<Section>)
    requires |sizes| == |secs|
    ensures |r| == |secs|
    ensures forall i :: 0 <= i < |secs| ==> r[i] == secs[i].(size := sizes[i])
  {
    seq(|secs|, i requires 0 <= i < |secs| => secs[i].(size := sizes[i]))
  }

  lemma {:induction false} ResizedMaxAlign(secs: seq<Section>, sizes: seq<Word>, n: nat)
    requires |sizes| == |secs| && n <= |secs|
    ensures MaxAlign(Resized(secs, sizes), n) == MaxAlign(secs, n)
  {
    if n > 0 {
      ResizedMaxAlign(secs, sizes, n - 1);
    }
  }

  /** One byte before section i, and section i just large enough to fill up the image to M. */
  ghost function Witness(n: nat, i: nat, j: nat, s: Word): (sizes: seq<Word>)
    ensures |sizes| == n
    ensures forall k :: 0 <= k < n ==> sizes[k] == if k == j then 1 else if k == i then s else 0
  {
    seq(n, k => if k == j then 1 else if k == i then s else 0)
  }

  /** Before section i the image is at most i's running alignment. */
  lemma {:induction false} WitnessBefore(secs: seq<Section>, j: nat, n: nat)
    requires WellAligned(secs) && j < |secs| && n <= |secs|
    requires forall k :: 0 <= k < n ==> secs[k].size == if k == j then 1 else 0
    ensures ImageSize(secs, n) <= if n <= j then 0 else MaxAlign(secs, n)
  {
    if n > 0 {
      WitnessBefore(secs, j, n - 1);
      var img, a := ImageSize(secs, n - 1), MaxAlign(secs, n - 1);
      RoundUpSpec(0, a);
      ModUnique(a, a, 1, 0);
      if n - 1 > j {
        RoundUpLeast(img, a, a);
      }
    }
  }

  lemma {:induction false} MaxAlignDivides(secs: seq<Section>, n: nat)
    requires WellAligned(secs) && n <= |secs|
    ensures MaxAlign(secs, n) <= MaxAlign(secs, |secs|)
    ensures MaxAlign(secs, |secs|) % MaxAlign(secs, n) == 0
  {
    MaxAlignIsPow2(secs, n);
    MaxAlignIsPow2(secs, |secs|);
    MaxAlignMonotone(secs, n, |secs|);
    Pow2Divides(MaxAlign(secs, n), MaxAlign(secs, |secs|));
  }

  lemma {:induction false} WitnessAfter(secs: seq<Section>, i: nat, n: nat)
    requires WellAligned(secs) && i < n <= |secs|
    requires ImageSize(secs, i + 1) <= MaxAlign(secs, |secs|) && forall k :: i < k < n ==> secs[k].size == 0
    ensures ImageSize(secs, n) <= MaxAlign(secs, |secs|)
  {
    if n > i + 1 {
      WitnessAfter(secs, i, n - 1);
      MaxAlignDivides(secs, n - 1);
      RoundUpLeast(ImageSize(secs, n - 1), MaxAlign(secs, n - 1), MaxAlign(secs, |secs|));
    }
  }

  lemma {:induction false} NextMultiple(base: nat, x: nat, n: nat)
    requires n > 0 && base % n == 0 && x > base
    ensures RoundUp(x, n) >= base + n
  {
    MultipleIsMod(base, n);
    RoundUpShift(x - base, base, n);
  }

  lemma {:induction false} WitnessImage(r: seq<Section>, i: nat, j: nat)
    requires WellAligned(r) && j < i < |r|
    requires var M, a := MaxAlign(r, |r|), MaxAlign(r, i);
      forall k :: 0 <= k < |r| ==> r[k].size == if k == j then 1 else if k == i then M - a else 0
    ensures ImageSize(r, |r|) <= MaxAlign(r, |r|)
  {
    var a := MaxAlign(r, i);
    WitnessBefore(r, j, i);
    ModUnique(a, a, 1, 0);
    RoundUpLeast(ImageSize(r, i), a, a);
    WitnessAfter(r, i, |r|);
  }

  lemma {:induction false} WitnessEnd(r: seq<Section>, base: nat, i: nat, j: nat)
    requires WellAligned(r) && j < i < |r| && Placed(r[i]) && Placed(r[j])
    requires base % MaxAlign(r, |r|) == 0
    ensures EndOf(r, base, |r|) >= base + r[i].align + r[i].size
  {
    SegmentWithinEnd(r, base, j, i);
    BaseAligned(r, base, i);
    NextMultiple(base, EndOf(r, base, i), r[i].align);
    EndMonotone(r, base, i + 1, |r|);
  }

  /** Sizes for which an uncovered section i, with section j loaded before it, sticks out of
      the image. */
  lemma {:induction false} UncoveredOverflows(secs: seq<Section>, base: nat, i: nat, j: nat) returns (sizes: seq<Word>)
    requires AllAligned(secs) && j < i < |secs| && secs[i].alloc && secs[j].alloc
    requires secs[i].align > MaxAlign(secs, i) && base % MaxAlign(secs, |secs|) == 0
    ensures |sizes| == |secs| && !FitsImage(Resized(secs, sizes), base, |secs|)
  {
    var M, a := MaxAlign(secs, |secs|), MaxAlign(secs, i);
    sizes := Witness(|secs|, i, j, M - a);
    var r := Resized(secs, sizes);
    ResizedMaxAlign(secs, sizes, i);
    ResizedMaxAlign(secs, sizes, |secs|);
    WitnessImage(r, i, j);
    WitnessEnd(r, base, i, j);
  }

  lemma {:induction false} ResizedAdmissible(secs: seq<Section>, sizes: seq<Word>)
    requires |sizes| == |secs| && AlwaysAdmissible(secs)
    ensures Admissible(Resized(secs, sizes))
  {
    var r := Resized(secs, sizes);
    forall i | 0 <= i < |r| && Placed(r[i])
      ensures Covered(r, i)
    {
      ResizedMaxAlign(secs, sizes, i);
      assert AlwaysCovered(secs, i);
    }
  }

  /** For a given table of flags and alignments, the image computed by the first pass holds the
      placed sections for every choice of section sizes exactly when every allocatable section's
      alignment is covered by the sections before it. */
  lemma {:induction false} FitsForAllSizes(secs: seq<Section>, base: nat)
    requires AllAligned(secs) && base % MaxAlign(secs, |secs|) == 0
    ensures AlwaysAdmissible(secs) <==>
      forall sizes: seq<Word> :: |sizes| == |secs| ==> FitsImage(Resized(secs, sizes), base, |secs|)
  {
    if AlwaysAdmissible(secs) {
      forall sizes: seq<Word> | |sizes| == |secs|
        ensures FitsImage(Resized(secs, sizes), base, |secs|)
      {
        ResizedMaxAlign(secs, sizes, |secs|);
        ResizedAdmissible(secs, sizes);
        AdmissibleFits(Resized(secs, sizes), base, |secs|);
      }
    } else {
      var i :| 0 <= i < |secs| && secs[i].alloc && !AlwaysCovered(secs, i);
      var j :| 0 <= j < i && secs[j].alloc;
      var sizes := UncoveredOverflows(secs, base, i, j);
    }
  }
}
