// What linking an object means: the value of every relocated word, what stays untouched,
// independence of the order of relocation entries, and behaviour under a change of load base.

module ElfLink {
  import opened Bits
  import opened Memory
  import opened ElfObject
  import opened Relocation
  import opened ElfLoad

  function Width(kind: nat): nat {
    if kind == R_386_32 || kind == R_386_PC32 then 4
    else if kind == R_386_16 || kind == R_386_PC16 then 2
    else 0
  }

  predicate PcRelative(kind: nat) {
    kind == R_386_PC32 || kind == R_386_PC16
  }

  /** Entry k of REL section i. */
  predicate IsEntry(secs: seq<Section>, i: nat, k: nat) {
    i < |secs| && secs[i].kind == SHT_REL && k < |secs[i].rels|
  }

  /** Every patched word lies inside a loaded PROGBITS section. */
  ghost predicate WellSited(secs: seq<Section>) {
    forall i: nat, k: nat :: IsEntry(secs, i, k) && Width(secs[i].rels[k].kind) > 0 ==>
      SiteInside(secs, secs[i].info, secs[i].rels[k])
  }

  predicate SiteInside(secs: seq<Section>, t: nat, r: Rel) {
    && t < |secs| && Placed(secs[t]) && secs[t].kind == SHT_PROGBITS
    && r.offset + Width(r.kind) <= secs[t].size
  }

  predicate EntriesApart(t: nat, r: Rel, t': nat, r': Rel) {
    || Width(r.kind) == 0 || Width(r'.kind) == 0 || t != t'
    || r.offset + Width(r.kind) <= r'.offset || r'.offset + Width(r'.kind) <= r.offset
  }

  ghost predicate ApartFromOthers(secs: seq<Section>, i: nat, k: nat)
    requires IsEntry(secs, i, k)
  {
    forall i': nat, k': nat :: IsEntry(secs, i', k') && (i != i' || k != k') ==>
      EntriesApart(secs[i].info, secs[i].rels[k], secs[i'].info, secs[i'].rels[k'])
  }

  /** No two entries patch overlapping words. */
  ghost predicate SitesApart(secs: seq<Section>) {
    forall i: nat, k: nat :: IsEntry(secs, i, k) ==> ApartFromOthers(secs, i, k)
  }

  /** An object all of whose relocations are inside loaded sections and do not overlap. */
  ghost predicate Linkable(secs: seq<Section>, t: Tables) {
    WellFormed(secs, t) && WellSited(secs) && SitesApart(secs)
  }

  // ------------------------------------------------------------- finding sections and patches

  lemma {:induction false} IndexOfLast(segs: seq<Segment>, s: Segment, index: nat)
    ensures SectionByIndex(segs + [s], index) ==
      if exists j :: 0 <= j < |segs| && segs[j].index == index then SectionByIndex(segs, index)
      else if s.index == index then s.address else 0
  {
    if segs != [] {
      assert (segs + [s])[1..] == segs[1..] + [s];
      IndexOfLast(segs[1..], s, index);
      if segs[0].index != index && exists j :: 0 <= j < |segs| && segs[j].index == index {
        var j :| 0 <= j < |segs| && segs[j].index == index;
        assert segs[1..][j - 1].index == index;
      }
    } else {
      assert segs + [s] == [s];
    }
  }

  /** The index lookup finds the placed address, and 0 for a section that is not loaded. */
  lemma {:induction false} LookupPlaced(secs: seq<Section>, base: nat, n: nat, k: nat)
    requires WellAligned(secs) && n <= |secs|
    ensures SectionByIndex(Segments(secs, base, n), k) ==
      if k < n && secs[k].alloc && secs[k].size != 0 then StartOf(secs, base, k) else 0
  {
    if n > 0 {
      LookupPlaced(secs, base, n - 1, k);
      if Placed(secs[n - 1]) {
        var segs := Segments(secs, base, n - 1);
        IndexOfLast(segs, Segment(n - 1, StartOf(secs, base, n - 1), secs[n - 1].size), k);
        if k < n - 1 && Placed(secs[k]) {
          SegmentsComplete(secs, base, k, n - 1);
          var j :| 0 <= j < |segs| && segs[j] == Segment(k, StartOf(secs, base, k), secs[k].size);
        }
      }
    }
  }

  /** Position of entry k of REL section i in the list of all patches. */
  ghost function Position(secs: seq<Section>, t: Tables, segs: seq<Segment>, i: nat, k: nat): nat
    requires IsEntry(secs, i, k)
  {
    |Fixes(secs, t, segs, i)| + k
  }

  /** Patches of earlier sections keep their position. */
  lemma {:induction false} FixStays(secs: seq<Section>, t: Tables, segs: seq<Segment>, m: nat, n: nat, p: nat)
    requires m <= n <= |secs| && p < |Fixes(secs, t, segs, m)|
    ensures p < |Fixes(secs, t, segs, n)|
    ensures Fixes(secs, t, segs, n)[p] == Fixes(secs, t, segs, m)[p]
  {
    if m < n {
      FixStays(secs, t, segs, m, n - 1, p);
    }
  }

  lemma {:induction false} ConcatIndex<T>(a: seq<T>, b: seq<T>, k: nat)
    requires k < |b|
    ensures (a + b)[|a| + k] == b[k]
  {
  }

  lemma {:induction false} OwnFix(secs: seq<Section>, t: Tables, segs: seq<Segment>, i: nat, k: nat)
    requires IsEntry(secs, i, k) && SymbolsExist(secs[i], t)
    ensures var p := Position(secs, t, segs, i, k);
      && p < |Fixes(secs, t, segs, i + 1)|
      && Fixes(secs, t, segs, i + 1)[p] == RelFixes(secs, t, segs, i)[k]
  {
    ConcatIndex(Fixes(secs, t, segs, i), RelFixes(secs, t, segs, i), k);
  }

  lemma {:induction false} FixAt(secs: seq<Section>, t: Tables, segs: seq<Segment>, i: nat, k: nat)
    requires IsEntry(secs, i, k) && SymbolsExist(secs[i], t)
    ensures var p := Position(secs, t, segs, i, k);
      && p < |Fixes(secs, t, segs, |secs|)|
      && Fixes(secs, t, segs, |secs|)[p] == RelFixes(secs, t, segs, i)[k]
  {
    OwnFix(secs, t, segs, i, k);
    FixStays(secs, t, segs, i + 1, |secs|, Position(secs, t, segs, i, k));
  }

  lemma {:induction false} FixOrigin(secs: seq<Section>, t: Tables, segs: seq<Segment>, n: nat, p: nat)
    returns (i: nat, k: nat)
    requires n <= |secs| && p < |Fixes(secs, t, segs, n)|
    ensures IsEntry(secs, i, k) && SymbolsExist(secs[i], t) && p == Position(secs, t, segs, i, k)
  {
    var before := Fixes(secs, t, segs, n - 1);
    if p < |before| {
      i, k := FixOrigin(secs, t, segs, n - 1, p);
    } else {
      assert Fixes(secs, t, segs, n) == before + RelFixes(secs, t, segs, n - 1);
      i, k := n - 1, p - |before|;
    }
  }

  // ------------------------------------------------------------- sites in memory

  ghost function SymbolOf(secs: seq<Section>, t: Tables, i: nat, k: nat): Sym
    requires IsEntry(secs, i, k) && SymbolsExist(secs[i], t)
  {
    t[secs[i].link][secs[i].rels[k].sym]
  }

  /** S of the relocation formulas: the symbol's address once resolved. */
  ghost function SymbolAddress(s: Sym, segs: seq<Segment>, ex: Exports): Word {
    Resolve(s, segs, ex).1.value
  }

  /** P of the relocation formulas. */
  ghost function Place(secs: seq<Section>, base: nat, i: nat, k: nat): nat
    requires WellAligned(secs) && IsEntry(secs, i, k) && SiteInside(secs, secs[i].info, secs[i].rels[k])
  {
    StartOf(secs, base, secs[i].info) + secs[i].rels[k].offset
  }

  lemma {:induction false} FixForSite(r: Rel, value: Word, applied: nat)
    requires applied + r.offset < TWO_32
    ensures var p := applied + r.offset;
      Width(r.kind) > 0 ==>
        FixFor(r, value, applied) == Fix(p, Width(r.kind), if PcRelative(r.kind) then Difference(value, p) else value)
  {
  }

  lemma {:induction false} ResolvedEntry(secs: seq<Section>, t: Tables, segs: seq<Segment>, ex: Exports, i: nat, k: nat)
    requires IsEntry(secs, i, k) && SymbolsExist(secs[i], t)
    ensures SymbolsExist(secs[i], ResolvedTables(t, segs, ex))
    ensures RelFixes(secs, ResolvedTables(t, segs, ex), segs, i)[k] ==
            FixFor(secs[i].rels[k], SymbolAddress(SymbolOf(secs, t, i, k), segs, ex),
                   SectionByIndex(segs, secs[i].info))
  {
    var syms := t[secs[i].link];
    PrefixAt(syms, segs, ex, |syms|, secs[i].rels[k].sym);
  }

  /** Position of entry k of REL section i among the patches of the whole object. */
  ghost function EntryPosition(secs: seq<Section>, t: Tables, base: nat, ex: Exports, i: nat, k: nat): nat
    requires WellAligned(secs) && IsEntry(secs, i, k)
  {
    var segs := Segments(secs, base, |secs|);
    Position(secs, ResolvedTables(t, segs, ex), segs, i, k)
  }

  /** s - p in a 32-bit register. */
  function Difference(s: Word, p: nat): Word {
    if p < TWO_32 then Reduce(s + TWO_32 - p) else s
  }

  /** The patch the loader makes for an entry inside a loaded section. */
  ghost function SitePatch(secs: seq<Section>, t: Tables, base: nat, ex: Exports, i: nat, k: nat): Fix
    requires WellAligned(secs) && IsEntry(secs, i, k) && SymbolsExist(secs[i], t)
    requires SiteInside(secs, secs[i].info, secs[i].rels[k])
  {
    var r, p := secs[i].rels[k], Place(secs, base, i, k);
    var s := SymbolAddress(SymbolOf(secs, t, i, k), Segments(secs, base, |secs|), ex);
    Fix(p, Width(r.kind), if PcRelative(r.kind) then Difference(s, p) else s)
  }

  lemma {:induction false} PatchInList(secs: seq<Section>, t: Tables, base: nat, ex: Exports, i: nat, k: nat)
    requires WellAligned(secs) && IsEntry(secs, i, k) && SymbolsExist(secs[i], t)
    ensures var segs := Segments(secs, base, |secs|);
      var p := EntryPosition(secs, t, base, ex, i, k);
      var fs := LinkFixes(secs, t, base, ex);
      && p < |fs|
      && fs[p] == FixFor(secs[i].rels[k], SymbolAddress(SymbolOf(secs, t, i, k), segs, ex),
                         SectionByIndex(segs, secs[i].info))
  {
    var segs := Segments(secs, base, |secs|);
    ResolvedEntry(secs, t, segs, ex, i, k);
    FixAt(secs, ResolvedTables(t, segs, ex), segs, i, k);
  }

  lemma {:induction false} PatchIsSitePatch(secs: seq<Section>, t: Tables, base: nat, ex: Exports, len: nat, i: nat,
        k: nat)
    requires Loadable(secs, base, |secs|, len) && IsEntry(secs, i, k) && SymbolsExist(secs[i], t)
    requires Width(secs[i].rels[k].kind) > 0 && SiteInside(secs, secs[i].info, secs[i].rels[k])
    ensures var segs := Segments(secs, base, |secs|);
      && SitePatch(secs, t, base, ex, i, k)
         == FixFor(secs[i].rels[k], SymbolAddress(SymbolOf(secs, t, i, k), segs, ex),
                   SectionByIndex(segs, secs[i].info))
      && Inside(SitePatch(secs, t, base, ex, i, k), len)
  {
    var segs := Segments(secs, base, |secs|);
    LookupPlaced(secs, base, |secs|, secs[i].info);
    SegmentWithinEnd(secs, base, secs[i].info, |secs|);
    FixForSite(secs[i].rels[k], SymbolAddress(SymbolOf(secs, t, i, k), segs, ex), SectionByIndex(segs, secs[i].info));
  }

  lemma {:induction false} EntryFix(secs: seq<Section>, t: Tables, base: nat, ex: Exports, len: nat, i: nat, k: nat)
    requires Loadable(secs, base, |secs|, len) && IsEntry(secs, i, k) && SymbolsExist(secs[i], t)
    requires Width(secs[i].rels[k].kind) > 0 && SiteInside(secs, secs[i].info, secs[i].rels[k])
    ensures var p := EntryPosition(secs, t, base, ex, i, k);
      var fs := LinkFixes(secs, t, base, ex);
      p < |fs| && fs[p] == SitePatch(secs, t, base, ex, i, k) && Inside(fs[p], len)
  {
    PatchInList(secs, t, base, ex, i, k);
    PatchIsSitePatch(secs, t, base, ex, len, i, k);
  }

  /** f is where entry k of REL section i patches, if it patches at all. */
  ghost predicate PatchAt(secs: seq<Section>, base: nat, i: nat, k: nat, f: Fix)
    requires WellAligned(secs)
  {
    && IsEntry(secs, i, k)
    && f.width == Width(secs[i].rels[k].kind)
    && (f.width == 0 ==> f.addr == 0)
    && (f.width > 0 ==> SiteInside(secs, secs[i].info, secs[i].rels[k]) && f.addr == Place(secs, base, i, k))
  }

  /** Every patch comes from one entry. */
  lemma {:induction false} NthPatch(secs: seq<Section>, t: Tables, base: nat, ex: Exports, len: nat, p: nat, f: Fix)
    returns (i: nat, k: nat)
    requires Linkable(secs, t) && Loadable(secs, base, |secs|, len)
    requires p < |LinkFixes(secs, t, base, ex)| && f == LinkFixes(secs, t, base, ex)[p]
    ensures PatchAt(secs, base, i, k, f) && p == EntryPosition(secs, t, base, ex, i, k) && Inside(f, len)
  {
    var segs := Segments(secs, base, |secs|);
    i, k := FixOrigin(secs, ResolvedTables(t, segs, ex), segs, |secs|, p);
    if Width(secs[i].rels[k].kind) > 0 {
      EntryFix(secs, t, base, ex, len, i, k);
    } else {
      PatchInList(secs, t, base, ex, i, k);
    }
  }

  lemma {:induction false} SitesInside(secs: seq<Section>, t: Tables, base: nat, ex: Exports, len: nat)
    requires Linkable(secs, t) && Loadable(secs, base, |secs|, len)
    ensures AllInside(LinkFixes(secs, t, base, ex), len)
  {
    forall p | 0 <= p < |LinkFixes(secs, t, base, ex)|
      ensures Inside(LinkFixes(secs, t, base, ex)[p], len)
    {
      var i, k := NthPatch(secs, t, base, ex, len, p, LinkFixes(secs, t, base, ex)[p]);
    }
  }

  /** The memory after an object that can be linked is loaded at base. */
  ghost function Linked(m: seq<Byte>, secs: seq<Section>, t: Tables, base: nat, ex: Exports): (m': seq<Byte>)
    requires Linkable(secs, t) && Loadable(secs, base, |secs|, |m|)
    ensures |m'| == |m|
  {
    SitesInside(secs, t, base, ex, |m|);
    Link(m, secs, t, base, ex)
  }

  lemma {:induction false} PlacesApart(secs: seq<Section>, base: nat, i: nat, k: nat, i': nat, k': nat)
    requires WellAligned(secs) && IsEntry(secs, i, k) && IsEntry(secs, i', k')
    requires SiteInside(secs, secs[i].info, secs[i].rels[k]) && SiteInside(secs, secs[i'].info, secs[i'].rels[k'])
    requires Width(secs[i].rels[k].kind) > 0 && Width(secs[i'].rels[k'].kind) > 0
    requires EntriesApart(secs[i].info, secs[i].rels[k], secs[i'].info, secs[i'].rels[k'])
    ensures var p, p' := Place(secs, base, i, k), Place(secs, base, i', k');
      p + Width(secs[i].rels[k].kind) <= p' || p' + Width(secs[i'].rels[k'].kind) <= p
  {
    var a, b := secs[i].info, secs[i'].info;
    if a < b {
      SegmentsDisjoint(secs, base, a, b);
    } else if b < a {
      SegmentsDisjoint(secs, base, b, a);
    }
  }

  lemma {:induction false} SitesDisjoint(secs: seq<Section>, t: Tables, base: nat, ex: Exports, len: nat)
    requires Linkable(secs, t) && Loadable(secs, base, |secs|, len)
    ensures Disjoint(LinkFixes(secs, t, base, ex))
  {
    var fs := LinkFixes(secs, t, base, ex);
    forall p, q | 0 <= p < |fs| && 0 <= q < |fs| && p != q
      ensures Apart(fs[p], fs[q])
    {
      var i, k := NthPatch(secs, t, base, ex, len, p, fs[p]);
      var i', k' := NthPatch(secs, t, base, ex, len, q, fs[q]);
      if Width(secs[i].rels[k].kind) > 0 && Width(secs[i'].rels[k'].kind) > 0 {
        assert ApartFromOthers(secs, i, k);
        PlacesApart(secs, base, i, k, i', k');
      }
    }
  }

  // ------------------------------------------------------------- contents of placed sections

  /** A placed PROGBITS section holds its bytes before relocation. */
  lemma {:induction false} PlacedBytes(m: seq<Byte>, secs: seq<Section>, base: nat, n: nat, t: nat, o: nat)
    requires Loadable(secs, base, n, |m|) && t < n
    requires Placed(secs[t]) && secs[t].kind == SHT_PROGBITS && o < secs[t].size
    ensures StartOf(secs, base, t) + o < |m|
    ensures PlaceAll(m, secs, base, n)[StartOf(secs, base, t) + o] == secs[t].bytes[o]
  {
    SegmentWithinEnd(secs, base, t, n);
    EndMonotone(secs, base, n - 1, n);
    if t < n - 1 {
      PlacedBytes(m, secs, base, n - 1, t, o);
      if Placed(secs[n - 1]) {
        SegmentsDisjoint(secs, base, t, n - 1);
      }
    }
  }

  /** Memory outside every segment is not written by placing. */
  lemma {:induction false} OutsideUnplaced(m: seq<Byte>, secs: seq<Section>, base: nat, n: nat, a: nat)
    requires Loadable(secs, base, n, |m|) && a < |m|
    requires forall t :: 0 <= t < n && Placed(secs[t]) ==>
      !(StartOf(secs, base, t) <= a < StartOf(secs, base, t) + secs[t].size)
    ensures PlaceAll(m, secs, base, n)[a] == m[a]
  {
    if n > 0 {
      EndMonotone(secs, base, n - 1, n);
      OutsideUnplaced(m, secs, base, n - 1, a);
    }
  }

  /** A loaded section of another kind than PROGBITS: NOBITS is cleared up to its last byte, which keeps
      what the memory held, and any other kind is not written. */
  lemma {:induction false} PlacedRest(m: seq<Byte>, secs: seq<Section>, base: nat, n: nat, t: nat, o: nat)
    requires Loadable(secs, base, n, |m|) && t < n
    requires Placed(secs[t]) && secs[t].kind != SHT_PROGBITS && o < secs[t].size
    ensures StartOf(secs, base, t) + o < |m|
    ensures var a := StartOf(secs, base, t) + o;
      PlaceAll(m, secs, base, n)[a] == if secs[t].kind == SHT_NOBITS && o < secs[t].size - 1 then 0 else m[a]
  {
    SegmentWithinEnd(secs, base, t, n);
    EndMonotone(secs, base, n - 1, n);
    if t < n - 1 {
      PlacedRest(m, secs, base, n - 1, t, o);
      if Placed(secs[n - 1]) {
        SegmentsDisjoint(secs, base, t, n - 1);
      }
    } else {
      UnplacedYet(m, secs, base, t, StartOf(secs, base, t) + o);
    }
  }

  lemma {:induction false} UnplacedYet(m: seq<Byte>, secs: seq<Section>, base: nat, n: nat, a: nat)
    requires Loadable(secs, base, n, |m|) && EndOf(secs, base, n) <= a < |m|
    ensures PlaceAll(m, secs, base, n)[a] == m[a]
  {
    forall t | 0 <= t < n && Placed(secs[t])
      ensures StartOf(secs, base, t) + secs[t].size <= a
    {
      SegmentWithinEnd(secs, base, t, n);
    }
    OutsideUnplaced(m, secs, base, n, a);
  }

  lemma {:induction false} PlacedWord(m: seq<Byte>, secs: seq<Section>, base: nat, t: nat, o: nat, w: nat)
    requires Loadable(secs, base, |secs|, |m|) && t < |secs| && Placed(secs[t]) && secs[t].kind == SHT_PROGBITS
    requires o + w <= secs[t].size
    ensures StartOf(secs, base, t) + o + w <= |m|
    ensures Get(PlaceAll(m, secs, base, |secs|), StartOf(secs, base, t) + o, w) == Get(secs[t].bytes, o, w)
  {
    SegmentWithinEnd(secs, base, t, |secs|);
    var s := StartOf(secs, base, t);
    forall j | 0 <= j < secs[t].size
      ensures PlaceAll(m, secs, base, |secs|)[s + j] == secs[t].bytes[j]
    {
      PlacedBytes(m, secs, base, |secs|, t, j);
    }
    GetShifted(PlaceAll(m, secs, base, |secs|), secs[t].bytes, s, o, w);
  }

  lemma {:induction false} GetShifted(m: seq<Byte>, bytes: seq<Byte>, s: nat, o: nat, w: nat)
    requires o + w <= |bytes| && s + |bytes| <= |m|
    requires forall j :: 0 <= j < |bytes| ==> m[s + j] == bytes[j]
    ensures Get(m, s + o, w) == Get(bytes, o, w)
    decreases w
  {
    if w > 0 {
      GetShifted(m, bytes, s, o + 1, w - 1);
    }
  }

  // ------------------------------------------------------------- linking preserves meaning

  /** A: the addend stored in the section before relocation. */
  ghost function Addend(secs: seq<Section>, i: nat, k: nat): nat
    requires IsEntry(secs, i, k) && SiteInside(secs, secs[i].info, secs[i].rels[k])
    requires |secs[secs[i].info].bytes| == secs[secs[i].info].size
  {
    Get(secs[secs[i].info].bytes, secs[i].rels[k].offset, Width(secs[i].rels[k].kind))
  }

  /** The relocation formulas of the Intel386 supplement: A + S, or A + S - P. */
  ghost function Formula(a: int, s: int, p: int, pcRelative: bool): int {
    if pcRelative then a + s - p else a + s
  }

  /** The value of x in an unsigned word of w bytes, w being 2 or 4. */
  function InWord(x: int, w: nat): nat {
    if w == 2 then x % 0x1_0000 else x % TWO_32
  }

  lemma {:induction false} Mod16(z: int, q: int)
    ensures (z + 0x1_0000 * q) % 0x1_0000 == z % 0x1_0000
  {
  }

  lemma {:induction false} Mod32(z: int, q: int)
    ensures (z + TWO_32 * q) % TWO_32 == z % TWO_32
  {
  }

  /** Adding a multiple of 2^32 does not change a word of 2 or 4 bytes. */
  lemma {:induction false} InWordMultiple(z: int, q: int, w: nat)
    ensures InWord(z + TWO_32 * q, w) == InWord(z, w)
  {
    if w == 2 {
      Mod16(z, 0x1_0000 * q);
    } else {
      Mod32(z, q);
    }
  }

  lemma {:induction false} InWordReduce(x: int, y: nat, w: nat)
    ensures InWord(x + Reduce(y), w) == InWord(x + y, w)
  {
    ReduceIsMod(y);
    InWordMultiple(x + y % TWO_32, y / TWO_32, w);
  }

  lemma {:induction false} InWordSum(x: int, y: int, w: nat)
    ensures InWord(InWord(x, w) + y, w) == InWord(x + y, w)
  {
    if w == 2 {
      Mod16(x % 0x1_0000 + y, x / 0x1_0000);
    } else {
      Mod32(x % TWO_32 + y, x / TWO_32);
    }
  }

  lemma {:induction false} TruncateInWord(x: nat, w: nat)
    requires w == 2 || w == 4
    ensures Truncate(x, w) == InWord(x, w)
  {
    TruncateIsMod(x, w);
    Pow256Values();
  }

  /** An entry whose word is patched, in an object that can be linked at base. */
  ghost predicate Patches(secs: seq<Section>, t: Tables, base: nat, len: nat, i: nat, k: nat) {
    && Linkable(secs, t) && Loadable(secs, base, |secs|, len) && IsEntry(secs, i, k)
    && SymbolsExist(secs[i], t) && Width(secs[i].rels[k].kind) > 0
    && SiteInside(secs, secs[i].info, secs[i].rels[k])
  }

  lemma {:induction false} LinkedSite(m: seq<Byte>, secs: seq<Section>, t: Tables, base: nat, ex: Exports, i: nat,
        k: nat)
    requires Patches(secs, t, base, |m|, i, k)
    ensures var f := SitePatch(secs, t, base, ex, i, k);
      Inside(f, |m|) && WordAt(Linked(m, secs, t, base, ex), f) == Patched(PlaceAll(m, secs, base, |secs|), f)
  {
    SitesInside(secs, t, base, ex, |m|);
    SitesDisjoint(secs, t, base, ex, |m|);
    EntryFix(secs, t, base, ex, |m|, i, k);
    var f := SitePatch(secs, t, base, ex, i, k);
    var placed := PlaceAll(m, secs, base, |secs|);
    SiteValue(placed, LinkFixes(secs, t, base, ex), EntryPosition(secs, t, base, ex, i, k));
  }

  lemma {:induction false} PlacedAddend(m: seq<Byte>, secs: seq<Section>, t: Tables, base: nat, ex: Exports, i: nat,
        k: nat)
    requires Patches(secs, t, base, |m|, i, k)
    ensures var f := SitePatch(secs, t, base, ex, i, k);
      Inside(f, |m|) && WordAt(PlaceAll(m, secs, base, |secs|), f) == Addend(secs, i, k)
  {
    PlacedWord(m, secs, base, secs[i].info, secs[i].rels[k].offset, Width(secs[i].rels[k].kind));
  }

  /** The value a relocated word must have: A + S or A + S - P modulo its width. */
  ghost function Meaning(secs: seq<Section>, t: Tables, base: nat, ex: Exports, i: nat, k: nat): nat
    requires WellAligned(secs) && IsEntry(secs, i, k) && SymbolsExist(secs[i], t)
    requires SiteInside(secs, secs[i].info, secs[i].rels[k]) && |secs[secs[i].info].bytes| == secs[secs[i].info].size
  {
    var r := secs[i].rels[k];
    var s := SymbolAddress(SymbolOf(secs, t, i, k), Segments(secs, base, |secs|), ex);
    InWord(Formula(Addend(secs, i, k), s, Place(secs, base, i, k), PcRelative(r.kind)), Width(r.kind))
  }

  lemma {:induction false} PatchMeaning(placed: seq<Byte>, f: Fix, a: nat, s: Word, pc: bool)
    requires Inside(f, |placed|) && WordAt(placed, f) == a && (f.width == 2 || f.width == 4)
    requires f.addr < TWO_32
    requires f.delta == if pc then Difference(s, f.addr) else s
    ensures Patched(placed, f) == InWord(Formula(a, s, f.addr, pc), f.width)
  {
    PatchedFormula(a, s, f.addr, pc, f.width);
  }

  /** The word entry k of REL section i ends up patching, read from the linked memory at P. */
  ghost function WordOf(m: seq<Byte>, secs: seq<Section>, t: Tables, base: nat, ex: Exports, i: nat, k: nat): nat
    requires Patches(secs, t, base, |m|, i, k)
  {
    SegmentWithinEnd(secs, base, secs[i].info, |secs|);
    Get(Linked(m, secs, t, base, ex), Place(secs, base, i, k), Width(secs[i].rels[k].kind))
  }

  lemma {:induction false} WordIsMeaning(m: seq<Byte>, secs: seq<Section>, t: Tables, base: nat, ex: Exports, i: nat,
        k: nat)
    requires Patches(secs, t, base, |m|, i, k)
    ensures WordOf(m, secs, t, base, ex, i, k) == Meaning(secs, t, base, ex, i, k)
  {
    LinkedSite(m, secs, t, base, ex, i, k);
    PlacedAddend(m, secs, t, base, ex, i, k);
    PatchMeaning(PlaceAll(m, secs, base, |secs|), SitePatch(secs, t, base, ex, i, k), Addend(secs, i, k),
                 SymbolAddress(SymbolOf(secs, t, i, k), Segments(secs, base, |secs|), ex),
                 PcRelative(secs[i].rels[k].kind));
  }

  lemma {:induction false} FormulaIs(kind: nat, a: nat, s: nat, p: nat)
    ensures var word := InWord(Formula(a, s, p, PcRelative(kind)), Width(kind));
      && (Width(kind) == 4 ==> word == (a + s - if kind == R_386_PC32 then p else 0) % TWO_32)
      && (Width(kind) == 2 ==> word == (a + s - if kind == R_386_PC16 then p else 0) % 0x1_0000)
  {
  }

  /** The formulas spelled out. */
  lemma {:induction false} WordInPlace(m: seq<Byte>, secs: seq<Section>, t: Tables, base: nat, ex: Exports, i: nat,
        k: nat, kind: nat, a: nat, s: Word, p: nat)
    requires Patches(secs, t, base, |m|, i, k) && kind == secs[i].rels[k].kind
    requires a == Addend(secs, i, k) && p == Place(secs, base, i, k) && p + Width(kind) <= |m|
    requires s == SymbolAddress(SymbolOf(secs, t, i, k), Segments(secs, base, |secs|), ex)
    ensures Get(Linked(m, secs, t, base, ex), p, Width(kind)) == InWord(Formula(a, s, p, PcRelative(kind)), Width(kind))
  {
    WordIsMeaning(m, secs, t, base, ex, i, k);
  }

  lemma {:induction false} PatchesWord(secs: seq<Section>, t: Tables, base: nat, len: nat, i: nat, k: nat)
    requires Linkable(secs, t) && Loadable(secs, base, |secs|, len) && IsEntry(secs, i, k)
    requires SymbolsExist(secs[i], t) && Width(secs[i].rels[k].kind) > 0
    ensures Patches(secs, t, base, len, i, k)
    ensures Place(secs, base, i, k) + Width(secs[i].rels[k].kind) <= len
  {
    assert SiteInside(secs, secs[i].info, secs[i].rels[k]);
    SegmentWithinEnd(secs, base, secs[i].info, |secs|);
  }

  /** Linking preserves meaning. With A the bytes of the object file, S the symbol's value and P the
      place patched, the word at P is A + S, or A + S - P for the PC-relative types, modulo its width. */
  lemma {:induction false} LinkMeaning(m: seq<Byte>, secs: seq<Section>, t: Tables, base: nat, ex: Exports, i: nat,
        k: nat)
    requires Linkable(secs, t) && Loadable(secs, base, |secs|, |m|) && IsEntry(secs, i, k)
    requires SymbolsExist(secs[i], t)
    requires secs[i].rels[k].kind == R_386_32 || secs[i].rels[k].kind == R_386_PC32
    ensures var n, r := secs[i].info, secs[i].rels[k];
      && n < |secs| && Placed(secs[n]) && r.offset + 4 <= |secs[n].bytes|
      && var a, p := Get(secs[n].bytes, r.offset, 4), StartOf(secs, base, n) + r.offset;
      && p + 4 <= |m|
      && var s := Resolve(t[secs[i].link][r.sym], Segments(secs, base, |secs|), ex).1.value;
      Get(Linked(m, secs, t, base, ex), p, 4) == (a + s - if r.kind == R_386_PC32 then p else 0) % TWO_32
  {
    PatchesWord(secs, t, base, |m|, i, k);
    var n, r := secs[i].info, secs[i].rels[k];
    var s := Resolve(t[secs[i].link][r.sym], Segments(secs, base, |secs|), ex).1.value;
    var a, p := Get(secs[n].bytes, r.offset, 4), StartOf(secs, base, n) + r.offset;
    WordInPlace(m, secs, t, base, ex, i, k, r.kind, a, s, p);
    FormulaIs(r.kind, a, s, p);
  }

  /** The same for the types that patch 16 bits. */
  lemma {:induction false} LinkMeaning16(m: seq<Byte>, secs: seq<Section>, t: Tables, base: nat, ex: Exports, i: nat,
        k: nat)
    requires Linkable(secs, t) && Loadable(secs, base, |secs|, |m|) && IsEntry(secs, i, k)
    requires SymbolsExist(secs[i], t)
    requires secs[i].rels[k].kind == R_386_16 || secs[i].rels[k].kind == R_386_PC16
    ensures var n, r := secs[i].info, secs[i].rels[k];
      && n < |secs| && Placed(secs[n]) && r.offset + 2 <= |secs[n].bytes|
      && var a, p := Get(secs[n].bytes, r.offset, 2), StartOf(secs, base, n) + r.offset;
      && p + 2 <= |m|
      && var s := Resolve(t[secs[i].link][r.sym], Segments(secs, base, |secs|), ex).1.value;
      Get(Linked(m, secs, t, base, ex), p, 2) == (a + s - if r.kind == R_386_PC16 then p else 0) % 0x1_0000
  {
    PatchesWord(secs, t, base, |m|, i, k);
    var n, r := secs[i].info, secs[i].rels[k];
    var s := Resolve(t[secs[i].link][r.sym], Segments(secs, base, |secs|), ex).1.value;
    var a, p := Get(secs[n].bytes, r.offset, 2), StartOf(secs, base, n) + r.offset;
    WordInPlace(m, secs, t, base, ex, i, k, r.kind, a, s, p);
    FormulaIs(r.kind, a, s, p);
  }

  lemma {:induction false} PatchedFormula(a: nat, s: Word, p: nat, pcRelative: bool, w: nat)
    requires (w == 2 || w == 4) && p < TWO_32
    ensures Truncate(a + (if pcRelative then Difference(s, p) else s), w) == InWord(Formula(a, s, p, pcRelative), w)
  {
    TruncateInWord(a + (if pcRelative then Difference(s, p) else s), w);
    if pcRelative {
      InWordReduce(a, s + TWO_32 - p, w);
      InWordMultiple(a + s - p, 1, w);
    }
  }

  /** What becomes of every kind of symbol: data, defined or nameless, and functions move with their
      section; an undefined data name takes the export's address, and becomes a function if the export
      is one; a section symbol is its section's address. Nothing else in the entry changes. */
  lemma {:induction false} SymbolMeaning(secs: seq<Section>, base: nat, ex: Exports, s: Sym)
    requires WellAligned(secs)
    ensures var (status, r) := Resolve(s, Segments(secs, base, |secs|), ex);
      var loaded := s.shndx < |secs| && secs[s.shndx].alloc && secs[s.shndx].size != 0;
      var at := if loaded then StartOf(secs, base, s.shndx) else 0;
      var data := s.typ == STT_NOTYPE || s.typ == STT_OBJECT;
      var imported := data && s.named && s.shndx == SHN_UNDEF;
      && (status == UnknownSymbol <==> imported && s.name !in ex.table)
      && (status == InvalidElf <==> s.typ !in {STT_NOTYPE, STT_OBJECT, STT_FUNC, STT_SECTION, STT_FILE})
      && (status != Success ==> r == s)
      && (s.typ == STT_FUNC || (data && (!s.named || s.shndx != SHN_UNDEF)) ==>
            r == s.(value := (s.value + at) % TWO_32))
      && (imported && s.name in ex.table ==>
            && r.value == (ex.table[s.name].address + ex.imageStart) % TWO_32
            && (ex.table[s.name].isFunc ==> r == s.(value := r.value, bind := s.typ, typ := STT_FUNC))
            && (!ex.table[s.name].isFunc ==> r == s.(value := r.value)))
      && (s.typ == STT_SECTION ==> r == s.(value := at % TWO_32))
      && (s.typ == STT_FILE ==> r == s.(value := 0))
  {
    LookupPlaced(secs, base, |secs|, s.shndx);
    var at := SectionByIndex(Segments(secs, base, |secs|), s.shndx);
    ReduceIsMod(s.value + at);
    ReduceIsMod(at);
    if s.name in ex.table {
      ReduceIsMod(ex.table[s.name].address + ex.imageStart);
    }
  }

  lemma {:induction false} EntryKept(before: seq<Sym>, syms: seq<Sym>, name: string, segs: seq<Segment>, ex: Exports)
    requires forall j :: 0 <= j < |syms| ==> !(syms[j].typ == STT_FUNC && syms[j].name == name)
    ensures Entry(before + syms, name, segs, ex) == Entry(before, name, segs, ex)
  {
    if syms == [] {
      assert before + syms == before;
    } else {
      var n := |syms| - 1;
      assert (before + syms)[..|before| + n] == before + syms[..n];
      EntryKept(before, syms[..n], name, segs, ex);
    }
  }

  lemma {:induction false} EntryInTable(before: seq<Sym>, syms: seq<Sym>, name: string, segs: seq<Segment>,
        ex: Exports, j: nat)
    requires j < |syms| && syms[j].typ == STT_FUNC && syms[j].name == name
    requires forall k :: j < k < |syms| ==> !(syms[k].typ == STT_FUNC && syms[k].name == name)
    ensures Entry(before + syms, name, segs, ex) == (syms[j].value + SectionByIndex(segs, syms[j].shndx)) % TWO_32
  {
    var upTo := before + syms[..j + 1];
    assert before + syms == upTo + syms[j + 1..];
    EntryKept(upTo, syms[j + 1..], name, segs, ex);
    assert upTo[|upTo| - 1] == syms[j];
    ReduceIsMod(syms[j].value + SectionByIndex(segs, syms[j].shndx));
  }

  /** Whether entry j of table i is a function of that name. */
  predicate IsFunction(secs: seq<Section>, t: Tables, i: nat, j: nat, name: string) {
    && i < |secs| && secs[i].kind == SHT_SYMTAB && i in t && j < |t[i]|
    && t[i][j].typ == STT_FUNC && t[i][j].name == name
  }

  /** The module's entry points: 0 when no table has a function of that name. */
  lemma {:induction false} NoEntry(secs: seq<Section>, t: Tables, n: nat, name: string, segs: seq<Segment>, ex: Exports)
    requires n <= |secs| && forall i: nat, j: nat :: i < n ==> !IsFunction(secs, t, i, j, name)
    ensures Entry(AllSyms(secs, t, n), name, segs, ex) == 0
  {
    if n > 0 {
      NoEntry(secs, t, n - 1, name, segs, ex);
      if secs[n - 1].kind == SHT_SYMTAB && n - 1 in t {
        NotInTable(secs, t, n - 1, 0, name);
        EntryKept(AllSyms(secs, t, n - 1), t[n - 1], name, segs, ex);
      }
    }
  }

  lemma {:induction false} NotInTable(secs: seq<Section>, t: Tables, i: nat, j: nat, name: string)
    requires i < |secs| && secs[i].kind == SHT_SYMTAB && i in t
    requires forall k: nat :: j <= k ==> !IsFunction(secs, t, i, k, name)
    ensures forall k :: j <= k < |t[i]| ==> !(t[i][k].typ == STT_FUNC && t[i][k].name == name)
  {
    forall k | j <= k < |t[i]|
      ensures !(t[i][k].typ == STT_FUNC && t[i][k].name == name)
    {
      assert !IsFunction(secs, t, i, k, name);
    }
  }

  /** Otherwise the address of the last such function, tables being in section order. */
  lemma {:induction false} EntryIsLast(secs: seq<Section>, t: Tables, n: nat, name: string, segs: seq<Segment>,
        ex: Exports, i: nat, j: nat)
    requires i < n <= |secs| && IsFunction(secs, t, i, j, name)
    requires forall i': nat, j': nat :: i' < n && (i < i' || (i == i' && j < j')) ==>
      !IsFunction(secs, t, i', j', name)
    ensures Entry(AllSyms(secs, t, n), name, segs, ex)
      == (t[i][j].value + SectionByIndex(segs, t[i][j].shndx)) % TWO_32
  {
    if i == n - 1 {
      NotInTable(secs, t, i, j + 1, name);
      EntryInTable(AllSyms(secs, t, i), t[i], name, segs, ex, j);
    } else {
      EntryIsLast(secs, t, n - 1, name, segs, ex, i, j);
      if secs[n - 1].kind == SHT_SYMTAB && n - 1 in t {
        NotInTable(secs, t, n - 1, 0, name);
        EntryKept(AllSyms(secs, t, n - 1), t[n - 1], name, segs, ex);
      }
    }
  }

  /** No entry for section t patches the byte at o: the four bytes at an entry's offset are patched for
      the 32-bit types, two for the 16-bit types, none for any other type. */
  ghost predicate Unpatched(secs: seq<Section>, t: nat, o: nat) {
    forall i: nat, k: nat :: IsEntry(secs, i, k) && secs[i].info == t ==>
      var r := secs[i].rels[k];
      && (r.kind == R_386_32 || r.kind == R_386_PC32 ==> !(r.offset <= o < r.offset + 4))
      && (r.kind == R_386_16 || r.kind == R_386_PC16 ==> !(r.offset <= o < r.offset + 2))
  }

  lemma {:induction false} UnpatchedFix(secs: seq<Section>, t: Tables, base: nat, ex: Exports, len: nat, n: nat,
        o: nat, p: nat, f: Fix)
    requires Linkable(secs, t) && Loadable(secs, base, |secs|, len)
    requires n < |secs| && Placed(secs[n]) && o < secs[n].size && Unpatched(secs, n, o)
    requires p < |LinkFixes(secs, t, base, ex)| && f == LinkFixes(secs, t, base, ex)[p]
    ensures !Touches(f, StartOf(secs, base, n) + o)
  {
    var i, k := NthPatch(secs, t, base, ex, len, p, f);
    PatchElsewhere(secs, base, i, k, n, o, f);
  }

  lemma {:induction false} PatchElsewhere(secs: seq<Section>, base: nat, i: nat, k: nat, n: nat, o: nat, f: Fix)
    requires WellAligned(secs) && PatchAt(secs, base, i, k, f)
    requires n < |secs| && Placed(secs[n]) && o < secs[n].size
    requires secs[n].kind != SHT_PROGBITS || Unpatched(secs, n, o)
    ensures !Touches(f, StartOf(secs, base, n) + o)
  {
    var target := secs[i].info;
    if f.width > 0 && target < n {
      SegmentsDisjoint(secs, base, target, n);
    } else if f.width > 0 && n < target {
      SegmentsDisjoint(secs, base, n, target);
    }
  }

  /** Every other byte of a loaded PROGBITS section is the byte of the object file. */
  lemma {:induction false} LinkKeepsBytes(m: seq<Byte>, secs: seq<Section>, t: Tables, base: nat, ex: Exports,
        n: nat, o: nat)
    requires Linkable(secs, t) && Loadable(secs, base, |secs|, |m|)
    requires n < |secs| && Placed(secs[n]) && secs[n].kind == SHT_PROGBITS && o < secs[n].size
    requires Unpatched(secs, n, o)
    ensures StartOf(secs, base, n) + o < |m|
    ensures Linked(m, secs, t, base, ex)[StartOf(secs, base, n) + o] == secs[n].bytes[o]
  {
    SitesInside(secs, t, base, ex, |m|);
    PlacedBytes(m, secs, base, |secs|, n, o);
    var fs := LinkFixes(secs, t, base, ex);
    forall p | 0 <= p < |fs|
      ensures !Touches(fs[p], StartOf(secs, base, n) + o)
    {
      UnpatchedFix(secs, t, base, ex, |m|, n, o, p, fs[p]);
    }
    Untouched(PlaceAll(m, secs, base, |secs|), fs, StartOf(secs, base, n) + o);
  }

  /** And so does a loaded section of any other kind hold what placing made of it: a NOBITS section is
      zero but for its last byte, which is still that of the memory before. */
  lemma {:induction false} LinkClears(m: seq<Byte>, secs: seq<Section>, t: Tables, base: nat, ex: Exports,
        n: nat, o: nat)
    requires Linkable(secs, t) && Loadable(secs, base, |secs|, |m|)
    requires n < |secs| && Placed(secs[n]) && secs[n].kind != SHT_PROGBITS && o < secs[n].size
    ensures StartOf(secs, base, n) + o < |m|
    ensures var a := StartOf(secs, base, n) + o;
      Linked(m, secs, t, base, ex)[a] == if secs[n].kind == SHT_NOBITS && o < secs[n].size - 1 then 0 else m[a]
  {
    SitesInside(secs, t, base, ex, |m|);
    PlacedRest(m, secs, base, |secs|, n, o);
    var fs := LinkFixes(secs, t, base, ex);
    forall p | 0 <= p < |fs|
      ensures !Touches(fs[p], StartOf(secs, base, n) + o)
    {
      var i, k := NthPatch(secs, t, base, ex, |m|, p, fs[p]);
      PatchElsewhere(secs, base, i, k, n, o, fs[p]);
    }
    Untouched(PlaceAll(m, secs, base, |secs|), fs, StartOf(secs, base, n) + o);
  }

  /** Where entry k of REL section i patches: at its offset in the section it is for, or at that offset
      as an address when that section is not loaded. */
  ghost function Site(secs: seq<Section>, base: nat, i: nat, k: nat): nat
    requires WellAligned(secs) && IsEntry(secs, i, k)
  {
    var t := secs[i].info;
    Reduce((if t < |secs| && Placed(secs[t]) then StartOf(secs, base, t) else 0) + secs[i].rels[k].offset)
  }

  ghost predicate Reaches(secs: seq<Section>, base: nat, i: nat, k: nat, a: nat)
    requires WellAligned(secs) && IsEntry(secs, i, k)
  {
    Site(secs, base, i, k) <= a < Site(secs, base, i, k) + Width(secs[i].rels[k].kind)
  }

  /** f is the patch of entry k of REL section i. */
  ghost predicate IsPatchOf(secs: seq<Section>, base: nat, i: nat, k: nat, f: Fix)
    requires WellAligned(secs)
  {
    && IsEntry(secs, i, k) && f.width == Width(secs[i].rels[k].kind)
    && (f.width > 0 ==> f.addr == Site(secs, base, i, k))
  }

  lemma {:induction false} FixIsPatch(secs: seq<Section>, base: nat, i: nat, k: nat, value: Word, applied: nat)
    requires WellAligned(secs) && IsEntry(secs, i, k)
    requires applied == SectionByIndex(Segments(secs, base, |secs|), secs[i].info)
    ensures IsPatchOf(secs, base, i, k, FixFor(secs[i].rels[k], value, applied))
  {
    LookupPlaced(secs, base, |secs|, secs[i].info);
  }

  lemma {:induction false} EntryIsPatch(secs: seq<Section>, t: Tables, base: nat, ex: Exports, i: nat, k: nat)
    requires WellAligned(secs) && IsEntry(secs, i, k) && SymbolsExist(secs[i], t)
    ensures var p, fs := EntryPosition(secs, t, base, ex, i, k), LinkFixes(secs, t, base, ex);
      p < |fs| && IsPatchOf(secs, base, i, k, fs[p])
  {
    var segs := Segments(secs, base, |secs|);
    PatchInList(secs, t, base, ex, i, k);
    FixIsPatch(secs, base, i, k, SymbolAddress(SymbolOf(secs, t, i, k), segs, ex), SectionByIndex(segs, secs[i].info));
  }

  lemma {:induction false} PatchEntry(secs: seq<Section>, t: Tables, base: nat, ex: Exports, p: nat)
    returns (i: nat, k: nat)
    requires WellAligned(secs) && p < |LinkFixes(secs, t, base, ex)|
    ensures IsEntry(secs, i, k) && SymbolsExist(secs[i], t) && p == EntryPosition(secs, t, base, ex, i, k)
  {
    var segs := Segments(secs, base, |secs|);
    i, k := FixOrigin(secs, ResolvedTables(t, segs, ex), segs, |secs|, p);
  }

  /** Every patch is that of an entry. */
  lemma {:induction false} PatchOrigin(secs: seq<Section>, t: Tables, base: nat, ex: Exports, p: nat)
    returns (i: nat, k: nat)
    requires WellAligned(secs) && p < |LinkFixes(secs, t, base, ex)|
    ensures IsEntry(secs, i, k) && SymbolsExist(secs[i], t)
    ensures IsPatchOf(secs, base, i, k, LinkFixes(secs, t, base, ex)[p])
  {
    i, k := PatchEntry(secs, t, base, ex, p);
    EntryIsPatch(secs, t, base, ex, i, k);
  }

  ghost predicate OutsideSections(secs: seq<Section>, base: nat, a: nat)
    requires WellAligned(secs)
  {
    forall n :: 0 <= n < |secs| && Placed(secs[n]) ==>
      !(StartOf(secs, base, n) <= a < StartOf(secs, base, n) + secs[n].size)
  }

  /** Whatever the relocations are for, memory outside the loaded sections that none of them reaches is
      not changed. */
  lemma {:induction false} LinkKeepsOutside(m: seq<Byte>, secs: seq<Section>, t: Tables, base: nat, ex: Exports, a: nat)
    requires Loadable(secs, base, |secs|, |m|) && AllInside(LinkFixes(secs, t, base, ex), |m|) && a < |m|
    requires OutsideSections(secs, base, a)
    requires forall i: nat, k: nat :: IsEntry(secs, i, k) ==> !Reaches(secs, base, i, k, a)
    ensures Link(m, secs, t, base, ex)[a] == m[a]
  {
    OutsideUnplaced(m, secs, base, |secs|, a);
    var fs := LinkFixes(secs, t, base, ex);
    forall p | 0 <= p < |fs|
      ensures !Touches(fs[p], a)
    {
      var i, k := PatchOrigin(secs, t, base, ex, p);
      assert !Reaches(secs, base, i, k, a);
    }
    Untouched(PlaceAll(m, secs, base, |secs|), fs, a);
  }

  /** In an object whose relocations are for loaded sections they reach nothing else. */
  lemma {:induction false} LinkableReaches(secs: seq<Section>, t: Tables, base: nat, len: nat, i: nat, k: nat, a: nat)
    requires Linkable(secs, t) && Loadable(secs, base, |secs|, len) && IsEntry(secs, i, k)
    requires Reaches(secs, base, i, k, a)
    ensures !OutsideSections(secs, base, a)
  {
    assert SiteInside(secs, secs[i].info, secs[i].rels[k]);
    SegmentWithinEnd(secs, base, secs[i].info, |secs|);
  }

  // ------------------------------------------------------------- changing the load base

  lemma {:induction false} ReduceSum(x: nat, d: nat)
    ensures Reduce(x + d) == Reduce(Reduce(x) + d)
  {
    if x >= TWO_32 {
      ReduceSum(x - TWO_32, d);
    }
  }

  /** Whether a symbol is relative to its section: functions, section symbols, and data that is
      nameless or has a section. */
  predicate SectionRelative(s: Sym) {
    || s.typ == STT_FUNC || s.typ == STT_SECTION
    || ((s.typ == STT_NOTYPE || s.typ == STT_OBJECT) && (!s.named || s.shndx != SHN_UNDEF))
  }

  /** A symbol's resolved value from the address x of its section. */
  function ValueFrom(s: Sym, x: nat, ex: Exports): Word {
    if SectionRelative(s) then if s.typ == STT_SECTION then Reduce(x) else Reduce(s.value + x)
    else if s.typ == STT_FILE then 0
    else if s.typ != STT_NOTYPE && s.typ != STT_OBJECT then s.value
    else if s.name in ex.table then Reduce(ex.table[s.name].address + ex.imageStart)
    else s.value
  }

  lemma {:induction false} AddressFromSection(s: Sym, segs: seq<Segment>, ex: Exports)
    ensures SymbolAddress(s, segs, ex) == ValueFrom(s, SectionByIndex(segs, s.shndx), ex)
  {
  }

  /** Whether a symbol's address moves with the object. */
  predicate Moves(secs: seq<Section>, s: Sym) {
    s.shndx < |secs| && Placed(secs[s.shndx]) && SectionRelative(s)
  }

  lemma {:induction false} ValueShift(s: Sym, x: nat, d: nat, ex: Exports)
    ensures ValueFrom(s, d + x, ex) == Reduce(ValueFrom(s, x, ex) + (if SectionRelative(s) then d else 0))
  {
    ReduceSum(s.value + x, d);
    ReduceSum(x, d);
  }

  ghost predicate Shiftable(secs: seq<Section>, d: nat) {
    WellAligned(secs) && forall i :: 0 <= i < |secs| && Placed(secs[i]) ==> Multiple(d, secs[i].align)
  }

  /** Moving the base by d moves by d exactly the symbols of loaded sections. */
  lemma {:induction false} SymbolShift(secs: seq<Section>, base: nat, d: nat, ex: Exports, s: Sym)
    requires Shiftable(secs, d)
    ensures SymbolAddress(s, Segments(secs, d + base, |secs|), ex)
      == Reduce(SymbolAddress(s, Segments(secs, base, |secs|), ex) + (if Moves(secs, s) then d else 0))
  {
    AddressFromSection(s, Segments(secs, base, |secs|), ex);
    AddressFromSection(s, Segments(secs, d + base, |secs|), ex);
    SectionShift(secs, base, d, s.shndx);
    var x := SectionByIndex(Segments(secs, base, |secs|), s.shndx);
    if s.shndx < |secs| && Placed(secs[s.shndx]) {
      ValueShift(s, x, d, ex);
    } else {
      ValueShift(s, x, 0, ex);
    }
  }

  lemma {:induction false} SectionShift(secs: seq<Section>, base: nat, d: nat, n: nat)
    requires Shiftable(secs, d)
    ensures SectionByIndex(Segments(secs, d + base, |secs|), n)
      == SectionByIndex(Segments(secs, base, |secs|), n) + (if n < |secs| && Placed(secs[n]) then d else 0)
  {
    LookupPlaced(secs, base, |secs|, n);
    LookupPlaced(secs, d + base, |secs|, n);
    if n < |secs| {
      LayoutShift(secs, base, d, n);
    }
  }

  lemma {:induction false} PlaceShift(secs: seq<Section>, base: nat, d: nat, i: nat, k: nat)
    requires Shiftable(secs, d) && IsEntry(secs, i, k) && SiteInside(secs, secs[i].info, secs[i].rels[k])
    ensures Place(secs, d + base, i, k) == d + Place(secs, base, i, k)
  {
    LayoutShift(secs, base, d, secs[i].info);
  }

  /** How far a relocated word moves when the base moves by d: by d when the symbol moves,
      by -d more when the formula subtracts P. */
  ghost function Drift(secs: seq<Section>, t: Tables, i: nat, k: nat, d: nat): int
    requires IsEntry(secs, i, k) && SymbolsExist(secs[i], t)
  {
    (if Moves(secs, SymbolOf(secs, t, i, k)) then d else 0) - (if PcRelative(secs[i].rels[k].kind) then d else 0)
  }

  lemma {:induction false} FormulaShift(a: nat, s: Word, s': Word, p: nat, d: nat, moves: bool, pc: bool, w: nat)
    requires s' == Reduce(s + (if moves then d else 0))
    ensures InWord(Formula(a, s', d + p, pc), w)
      == InWord(InWord(Formula(a, s, p, pc), w) + (if moves then d else 0) - (if pc then d else 0), w)
  {
    var e := if moves then d else 0;
    var rest := a - (if pc then d + p else 0);
    InWordReduce(rest, s + e, w);
    InWordSum(Formula(a, s, p, pc), e - (if pc then d else 0), w);
  }

  lemma {:induction false} MeaningShift(secs: seq<Section>, t: Tables, base: nat, d: nat, ex: Exports, len: nat,
        i: nat, k: nat)
    requires Shiftable(secs, d) && Patches(secs, t, base, len, i, k)
    ensures Meaning(secs, t, d + base, ex, i, k)
      == InWord(Meaning(secs, t, base, ex, i, k) + Drift(secs, t, i, k, d), Width(secs[i].rels[k].kind))
  {
    PlaceShift(secs, base, d, i, k);
    var s := SymbolOf(secs, t, i, k);
    SymbolShift(secs, base, d, ex, s);
    FormulaShift(Addend(secs, i, k), SymbolAddress(s, Segments(secs, base, |secs|), ex),
                 SymbolAddress(s, Segments(secs, d + base, |secs|), ex), Place(secs, base, i, k), d,
                 Moves(secs, s), PcRelative(secs[i].rels[k].kind), Width(secs[i].rels[k].kind));
  }

  lemma {:induction false} WordMeaning(m: seq<Byte>, secs: seq<Section>, t: Tables, base: nat, ex: Exports, i: nat,
        k: nat, word: nat)
    requires Patches(secs, t, base, |m|, i, k) && word == WordOf(m, secs, t, base, ex, i, k)
    ensures word == Meaning(secs, t, base, ex, i, k)
  {
    WordIsMeaning(m, secs, t, base, ex, i, k);
  }

  lemma {:induction false} WordsShift(secs: seq<Section>, t: Tables, base: nat, d: nat, ex: Exports, len: nat,
        i: nat, k: nat, word: nat, word': nat)
    requires Shiftable(secs, d) && Patches(secs, t, base, len, i, k)
    requires word == Meaning(secs, t, base, ex, i, k) && word' == Meaning(secs, t, d + base, ex, i, k)
    ensures word' == InWord(word + Drift(secs, t, i, k, d), Width(secs[i].rels[k].kind))
  {
    MeaningShift(secs, t, base, d, ex, len, i, k);
  }

  /** Loading one object at two bases that differ by a multiple of its alignments: each
      relocated word differs by exactly its drift, modulo its width. For 32-bit types this is d
      for R_386_32 and 0 for R_386_PC32 against a symbol of a loaded section, and 0 and -d
      against an imported symbol. The memories around the two images are unrelated. */
  lemma {:induction false} ShiftedWords(m: seq<Byte>, m': seq<Byte>, secs: seq<Section>, t: Tables, base: nat,
        d: nat, ex: Exports, i: nat, k: nat, word: nat, word': nat)
    requires Shiftable(secs, d)
    requires Patches(secs, t, base, |m|, i, k) && word == WordOf(m, secs, t, base, ex, i, k)
    requires Patches(secs, t, d + base, |m'|, i, k) && word' == WordOf(m', secs, t, d + base, ex, i, k)
    ensures word' == InWord(word + Drift(secs, t, i, k, d), Width(secs[i].rels[k].kind))
  {
    WordMeaning(m, secs, t, base, ex, i, k, word);
    WordMeaning(m', secs, t, d + base, ex, i, k, word');
    WordsShift(secs, t, base, d, ex, |m|, i, k, word, word');
  }

  /** Every other byte of the loaded PROGBITS sections is the same at both bases. */
  lemma {:induction false} ShiftedBytes(m: seq<Byte>, m': seq<Byte>, secs: seq<Section>, t: Tables, base: nat,
        d: nat, ex: Exports, n: nat, o: nat)
    requires Shiftable(secs, d) && Linkable(secs, t)
    requires Loadable(secs, base, |secs|, |m|) && Loadable(secs, d + base, |secs|, |m'|)
    requires n < |secs| && Placed(secs[n]) && secs[n].kind == SHT_PROGBITS && o < secs[n].size
    requires Unpatched(secs, n, o)
    ensures var a := StartOf(secs, base, n) + o;
      a < |m| && d + a < |m'| && Linked(m', secs, t, d + base, ex)[d + a] == Linked(m, secs, t, base, ex)[a]
  {
    LinkKeepsBytes(m, secs, t, base, ex, n, o);
    LinkKeepsBytes(m', secs, t, d + base, ex, n, o);
    LayoutShift(secs, base, d, n);
  }
}
