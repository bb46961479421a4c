// Relocations that do not patch the object: an entry for a section that is not loaded patches the word
// at its offset taken as an address. boot-loader/core/loader/elf/elf.c.

module ElfStray {
  import opened Bits
  import opened ElfLink
  import opened ElfLoad
  import opened ElfObject
  import opened Memory
  import opened Relocation

  ghost predicate InSections(secs: seq<Section>, base: nat, f: Fix)
    requires WellAligned(secs)
  {
    exists n :: 0 <= n < |secs| && Placed(secs[n]) &&
                StartOf(secs, base, n) <= f.addr && f.addr + f.width <= StartOf(secs, base, n) + secs[n].size
  }

  ghost predicate OutOfSections(secs: seq<Section>, base: nat, f: Fix)
    requires WellAligned(secs)
  {
    forall a: nat :: Touches(f, a) ==> OutsideSections(secs, base, a)
  }

  /** A patch that adds nothing to its word. */
  predicate AddsNothing(f: Fix) {
    Truncate(f.delta, f.width) == 0
  }

  lemma {:induction false} SameSum(x: nat, d: nat, n: nat)
    requires n > 0 && x < n
    ensures (x + d) % n == x <==> d % n == 0
  {
    if d % n == 0 {
      SumAligned(d, x, n);
      ModUnique(x, n, 0, x);
    } else if (x + d) % n == x {
      var q := (x + d) / n;
      assert d == n * q by {
        assert x + d == n * q + x;
      }
      ModUnique(d, n, q, 0);
    }
  }

  lemma {:induction false} GetBelow(m: seq<Byte>, a: nat, n: nat)
    requires a + n <= |m|
    ensures Get(m, a, n) < Pow256(n)
    decreases n
  {
    if n > 0 {
      GetBelow(m, a + 1, n - 1);
    }
  }

  /** A word stays what it was exactly when nothing is added. */
  lemma {:induction false} WordStays(m: seq<Byte>, f: Fix)
    requires Inside(f, |m|)
    ensures Patched(m, f) == WordAt(m, f) <==> AddsNothing(f)
  {
    GetBelow(m, f.addr, f.width);
    TruncateIsMod(WordAt(m, f) + f.delta, f.width);
    TruncateIsMod(f.delta, f.width);
    SameSum(WordAt(m, f), f.delta, Pow256(f.width));
  }

  /** The bytes of a patched word are all kept exactly when nothing is added to it. */
  lemma {:induction false} BytesStay(m: seq<Byte>, fs: seq<Fix>, p: nat)
    requires AllInside(fs, |m|) && Disjoint(fs) && p < |fs|
    ensures (forall a: nat :: Touches(fs[p], a) ==> ApplyAll(m, fs)[a] == m[a]) <==> AddsNothing(fs[p])
  {
    var f, m' := fs[p], ApplyAll(m, fs);
    SiteValue(m, fs, p);
    WordStays(m, f);
    if AddsNothing(f) {
      GetInjective(m', m, f.addr, f.width);
    } else if forall a: nat :: Touches(f, a) ==> m'[a] == m[a] {
      GetSame(m', m, f.addr, f.width);
    }
  }

  ghost predicate KeepsOutside(m: seq<Byte>, m': seq<Byte>, secs: seq<Section>, base: nat)
    requires WellAligned(secs) && |m| == |m'|
  {
    forall a :: 0 <= a < |m| && OutsideSections(secs, base, a) ==> m'[a] == m[a]
  }

  ghost predicate StraysAddNothing(secs: seq<Section>, base: nat, fs: seq<Fix>)
    requires WellAligned(secs)
  {
    forall p :: 0 <= p < |fs| && OutOfSections(secs, base, fs[p]) ==> AddsNothing(fs[p])
  }

  lemma {:induction false} PatchesKeep(m: seq<Byte>, secs: seq<Section>, base: nat, fs: seq<Fix>, a: nat)
    requires WellAligned(secs) && AllInside(fs, |m|) && Disjoint(fs) && StraysAddNothing(secs, base, fs)
    requires forall p :: 0 <= p < |fs| ==> InSections(secs, base, fs[p]) || OutOfSections(secs, base, fs[p])
    requires a < |m| && OutsideSections(secs, base, a)
    ensures ApplyAll(m, fs)[a] == m[a]
  {
    if p :| 0 <= p < |fs| && Touches(fs[p], a) {
      BytesStay(m, fs, p);
    } else {
      Untouched(m, fs, a);
    }
  }

  /** When patched words do not overlap, and each lies inside a loaded section or outside of all, linking
      changes memory outside the loaded sections if and only if something is added to a word there. */
  lemma {:induction false} LinkKeepsOutsideExactly(m: seq<Byte>, secs: seq<Section>, t: Tables, base: nat, ex: Exports)
    requires Loadable(secs, base, |secs|, |m|)
    requires AllInside(LinkFixes(secs, t, base, ex), |m|) && Disjoint(LinkFixes(secs, t, base, ex))
    requires forall p :: 0 <= p < |LinkFixes(secs, t, base, ex)| ==>
      || InSections(secs, base, LinkFixes(secs, t, base, ex)[p])
      || OutOfSections(secs, base, LinkFixes(secs, t, base, ex)[p])
    ensures |Link(m, secs, t, base, ex)| == |m|
    ensures KeepsOutside(m, Link(m, secs, t, base, ex), secs, base) <==>
            StraysAddNothing(secs, base, LinkFixes(secs, t, base, ex))
  {
    var fs, placed := LinkFixes(secs, t, base, ex), PlaceAll(m, secs, base, |secs|);
    var m' := ApplyAll(placed, fs);
    forall a | 0 <= a < |m| && OutsideSections(secs, base, a)
      ensures placed[a] == m[a]
    {
      OutsideUnplaced(m, secs, base, |secs|, a);
    }
    if StraysAddNothing(secs, base, fs) {
      forall a | 0 <= a < |m| && OutsideSections(secs, base, a)
        ensures m'[a] == m[a]
      {
        PatchesKeep(placed, secs, base, fs, a);
      }
    } else {
      var p :| 0 <= p < |fs| && OutOfSections(secs, base, fs[p]) && !AddsNothing(fs[p]);
      BytesStay(placed, fs, p);
      var a: nat :| Touches(fs[p], a) && m'[a] != placed[a];
      assert OutsideSections(secs, base, a);
    }
  }
}
