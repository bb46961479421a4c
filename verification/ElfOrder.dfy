// The linked image does not depend on the order of the entries of a relocation section.

module ElfOrder {
  import opened Memory
  import opened ElfObject
  import opened Relocation
  import opened ElfLoad
  import opened ElfLink

  ghost predicate SymsInRange(rels: seq<Rel>, syms: seq<Sym>) {
    forall i :: 0 <= i < |rels| ==> rels[i].sym < |syms|
  }

  ghost function FixList(rels: seq<Rel>, syms: seq<Sym>, applied: nat): (fs: seq<Fix>)
    requires SymsInRange(rels, syms)
  {
    SectionFixes(rels, syms, applied, |rels|)
  }

  lemma {:induction false} FixListConcat(a: seq<Rel>, b: seq<Rel>, syms: seq<Sym>, applied: nat)
    requires SymsInRange(a, syms) && SymsInRange(b, syms)
    ensures SymsInRange(a + b, syms)
    ensures FixList(a + b, syms, applied) == FixList(a, syms, applied) + FixList(b, syms, applied)
  {
  }

  lemma {:induction false} Around(b: seq<Rel>, x: Rel) returns (left: seq<Rel>, right: seq<Rel>)
    requires multiset(b)[x] > 0
    ensures b == left + [x] + right
  {
    assert x in multiset(b);
    var j :| 0 <= j < |b| && b[j] == x;
    left, right := b[..j], b[j + 1..];
  }

  lemma {:induction false} LastOne(a: seq<Rel>)
    requires a != []
    ensures a == a[..|a| - 1] + [a[|a| - 1]] + [] && a[..|a| - 1] + [] == a[..|a| - 1]
    ensures multiset(a)[a[|a| - 1]] > 0
  {
    assert a[|a| - 1] in a;
  }

  lemma {:induction false} PermutedFixes(a: seq<Rel>, b: seq<Rel>, syms: seq<Sym>, applied: nat)
    requires SymsInRange(a, syms) && SymsInRange(b, syms) && multiset(a) == multiset(b)
    ensures multiset(FixList(a, syms, applied)) == multiset(FixList(b, syms, applied))
  {
    if a == [] {
      assert |b| == |multiset(b)| == 0;
    } else {
      var a', x := a[..|a| - 1], a[|a| - 1];
      LastOne(a);
      var left, right := Around(b, x);
      WithoutOne(a, a', x, [], syms, applied);
      WithoutOne(b, left, x, right, syms, applied);
      CancelOne(multiset(a'), multiset(left + right), x);
      PermutedFixes(a', left + right, syms, applied);
    }
  }

  /** Taking out one entry takes out its patch. */
  lemma {:induction false} WithoutOne(all: seq<Rel>, left: seq<Rel>, x: Rel, right: seq<Rel>, syms: seq<Sym>,
        applied: nat)
    requires SymsInRange(all, syms) && all == left + [x] + right
    ensures multiset(all) == multiset(left + right) + multiset([x])
    ensures SymsInRange([x], syms) && SymsInRange(left + right, syms)
    ensures multiset(FixList(all, syms, applied))
      == multiset(FixList(left + right, syms, applied)) + multiset(FixList([x], syms, applied))
  {
    assert forall i :: 0 <= i < |left| ==> left[i] == all[i];
    assert x == all[|left|];
    assert forall i :: 0 <= i < |right| ==> right[i] == all[|left| + 1 + i];
    TakeOut(left, x, right);
    FixListConcat(left, right, syms, applied);
    FixListConcat(left, [x], syms, applied);
    FixListConcat(left + [x], right, syms, applied);
    var fx := FixList([x], syms, applied);
    assert fx == [fx[0]];
    TakeOut(FixList(left, syms, applied), fx[0], FixList(right, syms, applied));
  }

  lemma {:induction false} TakeOut<T>(left: seq<T>, x: T, right: seq<T>)
    ensures multiset(left + [x] + right) == multiset(left + right) + multiset([x])
  {
  }

  lemma {:induction false} CancelOne(a: multiset<Rel>, b: multiset<Rel>, x: Rel)
    requires a + multiset([x]) == b + multiset([x])
    ensures a == b
  {
    assert a == (a + multiset([x])) - multiset([x]);
    assert b == (b + multiset([x])) - multiset([x]);
  }

  /** The object with the entries of REL section i in another order. */
  ghost function Reordered(secs: seq<Section>, i: nat, rels: seq<Rel>): (r: seq<Section>)
    requires i < |secs|
  {
    secs[i := secs[i].(rels := rels)]
  }

  lemma {:induction false} SameLayout(m: seq<Byte>, secs: seq<Section>, i: nat, rels: seq<Rel>, base: nat, n: nat)
    requires Loadable(secs, base, n, |m|) && i < |secs|
    ensures var r := Reordered(secs, i, rels);
      && WellAligned(r) && EndOf(r, base, n) == EndOf(secs, base, n)
      && Segments(r, base, n) == Segments(secs, base, n)
      && Loadable(r, base, n, |m|) && PlaceAll(m, r, base, n) == PlaceAll(m, secs, base, n)
  {
    if n > 0 {
      EndMonotone(secs, base, n - 1, n);
      SameLayout(m, secs, i, rels, base, n - 1);
    }
  }

  lemma {:induction false} ReorderedOwn(secs: seq<Section>, t: Tables, segs: seq<Segment>, i: nat, rels: seq<Rel>,
        n: nat)
    requires i < |secs| && n < |secs| && multiset(rels) == multiset(secs[i].rels) && SymbolsExist(secs[i], t)
    ensures multiset(RelFixes(Reordered(secs, i, rels), t, segs, n)) == multiset(RelFixes(secs, t, segs, n))
  {
    if n == i {
      var syms := t[secs[i].link];
      forall k | 0 <= k < |rels|
        ensures rels[k].sym < |syms|
      {
        assert rels[k] in multiset(secs[i].rels);
      }
      PermutedFixes(rels, secs[i].rels, syms, SectionByIndex(segs, secs[i].info));
    }
  }

  /** If every section contributes the same fixes in some order, so do all together. */
  lemma {:induction false} SameFixes(a: seq<Section>, b: seq<Section>, t: Tables, segs: seq<Segment>, n: nat)
    requires n <= |a| == |b|
    requires forall k: nat :: k < |a| ==> multiset(RelFixes(a, t, segs, k)) == multiset(RelFixes(b, t, segs, k))
    ensures multiset(Fixes(a, t, segs, n)) == multiset(Fixes(b, t, segs, n))
  {
    if n > 0 {
      SameFixes(a, b, t, segs, n - 1);
      FixesUnfold(a, t, segs, n);
      FixesUnfold(b, t, segs, n);
    }
  }

  lemma {:induction false} FixesUnfold(secs: seq<Section>, t: Tables, segs: seq<Segment>, n: nat)
    requires 0 < n <= |secs|
    ensures multiset(Fixes(secs, t, segs, n)) ==
      multiset(Fixes(secs, t, segs, n - 1)) + multiset(RelFixes(secs, t, segs, n - 1))
  {
  }

  lemma {:induction false} ReorderedFixes(secs: seq<Section>, t: Tables, segs: seq<Segment>, i: nat, rels: seq<Rel>)
    requires i < |secs| && multiset(rels) == multiset(secs[i].rels) && SymbolsExist(secs[i], t)
    ensures multiset(Fixes(Reordered(secs, i, rels), t, segs, |secs|)) == multiset(Fixes(secs, t, segs, |secs|))
  {
    var r := Reordered(secs, i, rels);
    forall k: nat | k < |secs|
      ensures multiset(RelFixes(r, t, segs, k)) == multiset(RelFixes(secs, t, segs, k))
    {
      ReorderedOwn(secs, t, segs, i, rels, k);
    }
    SameFixes(r, secs, t, segs, |secs|);
  }

  /** Permuting the entries of any relocation section leaves the linked image unchanged. */
  lemma {:induction false} EntryOrderIrrelevant(m: seq<Byte>, secs: seq<Section>, t: Tables, base: nat, ex: Exports,
        i: nat, rels: seq<Rel>)
    requires Linkable(secs, t) && Loadable(secs, base, |secs|, |m|)
    requires i < |secs| && secs[i].kind == SHT_REL && multiset(rels) == multiset(secs[i].rels)
    ensures var r := Reordered(secs, i, rels);
      && Loadable(r, base, |r|, |m|)
      && AllInside(LinkFixes(secs, t, base, ex), |m|) && AllInside(LinkFixes(r, t, base, ex), |m|)
      && Link(m, r, t, base, ex) == Link(m, secs, t, base, ex)
  {
    var segs := Segments(secs, base, |secs|);
    SameLayout(m, secs, i, rels, base, |secs|);
    SitesInside(secs, t, base, ex, |m|);
    SitesDisjoint(secs, t, base, ex, |m|);
    ReorderedFixes(secs, ResolvedTables(t, segs, ex), segs, i, rels);
    OrderIrrelevant(PlaceAll(m, secs, base, |secs|), LinkFixes(secs, t, base, ex),
                    LinkFixes(Reordered(secs, i, rels), t, base, ex));
  }
}
