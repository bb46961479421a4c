// Patching relocation sites in place. A fix adds a value to the little-endian word stored at a
// site, modulo the site's width.

module Relocation {
  import opened Memory

  datatype Fix = Fix(addr: nat, width: nat, delta: nat)

  predicate Inside(f: Fix, len: nat) {
    f.addr + f.width <= len
  }

  ghost predicate AllInside(fs: seq<Fix>, len: nat) {
    forall i :: 0 <= i < |fs| ==> Inside(fs[i], len)
  }

  predicate Apart(f: Fix, g: Fix) {
    f.addr + f.width <= g.addr || g.addr + g.width <= f.addr
  }

  /** No two sites overlap. */
  ghost predicate Disjoint(fs: seq<Fix>) {
    forall i, j :: 0 <= i < |fs| && 0 <= j < |fs| && i != j ==> Apart(fs[i], fs[j])
  }

  function ApplyFix(m: seq<Byte>, f: Fix): (m': seq<Byte>)
    requires Inside(f, |m|)
    ensures |m'| == |m|
  {
    Put(m, f.addr, f.width, Get(m, f.addr, f.width) + f.delta)
  }

  /** Apply the fixes in list order. */
  function ApplyAll(m: seq<Byte>, fs: seq<Fix>): (m': seq<Byte>)
    requires AllInside(fs, |m|)
    ensures |m'| == |m|
  {
    if fs == [] then m
    else ApplyFix(ApplyAll(m, fs[..|fs| - 1]), fs[|fs| - 1])
  }

  lemma {:induction false} ApplyAppend(m: seq<Byte>, fs: seq<Fix>, gs: seq<Fix>)
    requires AllInside(fs, |m|) && AllInside(gs, |m|)
    ensures AllInside(fs + gs, |m|)
    ensures ApplyAll(m, fs + gs) == ApplyAll(ApplyAll(m, fs), gs)
  {
    if gs == [] {
      assert fs + gs == fs;
    } else {
      ApplyAppend(m, fs, gs[..|gs| - 1]);
      assert (fs + gs)[..|fs + gs| - 1] == fs + gs[..|gs| - 1];
    }
  }

  predicate Touches(f: Fix, a: nat) {
    f.addr <= a < f.addr + f.width
  }

  /** Bytes outside every site keep their value. */
  lemma {:induction false} Untouched(m: seq<Byte>, fs: seq<Fix>, a: nat)
    requires AllInside(fs, |m|) && a < |m|
    requires forall i :: 0 <= i < |fs| ==> !Touches(fs[i], a)
    ensures ApplyAll(m, fs)[a] == m[a]
  {
    if fs != [] {
      Untouched(m, fs[..|fs| - 1], a);
      assert !Touches(fs[|fs| - 1], a);
    }
  }

  /** A site apart from every fix keeps its word. */
  lemma {:induction false} WordUntouched(m: seq<Byte>, fs: seq<Fix>, g: Fix)
    requires AllInside(fs, |m|) && Inside(g, |m|)
    requires forall i :: 0 <= i < |fs| ==> Apart(fs[i], g)
    ensures Get(ApplyAll(m, fs), g.addr, g.width) == Get(m, g.addr, g.width)
  {
    forall a | g.addr <= a < g.addr + g.width
      ensures ApplyAll(m, fs)[a] == m[a]
    {
      forall i | 0 <= i < |fs|
        ensures !Touches(fs[i], a)
      {
        assert Apart(fs[i], g);
      }
      Untouched(m, fs, a);
    }
    GetSame(ApplyAll(m, fs), m, g.addr, g.width);
  }

  /** The word at f's site. */
  ghost function WordAt(m: seq<Byte>, f: Fix): nat
    requires Inside(f, |m|)
  {
    Get(m, f.addr, f.width)
  }

  lemma {:induction false} FixSite(m: seq<Byte>, f: Fix)
    requires Inside(f, |m|)
    ensures WordAt(ApplyFix(m, f), f) == Truncate(WordAt(m, f) + f.delta, f.width)
  {
    GetPut(m, f.addr, f.width, WordAt(m, f) + f.delta);
  }

  lemma {:induction false} FixElsewhere(m: seq<Byte>, f: Fix, g: Fix)
    requires Inside(f, |m|) && Inside(g, |m|) && Apart(f, g)
    ensures WordAt(ApplyFix(m, f), g) == WordAt(m, g)
  {
    GetPutElsewhere(m, f.addr, f.width, WordAt(m, f) + f.delta, g.addr, g.width);
  }

  /** The word a fix leaves at its site, from memory m. */
  ghost function Patched(m: seq<Byte>, f: Fix): nat
    requires Inside(f, |m|)
  {
    Truncate(WordAt(m, f) + f.delta, f.width)
  }

  /** Whatever the order, each site ends up with its old word plus its own delta. */
  lemma {:induction false} SiteValue(m: seq<Byte>, fs: seq<Fix>, k: nat)
    requires AllInside(fs, |m|) && Disjoint(fs) && k < |fs|
    ensures WordAt(ApplyAll(m, fs), fs[k]) == Patched(m, fs[k])
  {
    var n := |fs| - 1;
    if k == n {
      WordUntouched(m, fs[..n], fs[n]);
      FixSite(ApplyAll(m, fs[..n]), fs[n]);
    } else {
      SiteValue(m, fs[..n], k);
      assert Apart(fs[n], fs[k]);
      FixElsewhere(ApplyAll(m, fs[..n]), fs[n], fs[k]);
    }
  }

  // ------------------------------------------------------------- order independence

  lemma {:induction false} TwoPositions(fs: seq<Fix>, f: Fix) returns (i: nat, j: nat)
    requires multiset(fs)[f] >= 2
    ensures i < j < |fs| && fs[i] == f == fs[j]
  {
    var n := |fs| - 1;
    assert fs == fs[..n] + [fs[n]];
    if fs[n] == f {
      assert f in multiset(fs[..n]);
      i :| 0 <= i < n && fs[..n][i] == f;
      j := n;
    } else {
      i, j := TwoPositions(fs[..n], f);
    }
  }

  lemma {:induction false} DuplicateCounted(gs: seq<Fix>, i: nat, j: nat)
    requires i < j < |gs| && gs[i] == gs[j]
    ensures multiset(gs)[gs[i]] >= 2
  {
    assert gs == gs[..j] + gs[j..];
    assert gs[..j][i] == gs[i] && gs[j..][0] == gs[j];
    assert gs[i] in multiset(gs[..j]) && gs[j] in multiset(gs[j..]);
  }

  lemma {:induction false} DisjointPermuted(fs: seq<Fix>, gs: seq<Fix>)
    requires Disjoint(fs) && multiset(fs) == multiset(gs)
    ensures Disjoint(gs)
  {
    forall i, j | 0 <= i < |gs| && 0 <= j < |gs| && i != j
      ensures Apart(gs[i], gs[j])
    {
      if gs[i] == gs[j] {
        DuplicateCounted(gs, if i < j then i else j, if i < j then j else i);
        var x, y := TwoPositions(fs, gs[i]);
        assert Apart(fs[x], fs[y]);
      } else {
        assert gs[i] in multiset(fs) && gs[j] in multiset(fs);
        var x :| 0 <= x < |fs| && fs[x] == gs[i];
        var y :| 0 <= y < |fs| && fs[y] == gs[j];
        assert Apart(fs[x], fs[y]);
      }
    }
  }

  /** Reordering relocation entries with non-overlapping sites does not change the image. */
  lemma {:induction false} OrderIrrelevant(m: seq<Byte>, fs: seq<Fix>, gs: seq<Fix>)
    requires AllInside(fs, |m|) && Disjoint(fs) && multiset(fs) == multiset(gs)
    ensures AllInside(gs, |m|) && ApplyAll(m, fs) == ApplyAll(m, gs)
  {
    forall i | 0 <= i < |gs|
      ensures Inside(gs[i], |m|)
    {
      assert gs[i] in multiset(fs);
    }
    DisjointPermuted(fs, gs);
    forall a | 0 <= a < |m|
      ensures ApplyAll(m, fs)[a] == ApplyAll(m, gs)[a]
    {
      SameByte(m, fs, gs, a);
    }
  }

  lemma {:induction false} SameByte(m: seq<Byte>, fs: seq<Fix>, gs: seq<Fix>, a: nat)
    requires AllInside(fs, |m|) && AllInside(gs, |m|) && Disjoint(fs) && Disjoint(gs) && a < |m|
    requires multiset(fs) == multiset(gs)
    ensures ApplyAll(m, fs)[a] == ApplyAll(m, gs)[a]
  {
    if i :| 0 <= i < |fs| && Touches(fs[i], a) {
      assert fs[i] in multiset(gs);
      var j :| 0 <= j < |gs| && gs[j] == fs[i];
      SameSite(m, fs, gs, i, j, a);
    } else {
      forall j | 0 <= j < |gs|
        ensures !Touches(gs[j], a)
      {
        assert gs[j] in multiset(fs);
      }
      Untouched(m, fs, a);
      Untouched(m, gs, a);
    }
  }

  lemma {:induction false} SameWordSameByte(m: seq<Byte>, m': seq<Byte>, f: Fix, a: nat)
    requires |m| == |m'| && Inside(f, |m|) && Touches(f, a) && WordAt(m, f) == WordAt(m', f)
    ensures m[a] == m'[a]
  {
    GetInjective(m, m', f.addr, f.width);
  }

  lemma {:induction false} SameSite(m: seq<Byte>, fs: seq<Fix>, gs: seq<Fix>, i: nat, j: nat, a: nat)
    requires AllInside(fs, |m|) && AllInside(gs, |m|) && Disjoint(fs) && Disjoint(gs)
    requires i < |fs| && j < |gs| && fs[i] == gs[j] && Touches(fs[i], a)
    ensures ApplyAll(m, fs)[a] == ApplyAll(m, gs)[a]
  {
    var f := fs[i];
    var v := Patched(m, f);
    SiteValue(m, fs, i);
    SiteValue(m, gs, j);
    SameWordSameByte(ApplyAll(m, fs), ApplyAll(m, gs), f, a);
  }
}
