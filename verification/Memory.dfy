// Byte-addressed memory: little-endian access and the copy routines of
// boot-loader/core/utils/string.c.

module Memory {
  import opened Bits

  type Byte = b: int | 0 <= b < 0x100

  function Pow256(n: nat): (p: nat)
    ensures p > 0
  {
    if n == 0 then 1 else 0x100 * Pow256(n - 1)
  }

  lemma {:induction false} Pow256Values()
    ensures Pow256(2) == 0x1_0000 && Pow256(4) == TWO_32 && Pow256(8) == TWO_32 * TWO_32
  {
    assert Pow256(3) == 0x100 * Pow256(2);
    assert Pow256(5) == 0x100 * Pow256(4);
    assert Pow256(6) == 0x100 * Pow256(5);
    assert Pow256(7) == 0x100 * Pow256(6);
  }

  /** The unsigned value of a little-endian byte string. */
  function FromLE(s: seq<Byte>): (v: nat)
    ensures v < Pow256(|s|)
  {
    if s == [] then 0 else s[0] + 0x100 * FromLE(s[1..])
  }

  /** The low n bytes of v, least significant first. */
  function ToLE(v: nat, n: nat): (s: seq<Byte>)
    ensures |s| == n
    decreases n, v
  {
    if n == 0 then [] else [v % 0x100] + ToLE(v / 0x100, n - 1)
  }

  lemma {:induction false} FromToLE(v: nat, n: nat)
    ensures FromLE(ToLE(v, n)) == v % Pow256(n)
  {
    if n > 0 {
      FromToLE(v / 0x100, n - 1);
      assert ToLE(v, n)[1..] == ToLE(v / 0x100, n - 1);
      ModPeel(v, Pow256(n - 1));
    }
  }

  lemma {:induction false} ModPeel(v: nat, p: nat)
    requires p > 0
    ensures v % (0x100 * p) == v % 0x100 + 0x100 * (v / 0x100 % p)
  {
    var q, r := v / 0x100 / p, v / 0x100 % p;
    assert v / 0x100 == p * q + r;
    assert v == (0x100 * p) * q + (v % 0x100 + 0x100 * r) by {
      assert (0x100 * p) * q == 0x100 * (p * q);
    }
    ModUnique(v, 0x100 * p, q, v % 0x100 + 0x100 * r);
  }

  lemma {:induction false} ToFromLE(s: seq<Byte>)
    ensures ToLE(FromLE(s), |s|) == s
  {
    if s != [] {
      ToFromLE(s[1..]);
      assert FromLE(s) % 0x100 == s[0] && FromLE(s) / 0x100 == FromLE(s[1..]);
    }
  }

  /** Overwrite the bytes at [a, a + |s|). */
  function Write(m: seq<Byte>, a: nat, s: seq<Byte>): (m': seq<Byte>)
    requires a + |s| <= |m|
    ensures |m'| == |m|
    ensures forall i :: 0 <= i < |m| && !(a <= i < a + |s|) ==> m'[i] == m[i]
    ensures forall i :: a <= i < a + |s| ==> m'[i] == s[i - a]
  {
    if s == [] then m else Write(m, a, s[..|s| - 1])[a + |s| - 1 := s[|s| - 1]]
  }

  /** The n-byte little-endian word at address a. */
  function Get(m: seq<Byte>, a: nat, n: nat): (v: nat)
    requires a + n <= |m|
    decreases n, |m|
  {
    if n == 0 then 0 else m[a] + 0x100 * Get(m, a + 1, n - 1)
  }

  /** Memory after the low n bytes of v are stored at address a, least significant first. */
  function Put(m: seq<Byte>, a: nat, n: nat, v: nat): (m': seq<Byte>)
    requires a + n <= |m|
    ensures |m'| == |m|
    ensures forall i :: 0 <= i < |m| && !(a <= i < a + n) ==> m'[i] == m[i]
    decreases n, |m|
  {
    if n == 0 then m else Put(m[a := v % 0x100], a + 1, n - 1, v / 0x100)
  }

  /** v cut down to n bytes. */
  function Truncate(v: nat, n: nat): (t: nat)
    decreases n, v
  {
    if n == 0 then 0 else v % 0x100 + 0x100 * Truncate(v / 0x100, n - 1)
  }

  lemma {:induction false} TruncateIsMod(v: nat, n: nat)
    ensures Truncate(v, n) == v % Pow256(n)
  {
    if n > 0 {
      TruncateIsMod(v / 0x100, n - 1);
      ModPeel(v, Pow256(n - 1));
    }
  }

  /** Loading what was just stored gives the stored value, cut to the width. */
  lemma {:induction false} GetPut(m: seq<Byte>, a: nat, n: nat, v: nat)
    requires a + n <= |m|
    ensures Get(Put(m, a, n, v), a, n) == Truncate(v, n)
    decreases n
  {
    if n > 0 {
      GetPut(m[a := v % 0x100], a + 1, n - 1, v / 0x100);
    }
  }

  lemma {:induction false} GetSame(m: seq<Byte>, m': seq<Byte>, a: nat, n: nat)
    requires a + n <= |m| && a + n <= |m'|
    requires forall i :: a <= i < a + n ==> m[i] == m'[i]
    ensures Get(m, a, n) == Get(m', a, n)
    decreases n
  {
    if n > 0 {
      GetSame(m, m', a + 1, n - 1);
    }
  }

  lemma {:induction false} GetPutElsewhere(m: seq<Byte>, a: nat, n: nat, v: nat, b: nat, k: nat)
    requires a + n <= |m| && b + k <= |m| && (a + n <= b || b + k <= a)
    ensures Get(Put(m, a, n, v), b, k) == Get(m, b, k)
  {
    GetSame(m, Put(m, a, n, v), b, k);
  }

  /** The bytes of a word are determined by its value. */
  lemma {:induction false} GetInjective(m: seq<Byte>, m': seq<Byte>, a: nat, n: nat)
    requires a + n <= |m| && a + n <= |m'| && Get(m, a, n) == Get(m', a, n)
    ensures forall i :: a <= i < a + n ==> m[i] == m'[i]
    decreases n
  {
    if n > 0 {
      assert m[a] == Get(m, a, n) % 0x100 && m'[a] == Get(m', a, n) % 0x100;
      GetInjective(m, m', a + 1, n - 1);
    }
  }

  /** The word at a is the value of the n bytes there. */
  lemma {:induction false} GetIsFromLE(m: seq<Byte>, a: nat, n: nat)
    requires a + n <= |m|
    ensures Get(m, a, n) == FromLE(m[a..a + n])
    decreases n
  {
    if n > 0 {
      GetIsFromLE(m, a + 1, n - 1);
      assert m[a..a + n][1..] == m[a + 1..a + n];
    }
  }

  method Load(m: array<Byte>, a: nat, n: nat) returns (v: nat)
    requires a + n <= m.Length
    ensures v == Get(m[..], a, n)
  {
    v := 0;
    for i := n downto 0
      invariant v == Get(m[..], a + i, n - i)
    {
      v := m[a + i] + 0x100 * v;
    }
  }

  method Store(m: array<Byte>, a: nat, n: nat, v: nat)
    requires a + n <= m.Length
    modifies m
    ensures m[..] == Put(old(m[..]), a, n, v)
  {
    var left := v;
    for i := 0 to n
      invariant left >= 0 && Put(m[..], a + i, n - i, left) == Put(old(m[..]), a, n, v)
    {
      ghost var m0 := m[..];
      m[a + i] := left % 0x100;
      assert m[..] == m0[a + i := left % 0x100];
      left := left / 0x100;
    }
  }

  /** bl_memcpy within one memory: correct for overlapping ranges in either direction. */
  method Memcpy(m: array<Byte>, dest: nat, src: nat, n: nat)
    requires dest + n <= m.Length && src + n <= m.Length
    modifies m
    ensures m[..] == Write(old(m[..]), dest, old(m[..])[src..src + n])
  {
    ghost var m0 := m[..];
    ghost var s := m0[src..src + n];
    assert forall k :: 0 <= k < n ==> s[k] == m0[src + k];
    if src > dest {
      for i := 0 to n
        invariant forall k :: 0 <= k < m.Length ==>
          m[k] == if dest <= k < dest + i then s[k - dest] else m0[k]
      {
        assert m[src + i] == m0[src + i] == s[i];
        m[dest + i] := m[src + i];
      }
    } else {
      for i := n downto 0
        invariant forall k :: 0 <= k < m.Length ==>
          m[k] == if dest + i <= k < dest + n then s[k - dest] else m0[k]
      {
        assert m[src + i] == m0[src + i] == s[i];
        m[dest + i] := m[src + i];
      }
    }
    assert m[..] == Write(m0, dest, s);
  }

  /** bl_memcpy from a separate memory. */
  method CopyIn(m: array<Byte>, dest: nat, s: seq<Byte>)
    requires dest + |s| <= m.Length
    modifies m
    ensures m[..] == Write(old(m[..]), dest, s)
  {
    ghost var m0 := m[..];
    for i := 0 to |s|
      invariant forall k :: 0 <= k < m.Length ==>
        m[k] == if dest <= k < dest + i then s[k - dest] else m0[k]
    {
      m[dest + i] := s[i];
    }
    assert m[..] == Write(m0, dest, s);
  }

  /** n less one, as an unsigned 32-bit count. */
  function Decremented(n: Word): Word {
    if n == 0 then TWO_32 - 1 else n - 1
  }

  /** bl_memset, whose pre-decremented count stops one byte early: the last of the n bytes is
      never written, and a count of zero wraps around. */
  method Memset(m: array<Byte>, dest: nat, c: Byte, n: Word)
    requires dest + (if n == 0 then TWO_32 - 1 else n - 1) <= m.Length
    modifies m
    ensures n > 0 ==> m[..] == Write(old(m[..]), dest, seq(n - 1, _ => c))
    ensures n == 0 ==> m[..] == Write(old(m[..]), dest, seq(TWO_32 - 1, _ => c))
  {
    ghost var m0 := m[..];
    var left := Decremented(n);
    var d := dest;
    while left != 0
      invariant 0 <= left <= Decremented(n) && d == dest + (Decremented(n) - left)
      invariant forall k :: 0 <= k < m.Length ==> m[k] == if dest <= k < d then c else m0[k]
    {
      m[d] := c;
      d, left := d + 1, Decremented(left);
    }
    assert m[..] == Write(m0, dest, seq(Decremented(n), _ => c));
  }
}
