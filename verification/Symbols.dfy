// Looking up boot-loader symbols: boot-loader/core/loader/symbols.c. The executable build scans
// a table of exports, the shared-library build walks a SysV hash table.

module Symbols {
  import opened Division
  import opened Wrappers

  /** A C string without its terminating NUL. */
  type Name = s: seq<bv8> | forall i :: 0 <= i < |s| ==> s[i] != 0

  const STT_OBJECT := 1
  const STT_FUNC := 2

  const MODULE_MAX_NAME_LEN: nat := 64

  // ---------------------------------------------------------------- string comparison

  /** s[i] as a C program sees it: past the last character comes the NUL. */
  function At(s: Name, i: nat): bv8
    requires i <= |s|
  {
    if i < |s| then s[i] else 0
  }

  /** bl_strncmp finds no difference within the first n characters. */
  ghost predicate SameUpTo(a: Name, b: Name, n: nat) {
    if |a| < n || |b| < n then a == b else a[..n] == b[..n]
  }

  /** The comparison loop of bl_strncmp; its result is reduced to "equal or not". */
  method StrNCmp(a: Name, b: Name, n: nat) returns (same: bool)
    ensures same == SameUpTo(a, b, n)
  {
    if n == 0 {
      return true;
    }
    var i, left := 0, n;
    while At(a, i) == At(b, i) && At(a, i) != 0 && At(b, i) != 0 && left != 1
      invariant i <= |a| && i <= |b| && i + left == n && left >= 1
      invariant a[..i] == b[..i]
      decreases left
    {
      assert a[..i + 1] == a[..i] + [a[i]] && b[..i + 1] == b[..i] + [b[i]];
      i, left := i + 1, left - 1;
    }
    same := At(a, i) == At(b, i);
    Decided(a, b, n, i);
  }

  lemma {:induction false} Decided(a: Name, b: Name, n: nat, i: nat)
    requires i < n && i <= |a| && i <= |b| && a[..i] == b[..i]
    requires At(a, i) != At(b, i) || At(a, i) == 0 || i + 1 == n
    ensures (At(a, i) == At(b, i)) == SameUpTo(a, b, n)
  {
    if At(a, i) == At(b, i) {
      if i == |a| {
        assert i == |b| && a == a[..i] && b == b[..i];
      } else {
        assert a[..i + 1] == a[..i] + [a[i]] && b[..i + 1] == b[..i] + [b[i]];
      }
    } else if |a| >= n && |b| >= n {
      assert a[..n][i] == a[i] && b[..n][i] == b[i];
    }
  }

  method StrCmp(a: Name, b: Name) returns (same: bool)
    ensures same == (a == b)
  {
    var i := 0;
    while At(a, i) == At(b, i) && At(a, i) != 0 && At(b, i) != 0
      invariant i <= |a| && i <= |b| && a[..i] == b[..i]
      decreases |a| - i
    {
      assert a[..i + 1] == a[..i] + [a[i]] && b[..i + 1] == b[..i] + [b[i]];
      i := i + 1;
    }
    same := At(a, i) == At(b, i);
    if same {
      assert a == a[..i] && b == b[..i];
    }
  }

  // ---------------------------------------------------------------- the hash function

  /** (h << 4) + c in a 32-bit register. */
  function Shifted(h: bv32, c: bv8): bv32 {
    (h << 4) + (c as bv32)
  }

  /** The top nibble is folded into bits 4 to 7 and cleared. */
  function Folded(h: bv32): bv32 {
    var g := h & 0xf000_0000;
    if g != 0 then (h ^ (g >> 24)) & !g else h & !g
  }

  function HashStep(h: bv32, c: bv8): bv32 {
    Folded(Shifted(h, c))
  }

  function ElfHash(name: seq<bv8>): (h: bv32)
  {
    if name == [] then 0 else HashStep(ElfHash(name[..|name| - 1]), name[|name| - 1])
  }

  lemma {:induction false} FoldClearsTopBits(h: bv32)
    ensures Folded(h) < 0x1000_0000
  {
    var g := h & 0xf000_0000;
    TopNibble(h, g);
  }

  lemma {:induction false} TopNibble(x: bv32, g: bv32)
    requires g == x & 0xf000_0000
    ensures ((x ^ (g >> 24)) & !g) < 0x1000_0000 && (x & !g) < 0x1000_0000
  {
  }

  /** The hash of every string is below 2^28, although the shifted sum may wrap. */
  lemma {:induction false} HashBelow28Bits(name: seq<bv8>)
    ensures ElfHash(name) < 0x1000_0000
  {
    if name != [] {
      FoldClearsTopBits(Shifted(ElfHash(name[..|name| - 1]), name[|name| - 1]));
    }
  }

  lemma {:induction false} FoldMixes(t: bv32, r: bv32)
    requires r == (t & 0x0fff_ffff) ^ ((t >> 24) & 0xf0)
    ensures Folded(t) == r
  {
    if t & 0xf000_0000 != 0 {
      NibbleMixed(t, r);
    } else {
      NibbleClear(t, r);
    }
  }

  lemma {:induction false} NibbleMixed(t: bv32, r: bv32)
    requires r == (t & 0x0fff_ffff) ^ ((t >> 24) & 0xf0)
    ensures (t ^ ((t & 0xf000_0000) >> 24)) & !(t & 0xf000_0000) == r
  {
  }

  lemma {:induction false} NibbleClear(t: bv32, r: bv32)
    requires t & 0xf000_0000 == 0 && r == (t & 0x0fff_ffff) ^ ((t >> 24) & 0xf0)
    ensures t & !(t & 0xf000_0000) == r
  {
  }

  lemma {:induction false} HashAppend(name: seq<bv8>, c: bv8)
    ensures ElfHash([]) == 0 && ElfHash(name + [c]) == HashStep(ElfHash(name), c)
  {
    assert (name + [c])[..|name|] == name;
  }

  /** One character more shifts the hash by a hexadecimal digit and adds the character; the digit that
      leaves the low 28 bits is exclusive-ored into bits 4 to 7. */
  lemma {:induction false} HashMeaning(h: bv32, c: bv8, t: bv32, r: bv32)
    requires t == (h << 4) + c as bv32
    requires r == (t & 0x0fff_ffff) ^ ((t >> 24) & 0xf0)
    ensures forall name :: ElfHash(name) == h ==> ElfHash(name + [c]) == r
  {
    assert Shifted(h, c) == t;
    FoldMixes(t, r);
    forall name | ElfHash(name) == h
      ensures ElfHash(name + [c]) == r
    {
      HashAppend(name, c);
    }
  }

  /** So as long as no digit leaves, the hash is the number whose hexadecimal digits are the characters. */
  lemma {:induction false} HashOfShort(h: bv32, c: bv8, t: bv32)
    requires h <= 0xff_fff0 && t == 16 * h + c as bv32
    ensures ElfHash([]) == 0 && forall name :: ElfHash(name) == h ==> ElfHash(name + [c]) == t
  {
    HexDigit(h, c as bv32);
    assert Shifted(h, c) == t;
    BelowNibble(t);
    forall name | ElfHash(name) == h
      ensures ElfHash(name + [c]) == t
    {
      HashAppend(name, c);
    }
  }

  lemma {:induction false} BelowNibble(t: bv32)
    requires t < 0x1000_0000
    ensures Folded(t) == t
  {
  }

  lemma {:induction false} HexDigit(h: bv32, c: bv32)
    requires c < 0x100 && h <= 0xff_fff0
    ensures (h << 4) + c == 16 * h + c && (h << 4) + c < 0x1000_0000
  {
  }

  /** bl_symbols_elf_hash. */
  method ComputeHash(name: Name) returns (h: bv32)
    ensures h == ElfHash(name)
  {
    h := 0;
    var i := 0;
    while At(name, i) != 0
      invariant i <= |name| && h == ElfHash(name[..i])
      decreases |name| - i
    {
      assert name[..i + 1][..i] == name[..i];
      h := Folded(Shifted(h, name[i]));
      i := i + 1;
    }
    assert name[..i] == name;
  }

  // ---------------------------------------------------------------- the hash table

  datatype DynSym = DynSym(name: Name, value: nat, typ: nat)

  /** `info` holds the buckets followed by the chains, as in the file format. */
  datatype HashTable = HashTable(nbucket: nat, info: seq<nat>)

  ghost function Bucket(name: Name, nbucket: nat): (b: nat)
    requires nbucket > 0
    ensures b < nbucket
  {
    Part(ElfHash(name) as nat, nbucket)
  }

  method ComputeBucket(name: Name, nbucket: nat) returns (b: nat)
    requires nbucket > 0
    ensures b == Bucket(name, nbucket)
  {
    var h := ComputeHash(name);
    WholeAndPart(h as nat, nbucket);
    b := (h as nat) % nbucket;
  }

  /** `chain` is what following the table from bucket b visits before reaching index 0. */
  ghost predicate ChainOf(t: HashTable, n: nat, b: nat, chain: seq<nat>)
    requires b < t.nbucket && |t.info| == t.nbucket + n
  {
    && t.info[b] == (if chain == [] then 0 else chain[0])
    && forall k :: 0 <= k < |chain| ==>
         0 < chain[k] < n && t.info[t.nbucket + chain[k]] == if k + 1 < |chain| then chain[k + 1] else 0
  }

  /** A table as the SysV ABI prescribes: every symbol but the first is on the chain of its
      hash value's bucket, and chains end with index 0. */
  ghost predicate WellFormed(t: HashTable, syms: seq<DynSym>, chains: seq<seq<nat>>) {
    && t.nbucket > 0 && |t.info| == t.nbucket + |syms| && |chains| == t.nbucket
    && (forall b :: 0 <= b < t.nbucket ==> ChainOf(t, |syms|, b, chains[b]))
    && (forall i :: 0 < i < |syms| ==> i in chains[Bucket(syms[i].name, t.nbucket)])
  }

  /** First symbol of that name on a chain, 0 if there is none. */
  ghost function OnChain(syms: seq<DynSym>, chain: seq<nat>, name: Name): nat
    requires forall k :: 0 <= k < |chain| ==> chain[k] < |syms|
  {
    if chain == [] then 0
    else if syms[chain[0]].name == name then chain[0]
    else OnChain(syms, chain[1..], name)
  }

  lemma {:induction false} OnChainFinds(syms: seq<DynSym>, chain: seq<nat>, name: Name)
    requires forall k :: 0 <= k < |chain| ==> 0 < chain[k] < |syms|
    ensures var i := OnChain(syms, chain, name);
      && (i == 0 ==> forall k :: 0 <= k < |chain| ==> syms[chain[k]].name != name)
      && (i != 0 ==> i in chain && syms[i].name == name)
  {
    if chain != [] && syms[chain[0]].name != name {
      OnChainFinds(syms, chain[1..], name);
      forall k | 0 <= k < |chain| && OnChain(syms, chain, name) == 0
        ensures syms[chain[k]].name != name
      {
        assert k > 0 ==> chain[k] == chain[1..][k - 1];
      }
    }
  }

  /** The chain walk of bl_symbols_elf_find_symbol. */
  method WalkChain(t: HashTable, syms: seq<DynSym>, b: nat, name: Name, ghost chain: seq<nat>) returns (i: nat)
    requires b < t.nbucket && |t.info| == t.nbucket + |syms| && ChainOf(t, |syms|, b, chain)
    ensures i == OnChain(syms, chain, name)
  {
    i := t.info[b];
    ghost var k := 0;
    while i != 0
      invariant k <= |chain| && i == if k < |chain| then chain[k] else 0
      invariant OnChain(syms, chain, name) == OnChain(syms, chain[k..], name)
      decreases |chain| - k
    {
      assert i == chain[k] && t.info[t.nbucket + chain[k]] == if k + 1 < |chain| then chain[k + 1] else 0;
      assert chain[k..][1..] == chain[k + 1..];
      var same := StrCmp(syms[i].name, name);
      if same {
        return;
      }
      i := t.info[i + t.nbucket];
      k := k + 1;
    }
    assert k == |chain|;
  }

  /** bl_symbols_elf_find_symbol: the walk ends on every well-formed table. */
  method FindSymbol(t: HashTable, syms: seq<DynSym>, name: Name, ghost chains: seq<seq<nat>>) returns (i: nat)
    requires WellFormed(t, syms, chains)
    ensures ChainOf(t, |syms|, Bucket(name, t.nbucket), chains[Bucket(name, t.nbucket)])
    ensures i == OnChain(syms, chains[Bucket(name, t.nbucket)], name)
  {
    var b := ComputeBucket(name, t.nbucket);
    assert ChainOf(t, |syms|, b, chains[b]);
    i := WalkChain(t, syms, b, name, chains[b]);
  }

  /** The chain walk finds a symbol of the given name exactly when the table has one at a
      non-zero index. */
  lemma {:induction false} WalkIsComplete(t: HashTable, syms: seq<DynSym>, chains: seq<seq<nat>>, name: Name)
    requires WellFormed(t, syms, chains)
    ensures var i := OnChain(syms, chains[Bucket(name, t.nbucket)], name);
      && (i != 0 <==> exists j :: 0 < j < |syms| && syms[j].name == name)
      && (i != 0 ==> i < |syms| && syms[i].name == name)
    ensures ChainOf(t, |syms|, Bucket(name, t.nbucket), chains[Bucket(name, t.nbucket)])
  {
    var b := Bucket(name, t.nbucket);
    assert ChainOf(t, |syms|, b, chains[b]);
    OnChainFinds(syms, chains[b], name);
  }

  /** The bucket is the remainder of the hash. */
  lemma {:induction false} BucketIsRemainder(name: Name, nbucket: nat)
    requires nbucket > 0
    ensures Bucket(name, nbucket) == ElfHash(name) as nat % nbucket
  {
    WholeAndPart(ElfHash(name) as nat, nbucket);
  }

  // ---------------------------------------------------------------- both lookups

  datatype ExportSymbol = ExportSymbol(address: nat, isFunc: bool, name: Name)

  /** bl_symbols_find of the executable build: the first entry equal in 64 characters. */
  ghost function LinearFind(table: seq<ExportSymbol>, name: Name): Option<ExportSymbol> {
    if table == [] then None
    else if SameUpTo(table[0].name, name, MODULE_MAX_NAME_LEN) then Some(table[0])
    else LinearFind(table[1..], name)
  }

  method SymbolsFindLinear(table: seq<ExportSymbol>, name: Name) returns (r: Option<ExportSymbol>)
    ensures r == LinearFind(table, name)
  {
    for i := 0 to |table|
      invariant LinearFind(table, name) == LinearFind(table[i..], name)
    {
      var same := StrNCmp(table[i].name, name, MODULE_MAX_NAME_LEN);
      if same {
        return Some(table[i]);
      }
    }
    r := None;
  }

  /** bl_symbols_find of the shared-library build: symbols that are neither functions nor
      objects count as unknown. */
  function ExportOf(s: DynSym): Option<ExportSymbol> {
    if s.typ == STT_FUNC then Some(ExportSymbol(s.value, true, s.name))
    else if s.typ == STT_OBJECT then Some(ExportSymbol(s.value, false, s.name))
    else None
  }

  /** The shared-library lookup along the name's chain. */
  ghost function HashFind(syms: seq<DynSym>, chain: seq<nat>, name: Name): Option<ExportSymbol>
    requires forall k :: 0 <= k < |chain| ==> 0 < chain[k] < |syms|
  {
    OnChainFinds(syms, chain, name);
    var i := OnChain(syms, chain, name);
    if i == 0 then None else ExportOf(syms[i])
  }

  method SymbolsFindHash(t: HashTable, syms: seq<DynSym>, name: Name, ghost chains: seq<seq<nat>>)
    returns (r: Option<ExportSymbol>)
    requires WellFormed(t, syms, chains)
    ensures ChainOf(t, |syms|, Bucket(name, t.nbucket), chains[Bucket(name, t.nbucket)])
    ensures r == HashFind(syms, chains[Bucket(name, t.nbucket)], name)
  {
    var i := FindSymbol(t, syms, name, chains);
    WalkIsComplete(t, syms, chains, name);
    if i == 0 {
      return None;
    }
    r := ExportOf(syms[i]);
  }

  /** What the lookup gives for a name that one symbol has: its value and kind if it is a function or an
      object, and nothing otherwise; nor for a name no symbol has. */
  lemma {:induction false} HashFindMeaning(t: HashTable, syms: seq<DynSym>, chains: seq<seq<nat>>, name: Name, j: nat)
    requires WellFormed(t, syms, chains) && j < |syms|
    requires forall i :: 0 < i < |syms| && syms[i].name == name ==> i == j
    ensures ChainOf(t, |syms|, Bucket(name, t.nbucket), chains[Bucket(name, t.nbucket)])
    ensures HashFind(syms, chains[Bucket(name, t.nbucket)], name) ==
      if j == 0 || syms[j].name != name then None
      else if syms[j].typ == STT_FUNC then Some(ExportSymbol(syms[j].value, true, name))
      else if syms[j].typ == STT_OBJECT then Some(ExportSymbol(syms[j].value, false, name))
      else None
  {
    WalkIsComplete(t, syms, chains, name);
  }

  /** The two tables describe the same exports: the table lists exactly the functions and objects among
      the symbols, and no symbol of a listed name is anything else. Other symbols may be there. */
  ghost predicate SameExports(table: seq<ExportSymbol>, syms: seq<DynSym>) {
    && (forall j :: 0 < j < |syms| && ExportOf(syms[j]).Some? ==> ExportOf(syms[j]).value in table)
    && (forall i :: 0 <= i < |table| ==> exists j :: 0 < j < |syms| && ExportOf(syms[j]) == Some(table[i]))
    && (forall i, j :: 0 <= i < |table| && 0 < j < |syms| && table[i].name == syms[j].name ==>
          ExportOf(syms[j]) == Some(table[i]))
  }

  /** An entry of another name agrees with the sought one in 64 characters, and none before it has the
      sought name. */
  ghost predicate Clash(table: seq<ExportSymbol>, name: Name) {
    exists i :: 0 <= i < |table| && table[i].name != name && SameUpTo(table[i].name, name, MODULE_MAX_NAME_LEN) &&
                forall k :: 0 <= k < i ==> table[k].name != name
  }

  lemma {:induction false} ClashBehind(table: seq<ExportSymbol>, name: Name)
    requires table != [] && !SameUpTo(table[0].name, name, MODULE_MAX_NAME_LEN)
    ensures Clash(table, name) <==> Clash(table[1..], name)
  {
    if Clash(table, name) {
      var i :| 0 <= i < |table| && table[i].name != name && SameUpTo(table[i].name, name, MODULE_MAX_NAME_LEN) &&
               forall k :: 0 <= k < i ==> table[k].name != name;
      assert table[1..][i - 1] == table[i] && forall k :: 0 <= k < i - 1 ==> table[1..][k] == table[k + 1];
    }
    if Clash(table[1..], name) {
      var i :| 0 <= i < |table[1..]| && table[1..][i].name != name &&
               SameUpTo(table[1..][i].name, name, MODULE_MAX_NAME_LEN) &&
               forall k :: 0 <= k < i ==> table[1..][k].name != name;
      assert table[i + 1] == table[1..][i] && forall k :: 0 < k < i + 1 ==> table[k] == table[1..][k - 1];
    }
  }

  /** The linear lookup answers with the export of another name exactly in case of a clash; otherwise
      it finds an entry of the name if there is one. */
  lemma {:induction false} LinearFinds(table: seq<ExportSymbol>, name: Name)
    ensures var r := LinearFind(table, name);
      && (Clash(table, name) <==> r.Some? && r.value.name != name)
      && (r == None ==> forall i :: 0 <= i < |table| ==> table[i].name != name)
      && (r.Some? ==> r.value in table)
  {
    if table != [] {
      if SameUpTo(table[0].name, name, MODULE_MAX_NAME_LEN) {
        assert table[0].name == name ==> !Clash(table, name);
      } else {
        LinearFinds(table[1..], name);
        ClashBehind(table, name);
        forall i | 0 <= i < |table| && LinearFind(table, name) == None
          ensures table[i].name != name
        {
          assert i > 0 ==> table[i] == table[1..][i - 1];
        }
      }
    }
  }

  /** Both builds find the same export for a name, whatever its length, if and only if it does not
      clash. */
  lemma {:induction false} LookupsAgreeExactly(table: seq<ExportSymbol>, t: HashTable, syms: seq<DynSym>,
        chains: seq<seq<nat>>, name: Name)
    requires WellFormed(t, syms, chains) && SameExports(table, syms)
    ensures ChainOf(t, |syms|, Bucket(name, t.nbucket), chains[Bucket(name, t.nbucket)])
    ensures HashFind(syms, chains[Bucket(name, t.nbucket)], name) == LinearFind(table, name) <==> !Clash(table, name)
  {
    WalkIsComplete(t, syms, chains, name);
    ResultsAgree(table, syms, OnChain(syms, chains[Bucket(name, t.nbucket)], name), name);
  }

  lemma {:induction false} ResultsAgree(table: seq<ExportSymbol>, syms: seq<DynSym>, i: nat, name: Name)
    requires SameExports(table, syms)
    requires i != 0 <==> exists j :: 0 < j < |syms| && syms[j].name == name
    requires i != 0 ==> i < |syms| && syms[i].name == name
    ensures LinearFind(table, name) == (if i == 0 then None else ExportOf(syms[i])) <==> !Clash(table, name)
  {
    LinearFinds(table, name);
    var r := LinearFind(table, name);
    if i != 0 && ExportOf(syms[i]).Some? {
      assert ExportOf(syms[i]).value in table && ExportOf(syms[i]).value.name == name;
    }
    if r.Some? {
      var x :| 0 <= x < |table| && table[x] == r.value;
      var j :| 0 < j < |syms| && ExportOf(syms[j]) == Some(table[x]);
      assert syms[j].name == table[x].name;
    }
  }

  /** In particular they agree on all names when every listed name has less than 64 characters. */
  lemma {:induction false} LookupsAgree(table: seq<ExportSymbol>, t: HashTable, syms: seq<DynSym>,
        chains: seq<seq<nat>>, name: Name)
    requires WellFormed(t, syms, chains) && SameExports(table, syms)
    requires forall i :: 0 <= i < |table| ==> |table[i].name| < MODULE_MAX_NAME_LEN
    ensures ChainOf(t, |syms|, Bucket(name, t.nbucket), chains[Bucket(name, t.nbucket)])
    ensures HashFind(syms, chains[Bucket(name, t.nbucket)], name) == LinearFind(table, name)
  {
    LookupsAgreeExactly(table, t, syms, chains, name);
  }
}
