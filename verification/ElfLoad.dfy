// Loading a relocatable object: boot-loader/core/loader/elf/elf.c.

module ElfLoad {
  import opened Bits
  import opened Memory
  import opened ElfObject
  import opened Relocation

  datatype Status = Success | InvalidElf | UnknownSymbol

  /** An exported boot-loader symbol, as the symbol lookup returns it. */
  datatype Export = Export(address: Word, isFunc: bool)

  /** The exports and the address they are relative to: 0 for the executable build, the image
      start for the shared-library build. */
  datatype Exports = Exports(table: map<string, Export>, imageStart: Word)

  type Tables = map<nat, seq<Sym>>

  // ---------------------------------------------------------------- placing sections

  /** PROGBITS sections carry their bytes, and each REL section names a symbol table that holds
      every symbol it uses. */
  ghost predicate WellFormed(secs: seq<Section>, tables: Tables) {
    && WellAligned(secs)
    && (forall i :: 0 <= i < |secs| && secs[i].kind == SHT_PROGBITS ==> |secs[i].bytes| == secs[i].size)
    && (forall i :: i in tables <==> 0 <= i < |secs| && secs[i].kind == SHT_SYMTAB)
    && (forall i :: 0 <= i < |secs| && secs[i].kind == SHT_REL ==> SymbolsExist(secs[i], tables))
  }

  ghost predicate SymbolsExist(s: Section, tables: Tables) {
    s.link in tables && forall k :: 0 <= k < |s.rels| ==> s.rels[k].sym < |tables[s.link]|
  }

  function Contents(s: Section): (bytes: seq<Byte>)
    requires Placed(s) && (s.kind == SHT_PROGBITS ==> |s.bytes| == s.size)
    ensures |bytes| <= s.size
  {
    if s.kind == SHT_PROGBITS then s.bytes
    else if s.kind == SHT_NOBITS then seq(s.size - 1, _ => 0)
    else []
  }

  ghost predicate Loadable(secs: seq<Section>, base: nat, n: nat, len: nat) {
    && WellAligned(secs) && n <= |secs|
    && (forall i :: 0 <= i < |secs| && secs[i].kind == SHT_PROGBITS ==> |secs[i].bytes| == secs[i].size)
    && EndOf(secs, base, n) <= len <= TWO_32
  }

  /** Memory after the first n sections are placed. */
  ghost function PlaceAll(m: seq<Byte>, secs: seq<Section>, base: nat, n: nat): (m': seq<Byte>)
    requires Loadable(secs, base, n, |m|)
    ensures |m'| == |m|
  {
    if n == 0 then m
    else
      EndMonotone(secs, base, n - 1, n);
      var m1 := PlaceAll(m, secs, base, n - 1);
      if Placed(secs[n - 1]) then Write(m1, StartOf(secs, base, n - 1), Contents(secs[n - 1])) else m1
  }

  // ---------------------------------------------------------------- symbols

  /** bl_elf_section_by_index: the segment's address, or 0 for a section that is not loaded. */
  function SectionByIndex(segs: seq<Segment>, index: nat): nat
  {
    if segs == [] then 0
    else if segs[0].index == index then segs[0].address
    else SectionByIndex(segs[1..], index)
  }

  /** bl_elf_resolve_symbol on one entry. */
  function Resolve(s: Sym, segs: seq<Segment>, ex: Exports): (r: (Status, Sym))
  {
    if s.typ == STT_FUNC then
      (Success, s.(value := Reduce(s.value + SectionByIndex(segs, s.shndx))))
    else if s.typ == STT_NOTYPE || s.typ == STT_OBJECT then
      if s.named && s.shndx == SHN_UNDEF then
        if s.name !in ex.table then (UnknownSymbol, s)
        else
          var e := ex.table[s.name];
          var s' := s.(value := Reduce(e.address + ex.imageStart));
          (Success, if e.isFunc then s'.(bind := s.typ, typ := STT_FUNC) else s')
      else (Success, s.(value := Reduce(s.value + SectionByIndex(segs, s.shndx))))
    else if s.typ == STT_SECTION then
      (Success, s.(value := Reduce(SectionByIndex(segs, s.shndx))))
    else if s.typ == STT_FILE then (Success, s.(value := 0))
    else (InvalidElf, s)
  }

  /** The table after its first n entries are resolved. */
  ghost function ResolvedPrefix(syms: seq<Sym>, segs: seq<Segment>, ex: Exports, n: nat): (r: seq<Sym>)
    requires n <= |syms|
    ensures |r| == |syms|
  {
    if n == 0 then syms else ResolvedPrefix(syms, segs, ex, n - 1)[n - 1 := Resolve(syms[n - 1], segs, ex).1]
  }

  lemma {:induction false} PrefixAt(syms: seq<Sym>, segs: seq<Segment>, ex: Exports, n: nat, j: nat)
    requires n <= |syms| && j < |syms|
    ensures ResolvedPrefix(syms, segs, ex, n)[j] == if j < n then Resolve(syms[j], segs, ex).1 else syms[j]
  {
    if n > 0 {
      PrefixAt(syms, segs, ex, n - 1, j);
    }
  }

  ghost function EntryOr(s: Sym, name: string, segs: seq<Segment>, ex: Exports, otherwise: Word): Word {
    if s.typ == STT_FUNC && s.name == name then Resolve(s, segs, ex).1.value else otherwise
  }

  /** Address of the last function of that name, the way the module's entry points are found. */
  ghost function Entry(syms: seq<Sym>, name: string, segs: seq<Segment>, ex: Exports): Word
  {
    if syms == [] then 0
    else EntryOr(syms[|syms| - 1], name, segs, ex, Entry(syms[..|syms| - 1], name, segs, ex))
  }

  /** All symbols in the order they are resolved. */
  ghost function AllSyms(secs: seq<Section>, tables: Tables, n: nat): seq<Sym>
    requires n <= |secs|
  {
    if n == 0 then []
    else if secs[n - 1].kind == SHT_SYMTAB && n - 1 in tables then
      AllSyms(secs, tables, n - 1) + tables[n - 1]
    else AllSyms(secs, tables, n - 1)
  }

  const INITIALIZE := "bl_module_initialize"
  const UNINITIALIZE := "bl_module_uninitialize"

  /** How many entries of table i are resolved when resolution stands at entry fj of table fi. */
  ghost function Progress(i: nat, len: nat, fi: nat, fj: nat): nat {
    if i < fi then len else if i == fi && fj <= len then fj else 0
  }

  ghost predicate Resolvable(syms: seq<Sym>, segs: seq<Segment>, ex: Exports, n: nat)
    requires n <= |syms|
  {
    forall j :: 0 <= j < n ==> Resolve(syms[j], segs, ex).0 == Success
  }

  /** Tables when resolution stands at entry fj of table fi: everything before is resolved
      without error, everything else is as it was. */
  ghost predicate ResolvedUpTo(before: Tables, after: Tables, segs: seq<Segment>, ex: Exports, fi: nat, fj: nat) {
    && before.Keys == after.Keys
    && forall i :: i in before ==>
      var n := Progress(i, |before[i]|, fi, fj);
      Resolvable(before[i], segs, ex, n) && after[i] == ResolvedPrefix(before[i], segs, ex, n)
  }

  // ---------------------------------------------------------------- relocations

  /** The patch one relocation entry stands for; types the loader does not know patch nothing.
      Address arithmetic is 32 bits wide. */
  function FixFor(r: Rel, value: Word, applied: nat): (f: Fix)
  {
    var a := Reduce(applied + r.offset);
    if r.kind == R_386_16 then Fix(a, 2, value)
    else if r.kind == R_386_PC16 then Fix(a, 2, Reduce(value + TWO_32 - a))
    else if r.kind == R_386_32 then Fix(a, 4, value)
    else if r.kind == R_386_PC32 then Fix(a, 4, Reduce(value + TWO_32 - a))
    else Fix(0, 0, 0)
  }

  /** Patches of the first k entries of one REL section. */
  ghost function SectionFixes(rels: seq<Rel>, syms: seq<Sym>, applied: nat, k: nat): (fs: seq<Fix>)
    requires k <= |rels| && forall i :: 0 <= i < |rels| ==> rels[i].sym < |syms|
    ensures |fs| == k
    ensures forall i :: 0 <= i < k ==> fs[i] == FixFor(rels[i], syms[rels[i].sym].value, applied)
  {
    if k == 0 then []
    else SectionFixes(rels, syms, applied, k - 1) + [FixFor(rels[k - 1], syms[rels[k - 1].sym].value, applied)]
  }

  /** Patches of section i; none unless it is a REL section whose symbols exist. */
  ghost function RelFixes(secs: seq<Section>, tables: Tables, segs: seq<Segment>, i: nat): (fs: seq<Fix>)
    requires i < |secs|
  {
    var s := secs[i];
    if s.kind == SHT_REL && SymbolsExist(s, tables) then
      SectionFixes(s.rels, tables[s.link], SectionByIndex(segs, s.info), |s.rels|)
    else []
  }

  /** Patches of all REL sections among the first n. */
  ghost function Fixes(secs: seq<Section>, tables: Tables, segs: seq<Segment>, n: nat): (fs: seq<Fix>)
    requires n <= |secs|
  {
    if n == 0 then [] else Fixes(secs, tables, segs, n - 1) + RelFixes(secs, tables, segs, n - 1)
  }

  // ---------------------------------------------------------------- the whole link

  ghost function ResolvedTables(t: Tables, segs: seq<Segment>, ex: Exports): (r: Tables)
    ensures r.Keys == t.Keys
    ensures forall i :: i in t ==> |r[i]| == |t[i]|
  {
    map i | i in t :: ResolvedPrefix(t[i], segs, ex, |t[i]|)
  }

  ghost predicate AllResolvable(t: Tables, segs: seq<Segment>, ex: Exports) {
    forall i :: i in t ==> Resolvable(t[i], segs, ex, |t[i]|)
  }

  /** All patches of an object loaded at base. */
  ghost function LinkFixes(secs: seq<Section>, t: Tables, base: nat, ex: Exports): seq<Fix>
    requires WellAligned(secs)
  {
    var segs := Segments(secs, base, |secs|);
    Fixes(secs, ResolvedTables(t, segs, ex), segs, |secs|)
  }

  /** Memory after the object is placed and patched. */
  ghost function Link(m: seq<Byte>, secs: seq<Section>, t: Tables, base: nat, ex: Exports): seq<Byte>
    requires Loadable(secs, base, |secs|, |m|)
    requires AllInside(LinkFixes(secs, t, base, ex), |m|)
  {
    ApplyAll(PlaceAll(m, secs, base, |secs|), LinkFixes(secs, t, base, ex))
  }

  // ---------------------------------------------------------------- the loader

  /** One object being loaded: its section table, its symbol tables (resolved in place), the
      memory it goes into and the module record being filled in. */
  class Loader {
    const mem: array<Byte>
    const secs: seq<Section>
    const ex: Exports
    var tables: Tables
    var segments: seq<Segment>
    var init: Word
    var uninit: Word

    constructor (memory: array<Byte>, sections: seq<Section>, symbols: Tables, exports: Exports)
      ensures mem == memory && secs == sections && tables == symbols && ex == exports
      ensures init == 0 && uninit == 0 && segments == []
    {
      mem, secs, ex, tables := memory, sections, exports, symbols;
      segments, init, uninit := [], 0, 0;
    }

    /** First pass of bl_elf_load_image: size and alignment of the image, number of segments. */
    method Measure() returns (size: Word, alignment: Word, count: nat)
      requires WellAligned(secs) && forall n :: 0 <= n <= |secs| ==> ImageSize(secs, n) < TWO_32
      ensures size == ImageSize(secs, |secs|) && alignment == MaxAlign(secs, |secs|)
      ensures count == PlacedCount(secs, |secs|)
      ensures alignment >= 1 && forall i :: 0 <= i < |secs| ==> secs[i].align <= alignment
      ensures alignment == 1 || exists i :: 0 <= i < |secs| && secs[i].align == alignment
    {
      size, alignment, count := 0, 1, 0;
      for i := 0 to |secs|
        invariant size == ImageSize(secs, i) && alignment == MaxAlign(secs, i)
        invariant count == PlacedCount(secs, i)
        invariant alignment == 1 || exists k :: 0 <= k < |secs| && secs[k].align == alignment
      {
        NextSize(secs, i);
        size := AlignUp(size, alignment) + secs[i].size;
        if secs[i].align > alignment {
          alignment := secs[i].align;
        }
        if Placed(secs[i]) {
          count := count + 1;
        }
      }
    }

    /** One loaded section copied or cleared at p. */
    method Fill(s: Section, p: nat)
      requires Placed(s) && (s.kind == SHT_PROGBITS ==> |s.bytes| == s.size) && p + s.size <= mem.Length
      modifies mem
      ensures mem[..] == Write(old(mem[..]), p, Contents(s))
    {
      if s.kind == SHT_PROGBITS {
        CopyIn(mem, p, s.bytes);
      } else if s.kind == SHT_NOBITS {
        Memset(mem, p, 0, s.size);
      }
    }

    /** Second pass of bl_elf_load_image, from the address the allocator returned. */
    method Place(base: Word)
      requires Loadable(secs, base, |secs|, mem.Length)
      modifies mem, this`segments
      ensures segments == Segments(secs, base, |secs|)
      ensures mem[..] == PlaceAll(old(mem[..]), secs, base, |secs|)
    {
      segments := [];
      var p: nat := base;
      EndMonotone(secs, base, 0, |secs|);
      for i := 0 to |secs|
        invariant EndOf(secs, base, i) <= mem.Length && p == EndOf(secs, base, i)
        invariant segments == Segments(secs, base, i)
        invariant mem[..] == PlaceAll(old(mem[..]), secs, base, i)
      {
        EndMonotone(secs, base, i + 1, |secs|);
        if Placed(secs[i]) {
          RoundUpNoWrap(p, secs[i].align);
          p := AlignUp(p, secs[i].align);
          Fill(secs[i], p);
          segments := segments + [Segment(i, p, secs[i].size)];
          p := p + secs[i].size;
        }
      }
    }

    /** bl_elf_resolve_symbol on entry j of table i, updated in place. */
    method ResolveSymbol(i: nat, j: nat) returns (status: Status)
      requires i in tables && j < |tables[i]|
      modifies this`tables, this`init, this`uninit
      ensures var (st, s) := Resolve(old(tables)[i][j], segments, ex);
        && status == st
        && tables == old(tables)[i := old(tables)[i][j := s]]
      ensures init == EntryOr(old(tables)[i][j], INITIALIZE, segments, ex, old(init))
      ensures uninit == EntryOr(old(tables)[i][j], UNINITIALIZE, segments, ex, old(uninit))
    {
      var s := tables[i][j];
      var value := s.value;
      status := Success;
      if s.typ == STT_FUNC {
        s := s.(value := Reduce(value + SectionByIndex(segments, s.shndx)));
        if s.name == INITIALIZE {
          init := s.value;
        }
        if s.name == UNINITIALIZE {
          uninit := s.value;
        }
      } else if s.typ == STT_NOTYPE || s.typ == STT_OBJECT {
        if s.named && s.shndx == SHN_UNDEF {
          if s.name !in ex.table {
            status := UnknownSymbol;
          } else {
            var e := ex.table[s.name];
            s := s.(value := Reduce(e.address + ex.imageStart));
            if e.isFunc {
              s := s.(bind := s.typ, typ := STT_FUNC);
            }
          }
        } else {
          s := s.(value := Reduce(value + SectionByIndex(segments, s.shndx)));
        }
      } else if s.typ == STT_SECTION {
        s := s.(value := Reduce(SectionByIndex(segments, s.shndx)));
      } else if s.typ == STT_FILE {
        s := s.(value := 0);
      } else {
        status := InvalidElf;
      }
      tables := tables[i := tables[i][j := s]];
    }

    /** The inner loop of bl_elf_load_symbols, over table i. */
    method LoadTable(i: nat, ghost before: seq<Sym>) returns (status: Status, ghost fj: nat)
      requires i in tables
      requires init == Entry(before, INITIALIZE, segments, ex)
      requires uninit == Entry(before, UNINITIALIZE, segments, ex)
      modifies this`tables, this`init, this`uninit
      ensures var syms := old(tables)[i];
        && fj <= |syms| && Resolvable(syms, segments, ex, fj)
        && tables == old(tables)[i := ResolvedPrefix(syms, segments, ex, fj)]
        && (status == Success ==>
              && fj == |syms|
              && init == Entry(before + syms, INITIALIZE, segments, ex)
              && uninit == Entry(before + syms, UNINITIALIZE, segments, ex))
        && (status != Success ==> fj < |syms| && Resolve(syms[fj], segments, ex).0 == status)
    {
      fj := 0;
      ghost var syms := tables[i];
      assert before + syms[..0] == before;
      assert ResolvedPrefix(syms, segments, ex, 0) == syms;
      assert tables == old(tables)[i := syms];
      for j := 0 to |tables[i]|
        invariant fj == j && j <= |syms| && i in tables && |tables[i]| == |syms|
        invariant Resolvable(syms, segments, ex, j)
        invariant tables == old(tables)[i := ResolvedPrefix(syms, segments, ex, j)]
        invariant init == Entry(before + syms[..j], INITIALIZE, segments, ex)
        invariant uninit == Entry(before + syms[..j], UNINITIALIZE, segments, ex)
      {
        PrefixStep(before, syms, j, segments, ex);
        status := ResolveSymbol(i, j);
        if status != Success {
          return;
        }
        fj := j + 1;
      }
      assert syms[..|syms|] == syms;
      status := Success;
    }

    /** One turn of the loop in bl_elf_load_symbols. */
    method LoadNext(i: nat, ghost t0: Tables) returns (status: Status, ghost fj: nat)
      requires i < |secs| && WellFormed(secs, t0) && ResolvedUpTo(t0, tables, segments, ex, i, 0)
      requires init == Entry(AllSyms(secs, t0, i), INITIALIZE, segments, ex)
      requires uninit == Entry(AllSyms(secs, t0, i), UNINITIALIZE, segments, ex)
      modifies this`tables, this`init, this`uninit
      ensures status == Success ==>
        && ResolvedUpTo(t0, tables, segments, ex, i + 1, 0)
        && init == Entry(AllSyms(secs, t0, i + 1), INITIALIZE, segments, ex)
        && uninit == Entry(AllSyms(secs, t0, i + 1), UNINITIALIZE, segments, ex)
      ensures status != Success ==>
        && ResolvedUpTo(t0, tables, segments, ex, i, fj)
        && i in t0 && fj < |t0[i]| && Resolve(t0[i][fj], segments, ex).0 == status
    {
      status, fj := Success, 0;
      if secs[i].kind == SHT_SYMTAB {
        assert tables[i] == t0[i];
        ghost var t1 := tables;
        status, fj := LoadTable(i, AllSyms(secs, t0, i));
        TableResolved(t0, t1, tables, segments, ex, i, fj);
      }
    }

    /** bl_elf_load_symbols. The ghost results say how far it got: to the end on success, to
        the symbol whose failure is returned otherwise. */
    method LoadSymbols() returns (status: Status, ghost fi: nat, ghost fj: nat)
      requires WellFormed(secs, tables) && init == 0 && uninit == 0
      modifies this`tables, this`init, this`uninit
      ensures ResolvedUpTo(old(tables), tables, segments, ex, fi, fj)
      ensures status == Success ==> fi == |secs| && fj == 0
      ensures status != Success ==>
        && fi in old(tables) && fj < |old(tables)[fi]|
        && Resolve(old(tables)[fi][fj], segments, ex).0 == status
      ensures status == Success ==>
        && init == Entry(AllSyms(secs, old(tables), |secs|), INITIALIZE, segments, ex)
        && uninit == Entry(AllSyms(secs, old(tables), |secs|), UNINITIALIZE, segments, ex)
    {
      fi, fj := 0, 0;
      ghost var t0 := tables;
      NothingResolved(t0, segments, ex);
      for i := 0 to |secs|
        invariant fi == i && fj == 0
        invariant ResolvedUpTo(t0, tables, segments, ex, i, 0)
        invariant init == Entry(AllSyms(secs, t0, i), INITIALIZE, segments, ex)
        invariant uninit == Entry(AllSyms(secs, t0, i), UNINITIALIZE, segments, ex)
      {
        status, fj := LoadNext(i, t0);
        if status != Success {
          return;
        }
        fi, fj := i + 1, 0;
      }
      status := Success;
    }

    /** The switch of bl_elf_relocate_section. */
    method PatchOne(r: Rel, value: Word, applied: nat)
      requires Inside(FixFor(r, value, applied), mem.Length)
      modifies mem
      ensures mem[..] == ApplyFix(old(mem[..]), FixFor(r, value, applied))
    {
      var a := Reduce(applied + r.offset);
      if r.kind == R_386_16 {
        AddAt(a, 2, value);
      } else if r.kind == R_386_PC16 {
        AddAt(a, 2, Reduce(value + TWO_32 - a));
      } else if r.kind == R_386_32 {
        AddAt(a, 4, value);
      } else if r.kind == R_386_PC32 {
        AddAt(a, 4, Reduce(value + TWO_32 - a));
      }
    }

    /** bl_elf_relocate_section for REL section i. */
    method RelocateSection(i: nat)
      requires i < |secs| && secs[i].kind == SHT_REL && SymbolsExist(secs[i], tables)
      requires AllInside(RelFixes(secs, tables, segments, i), mem.Length)
      modifies mem
      ensures mem[..] == ApplyAll(old(mem[..]), RelFixes(secs, tables, segments, i))
    {
      var rels, syms := secs[i].rels, tables[secs[i].link];
      var applied := SectionByIndex(segments, secs[i].info);
      ghost var all := RelFixes(secs, tables, segments, i);
      ghost var m0 := mem[..];
      for k := 0 to |rels|
        invariant all[..k] == SectionFixes(rels, syms, applied, k)
        invariant AllInside(all[..k], |m0|) && mem[..] == ApplyAll(m0, all[..k])
      {
        assert Inside(all[k], |m0|);
        PatchOne(rels[k], syms[rels[k].sym].value, applied);
        NextFix(m0, all, k);
        SectionFixesStep(rels, syms, applied, k);
      }
      assert all[..|rels|] == all;
    }

    /** `*(type *)addr += v` for an unsigned type of n bytes. */
    method AddAt(a: nat, n: nat, v: nat)
      requires a + n <= mem.Length
      modifies mem
      ensures mem[..] == ApplyFix(old(mem[..]), Fix(a, n, v))
    {
      var word := Memory.Load(mem, a, n);
      Store(mem, a, n, word + v);
    }

    /** One turn of the loop in bl_elf_relocate_symbols. */
    method RelocateNext(i: nat, ghost m0: seq<Byte>)
      requires i < |secs| && (secs[i].kind == SHT_REL ==> SymbolsExist(secs[i], tables))
      requires |m0| == mem.Length && AllInside(Fixes(secs, tables, segments, i + 1), |m0|)
      requires AllInside(Fixes(secs, tables, segments, i), |m0|)
      requires mem[..] == ApplyAll(m0, Fixes(secs, tables, segments, i))
      modifies mem
      ensures mem[..] == ApplyAll(m0, Fixes(secs, tables, segments, i + 1))
    {
      ApplyStep(m0, secs, tables, segments, i);
      if secs[i].kind == SHT_REL {
        RelocateSection(i);
      }
    }

    /** bl_elf_relocate_symbols. */
    method Relocate()
      requires forall i :: 0 <= i < |secs| && secs[i].kind == SHT_REL ==> SymbolsExist(secs[i], tables)
      requires AllInside(Fixes(secs, tables, segments, |secs|), mem.Length)
      modifies mem
      ensures mem[..] == ApplyAll(old(mem[..]), Fixes(secs, tables, segments, |secs|))
    {
      ghost var m0 := mem[..];
      for i := 0 to |secs|
        invariant AllInside(Fixes(secs, tables, segments, i), |m0|)
        invariant mem[..] == ApplyAll(m0, Fixes(secs, tables, segments, i))
      {
        FixesInside(secs, tables, segments, i + 1, |secs|, |m0|);
        RelocateNext(i, m0);
      }
    }

    /** bl_elf_load from the allocated base on: place, resolve, relocate, require an entry. */
    method Load(base: Word) returns (status: Status)
      requires WellFormed(secs, tables) && Loadable(secs, base, |secs|, mem.Length)
      requires init == 0 && uninit == 0
      requires AllInside(LinkFixes(secs, tables, base, ex), mem.Length)
      modifies this, mem
      ensures var segs := Segments(secs, base, |secs|);
        && segments == segs
        && (status == Success <==>
              && AllResolvable(old(tables), segs, ex)
              && Entry(AllSyms(secs, old(tables), |secs|), INITIALIZE, segs, ex) != 0)
        && (AllResolvable(old(tables), segs, ex) ==>
              && mem[..] == Link(old(mem[..]), secs, old(tables), base, ex)
              && init == Entry(AllSyms(secs, old(tables), |secs|), INITIALIZE, segs, ex))
        && (!AllResolvable(old(tables), segs, ex) ==>
              mem[..] == PlaceAll(old(mem[..]), secs, base, |secs|))
    {
      Place(base);
      ghost var t0 := tables;
      ghost var fi, fj;
      status, fi, fj := LoadSymbols();
      if status != Success {
        assert !Resolvable(t0[fi], segments, ex, |t0[fi]|);
        return;
      }
      FullyResolved(secs, t0, tables, segments, ex);
      Relocate();
      if init == 0 {
        status := InvalidElf;
      }
    }
  }

  lemma {:induction false} FullyResolved(secs: seq<Section>, t0: Tables, t: Tables, segs: seq<Segment>, ex: Exports)
    requires WellFormed(secs, t0) && ResolvedUpTo(t0, t, segs, ex, |secs|, 0)
    ensures t == ResolvedTables(t0, segs, ex) && AllResolvable(t0, segs, ex)
  {
  }

  lemma {:induction false} InsideParts(fs: seq<Fix>, gs: seq<Fix>, len: nat)
    requires AllInside(fs + gs, len)
    ensures AllInside(fs, len) && AllInside(gs, len)
  {
    forall i | 0 <= i < |fs|
      ensures Inside(fs[i], len)
    {
      assert (fs + gs)[i] == fs[i];
    }
    forall i | 0 <= i < |gs|
      ensures Inside(gs[i], len)
    {
      assert (fs + gs)[|fs| + i] == gs[i];
    }
  }

  /** The patches of one more section come after those of the sections before it. */
  lemma {:induction false} ApplyStep(m: seq<Byte>, secs: seq<Section>, tables: Tables, segs: seq<Segment>, i: nat)
    requires i < |secs| && AllInside(Fixes(secs, tables, segs, i + 1), |m|)
    ensures AllInside(Fixes(secs, tables, segs, i), |m|) && AllInside(RelFixes(secs, tables, segs, i), |m|)
    ensures ApplyAll(m, Fixes(secs, tables, segs, i + 1))
      == ApplyAll(ApplyAll(m, Fixes(secs, tables, segs, i)), RelFixes(secs, tables, segs, i))
  {
    InsideParts(Fixes(secs, tables, segs, i), RelFixes(secs, tables, segs, i), |m|);
    ApplyAppend(m, Fixes(secs, tables, segs, i), RelFixes(secs, tables, segs, i));
  }

  lemma {:induction false} FixesInside(secs: seq<Section>, tables: Tables, segs: seq<Segment>, m: nat, n: nat, len: nat)
    requires m <= n <= |secs| && AllInside(Fixes(secs, tables, segs, n), len)
    ensures AllInside(Fixes(secs, tables, segs, m), len)
  {
    if m < n {
      InsideParts(Fixes(secs, tables, segs, n - 1), RelFixes(secs, tables, segs, n - 1), len);
      FixesInside(secs, tables, segs, m, n - 1, len);
    }
  }

  lemma {:induction false} NextFix(m: seq<Byte>, all: seq<Fix>, k: nat)
    requires k < |all| && AllInside(all, |m|)
    ensures AllInside(all[..k], |m|) && AllInside(all[..k + 1], |m|)
    ensures ApplyAll(m, all[..k + 1]) == ApplyFix(ApplyAll(m, all[..k]), all[k])
  {
    assert all[..k + 1][..k] == all[..k];
  }

  lemma {:induction false} SectionFixesStep(rels: seq<Rel>, syms: seq<Sym>, applied: nat, k: nat)
    requires k < |rels| && forall i :: 0 <= i < |rels| ==> rels[i].sym < |syms|
    ensures var f := FixFor(rels[k], syms[rels[k].sym].value, applied);
      SectionFixes(rels, syms, applied, k + 1) == SectionFixes(rels, syms, applied, k) + [f]
  {
  }

  lemma {:induction false} NothingResolved(t: Tables, segs: seq<Segment>, ex: Exports)
    ensures ResolvedUpTo(t, t, segs, ex, 0, 0)
  {
    forall i | i in t
      ensures ResolvedPrefix(t[i], segs, ex, 0) == t[i]
    {
    }
  }

  lemma {:induction false} TableResolved(t0: Tables, t1: Tables, t2: Tables, segs: seq<Segment>, ex: Exports, i: nat,
        fj: nat)
    requires ResolvedUpTo(t0, t1, segs, ex, i, 0) && i in t0 && fj <= |t0[i]|
    requires Resolvable(t0[i], segs, ex, fj) && t2 == t1[i := ResolvedPrefix(t0[i], segs, ex, fj)]
    ensures ResolvedUpTo(t0, t2, segs, ex, i, fj)
    ensures fj == |t0[i]| ==> ResolvedUpTo(t0, t2, segs, ex, i + 1, 0)
  {
    assert t0.Keys == t2.Keys;
    forall k | k in t0
      ensures Progress(k, |t0[k]|, i, fj) == if k == i then fj else Progress(k, |t0[k]|, i, 0)
      ensures fj == |t0[i]| ==> Progress(k, |t0[k]|, i + 1, 0) == Progress(k, |t0[k]|, i, fj)
    {
    }
  }

  lemma {:induction false} PrefixStep(before: seq<Sym>, syms: seq<Sym>, j: nat, segs: seq<Segment>, ex: Exports)
    requires j < |syms|
    ensures var (st, s) := Resolve(syms[j], segs, ex);
      && ResolvedPrefix(syms, segs, ex, j)[j] == syms[j]
      && ResolvedPrefix(syms, segs, ex, j)[j := s] == ResolvedPrefix(syms, segs, ex, j + 1)
      && (st != Success ==> ResolvedPrefix(syms, segs, ex, j + 1) == ResolvedPrefix(syms, segs, ex, j))
    ensures forall name ::
      Entry(before + syms[..j + 1], name, segs, ex)
      == EntryOr(syms[j], name, segs, ex, Entry(before + syms[..j], name, segs, ex))
  {
    var all := before + syms[..j + 1];
    assert all[|all| - 1] == syms[j] && all[..|all| - 1] == before + syms[..j];
    PrefixAt(syms, segs, ex, j, j);
    if Resolve(syms[j], segs, ex).0 != Success {
      assert ResolvedPrefix(syms, segs, ex, j + 1) == ResolvedPrefix(syms, segs, ex, j);
    }
  }
}
