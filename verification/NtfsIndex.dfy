// Directory lookup in an NTFS index, boot-loader/modules/fs/ntfs/ntfs.c.

module NtfsIndex {
  import opened Wrappers

  /** A char of the sought path, or a UTF-16 unit of a stored name after the cast to char. */
  type Char = c: int | -128 <= c < 128 && c != 0 witness 1

  type Name = seq<Char>

  function Upper(c: int): int {
    if 'a' as int <= c <= 'z' as int then c - 0x20 else c
  }

  /** No character is negative, as chars above 127 are. */
  predicate Ascii(s: Name) {
    forall i :: 0 <= i < |s| ==> 0 < s[i]
  }

  /** Character i of a NUL-terminated string. */
  function CharAt(s: Name, i: nat): int
    requires i <= |s|
  {
    if i < |s| then s[i] else 0
  }

  // ---------------------------------------------------------------- order of names

  /** Case-insensitive lexicographic order, the collation of directory indices. */
  predicate Before(a: Name, b: Name) {
    b != [] && (a == [] || Upper(a[0]) < Upper(b[0]) || (Upper(a[0]) == Upper(b[0]) && Before(a[1..], b[1..])))
  }

  predicate Same(a: Name, b: Name) {
    if a == [] then b == [] else b != [] && Upper(a[0]) == Upper(b[0]) && Same(a[1..], b[1..])
  }

  /** s is a prefix of n, ignoring case. */
  predicate Prefix(s: Name, n: Name) {
    s == [] || (n != [] && Upper(s[0]) == Upper(n[0]) && Prefix(s[1..], n[1..]))
  }

  predicate ProperPrefix(s: Name, n: Name) {
    Prefix(s, n) && |s| < |n|
  }

  lemma {:induction false} Trichotomy(a: Name, b: Name)
    ensures (if Before(a, b) then 1 else 0) + (if Same(a, b) then 1 else 0) + (if Before(b, a) then 1 else 0) == 1
  {
    if a != [] && b != [] && Upper(a[0]) == Upper(b[0]) {
      Trichotomy(a[1..], b[1..]);
    }
  }

  lemma {:induction false} BeforeAtMost(a: Name, b: Name, c: Name)
    requires Before(a, b) && !Before(c, b)
    ensures Before(a, c)
  {
    if a != [] && Upper(a[0]) == Upper(b[0]) && c != [] && Upper(b[0]) == Upper(c[0]) {
      BeforeAtMost(a[1..], b[1..], c[1..]);
    }
  }

  lemma {:induction false} AtMostBefore(a: Name, b: Name, c: Name)
    requires !Before(b, a) && Before(b, c)
    ensures Before(a, c)
  {
    if a != [] && Upper(a[0]) == Upper(b[0]) && Upper(b[0]) == Upper(c[0]) {
      AtMostBefore(a[1..], b[1..], c[1..]);
    }
  }

  lemma {:induction false} SameAsPrefix(s: Name, n: Name)
    ensures Same(s, n) <==> Prefix(s, n) && |s| == |n|
    ensures ProperPrefix(s, n) ==> Before(s, n)
  {
    if s != [] && n != [] {
      SameAsPrefix(s[1..], n[1..]);
    }
  }

  // ---------------------------------------------------------------- comparison

  /** Difference at the first mismatch, or at the last stored character. */
  function Compare(n: Name, s: Name): int
    requires s != []
  {
    var d := Upper(CharAt(n, 0)) - Upper(s[0]);
    if d != 0 || |s| == 1 then d else Compare(n[1..], s[1..])
  }

  /** bl_ntfs_strcmp; the stored length is a byte that must not start at zero. */
  method StrCmp(name: Name, stored: Name) returns (d: int)
    requires 0 < |stored| < 0x100
    ensures d == Compare(name, stored)
  {
    var i: nat, length := 0, |stored|;
    while Upper(CharAt(name, i)) == Upper(stored[i])
      invariant length == |stored| - i && 0 < length && i <= |name|
      invariant Compare(name, stored) == Compare(name[i..], stored[i..])
      decreases length
    {
      length := length - 1;
      if length == 0 {
        break;
      }
      assert name[i..][1..] == name[i + 1..] && stored[i..][1..] == stored[i + 1..];
      i := i + 1;
    }
    d := Upper(CharAt(name, i)) - Upper(stored[i]);
  }

  /** The comparison answers zero exactly for stored names that are a prefix of the sought
      one, and otherwise has the sign of the true order. */
  lemma {:induction false} CompareMeaning(n: Name, s: Name)
    requires s != [] && Ascii(s)
    ensures Compare(n, s) == 0 <==> Prefix(s, n)
    ensures Compare(n, s) < 0 ==> Before(n, s)
    ensures Compare(n, s) > 0 ==> Before(s, n)
  {
    if |s| > 1 && n != [] && Upper(n[0]) == Upper(s[0]) {
      CompareMeaning(n[1..], s[1..]);
    } else if n != [] {
      assert |s| == 1 ==> s[1..] == [];
    }
  }

  /** Two characters that differ in ASCII case at most. */
  predicate Alike(c: int, d: int) {
    || c == d
    || ('a' as int <= c <= 'z' as int && d == c - 0x20)
    || ('a' as int <= d <= 'z' as int && c == d - 0x20)
  }

  ghost predicate AlikeUpTo(a: Name, b: Name, i: nat)
    requires i <= |a| && i <= |b|
  {
    forall j :: 0 <= j < i ==> Alike(a[j], b[j])
  }

  lemma {:induction false} AlikeIsUpper(a: Name, b: Name, i: nat)
    requires 0 < i <= |a| && i <= |b|
    ensures AlikeUpTo(a, b, i) <==> Upper(a[0]) == Upper(b[0]) && AlikeUpTo(a[1..], b[1..], i - 1)
  {
    if AlikeUpTo(a, b, i) {
      forall j | 0 <= j < i - 1
        ensures Alike(a[1..][j], b[1..][j])
      {
        assert Alike(a[j + 1], b[j + 1]);
      }
      assert Alike(a[0], b[0]);
    }
    if Upper(a[0]) == Upper(b[0]) && AlikeUpTo(a[1..], b[1..], i - 1) {
      forall j | 0 <= j < i
        ensures Alike(a[j], b[j])
      {
        assert j > 0 ==> Alike(a[1..][j - 1], b[1..][j - 1]);
      }
    }
  }

  /** Names are the same, and one is a prefix of the other, when their characters differ in case only. */
  lemma {:induction false} CaseIgnored(s: Name, n: Name)
    ensures Same(s, n) <==> |s| == |n| && AlikeUpTo(s, n, |s|)
    ensures Prefix(s, n) <==> |s| <= |n| && AlikeUpTo(s, n, |s|)
  {
    if s != [] && n != [] {
      CaseIgnored(s[1..], n[1..]);
      if |s| <= |n| {
        AlikeIsUpper(s, n, |s|);
      }
    }
  }

  /** The order is that of the first characters that are not alike, letters taken as capitals; a name
      comes behind its prefixes. */
  lemma {:induction false} OrderMeaning(a: Name, b: Name, i: nat)
    requires i <= |a| && i <= |b| && AlikeUpTo(a, b, i)
    requires i < |a| && i < |b| ==> !Alike(a[i], b[i])
    ensures i == |a| || i == |b| ==> (Before(a, b) <==> i < |b|)
    ensures i < |a| && i < |b| ==>
      var x := if 'a' as int <= a[i] <= 'z' as int then a[i] - 0x20 else a[i];
      var y := if 'a' as int <= b[i] <= 'z' as int then b[i] - 0x20 else b[i];
      (Before(a, b) <==> x < y)
    decreases i
  {
    if i > 0 {
      AlikeIsUpper(a, b, i);
      OrderMeaning(a[1..], b[1..], i - 1);
    }
  }

  /** The comparison answers with the difference of the first two characters that are not alike, or of
      those at the last stored one, letters taken as capitals and the sought name ended by a NUL. */
  lemma {:induction false} CompareDifference(n: Name, s: Name, i: nat)
    requires i < |s| && i <= |n| && AlikeUpTo(n, s, i)
    requires i < |s| - 1 ==> !Alike(CharAt(n, i), s[i])
    ensures var c: int := if i < |n| then n[i] else 0;
      var x := if 'a' as int <= c <= 'z' as int then c - 0x20 else c;
      var y := if 'a' as int <= s[i] <= 'z' as int then s[i] - 0x20 else s[i];
      Compare(n, s) == x - y
    decreases i
  {
    if i > 0 {
      AlikeIsUpper(n, s, i);
      CompareDifference(n[1..], s[1..], i - 1);
    }
  }

  function Sign(d: int): int {
    if d < 0 then -1 else if d == 0 then 0 else 1
  }

  function TrueSign(n: Name, s: Name): int {
    if Before(n, s) then -1 else if Same(s, n) then 0 else 1
  }

  /** On ASCII names the sign is the true order's if and only if the stored name is not a proper prefix. */
  lemma {:induction false} CompareSign(n: Name, s: Name)
    requires s != [] && Ascii(s)
    ensures Sign(Compare(n, s)) == TrueSign(n, s) <==> !ProperPrefix(s, n)
  {
    CompareMeaning(n, s);
    SameAsPrefix(s, n);
    Trichotomy(n, s);
    Trichotomy(s, n);
    PrefixIsShorter(s, n);
  }

  lemma {:induction false} PrefixIsShorter(s: Name, n: Name)
    ensures Prefix(s, n) ==> |s| <= |n|
  {
    if s != [] && n != [] {
      PrefixIsShorter(s[1..], n[1..]);
    }
  }

  // ---------------------------------------------------------------- the index

  datatype File = File(name: Name, record: nat, directory: bool)

  /** An index entry as it lies in a node: its two flags, its child's VCN and its file. */
  datatype RawEntry = RawEntry(parent: bool, last: bool, vcn: nat, file: File)

  /** Reading the child node at a VCN; None when the read or the node's magic fails. */
  type Disk = nat -> Option<seq<RawEntry>>

  /** The entries of a node from one entry on, with everything below them. */
  datatype Index = End(child: Child) | Entry(child: Child, file: File, next: Index)
  datatype Child = Leaf | Unreadable | Node(root: Index)

  /** The tree that hangs off entry k of a node. */
  ghost predicate Represents(disk: Disk, node: seq<RawEntry>, k: nat, t: Index)
    decreases t
  {
    && k < |node|
    && (node[k].last <==> t.End?)
    && (if node[k].parent then ChildAt(disk, node[k].vcn, t.child) else t.child == Leaf)
    && (t.Entry? ==> t.file == node[k].file && Represents(disk, node, k + 1, t.next))
  }

  ghost predicate ChildAt(disk: Disk, vcn: nat, c: Child)
    decreases c
  {
    match disk(vcn)
    case None => c == Unreadable
    case Some(node) => c.Node? && Represents(disk, node, 0, c.root)
  }

  /** Everything stored, in order. */
  function Listing(t: Index): seq<File>
    decreases t
  {
    match t
    case End(c) => Below(c)
    case Entry(c, f, next) => Below(c) + [f] + Listing(next)
  }

  function Below(c: Child): seq<File>
    decreases c
  {
    if c.Node? then Listing(c.root) else []
  }

  predicate Readable(t: Index)
    decreases t
  {
    ReadableChild(t.child) && (t.Entry? ==> Readable(t.next))
  }

  predicate ReadableChild(c: Child)
    decreases c
  {
    match c
    case Leaf => true
    case Unreadable => false
    case Node(root) => Readable(root)
  }

  /** Names are not empty, fit their length byte and hold ASCII characters. */
  ghost predicate Named(l: seq<File>) {
    forall i :: 0 <= i < |l| ==> 0 < |l[i].name| < 0x100 && Ascii(l[i].name)
  }

  ghost predicate Sorted(l: seq<File>) {
    forall i, j :: 0 <= i < j < |l| ==> !Before(l[j].name, l[i].name)
  }

  // ---------------------------------------------------------------- the search

  /** Where the descend-and-scan loop stops. */
  ghost function Search(t: Index, name: Name): Option<File>
    requires Named(Listing(t))
    decreases t
  {
    match t
    case End(c) => Descend(c, name)
    case Entry(c, f, next) =>
      NamedParts(Below(c), f, Listing(next));
      var d := Compare(name, f.name);
      if c != Leaf && d < 0 then Descend(c, name)
      else if d == 0 then Some(f)
      else Search(next, name)
  }

  ghost function Descend(c: Child, name: Name): Option<File>
    requires Named(Below(c))
    decreases c
  {
    if c.Node? then Search(c.root, name) else None
  }

  lemma {:induction false} NamedParts(a: seq<File>, f: File, b: seq<File>)
    requires Named(a + [f] + b)
    ensures Named(a) && Named(b) && 0 < |f.name| < 0x100 && Ascii(f.name)
  {
    var l := a + [f] + b;
    assert l[|a|] == f;
    assert forall i :: 0 <= i < |a| ==> a[i] == l[i];
    assert forall i :: 0 <= i < |b| ==> b[i] == l[|a| + 1 + i];
  }

  datatype Lookup = Found(file: File) | FileNotFound | InvalidFileType

  /** bl_ntfs_iterate_directory_callback up to the read of the found file's record. The index
      is finite: a tree t hangs off its root node. */
  method IterateDirectory(disk: Disk, isDir: bool, root: seq<RawEntry>, name: Name, directory: bool, ghost t: Index)
    returns (r: Lookup)
    requires Represents(disk, root, 0, t) && Named(Listing(t))
    ensures !isDir ==> r == InvalidFileType
    ensures isDir ==> (r == FileNotFound <==> Search(t, name) == None)
    ensures isDir ==> (r == InvalidFileType <==>
                         exists f :: Search(t, name) == Some(f) && directory && !f.directory)
    ensures isDir ==> forall f :: r == Found(f) <==> Search(t, name) == Some(f) && (directory ==> f.directory)
  {
    if !isDir {
      return InvalidFileType;
    }
    var node, entry: nat := root, 0;
    var hit: Option<File> := None;
    ghost var rest := t;
    while true
      invariant Represents(disk, node, entry, rest) && Named(Listing(rest))
      invariant Search(t, name) == Search(rest, name)
      decreases rest
    {
      var e := node[entry];
      ghost var here := rest;
      if here.Entry? {
        NamedParts(Below(here.child), here.file, Listing(here.next));
      }
      assert Named(Below(here.child));
      if e.parent {
        if e.last {
          var child := disk(e.vcn);
          if child == None {
            break;
          }
          node, entry, rest := child.value, 0, rest.child.root;
          continue;
        } else {
          var res := StrCmp(name, e.file.name);
          if res < 0 {
            var child := disk(e.vcn);
            if child == None {
              break;
            }
            node, entry, rest := child.value, 0, rest.child.root;
            continue;
          } else if res == 0 {
            hit := Some(e.file);
            break;
          }
        }
      }
      if e.last {
        break;
      }
      var res := StrCmp(name, e.file.name);
      if res == 0 {
        hit := Some(e.file);
        break;
      }
      entry, rest := entry + 1, rest.next;
    }
    assert hit == Search(t, name);
    match hit
    case None => r := FileNotFound;
    case Some(f) => r := if directory && !f.directory then InvalidFileType else Found(f);
  }

  // ---------------------------------------------------------------- agreement

  ghost predicate Contains(l: seq<File>, name: Name) {
    exists i :: 0 <= i < |l| && Same(l[i].name, name)
  }

  ghost predicate ContainsProperPrefix(l: seq<File>, name: Name) {
    exists i :: 0 <= i < |l| && ProperPrefix(l[i].name, name)
  }

  lemma {:induction false} SortedParts(a: seq<File>, f: File, b: seq<File>)
    requires Sorted(a + [f] + b)
    ensures Sorted(a) && Sorted(b)
    ensures forall i :: 0 <= i < |a| ==> !Before(f.name, a[i].name)
    ensures forall i :: 0 <= i < |b| ==> !Before(b[i].name, f.name)
  {
    var l := a + [f] + b;
    assert l[|a|] == f;
    assert forall i :: 0 <= i < |a| ==> a[i] == l[i];
    assert forall i :: 0 <= i < |b| ==> b[i] == l[|a| + 1 + i];
  }

  lemma {:induction false} ContainsParts(a: seq<File>, f: File, b: seq<File>, name: Name)
    ensures Contains(a + [f] + b, name) <==> Contains(a, name) || Same(f.name, name) || Contains(b, name)
  {
    var l := a + [f] + b;
    assert l[|a|] == f;
    if Contains(a, name) {
      var i :| 0 <= i < |a| && Same(a[i].name, name);
      assert l[i] == a[i];
    }
    if Contains(b, name) {
      var i :| 0 <= i < |b| && Same(b[i].name, name);
      assert l[|a| + 1 + i] == b[i];
    }
    if Contains(l, name) {
      var i :| 0 <= i < |l| && Same(l[i].name, name);
      assert i < |a| ==> l[i] == a[i];
      assert i > |a| ==> l[i] == b[i - |a| - 1];
    }
  }

  /** Nothing at or behind an entry greater than the name equals the name. */
  lemma {:induction false} NoneBehind(f: File, b: seq<File>, name: Name)
    requires Before(name, f.name) && forall i :: 0 <= i < |b| ==> !Before(b[i].name, f.name)
    ensures !Contains(b, name) && !Same(f.name, name)
  {
    forall i | 0 <= i < |b|
      ensures !Same(b[i].name, name)
    {
      BeforeAtMost(name, f.name, b[i].name);
      Trichotomy(b[i].name, name);
    }
    Trichotomy(f.name, name);
  }

  /** Nothing at or before an entry less than the name equals the name. */
  lemma {:induction false} NoneAhead(a: seq<File>, f: File, name: Name)
    requires Before(f.name, name) && forall i :: 0 <= i < |a| ==> !Before(f.name, a[i].name)
    ensures !Contains(a, name) && !Same(f.name, name)
  {
    forall i | 0 <= i < |a|
      ensures !Same(a[i].name, name)
    {
      AtMostBefore(a[i].name, f.name, name);
      Trichotomy(a[i].name, name);
    }
    Trichotomy(f.name, name);
  }

  /** On any index, sorted or not and readable or not, the search stops only at a stored entry whose name
      is a prefix of the sought one. */
  lemma {:induction false} HitIsStored(t: Index, name: Name)
    requires Named(Listing(t))
    ensures var hit := Search(t, name);
      hit.Some? ==> hit.value in Listing(t) && Prefix(hit.value.name, name)
    decreases t
  {
    if t.Entry? {
      var a, f, b := Below(t.child), t.file, Listing(t.next);
      NamedParts(a, f, b);
      CompareMeaning(name, f.name);
      assert f in a + [f] + b;
      if t.child.Node? && Compare(name, f.name) < 0 {
        assert Named(Below(t.child));
        HitIsStored(t.child.root, name);
      } else {
        HitIsStored(t.next, name);
      }
    } else if t.child.Node? {
      assert Listing(t) == Listing(t.child.root);
      HitIsStored(t.child.root, name);
    }
  }

  /** On every sorted index, with no restriction on the name: the search stops only at a
      stored entry whose name is a prefix of the sought one, and when it stops nowhere no
      stored name equals the sought one. */
  lemma {:induction false} SearchIsSound(t: Index, name: Name)
    requires Named(Listing(t)) && Sorted(Listing(t)) && Readable(t)
    ensures var hit := Search(t, name);
      if hit.Some? then hit.value in Listing(t) && Prefix(hit.value.name, name) else !Contains(Listing(t), name)
    decreases t
  {
    if t.Entry? {
      var a, f, b := Below(t.child), t.file, Listing(t.next);
      NamedParts(a, f, b);
      SortedParts(a, f, b);
      CompareMeaning(name, f.name);
      ContainsParts(a, f, b, name);
      var d := Compare(name, f.name);
      if t.child != Leaf && d < 0 {
        SearchIsSound(t.child.root, name);
        NoneBehind(f, b, name);
      } else if d != 0 {
        SearchIsSound(t.next, name);
        if d > 0 {
          NoneAhead(a, f, name);
        } else {
          Trichotomy(f.name, name);
        }
      }
    } else if t.child.Node? {
      SearchIsSound(t.child.root, name);
    }
  }

  /** The answer is what a look through the whole listing would give. */
  ghost predicate Right(t: Index, name: Name)
    requires Named(Listing(t))
  {
    var hit := Search(t, name);
    if hit.Some? then hit.value in Listing(t) && Same(hit.value.name, name) else !Contains(Listing(t), name)
  }

  lemma {:induction false} SearchIsRight(t: Index, name: Name)
    requires Named(Listing(t)) && Sorted(Listing(t)) && Readable(t)
    requires !ContainsProperPrefix(Listing(t), name)
    ensures Right(t, name)
    ensures Search(t, name).Some? <==> Contains(Listing(t), name)
  {
    SearchIsSound(t, name);
    var hit := Search(t, name);
    if hit.Some? {
      var i :| 0 <= i < |Listing(t)| && Listing(t)[i] == hit.value;
      SameAsPrefix(hit.value.name, name);
      PrefixIsShorter(hit.value.name, name);
    }
  }

  /** One leaf node holding all the files. */
  function Flat(l: seq<File>): (t: Index)
    ensures Readable(t)
  {
    if l == [] then End(Leaf) else Entry(Leaf, l[0], Flat(l[1..]))
  }

  lemma {:induction false} FlatListing(l: seq<File>)
    ensures Listing(Flat(l)) == l
  {
    if l != [] {
      FlatListing(l[1..]);
      assert [l[0]] + l[1..] == l;
    }
  }

  /** In a single node the first stored prefix of the name wins. */
  lemma {:induction false} FlatSearch(l: seq<File>, name: Name, i: nat)
    requires Named(l) && i < |l| && Prefix(l[i].name, name)
    ensures Named(Listing(Flat(l)))
    ensures exists j :: 0 <= j <= i && Search(Flat(l), name) == Some(l[j])
    decreases i
  {
    FlatListing(l);
    CompareMeaning(name, l[0].name);
    if Compare(name, l[0].name) == 0 {
      assert Search(Flat(l), name) == Some(l[0]);
    } else {
      FlatSearch(l[1..], name, i - 1);
      var j :| 0 <= j <= i - 1 && Search(Flat(l[1..]), name) == Some(l[1..][j]);
      assert Search(Flat(l), name) == Some(l[j + 1]);
    }
  }

  /** A stored proper prefix hides the name in the single-node index. */
  lemma {:induction false} FlatGoesWrong(l: seq<File>, name: Name)
    requires Named(l) && Sorted(l) && ContainsProperPrefix(l, name)
    ensures Named(Listing(Flat(l))) && !Right(Flat(l), name)
  {
    FlatListing(l);
    var i :| 0 <= i < |l| && ProperPrefix(l[i].name, name);
    FlatSearch(l, name, i);
    var j :| 0 <= j <= i && Search(Flat(l), name) == Some(l[j]);
    SameAsPrefix(l[i].name, name);
    Trichotomy(l[i].name, l[j].name);
    if Same(l[j].name, name) {
      SameBefore(l[i].name, name, l[j].name);
    }
  }

  lemma {:induction false} SameBefore(a: Name, b: Name, c: Name)
    requires Before(a, b) && Same(c, b)
    ensures Before(a, c)
  {
    Trichotomy(c, b);
    BeforeAtMost(a, b, c);
  }

  /** For a sorted listing: every index tree that stores it is searched rightly for the name
      if and only if no stored name is a proper prefix of the sought one. */
  lemma {:induction false} SearchRightExactly(l: seq<File>, name: Name)
    requires Named(l) && Sorted(l)
    ensures (forall t: Index :: Readable(t) && Listing(t) == l ==> Right(t, name)) <==> !ContainsProperPrefix(l, name)
  {
    if ContainsProperPrefix(l, name) {
      FlatListing(l);
      FlatGoesWrong(l, name);
      assert Readable(Flat(l)) && !Right(Flat(l), name);
    } else {
      forall t: Index | Readable(t) && Listing(t) == l
        ensures Right(t, name)
      {
        SearchIsRight(t, name);
      }
    }
  }
}
