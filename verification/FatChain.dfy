// Byte-range reads of a storage device (boot-loader/core/storage/storage.c) and reads along a
// FAT cluster chain (boot-loader/modules/fs/fat/fat.c).

module FatChain {
  import opened Bits
  import opened Division
  import opened Memory
  import opened Wrappers

  const SECTOR: nat := 512

  datatype Status = Success | FileNotFound | DeviceError

  // ---------------------------------------------------------------- the storage device

  /** The sectors that cover bytes [offset, offset + size) exist. */
  predicate Readable(disk: seq<Byte>, lba: nat, size: nat, offset: nat) {
    SECTOR * lba + RoundUp(offset + size, SECTOR) <= |disk|
  }

  /** The controller: reads whole sectors, or fails. */
  method ReadSectors(disk: seq<Byte>, raw: array<Byte>, lba: nat, count: nat) returns (ok: bool)
    requires raw.Length == SECTOR * count
    modifies raw
    ensures ok <==> SECTOR * (lba + count) <= |disk|
    ensures ok ==> raw[..] == disk[SECTOR * lba..SECTOR * (lba + count)]
  {
    ok := SECTOR * (lba + count) <= |disk|;
    if ok {
      CopyIn(raw, 0, disk[SECTOR * lba..SECTOR * (lba + count)]);
    }
  }

  /** bl_storage_device_read, into the buffer at `at`. */
  method StorageRead(disk: seq<Byte>, buf: array<Byte>, at: nat, lba: nat, size: nat, offset: nat)
    returns (status: Status)
    requires at + size <= buf.Length && offset + size + SECTOR <= TWO_32
    modifies buf
    ensures status == if 512 * lba + 512 * ((offset + size + 511) / 512) <= |disk| then Success else DeviceError
    ensures status == Success ==>
      forall i :: at <= i < at + size ==> buf[i] == disk[SECTOR * lba + offset + (i - at)]
    ensures forall i :: 0 <= i < buf.Length && !(at <= i < at + size) ==> buf[i] == old(buf[i])
    ensures status != Success ==> buf[..] == old(buf[..])
  {
    SectorMultiple(offset + size);
    SectorsCover(offset + size);
    var sectorsSize := AlignUp(offset + size, SECTOR);
    var raw := new Byte[sectorsSize];
    var ok := ReadSectors(disk, raw, lba, sectorsSize / SECTOR);
    if !ok {
      return DeviceError;
    }
    ghost var before := buf[..];
    var wanted := raw[offset..offset + size];
    assert forall i :: 0 <= i < size ==> wanted[i] == raw[..][offset + i] == disk[SECTOR * lba + offset + i];
    CopyIn(buf, at, wanted);
    assert forall i :: 0 <= i < buf.Length ==> buf[i] == buf[..][i];
    status := Success;
  }

  lemma {:induction false} SectorMultiple(n: nat)
    requires n + SECTOR <= TWO_32
    ensures AlignUp(n, SECTOR) == RoundUp(n, SECTOR) >= n
    ensures SECTOR * (RoundUp(n, SECTOR) / SECTOR) == RoundUp(n, SECTOR)
  {
    assert IsPow2(8);
    assert IsPow2(64);
    AlignUpIsRoundUp(n, SECTOR);
    RoundUpSpec(n, SECTOR);
  }

  lemma {:induction false} SectorsCover(n: nat)
    ensures RoundUp(n, SECTOR) == 512 * ((n + 511) / 512)
  {
    RoundUpByMod(n, SECTOR);
  }

  // ---------------------------------------------------------------- the chain

  /** A volume: where its data region starts, sectors per cluster, the entries of the FAT
      (0 when the FAT cannot be read) and the end-of-chain mark. */
  datatype Volume = Volume(dataLba: nat, spc: nat, next: nat -> nat, eof: nat)

  ghost predicate Valid(v: Volume) {
    0 < v.spc < 0x100
  }

  function ClusterSize(v: Volume): nat {
    SECTOR * v.spc
  }

  /** bl_fat_entry_to_data_sector, in 32 bits. */
  function DataSector(v: Volume, cluster: nat): nat {
    (v.dataLba + (cluster - 2) * v.spc) % TWO_32
  }

  /** Address of a cluster's first byte. */
  function Start(v: Volume, cluster: nat): nat {
    SECTOR * DataSector(v, cluster)
  }

  /** Cluster number k of the chain; the first one is taken as it is. */
  function Nth(v: Volume, first: nat, k: nat): Option<nat> {
    if k == 0 then Some(first)
    else
      match Nth(v, first, k - 1)
      case None => None
      case Some(c) => if v.next(c) == 0 || v.next(c) == v.eof then None else Some(v.next(c))
  }

  /** The data region: cluster 2 begins it, and clusters follow one another without a gap, as long as
      sector numbers do not wrap. */
  lemma {:induction false} DataRegion(v: Volume, cluster: nat)
    requires cluster >= 2 && v.dataLba + (cluster - 1) * v.spc < TWO_32
    ensures Start(v, 2) == 512 * v.dataLba
    ensures Start(v, cluster + 1) == Start(v, cluster) + ClusterSize(v) && ClusterSize(v) == 512 * v.spc
  {
    assert (cluster - 1) * v.spc == (cluster - 2) * v.spc + v.spc;
    assert v.spc == 0 || (cluster - 2) * v.spc >= 0;
    assert (cluster + 1 - 2) * v.spc == (cluster - 1) * v.spc;
  }

  /** `chain` is what the FAT spells out: each entry holds the next cluster's number, and the last holds 0,
      as an unreadable one does, or the end-of-chain mark. */
  ghost predicate Spells(v: Volume, chain: seq<nat>) {
    && chain != []
    && (forall k :: 0 < k < |chain| ==> chain[k] != 0 && chain[k] != v.eof && v.next(chain[k - 1]) == chain[k])
    && (v.next(chain[|chain| - 1]) == 0 || v.next(chain[|chain| - 1]) == v.eof)
  }

  /** Then cluster number k of the file is the k-th of them. */
  lemma {:induction false} ChainMeaning(v: Volume, chain: seq<nat>, k: nat)
    requires Spells(v, chain)
    ensures Nth(v, chain[0], k) == if k < |chain| then Some(chain[k]) else None
  {
    if k > 0 {
      ChainMeaning(v, chain, k - 1);
    }
  }

  lemma {:induction false} ChainEnds(v: Volume, first: nat, k: nat, n: nat)
    requires k <= n && Nth(v, first, k) == None
    ensures Nth(v, first, n) == None
  {
    if k < n {
      ChainEnds(v, first, k, n - 1);
    }
  }

  /** Address of byte pos counted from the start of cluster number k: the true address. */
  ghost function Address(v: Volume, first: nat, k: nat, pos: nat): Option<nat>
    requires Valid(v)
    decreases pos
  {
    if pos < ClusterSize(v) then
      match Nth(v, first, k)
      case None => None
      case Some(c) => Some(Start(v, c) + pos)
    else Address(v, first, k + 1, pos - ClusterSize(v))
  }

  /** The address the chain read takes byte i from, when it starts in cluster number k and
      reads every cluster from offset o on. */
  ghost function ReadAddress(v: Volume, first: nat, k: nat, o: nat, i: nat): Option<nat>
    requires Valid(v)
    decreases i
  {
    if i < ClusterSize(v) then
      match Nth(v, first, k)
      case None => None
      case Some(c) => Some(Start(v, c) + o + i)
    else ReadAddress(v, first, k + 1, o, i - ClusterSize(v))
  }

  /** How a chain read of the given size ends that stands at cluster number k. */
  ghost function ReadStatus(v: Volume, disk: seq<Byte>, first: nat, k: nat, o: nat, size: nat): Status
    requires Valid(v)
    decreases size
  {
    match Nth(v, first, k)
    case None => FileNotFound
    case Some(c) =>
      if !Readable(disk, DataSector(v, c), Min(size, ClusterSize(v)), o) then DeviceError
      else if size <= ClusterSize(v) then Success
      else ReadStatus(v, disk, first, k + 1, o, size - ClusterSize(v))
  }

  /** Piece j of a read has its cluster, and the disk the sectors of it that the piece covers. `left` is
      what is left to read from that piece on. */
  ghost predicate PieceExists(v: Volume, disk: seq<Byte>, first: nat, j: nat, o: nat, left: int)
    requires Valid(v)
  {
    && left >= 0 && Nth(v, first, j).Some?
    && var sectors := (o + (if left < ClusterSize(v) then left else ClusterSize(v)) + 511) / 512;
    512 * (DataSector(v, Nth(v, first, j).value) + sectors) <= |disk|
  }

  lemma {:induction false} FirstPiece(v: Volume, disk: seq<Byte>, first: nat, k: nat, o: nat, size: nat)
    requires Valid(v)
    ensures ReadStatus(v, disk, first, k, o, size) ==
      if Nth(v, first, k) == None then FileNotFound
      else if !PieceExists(v, disk, first, k, o, size) then DeviceError
      else if size <= ClusterSize(v) then Success
      else ReadStatus(v, disk, first, k + 1, o, size - ClusterSize(v))
  {
    SectorsCover(o + Min(size, ClusterSize(v)));
  }

  /** The first j pieces of a read exist. */
  ghost predicate PiecesExist(v: Volume, disk: seq<Byte>, first: nat, k: nat, o: nat, size: int, j: nat)
    requires Valid(v)
  {
    forall i :: 0 <= i < j ==> PieceExists(v, disk, first, k + i, o, size - i * ClusterSize(v))
  }

  lemma {:induction false} LaterPieces(v: Volume, disk: seq<Byte>, first: nat, k: nat, o: nat, size: nat, j: nat)
    requires Valid(v) && j > 0 && PiecesExist(v, disk, first, k, o, size, j)
    ensures PieceExists(v, disk, first, k, o, size)
    ensures PiecesExist(v, disk, first, k + 1, o, size - ClusterSize(v), j - 1)
  {
    var n := ClusterSize(v);
    assert PieceExists(v, disk, first, k + 0, o, size - 0 * n);
    forall i | 0 <= i < j - 1
      ensures PieceExists(v, disk, first, k + 1 + i, o, size - n - i * n)
    {
      Products(i + 1, n);
      assert PieceExists(v, disk, first, k + (i + 1), o, size - (i + 1) * n);
    }
  }

  /** How a read ends is decided by the first piece that is missing: FILE_NOT_FOUND when the chain has no
      such cluster, a device error when the disk has not the sectors. Without one it succeeds. */
  lemma {:induction false} PieceDecides(v: Volume, disk: seq<Byte>, first: nat, k: nat, o: nat, size: nat, j: nat)
    requires Valid(v) && PiecesExist(v, disk, first, k, o, size, j) && (j > 0 ==> j * ClusterSize(v) < size)
    ensures var status := ReadStatus(v, disk, first, k, o, size);
      var found := PieceExists(v, disk, first, k + j, o, size - j * ClusterSize(v));
      && (Nth(v, first, k + j) == None ==> status == FileNotFound)
      && (Nth(v, first, k + j) != None && !found ==> status == DeviceError)
      && (found && size <= (j + 1) * ClusterSize(v) ==> status == Success)
    decreases j
  {
    FirstPiece(v, disk, first, k, o, size);
    if j > 0 {
      LaterPieces(v, disk, first, k, o, size, j);
      Products(j, ClusterSize(v));
      PieceDecides(v, disk, first, k + 1, o, size - ClusterSize(v), j - 1);
    }
  }

  lemma {:induction false} Products(j: nat, n: nat)
    requires j > 0
    ensures j * n == (j - 1) * n + n && (j + 1) * n == j * n + n && j * n >= n
  {
    assert (j - 1) * n >= 0;
  }

  /** What lies at the n addresses from i on that a read takes its bytes from. */
  ghost predicate Filled(v: Volume, disk: seq<Byte>, first: nat, k: nat, o: nat, bytes: seq<Byte>) {
    && Valid(v)
    && forall i :: 0 <= i < |bytes| ==>
      var a := ReadAddress(v, first, k, o, i);
      a.Some? && a.value < |disk| && bytes[i] == disk[a.value]
  }

  /** bl_fat_read_cluster_chain into a buffer of its own. */
  method ReadChain(v: Volume, disk: seq<Byte>, first: nat, buf: array<Byte>, size: nat, offset: nat)
    returns (status: Status)
    requires Valid(v) && size <= buf.Length
    modifies buf
    ensures var k, o := Whole(offset, ClusterSize(v)), Part(offset, ClusterSize(v));
      && status == ReadStatus(v, disk, first, k, o, size)
      && (status == Success ==> Filled(v, disk, first, k, o, buf[..size]))
    ensures buf[size..] == old(buf[size..])
  {
    var k, o := Split(offset, ClusterSize(v));
    var entry := first;
    for i := 0 to k
      invariant Nth(v, first, i) == Some(entry)
      invariant buf[..] == old(buf[..])
    {
      entry := v.next(entry);
      if entry == 0 || entry == v.eof {
        ChainEnds(v, first, i + 1, k);
        return FileNotFound;
      }
    }
    status := ReadPieces(v, disk, first, entry, buf, size, k, o);
  }

  /** n bytes from cluster k on bring the read to cluster j. */
  ghost predicate Reaches(v: Volume, first: nat, k: nat, o: nat, n: nat, j: nat)
    requires Valid(v)
  {
    forall i: nat :: ReadAddress(v, first, k, o, n + i) == ReadAddress(v, first, j, o, i)
  }

  lemma {:induction false} ReachesNext(v: Volume, first: nat, k: nat, o: nat, n: nat, j: nat)
    requires Valid(v) && Reaches(v, first, k, o, n, j)
    ensures Reaches(v, first, k, o, n + ClusterSize(v), j + 1)
  {
    var j' := j + 1;
    forall i: nat
      ensures ReadAddress(v, first, k, o, n + ClusterSize(v) + i) == ReadAddress(v, first, j', o, i)
    {
      assert ReadAddress(v, first, k, o, n + (ClusterSize(v) + i)) == ReadAddress(v, first, j, o, ClusterSize(v) + i);
    }
  }

  lemma {:induction false} FilledMore(v: Volume, disk: seq<Byte>, first: nat, k: nat, o: nat, done: seq<Byte>,
        j: nat, more: seq<Byte>)
    requires Filled(v, disk, first, k, o, done) && Reaches(v, first, k, o, |done|, j)
    requires Filled(v, disk, first, j, o, more)
    ensures Filled(v, disk, first, k, o, done + more)
  {
    forall i | |done| <= i < |done| + |more|
      ensures ReadAddress(v, first, k, o, i) == ReadAddress(v, first, j, o, i - |done|)
    {
      assert i == |done| + (i - |done|);
    }
  }

  lemma {:induction false} PieceFilled(v: Volume, disk: seq<Byte>, first: nat, j: nat, c: nat, o: nat, bytes: seq<Byte>)
    requires Valid(v) && Nth(v, first, j) == Some(c) && |bytes| <= ClusterSize(v)
    requires Start(v, c) + o + |bytes| <= |disk|
    requires forall i :: 0 <= i < |bytes| ==> bytes[i] == disk[Start(v, c) + o + i]
    ensures Filled(v, disk, first, j, o, bytes)
  {
  }

  lemma {:induction false} PrefixGrew(before: seq<Byte>, after: seq<Byte>, at: nat, n: nat)
    requires |before| == |after| && at + n <= |after|
    requires forall i :: 0 <= i < |after| && !(at <= i < at + n) ==> after[i] == before[i]
    ensures after[..at + n] == before[..at] + after[at..at + n]
    ensures forall t :: at + n <= t <= |after| ==> after[t..] == before[t..]
  {
  }

  /** One round of the read loop: `size` bytes of cluster number j go behind the bytes read. */
  method ReadPiece(v: Volume, disk: seq<Byte>, first: nat, entry: nat, buf: array<Byte>, at: nat, size: nat,
                   ghost k: nat, ghost j: nat, o: nat) returns (status: Status)
    requires Valid(v) && at + size <= buf.Length && Nth(v, first, j) == Some(entry)
    requires size <= ClusterSize(v) && o < ClusterSize(v)
    requires Reaches(v, first, k, o, at, j) && Filled(v, disk, first, k, o, buf[..at])
    modifies buf
    ensures status == if Readable(disk, DataSector(v, entry), size, o) then Success else DeviceError
    ensures status == Success ==> Filled(v, disk, first, k, o, buf[..at + size])
    ensures forall t :: at + size <= t <= buf.Length ==> buf[t..] == old(buf[t..])
  {
    ghost var before := buf[..];
    SectorsCover(o + size);
    status := StorageRead(disk, buf, at, DataSector(v, entry), size, o);
    PrefixGrew(before, buf[..], at, size);
    if status == Success {
      PieceFilled(v, disk, first, j, entry, o, buf[at..at + size]);
      FilledMore(v, disk, first, k, o, before[..at], j, buf[at..at + size]);
    }
  }

  /** The read loop, from cluster number k on. */
  method ReadPieces(v: Volume, disk: seq<Byte>, first: nat, start: nat, buf: array<Byte>, total: nat, k: nat, o: nat)
    returns (status: Status)
    requires Valid(v) && total <= buf.Length && Nth(v, first, k) == Some(start) && o < ClusterSize(v)
    modifies buf
    ensures status == ReadStatus(v, disk, first, k, o, total)
    ensures status == Success ==> Filled(v, disk, first, k, o, buf[..total])
    ensures buf[total..] == old(buf[total..])
  {
    var entry: nat, size: nat, readBytes: nat := start, total, 0;
    ghost var j := k;
    ghost var wanted := ReadStatus(v, disk, first, k, o, total);
    while true
      invariant Nth(v, first, j) == Some(entry)
      invariant size + readBytes == total && Reaches(v, first, k, o, readBytes, j)
      invariant wanted == ReadStatus(v, disk, first, j, o, size)
      invariant Filled(v, disk, first, k, o, buf[..readBytes])
      invariant buf[total..] == old(buf[total..])
      decreases size
    {
      var single := Min(size, ClusterSize(v));
      status := ReadPiece(v, disk, first, entry, buf, readBytes, single, k, j, o);
      if status != Success {
        return;
      }
      size := size - single;
      if size == 0 {
        break;
      }
      ReachesNext(v, first, k, o, readBytes, j);
      readBytes := readBytes + single;
      entry := v.next(entry);
      j := j + 1;
      if entry == 0 || entry == v.eof {
        return FileNotFound;
      }
    }
    status := Success;
  }

  // ---------------------------------------------------------------- when a read is a slice

  /** Every piece of the read stays inside its cluster, or runs on into a cluster that also
      follows it on the disk. */
  ghost predicate Contiguous(v: Volume, first: nat, k: nat, o: nat, size: nat)
    requires Valid(v)
    decreases size
  {
    size == 0 ||
    (&& Nth(v, first, k).Some?
     && (o + Min(size, ClusterSize(v)) <= ClusterSize(v) || Adjacent(v, first, k))
     && (size > ClusterSize(v) ==> Contiguous(v, first, k + 1, o, size - ClusterSize(v))))
  }

  ghost predicate Adjacent(v: Volume, first: nat, k: nat) {
    && Nth(v, first, k).Some? && Nth(v, first, k + 1).Some?
    && Start(v, Nth(v, first, k + 1).value) == Start(v, Nth(v, first, k).value) + ClusterSize(v)
  }

  /** The chain has every cluster the read visits. */
  ghost predicate HasPieces(v: Volume, first: nat, k: nat, size: nat)
    requires Valid(v)
    decreases size
  {
    Nth(v, first, k).Some? && (size > ClusterSize(v) ==> HasPieces(v, first, k + 1, size - ClusterSize(v)))
  }

  lemma {:induction false} ContiguousReadsTrue(v: Volume, first: nat, k: nat, o: nat, size: nat, i: nat)
    requires Valid(v) && o < ClusterSize(v) && i < size && Contiguous(v, first, k, o, size)
    ensures ReadAddress(v, first, k, o, i).Some?
    ensures ReadAddress(v, first, k, o, i) == Address(v, first, k, o + i)
    decreases size
  {
    if i >= ClusterSize(v) {
      ContiguousReadsTrue(v, first, k + 1, o, size - ClusterSize(v), i - ClusterSize(v));
    } else if o + i >= ClusterSize(v) {
      assert Adjacent(v, first, k);
    }
  }

  /** Otherwise some byte is taken from a wrong address. */
  lemma {:induction false} ElseReadsWrong(v: Volume, first: nat, k: nat, o: nat, size: nat) returns (i: nat)
    requires Valid(v) && o < ClusterSize(v) && HasPieces(v, first, k, size) && !Contiguous(v, first, k, o, size)
    ensures i < size && ReadAddress(v, first, k, o, i).Some?
    ensures ReadAddress(v, first, k, o, i) != Address(v, first, k, o + i)
    decreases size
  {
    if o + Min(size, ClusterSize(v)) <= ClusterSize(v) || Adjacent(v, first, k) {
      var j := ElseReadsWrong(v, first, k + 1, o, size - ClusterSize(v));
      i := ClusterSize(v) + j;
    } else {
      i := ClusterSize(v) - o;
    }
  }

  lemma {:induction false} WholeShift(offset: nat, d: nat, n: nat)
    requires n > 0
    ensures Whole(offset + d, n) == Whole(offset, n) + Whole(Part(offset, n) + d, n)
  {
    if offset >= n {
      WholeShift(offset - n, d, n);
    }
  }

  lemma {:induction false} AddressSkips(v: Volume, first: nat, k: nat, offset: nat, i: nat)
    requires Valid(v)
    ensures Address(v, first, k, offset + i) ==
            Address(v, first, k + Whole(offset, ClusterSize(v)), Part(offset, ClusterSize(v)) + i)
    decreases offset
  {
    if offset >= ClusterSize(v) {
      AddressSkips(v, first, k + 1, offset - ClusterSize(v), i);
    }
  }

  /** A disk of n bytes, all zero but one. */
  function Spike(n: nat, a: nat): (d: seq<Byte>)
    ensures |d| == n && forall i :: 0 <= i < n ==> d[i] == if i == a then 1 else 0
  {
    if n == 0 then [] else Spike(n - 1, a) + [if n - 1 == a then 1 else 0]
  }

  /** A length of disk that no piece of the read exceeds. */
  ghost function Enough(v: Volume, first: nat, k: nat, size: nat): (n: nat)
    requires Valid(v) && HasPieces(v, first, k, size)
    decreases size
  {
    Start(v, Nth(v, first, k).value) + 2 * ClusterSize(v) + SECTOR +
    if size > ClusterSize(v) then Enough(v, first, k + 1, size - ClusterSize(v)) else 0
  }

  lemma {:induction false} EnoughSucceeds(v: Volume, disk: seq<Byte>, first: nat, k: nat, o: nat, size: nat)
    requires Valid(v) && HasPieces(v, first, k, size) && o < ClusterSize(v)
    requires Enough(v, first, k, size) <= |disk|
    ensures ReadStatus(v, disk, first, k, o, size) == Success
    decreases size
  {
    RoundUpSpec(o + Min(size, ClusterSize(v)), SECTOR);
    if size > ClusterSize(v) {
      EnoughSucceeds(v, disk, first, k + 1, o, size - ClusterSize(v));
    }
  }

  /** A successful read delivers the bytes of the file. */
  ghost predicate Delivers(v: Volume, disk: seq<Byte>, first: nat, size: nat, offset: nat)
    requires Valid(v)
  {
    var k, o := Whole(offset, ClusterSize(v)), Part(offset, ClusterSize(v));
    ReadStatus(v, disk, first, k, o, size) == Success ==>
    forall i :: 0 <= i < size ==> SameByte(disk, ReadAddress(v, first, k, o, i), Address(v, first, 0, offset + i))
  }

  ghost predicate SameByte(disk: seq<Byte>, a: Option<nat>, b: Option<nat>) {
    a.Some? && b.Some? && (a != b ==> a.value < |disk| && b.value < |disk| && disk[a.value] == disk[b.value])
  }

  /** Whatever the disk holds, a read whose clusters exist delivers the bytes of the file if and
      only if no piece of it runs beyond its cluster, save into one that lies behind it. */
  lemma {:induction false} ReadRightExactly(v: Volume, first: nat, size: nat, offset: nat)
    requires Valid(v) && HasPieces(v, first, Whole(offset, ClusterSize(v)), size)
    ensures (forall disk: seq<Byte> :: Delivers(v, disk, first, size, offset)) <==>
            Contiguous(v, first, Whole(offset, ClusterSize(v)), Part(offset, ClusterSize(v)), size)
  {
    var k, o := Whole(offset, ClusterSize(v)), Part(offset, ClusterSize(v));
    if Contiguous(v, first, k, o, size) {
      forall i | 0 <= i < size
        ensures ReadAddress(v, first, k, o, i).Some?
        ensures ReadAddress(v, first, k, o, i) == Address(v, first, 0, offset + i)
      {
        ContiguousReadsTrue(v, first, k, o, size, i);
        AddressSkips(v, first, 0, offset, i);
      }
    } else {
      var i := ElseReadsWrong(v, first, k, o, size);
      AddressSkips(v, first, 0, offset, i);
      var a := ReadAddress(v, first, k, o, i).value;
      var disk := Spike(Enough(v, first, k, size) + a + 1, a);
      EnoughSucceeds(v, disk, first, k, o, size);
      assert !SameByte(disk, ReadAddress(v, first, k, o, i), Address(v, first, 0, offset + i));
      assert !Delivers(v, disk, first, size, offset);
    }
  }

  /** Reads from a cluster boundary and reads within one cluster are always contiguous. */
  lemma {:induction false} SimpleReadsContiguous(v: Volume, first: nat, k: nat, o: nat, size: nat)
    requires Valid(v) && HasPieces(v, first, k, size) && (o == 0 || o + size <= ClusterSize(v))
    ensures Contiguous(v, first, k, o, size)
    decreases size
  {
    if size > ClusterSize(v) {
      SimpleReadsContiguous(v, first, k + 1, o, size - ClusterSize(v));
    }
  }

  // ---------------------------------------------------------------- slices of the file

  /** Every cluster of the chain lies on the disk. */
  ghost predicate OnDisk(v: Volume, disk: seq<Byte>, first: nat) {
    forall k: nat :: Nth(v, first, k).Some? ==> Start(v, Nth(v, first, k).value) + ClusterSize(v) <= |disk|
  }

  /** The bytes of n clusters of the chain, from number k on. */
  ghost function ChainBytes(v: Volume, disk: seq<Byte>, first: nat, k: nat, n: nat): seq<Byte>
    requires OnDisk(v, disk, first) && (n > 0 ==> Nth(v, first, k + n - 1).Some?)
    decreases n
  {
    if n == 0 then []
    else
      ChainReaches(v, first, k, k + n - 1);
      var a := Start(v, Nth(v, first, k).value);
      disk[a..a + ClusterSize(v)] + ChainBytes(v, disk, first, k + 1, n - 1)
  }

  lemma {:induction false} ChainReaches(v: Volume, first: nat, k: nat, n: nat)
    requires k <= n && Nth(v, first, n).Some?
    ensures Nth(v, first, k).Some?
  {
    if Nth(v, first, k) == None {
      ChainEnds(v, first, k, n);
    }
  }

  lemma {:induction false} ChainByteAt(v: Volume, disk: seq<Byte>, first: nat, k: nat, n: nat, pos: nat)
    requires Valid(v) && OnDisk(v, disk, first) && n > 0 && Nth(v, first, k + n - 1).Some?
    requires Whole(pos, ClusterSize(v)) < n
    ensures pos < |ChainBytes(v, disk, first, k, n)|
    ensures var a := Address(v, first, k, pos);
      a.Some? && a.value < |disk| && ChainBytes(v, disk, first, k, n)[pos] == disk[a.value]
    decreases n
  {
    ChainReaches(v, first, k, k + n - 1);
    if pos >= ClusterSize(v) {
      ChainByteAt(v, disk, first, k + 1, n - 1, pos - ClusterSize(v));
    }
  }

  lemma {:induction false} PieceReadable(v: Volume, disk: seq<Byte>, c: nat, size: nat, o: nat)
    requires Valid(v) && o + size <= ClusterSize(v) && Start(v, c) + ClusterSize(v) <= |disk|
    ensures Readable(disk, DataSector(v, c), size, o)
  {
    RoundUpLeast(o + size, SECTOR, ClusterSize(v));
  }

  /** How such a read ends: it succeeds exactly when the chain reaches its last byte. */
  lemma {:induction false} SimpleReadStatus(v: Volume, disk: seq<Byte>, first: nat, k: nat, o: nat, size: nat)
    requires Valid(v) && OnDisk(v, disk, first) && size > 0 && (o == 0 || o + size <= ClusterSize(v))
    ensures var last := Nth(v, first, k + Whole(o + size - 1, ClusterSize(v)));
      && ReadStatus(v, disk, first, k, o, size) == (if last.Some? then Success else FileNotFound)
      && (last.Some? ==> HasPieces(v, first, k, size))
    decreases size
  {
    var last := k + Whole(o + size - 1, ClusterSize(v));
    if Nth(v, first, k).Some? {
      PieceReadable(v, disk, Nth(v, first, k).value, Min(size, ClusterSize(v)), o);
      if size > ClusterSize(v) {
        SimpleReadStatus(v, disk, first, k + 1, o, size - ClusterSize(v));
      }
    } else {
      ChainEnds(v, first, k, last);
    }
  }

  lemma {:induction false} SliceByte(v: Volume, disk: seq<Byte>, first: nat, size: nat, offset: nat, buf: seq<Byte>,
        k: nat, o: nat, last: nat, i: nat)
    requires Valid(v) && OnDisk(v, disk, first) && i < size == |buf|
    requires k == Whole(offset, ClusterSize(v)) && o == Part(offset, ClusterSize(v))
    requires last == Whole(offset + size - 1, ClusterSize(v)) && Nth(v, first, last).Some?
    requires Contiguous(v, first, k, o, size) && Filled(v, disk, first, k, o, buf)
    ensures ByteAt(ChainBytes(v, disk, first, 0, last + 1), offset, buf, i)
  {
    WholeMonotone(offset + i, offset + size - 1, ClusterSize(v));
    ChainByteAt(v, disk, first, 0, last + 1, offset + i);
    ContiguousReadsTrue(v, first, k, o, size, i);
    AddressSkips(v, first, 0, offset, i);
  }

  /** The bytes are those of the concatenated clusters [offset, offset + size). */
  ghost predicate IsSlice(file: seq<Byte>, offset: nat, buf: seq<Byte>) {
    offset + |buf| <= |file| && buf == file[offset..offset + |buf|]
  }

  lemma {:induction false} SliceFromBytes(v: Volume, disk: seq<Byte>, first: nat, size: nat, offset: nat,
        buf: seq<Byte>, k: nat, o: nat, last: nat)
    requires Valid(v) && OnDisk(v, disk, first) && 0 < size == |buf|
    requires k == Whole(offset, ClusterSize(v)) && o == Part(offset, ClusterSize(v))
    requires last == Whole(offset + size - 1, ClusterSize(v)) && Nth(v, first, last).Some?
    requires Contiguous(v, first, k, o, size) && Filled(v, disk, first, k, o, buf)
    ensures IsSlice(ChainBytes(v, disk, first, 0, last + 1), offset, buf)
  {
    var file := ChainBytes(v, disk, first, 0, last + 1);
    forall i | 0 <= i < size
      ensures ByteAt(file, offset, buf, i)
    {
      SliceByte(v, disk, first, size, offset, buf, k, o, last, i);
    }
    SliceByIndex(file, offset, buf);
  }

  ghost predicate ByteAt(file: seq<Byte>, offset: nat, buf: seq<Byte>, i: nat)
    requires i < |buf|
  {
    offset + i < |file| && buf[i] == file[offset + i]
  }

  lemma {:induction false} SliceByIndex(file: seq<Byte>, offset: nat, buf: seq<Byte>)
    requires buf != [] && forall i :: 0 <= i < |buf| ==> ByteAt(file, offset, buf, i)
    ensures IsSlice(file, offset, buf)
  {
    assert ByteAt(file, offset, buf, |buf| - 1);
    assert forall i :: 0 <= i < |buf| ==> ByteAt(file, offset, buf, i) && buf[i] == file[offset..offset + |buf|][i];
  }

  /** A read of positive size from a cluster boundary or within one cluster ends with
      FILE_NOT_FOUND when the chain is too short for it, and otherwise puts exactly bytes
      [offset, offset + size) of the concatenated clusters into the buffer. */
  lemma {:induction false} ReadIsSlice(v: Volume, disk: seq<Byte>, first: nat, size: nat, offset: nat,
        buf: seq<Byte>, k: nat, o: nat)
    requires Valid(v) && OnDisk(v, disk, first) && 0 < size == |buf|
    requires k == Whole(offset, ClusterSize(v)) && o == Part(offset, ClusterSize(v))
    requires o == 0 || o + size <= ClusterSize(v)
    requires ReadStatus(v, disk, first, k, o, size) == Success ==> Filled(v, disk, first, k, o, buf)
    ensures var last := Whole(offset + size - 1, ClusterSize(v));
      if Nth(v, first, last).Some? then
        && ReadStatus(v, disk, first, k, o, size) == Success
        && IsSlice(ChainBytes(v, disk, first, 0, last + 1), offset, buf)
      else ReadStatus(v, disk, first, k, o, size) == FileNotFound
  {
    var last := Whole(offset + size - 1, ClusterSize(v));
    WholeShift(offset, size - 1, ClusterSize(v));
    SimpleReadStatus(v, disk, first, k, o, size);
    if Nth(v, first, last).Some? {
      SimpleReadsContiguous(v, first, k, o, size);
      SliceFromBytes(v, disk, first, size, offset, buf, k, o, last);
    }
  }

  lemma {:induction false} WholeMonotone(a: nat, b: nat, n: nat)
    requires n > 0 && a <= b
    ensures Whole(a, n) <= Whole(b, n)
  {
    if a >= n {
      WholeMonotone(a - n, b - n, n);
    }
  }
}
