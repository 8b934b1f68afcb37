/** `fat32_read` and `fat32_seek` of os/fs/fat32.c, specified on every disk: what each
    file position yields is a function of the FAT and the sectors, and a read delivers the
    longest run of positions that yield bytes. */
module Fat32File {
  import opened Options
  import opened Words
  import opened Fat32Volume

  /** What one file position yields: a byte, or the reason there is none. */
  datatype Fetch =
    | Byte(value: byte)
    | WalkFault(code: int)     // the chain ends before the position's cluster
    | ClusterFault(code: int)  // the walk arrives at a cluster number outside the volume
    | SectorFault              // the data sector cannot be read

  type View = nat -> Fetch

  function FetchInSectors(disk: Disk, first: nat, at: nat): (f: Fetch)
    requires first + at / SECTOR_SIZE < TWO32
  {
    match disk(first + at / SECTOR_SIZE)
    case None => SectorFault
    case Some(sector) => Byte(sector[at % SECTOR_SIZE])
  }

  function FetchInCluster(fs: Fs, cluster: uint32, at: nat): (f: Fetch)
    requires at < fs.ClusterSize()
  {
    var first := fs.ClusterToSector(cluster);
    if first < 0 then ClusterFault(first)
    else FetchInSectors(fs.disk, first, at)
  }

  ghost function FetchAt(fs: Fs, start: uint32, position: nat): (f: Fetch)
    requires fs.sectorsPerCluster != 0
  {
    DivModFacts(position, fs.ClusterSize());
    match Walk(fs.Links(), start, position / fs.ClusterSize())
    case Err(code) => WalkFault(code)
    case Ok(cluster) => FetchInCluster(fs, cluster, position % fs.ClusterSize())
  }

  /** `view` is the file that starts at cluster `start`, position by position. */
  ghost predicate IsView(view: View, fs: Fs, start: uint32)
    requires fs.sectorsPerCluster != 0
  {
    forall p: nat {:trigger FetchAt(fs, start, p)} :: view(p) == FetchAt(fs, start, p)
  }

  /** Every start cluster has a view. */
  ghost function FileView(fs: Fs, start: uint32): (view: View)
    requires fs.sectorsPerCluster != 0
    ensures IsView(view, fs, start)
  {
    (p: nat) => FetchAt(fs, start, p)
  }

  // ---------- The specification of a read ----------

  ghost predicate Readable(view: View, from: nat, count: nat) {
    forall p: nat :: from <= p < from + count ==> view(p).Byte?
  }

  /** Length of the longest readable run of at most `limit` positions. */
  ghost function Available(view: View, from: nat, limit: nat): (k: nat)
    decreases limit
  {
    if limit == 0 || !view(from).Byte? then 0 else 1 + Available(view, from + 1, limit - 1)
  }

  ghost function Bytes(view: View, from: nat, count: nat): (b: seq<byte>)
    requires Readable(view, from, count)
  {
    seq<byte>(count, i requires 0 <= i < count => view(from + i).value)
  }

  /** Bytes a call asks for: `size` as an unsigned word, cut at the end of the file. */
  function Requested(fileSize: uint32, offset: uint32, size: int32): (n: nat)
    ensures offset < fileSize ==> n <= fileSize - offset
  {
    if offset >= fileSize || size == 0 then 0
    else
      var remaining, readable := Wrap32(size), fileSize - offset;
      if remaining > readable then readable else remaining
  }

  /** The return value of a read that `fault` stops after `k` bytes. */
  function FaultResult(fault: Fetch, k: uint32): (r: int)
    requires !fault.Byte?
  {
    match fault
    case WalkFault(code) => if k > 0 then ToInt32(k) else code
    case ClusterFault(code) => code
    case SectorFault => if k > 0 then ToInt32(k) else ERROR_IO
  }

  /** The return value when `k` of `n` bytes could be delivered. */
  ghost function ReadResult(view: View, offset: nat, n: uint32, k: uint32): (r: int)
    requires k <= n
    requires k < n ==> !view(offset + k).Byte?
  {
    if k == n then ToInt32(n) else FaultResult(view(offset + k), k)
  }

  lemma {:induction false} AvailableIsReadable(view: View, from: nat, limit: nat)
    ensures Available(view, from, limit) <= limit
    ensures Readable(view, from, Available(view, from, limit))
    ensures var k := Available(view, from, limit); k < limit ==> !view(from + k).Byte?
    decreases limit
  {
    if limit > 0 && view(from).Byte? {
      AvailableIsReadable(view, from + 1, limit - 1);
    }
  }

  lemma {:induction false} AvailableUnique(view: View, from: nat, limit: nat, k: nat)
    requires k <= limit && Readable(view, from, k)
    requires k < limit ==> !view(from + k).Byte?
    ensures Available(view, from, limit) == k
    decreases limit
  {
    if k > 0 {
      AvailableUnique(view, from + 1, limit - 1, k - 1);
    }
  }

  /** What one call leaves behind: the new offset, the return value, the bytes delivered. */
  datatype Outcome = Outcome(offset: nat, result: int, data: seq<byte>)

  ghost function ReadOutcome(view: View, fileSize: uint32, offset: uint32, size: int32): (o: Outcome)
    ensures offset <= o.offset <= offset + Requested(fileSize, offset, size)
    ensures |o.data| == o.offset - offset
  {
    var n := Requested(fileSize, offset, size);
    var k := Available(view, offset, n);
    AvailableIsReadable(view, offset, n);
    Outcome(offset + k, ReadResult(view, offset, n, k), Bytes(view, offset, k))
  }

  /** A read is known by the bytes it delivers and the position that stops it. */
  lemma ReadOutcomeIs(view: View, fileSize: uint32, offset: uint32, size: int32, data: seq<byte>)
    requires |data| <= Requested(fileSize, offset, size)
    requires forall p: nat :: offset <= p < offset + |data| ==> view(p) == Byte(data[p - offset])
    requires |data| < Requested(fileSize, offset, size) ==> !view(offset + |data|).Byte?
    ensures ReadOutcome(view, fileSize, offset, size)
         == Outcome(offset + |data|, ReadResult(view, offset, Requested(fileSize, offset, size), |data|), data)
  {
    AvailableUnique(view, offset, Requested(fileSize, offset, size), |data|);
    assert Bytes(view, offset, |data|) == data;
  }

  function SeekOutcome(fileSize: uint32, offset: uint32, to: int32): (o: Outcome) {
    if to < 0 || to > fileSize then Outcome(offset, ERROR_BAD_PARAMETER, [])
    else Outcome(to, 0, [])
  }

  /** Positions inside one cluster all go through the same walk and the same sectors. */
  lemma ViewInCluster(view: View, fs: Fs, start: uint32, index: nat, base: nat, at: nat)
    requires fs.sectorsPerCluster != 0 && at < fs.ClusterSize() && IsView(view, fs, start)
    requires base == index * fs.ClusterSize()
    ensures view(base + at)
         == match Walk(fs.Links(), start, index)
            case Err(code) => WalkFault(code)
            case Ok(cluster) => FetchInCluster(fs, cluster, at)
  {
    DivModUnique(index, at, fs.ClusterSize());
    assert view(base + at) == FetchAt(fs, start, base + at);
  }

  /** A run of positions inside one cluster, read off its sectors from `first` on. */
  lemma ViewOfClusterRun(view: View, fs: Fs, start: uint32, index: nat, base: nat,
                         cluster: uint32, first: nat, at: nat, count: nat)
    requires fs.sectorsPerCluster != 0 && at + count <= fs.ClusterSize() && IsView(view, fs, start)
    requires base == index * fs.ClusterSize()
    requires Walk(fs.Links(), start, index) == Ok(cluster) && fs.ClusterToSector(cluster) == first
    ensures forall p: nat :: base + at <= p < base + at + count ==> view(p) == FetchInSectors(fs.disk, first, p - base)
  {
    forall p: nat | base + at <= p < base + at + count
      ensures view(p) == FetchInSectors(fs.disk, first, p - base)
    {
      ViewInCluster(view, fs, start, index, base, p - base);
    }
  }

  // ---------- The current cluster ----------

  /** Where a file position lies: the position at which its cluster begins, and what the
      walk to that cluster gives. */
  datatype Place = Place(begin: nat, home: Status<uint32>)

  type Places = nat -> Place

  ghost function PlaceOf(fs: Fs, start: uint32, position: nat): (p: Place)
    requires fs.sectorsPerCluster != 0
  {
    DivModFacts(position, fs.ClusterSize());
    Place(position - position % fs.ClusterSize(), Walk(fs.Links(), start, position / fs.ClusterSize()))
  }

  ghost predicate IsPlaces(places: Places, fs: Fs, start: uint32)
    requires fs.sectorsPerCluster != 0
  {
    forall p: nat {:trigger PlaceOf(fs, start, p)} :: places(p) == PlaceOf(fs, start, p)
  }

  /** Every start cluster has places. */
  ghost function FilePlaces(fs: Fs, start: uint32): (places: Places)
    requires fs.sectorsPerCluster != 0
    ensures IsPlaces(places, fs, start)
  {
    (p: nat) => PlaceOf(fs, start, p)
  }

  lemma PlaceInCluster(places: Places, fs: Fs, start: uint32, index: nat, base: nat, at: nat)
    requires fs.sectorsPerCluster != 0 && at < fs.ClusterSize() && IsPlaces(places, fs, start)
    requires base == index * fs.ClusterSize()
    ensures places(base + at) == Place(base, Walk(fs.Links(), start, index))
  {
    DivModUnique(index, at, fs.ClusterSize());
    assert places(base + at) == PlaceOf(fs, start, base + at);
  }

  /** All positions of a cluster have one place, and the next one begins after them. */
  lemma PlacesInCluster(places: Places, fs: Fs, start: uint32, index: nat, base: nat, next: nat)
    requires fs.sectorsPerCluster != 0 && IsPlaces(places, fs, start)
    requires base == index * fs.ClusterSize() && next == base + fs.ClusterSize()
    ensures forall p: nat :: base <= p < next ==> places(p) == Place(base, Walk(fs.Links(), start, index))
    ensures places(next).begin == next
  {
    forall p: nat | base <= p < next
      ensures places(p) == Place(base, Walk(fs.Links(), start, index))
    {
      PlaceInCluster(places, fs, start, index, base, p - base);
    }
    PlaceInCluster(places, fs, start, index + 1, next, 0);
  }

  /** What is known of position `base + at` once the walk to its cluster has been made. */
  lemma Located(view: View, places: Places, fs: Fs, start: uint32, index: nat, base: nat, at: nat)
    requires fs.sectorsPerCluster != 0 && IsView(view, fs, start) && IsPlaces(places, fs, start)
    requires base == index * fs.ClusterSize() && at < fs.ClusterSize()
    ensures var next, w := base + fs.ClusterSize(), Walk(fs.Links(), start, index);
            && places(base + at).begin == base && places(next).begin == next
            && (w.Err? ==> view(base + at) == WalkFault(w.code))
            && (w.Ok? ==>
                 var first := fs.ClusterToSector(w.value);
                 if first < 0 then view(base + at) == ClusterFault(first)
                 else forall p: nat :: base + at <= p < next ==>
                        view(p) == FetchInSectors(fs.disk, first, p - base) && places(p) == Place(base, w))
  {
    PlacesInCluster(places, fs, start, index, base, base + fs.ClusterSize());
    ViewInCluster(view, fs, start, index, base, at);
    var w := Walk(fs.Links(), start, index);
    if w.Ok? && fs.ClusterToSector(w.value) >= 0 {
      ViewOfClusterRun(view, fs, start, index, base, w.value, fs.ClusterToSector(w.value), at, fs.ClusterSize() - at);
    }
  }

  /** The same of position `offset`, split into whole clusters and a rest. */
  lemma LocatedHere(view: View, places: Places, fs: Fs, start: uint32, index: nat, offset: nat, at: nat)
    requires fs.sectorsPerCluster != 0 && IsView(view, fs, start) && IsPlaces(places, fs, start)
    requires offset == index * fs.ClusterSize() + at && at < fs.ClusterSize()
    ensures var next, w := offset - at + fs.ClusterSize(), Walk(fs.Links(), start, index);
            && places(offset).begin == offset - at && places(next).begin == next
            && (w.Err? ==> view(offset) == WalkFault(w.code))
            && (w.Ok? ==>
                 var first := fs.ClusterToSector(w.value);
                 if first < 0 then view(offset) == ClusterFault(first)
                 else forall p: nat :: offset <= p < next ==>
                        && view(p) == FetchInSectors(fs.disk, first, p - (offset - at))
                        && places(p) == Place(offset - at, w))
  {
    var base := offset - at;
    assert base + at == offset;
    Located(view, places, fs, start, index, base, at);
  }

  /** The bookkeeping field once a loop of reads from `from` has come to `offset`, the last
      round complete: the cluster of the last byte. */
  ghost predicate LastTouched(places: Places, from: nat, offset: nat, was: uint32, now: uint32) {
    if offset <= from then now == was else places(offset - 1).home == Ok(now)
  }

  /** A run of positions inside one readable sector. */
  lemma SectorRun(disk: Disk, first: uint32, sector: uint32, sectorOffset: nat, count: nat)
    requires first <= sector && sectorOffset + count <= SECTOR_SIZE && disk(sector).Some?
    ensures var base := SECTOR_SIZE * (sector - first);
            forall q: nat :: base + sectorOffset <= q < base + sectorOffset + count ==>
              first + q / SECTOR_SIZE < TWO32 && FetchInSectors(disk, first, q) == Byte(disk(sector).value[q - base])
  {}

  /** What `fat32_open` fills in for the caller. */
  datatype Handle = Handle(
    startCluster: uint32,
    currentCluster: uint32,
    fileSize: uint32,
    parentCluster: uint32,
    offset: uint32,
    formattedName: string)

  class File {
    const fs: Fs
    const startCluster: uint32
    const fileSize: uint32
    var offset: uint32
    var currentCluster: uint32

    /** The part of an opened handle that reading works on. */
    constructor (fs: Fs, h: Handle)
      ensures this.fs == fs && startCluster == h.startCluster && fileSize == h.fileSize
      ensures offset == h.offset && currentCluster == h.currentCluster
    {
      this.fs, startCluster, fileSize := fs, h.startCluster, h.fileSize;
      offset, currentCluster := h.offset, h.currentCluster;
    }

    /** The byte-copy loop from one sector. */
    method CopyFromSector(buffer: array<byte>, at: nat, sector: Sector, from: nat, count: nat)
      requires from + count <= SECTOR_SIZE && at + count <= buffer.Length
      modifies buffer
      ensures forall j :: at <= j < at + count ==> buffer[j] == sector[from + j - at]
      ensures forall j :: (0 <= j < at || at + count <= j < buffer.Length) ==> buffer[j] == old(buffer[j])
    {
      for i := 0 to count
        invariant forall j :: at <= j < at + i ==> buffer[j] == sector[from + j - at]
        invariant forall j :: (0 <= j < at || at + i <= j < buffer.Length) ==> buffer[j] == old(buffer[j])
      {
        buffer[at + i] := sector[from + i];
      }
    }

    /** One sector of the loop below: read it and copy what is wanted of it. */
    method ReadFromSector(buffer: array<byte>, at: nat, sector: uint32, sectorOffset: nat, wanted: nat)
      returns (copied: Option<nat>)
      requires sectorOffset < SECTOR_SIZE && at + wanted <= buffer.Length
      modifies buffer
      ensures copied.None? <==> fs.disk(sector).None?
      ensures copied.Some? ==>
        && copied.value == (if wanted < SECTOR_SIZE - sectorOffset then wanted else SECTOR_SIZE - sectorOffset)
        && forall j :: at <= j < at + copied.value ==> buffer[j] == fs.disk(sector).value[sectorOffset + j - at]
      ensures var n := if copied.None? then 0 else copied.value;
        forall j :: (0 <= j < at || at + n <= j < buffer.Length) ==> buffer[j] == old(buffer[j])
    {
      var read := fs.disk(sector);
      if read.None? {
        return None;
      }
      var bytesInSector := SECTOR_SIZE - sectorOffset;
      var fromSector := if wanted < bytesInSector then wanted else bytesInSector;
      CopyFromSector(buffer, at, read.value, sectorOffset, fromSector);
      return Some(fromSector);
    }

    /** The sector loop inside one cluster: deliver up to `count` bytes from position
        `clusterOffset` of the cluster whose first sector is `clusterSector`. */
    method ReadFromCluster(buffer: array<byte>, at: nat, clusterSector: uint32,
                           clusterOffset: nat, count: nat) returns (copied: nat)
      requires clusterSector < TWO31
      requires clusterOffset + count <= fs.ClusterSize()
      requires at + count <= buffer.Length && offset + count < TWO32
      modifies this`offset, buffer
      ensures copied <= count
      ensures offset == old(offset) + copied
      ensures forall q :: clusterOffset <= q < clusterOffset + copied ==>
        FetchInSectors(fs.disk, clusterSector, q) == Byte(buffer[at + q - clusterOffset])
      ensures copied < count ==>
        FetchInSectors(fs.disk, clusterSector, clusterOffset + copied) == SectorFault
      ensures forall j :: (0 <= j < at || at + copied <= j < buffer.Length) ==> buffer[j] == old(buffer[j])
    {
      var sectorOffset := clusterOffset % SECTOR_SIZE;
      var sector: uint32 := clusterSector + clusterOffset / SECTOR_SIZE;
      var bytesToRead: nat := count;
      copied := 0;
      while bytesToRead > 0
        invariant copied + bytesToRead == count && offset == old(offset) + copied
        invariant bytesToRead > 0 ==>
          && clusterOffset + copied == SECTOR_SIZE * (sector - clusterSector) + sectorOffset
          && 0 <= sectorOffset < SECTOR_SIZE
        invariant forall q :: clusterOffset <= q < clusterOffset + copied ==>
          FetchInSectors(fs.disk, clusterSector, q) == Byte(buffer[at + q - clusterOffset])
        invariant forall j :: (0 <= j < at || at + copied <= j < buffer.Length) ==> buffer[j] == old(buffer[j])
        decreases bytesToRead
      {
        var n := ReadFromSector(buffer, at + copied, sector, sectorOffset, bytesToRead);
        if n.None? {
          return;
        }
        SectorRun(fs.disk, clusterSector, sector, sectorOffset, n.value);
        copied := copied + n.value;
        offset := offset + n.value;
        bytesToRead := bytesToRead - n.value;
        sector := sector + 1;
        sectorOffset := 0;
        if sector - clusterSector >= fs.sectorsPerCluster {
          // The cluster is exhausted, and with it the request: nothing is left to read here.
          assert bytesToRead == 0;
          break;
        }
      }
    }

    /** Where the current offset falls: the cluster, its first sector and the offset in it,
        or what stops the read there. */
    method LocateCluster(ghost view: View, ghost places: Places)
      returns (cluster: uint32, first: uint32, clusterOffset: nat, fault: Option<Fetch>)
      requires fs.sectorsPerCluster != 0 && IsView(view, fs, startCluster) && IsPlaces(places, fs, startCluster)
      ensures clusterOffset < fs.ClusterSize() && clusterOffset <= offset
      ensures fault.Some? ==> fault.value == view(offset) && (fault.value.WalkFault? || fault.value.ClusterFault?)
      ensures fault.None? ==>
        && first < TWO31
        && forall p: nat :: offset <= p < offset - clusterOffset + fs.ClusterSize() ==>
             view(p) == FetchInSectors(fs.disk, first, p - (offset - clusterOffset))
      ensures places(offset).begin == offset - clusterOffset
      ensures places(offset - clusterOffset + fs.ClusterSize()).begin == offset - clusterOffset + fs.ClusterSize()
      ensures fault.None? ==>
        forall p: nat :: offset <= p < offset - clusterOffset + fs.ClusterSize() ==>
          places(p) == Place(offset - clusterOffset, Ok(cluster))
    {
      var clusterSize := fs.ClusterSize();
      clusterOffset := offset % clusterSize;
      var clusterIndex := offset / clusterSize;
      DivModFacts(offset, clusterSize);
      LocatedHere(view, places, fs, startCluster, clusterIndex, offset, clusterOffset);
      cluster, first := 0, 0;
      var target := GetClusterAtIndex(fs.Links(), startCluster, clusterIndex);
      if target.Err? {
        fault := Some(WalkFault(target.code));
        return;
      }
      cluster := target.value;
      var clusterResult := fs.ClusterToSector(cluster);
      if clusterResult < 0 {
        fault := Some(ClusterFault(clusterResult));
        return;
      }
      first, fault := clusterResult, None;
    }

    /** One round of the outer loop of `fat32_read`: find the cluster the offset falls in
        and deliver what is wanted of it. `fault` is what stopped the round, if anything did. */
    method ReadNextCluster(buffer: array<byte>, at: nat, remaining: uint32, ghost view: View, ghost places: Places)
      returns (copied: nat, fault: Option<Fetch>)
      requires fs.sectorsPerCluster != 0 && IsView(view, fs, startCluster) && IsPlaces(places, fs, startCluster)
      requires 0 < remaining && at + remaining <= buffer.Length && offset + remaining < TWO32
      modifies this, buffer
      ensures copied <= remaining && offset == old(offset) + copied
      ensures forall p: nat :: old(offset) <= p < offset ==> view(p) == Byte(buffer[at + p - old(offset)])
      ensures forall j :: (0 <= j < at || at + copied <= j < buffer.Length) ==> buffer[j] == old(buffer[j])
      ensures fault.None? ==> copied > 0
      ensures fault.Some? ==>
        && copied < remaining
        && view(offset) == fault.value
        && !fault.value.Byte?
      ensures fault.None? ==>
        && places(offset - 1).home == Ok(currentCluster)
        && (copied < remaining ==> places(offset).begin == offset)
      ensures fault.Some? ==>
        && currentCluster == old(currentCluster)
        && places(offset).begin == places(old(offset)).begin <= old(offset)
    {
      copied := 0;
      var cluster, first, clusterOffset;
      cluster, first, clusterOffset, fault := LocateCluster(view, places);
      if fault.Some? {
        return;
      }
      var bytesInCluster := fs.ClusterSize() - clusterOffset;
      var bytesToRead := if remaining < bytesInCluster then remaining else bytesInCluster;
      copied := ReadFromCluster(buffer, at, first, clusterOffset, bytesToRead);
      if copied < bytesToRead {
        fault := Some(SectorFault);
        return;
      }
      currentCluster := cluster;
    }

    /** The outer loop of `fat32_read`: up to `n` bytes, or up to the first fault. */
    method ReadBytes(buffer: array<byte>, n: uint32, ghost view: View, ghost places: Places)
      returns (bytesRead: uint32, fault: Option<Fetch>)
      requires fs.sectorsPerCluster != 0 && IsView(view, fs, startCluster) && IsPlaces(places, fs, startCluster)
      requires n <= buffer.Length && offset + n < TWO32
      modifies this, buffer
      ensures bytesRead <= n && offset == old(offset) + bytesRead
      ensures forall p: nat :: old(offset) <= p < offset ==> view(p) == Byte(buffer[p - old(offset)])
      ensures forall j :: bytesRead <= j < buffer.Length ==> buffer[j] == old(buffer[j])
      ensures bytesRead < n <==> fault.Some?
      ensures fault.Some? ==> !fault.value.Byte? && view(offset) == fault.value
      ensures var whole := if fault.None? then offset else places(offset).begin;
              LastTouched(places, old(offset), whole, old(currentCluster), currentCluster)
    {
      bytesRead, fault := 0, None;
      var remaining: uint32 := n;
      while remaining > 0
        invariant bytesRead + remaining == n && offset == old(offset) + bytesRead
        invariant forall p: nat :: old(offset) <= p < offset ==> view(p) == Byte(buffer[p - old(offset)])
        invariant forall j :: bytesRead <= j < buffer.Length ==> buffer[j] == old(buffer[j])
        invariant fault.None?
        invariant LastTouched(places, old(offset), offset, old(currentCluster), currentCluster)
        invariant 0 < bytesRead < n ==> places(offset).begin == offset
        decreases remaining
      {
        var copied;
        copied, fault := ReadNextCluster(buffer, bytesRead, remaining, view, places);
        bytesRead := bytesRead + copied;
        remaining := remaining - copied;
        if fault.Some? {
          return;
        }
      }
    }

    /** `fat32_read`. Of a cluster whose reading fails midway the current cluster does not
        take notice. */
    method Read(buffer: array<byte>, size: int32, ghost view: View, ghost places: Places) returns (result: int)
      requires fs.sectorsPerCluster != 0 && IsView(view, fs, startCluster) && IsPlaces(places, fs, startCluster)
      requires Requested(fileSize, offset, size) <= buffer.Length
      modifies this, buffer
      ensures old(offset) <= offset <= old(offset) + buffer.Length
      ensures var k := offset - old(offset);
              && ReadOutcome(view, fileSize, old(offset), size) == Outcome(offset, result, buffer[..k])
              && buffer[k..] == old(buffer[k..])
      ensures var complete := offset == old(offset) + Requested(fileSize, old(offset), size);
              var whole := if complete then offset else places(offset).begin;
              LastTouched(places, old(offset), whole, old(currentCluster), currentCluster)
    {
      if offset >= fileSize || size == 0 {
        ReadOutcomeIs(view, fileSize, offset, size, buffer[..0]);
        return 0;
      }
      var remaining, maxReadable := Wrap32(size), fileSize - offset;
      if remaining > maxReadable {
        remaining := maxReadable;
      }
      var bytesRead, fault := ReadBytes(buffer, remaining, view, places);
      ReadOutcomeIs(view, fileSize, old(offset), size, buffer[..bytesRead]);
      return if fault.Some? then FaultResult(fault.value, bytesRead) else ToInt32(bytesRead);
    }

    /** `fat32_seek`. */
    method Seek(to: int32) returns (result: int)
      modifies this`offset
      ensures SeekOutcome(fileSize, old(offset), to) == Outcome(offset, result, [])
    {
      if to < 0 || to > fileSize {
        return ERROR_BAD_PARAMETER;
      }
      offset := to;
      return 0;
    }
  }
}
