/** What `fat32_read` and `fat32_seek` amount to for a caller: honest counts on every disk,
    and on an intact file a cursor over the concatenation of its cluster chain. */
module Fat32Content {
  import opened Options
  import opened Words
  import opened Fat32Volume
  import opened Fat32File

  // ---------- Return values on arbitrary disks ----------

  /** A count is the number of bytes delivered, and an error leaves everything as it was. */
  ghost predicate Honest(o: Outcome, offset: nat) {
    && (o.result >= 0 ==> o.result == |o.data| && o.offset == offset + o.result)
    && (o.result < 0 ==> o.data == [] && o.offset == offset)
  }

  /** The first position from `offset` on that yields no byte is `k` positions away, and the
      walk to it arrives at a number outside the volume. */
  ghost predicate BreaksAfter(view: View, offset: nat, k: nat) {
    Readable(view, offset, k) && view(offset + k).ClusterFault?
  }

  /** The chain breaks strictly inside the request. */
  ghost predicate LostCount(view: View, fileSize: uint32, offset: uint32, size: int32) {
    exists k :: 0 < k < Requested(fileSize, offset, size) && BreaksAfter(view, offset, k)
  }

  /** At least 2^31 bytes are asked for, which takes a negative size, and can be read. */
  ghost predicate LongCount(view: View, fileSize: uint32, offset: uint32, size: int32) {
    Requested(fileSize, offset, size) >= TWO31 && Readable(view, offset, TWO31)
  }

  /** Fault codes are negative, as every view of a volume has them. */
  ghost predicate NegativeCodes(view: View) {
    forall p: nat :: (view(p).WalkFault? || view(p).ClusterFault?) ==> view(p).code < 0
  }

  lemma ViewCodesNegative(view: View, fs: Fs, start: uint32)
    requires fs.sectorsPerCluster != 0 && IsView(view, fs, start)
    ensures NegativeCodes(view)
  {
    forall p: nat
      ensures (view(p).WalkFault? || view(p).ClusterFault?) ==> view(p).code < 0
    {
      assert view(p) == FetchAt(fs, start, p);
    }
  }

  /** Counts are honest and errors are clean exactly when the chain does not break inside
      the request and the count fits a signed word. */
  lemma ReadHonest(view: View, fileSize: uint32, offset: uint32, size: int32)
    requires NegativeCodes(view)
    ensures Honest(ReadOutcome(view, fileSize, offset, size), offset) <==>
            !LostCount(view, fileSize, offset, size) && !LongCount(view, fileSize, offset, size)
  {
    var n := Requested(fileSize, offset, size);
    var k := Available(view, offset, n);
    AvailableIsReadable(view, offset, n);
    if 0 < k < n && view(offset + k).ClusterFault? {
      assert BreaksAfter(view, offset, k);
    }
    if LostCount(view, fileSize, offset, size) {
      var b :| 0 < b < n && BreaksAfter(view, offset, b);
      AvailableUnique(view, offset, n, b);
    }
  }

  /** A read that meets a fault at once delivers nothing and returns the reason: -1 for a data
      sector, else the code of the walk or of the cluster. */
  lemma FaultAtOnce(view: View, fileSize: uint32, offset: uint32, size: int32)
    requires Requested(fileSize, offset, size) > 0 && !view(offset).Byte?
    ensures ReadOutcome(view, fileSize, offset, size)
         == Outcome(offset, if view(offset).SectorFault? then -1 else view(offset).code, [])
  {}

  /** A file whose first cluster is 0, 1 or 2 yields nothing, each read being refused with -4,
      and no other file is refused so at its beginning. */
  lemma LowStartRefused(view: View, fs: Fs, start: uint32)
    requires fs.sectorsPerCluster != 0 && IsView(view, fs, start)
    ensures start <= 2 ==> forall p: nat :: view(p) == WalkFault(-4)
    ensures start > 2 ==> !view(0).WalkFault?
  {
    if start <= 2 {
      forall p: nat
        ensures view(p) == WalkFault(-4)
      {
        assert view(p) == FetchAt(fs, start, p);
      }
    } else {
      ViewInCluster(view, fs, start, 0, 0, 0);
    }
  }

  // ---------- Splitting a read ----------

  lemma {:induction false} AvailableSplit(view: View, from: nat, a: nat, b: nat)
    ensures var k := Available(view, from, a);
            Available(view, from, a + b) == if k < a then k else a + Available(view, from + a, b)
    decreases a
  {
    if a > 0 && view(from).Byte? {
      AvailableSplit(view, from + 1, a - 1, b);
    }
  }

  lemma BytesSplit(view: View, from: nat, k: nat, l: nat)
    requires Readable(view, from, k + l)
    ensures Bytes(view, from, k + l) == Bytes(view, from, k) + Bytes(view, from + k, l)
  {}

  /** A second read finds exactly what one longer read would still have delivered. */
  lemma AvailableRest(view: View, fileSize: uint32, offset: uint32, a: int32, b: int32)
    requires 0 <= a && 0 <= b && a + b < TWO31
    ensures var k := Available(view, offset, Requested(fileSize, offset, a));
            && offset + k < TWO32
            && k + Available(view, offset + k, Requested(fileSize, offset + k, b))
               == Available(view, offset, Requested(fileSize, offset, a + b))
  {
    var n, m := Requested(fileSize, offset, a), Requested(fileSize, offset, a + b);
    AvailableIsReadable(view, offset, n);
    AvailableSplit(view, offset, n, m - n);
    RequestedRest(fileSize, offset, a, b);
  }

  /** Two reads, one after the other, end where one longer read ends. */
  lemma SplitOffset(view: View, fileSize: uint32, offset: uint32, a: int32, b: int32)
    requires 0 <= a && 0 <= b && a + b < TWO31
    ensures var first := ReadOutcome(view, fileSize, offset, a);
            && first.offset < TWO32
            && ReadOutcome(view, fileSize, first.offset, b).offset
               == ReadOutcome(view, fileSize, offset, a + b).offset
  {
    AvailableRest(view, fileSize, offset, a, b);
  }

  /** What a read delivers is decided by where it ends. */
  lemma DataByOffset(view: View, fileSize: uint32, offset: uint32, size: int32)
    ensures var o := ReadOutcome(view, fileSize, offset, size);
            Readable(view, offset, o.offset - offset) && o.data == Bytes(view, offset, o.offset - offset)
  {
    AvailableIsReadable(view, offset, Requested(fileSize, offset, size));
  }

  /** Reading `a` and then `b` bytes delivers what one read of `a + b` delivers, on any disk. */
  lemma SplitRead(view: View, fileSize: uint32, offset: uint32, a: int32, b: int32)
    requires 0 <= a && 0 <= b && a + b < TWO31
    ensures var whole := ReadOutcome(view, fileSize, offset, a + b);
            var first := ReadOutcome(view, fileSize, offset, a);
            && first.offset < TWO32
            && var second := ReadOutcome(view, fileSize, first.offset, b);
            && second.offset == whole.offset
            && first.data + second.data == whole.data
  {
    SplitOffset(view, fileSize, offset, a, b);
    var first := ReadOutcome(view, fileSize, offset, a);
    var second := ReadOutcome(view, fileSize, first.offset, b);
    DataByOffset(view, fileSize, offset, a);
    DataByOffset(view, fileSize, first.offset, b);
    DataByOffset(view, fileSize, offset, a + b);
    BytesSplit(view, offset, first.offset - offset, second.offset - first.offset);
  }

  /** What is left to request once a first request has been served in full. */
  lemma RequestedRest(fileSize: uint32, offset: uint32, a: int32, b: int32)
    requires 0 <= a && 0 <= b && a + b < TWO31
    ensures var n := Requested(fileSize, offset, a);
            n + Requested(fileSize, offset + n, b) == Requested(fileSize, offset, a + b)
  {}

  function Sum(sizes: seq<nat>): nat {
    if sizes == [] then 0 else sizes[0] + Sum(sizes[1..])
  }

  datatype Op = ReadOp(size: int32) | SeekOp(to: int32)

  ghost function DriverStep(view: View, fileSize: uint32, offset: uint32, op: Op): (o: Outcome)
    ensures o.offset < TWO32
  {
    match op
    case ReadOp(size) => ReadOutcome(view, fileSize, offset, size)
    case SeekOp(to) => SeekOutcome(fileSize, offset, to)
  }

  /** The outcomes of a sequence of calls on one file handle. */
  ghost function DriverRun(view: View, fileSize: uint32, offset: uint32, ops: seq<Op>): (run: seq<Outcome>)
    ensures |run| == |ops|
    decreases |ops|
  {
    if ops == [] then []
    else
      var o := DriverStep(view, fileSize, offset, ops[0]);
      [o] + DriverRun(view, fileSize, o.offset, ops[1..])
  }

  function Reads(sizes: seq<nat>): (ops: seq<Op>)
    requires Sum(sizes) < TWO31
    ensures |ops| == |sizes|
  {
    if sizes == [] then [] else [ReadOp(sizes[0])] + Reads(sizes[1..])
  }

  function Delivered(run: seq<Outcome>): seq<byte> {
    if run == [] then [] else run[0].data + Delivered(run[1..])
  }

  /** Any way of cutting a read into pieces delivers the same bytes. */
  lemma {:induction false} AnySplitDeliversTheSame(view: View, fileSize: uint32, offset: uint32, sizes: seq<nat>)
    requires Sum(sizes) < TWO31
    ensures Delivered(DriverRun(view, fileSize, offset, Reads(sizes)))
         == ReadOutcome(view, fileSize, offset, Sum(sizes)).data
    decreases |sizes|
  {
    if sizes != [] {
      var first := ReadOutcome(view, fileSize, offset, sizes[0]);
      SplitRead(view, fileSize, offset, sizes[0], Sum(sizes[1..]));
      AnySplitDeliversTheSame(view, fileSize, first.offset, sizes[1..]);
      var ops := Reads(sizes);
      assert ops[1..] == Reads(sizes[1..]);
      var run := DriverRun(view, fileSize, offset, ops);
      assert run[1..] == DriverRun(view, fileSize, first.offset, ops[1..]);
    }
  }

  // ---------- An intact file ----------

  ghost predicate ReadableSectors(disk: Disk, first: nat, count: nat)
    requires first + count <= TWO32
  {
    forall s: uint32 :: first <= s < first + count ==> disk(s).Some?
  }

  /** A cluster of the volume, all of whose sectors can be read. */
  ghost predicate ReadableCluster(fs: Fs, cluster: uint32) {
    && cluster != EOC_MARKER
    && var first := fs.ClusterToSector(cluster);
       first >= 0 && ReadableSectors(fs.disk, first, fs.sectorsPerCluster)
  }

  ghost predicate ReadableClusters(fs: Fs, clusters: seq<uint32>) {
    forall i :: 0 <= i < |clusters| ==> ReadableCluster(fs, clusters[i])
  }

  /** `clusters` are linked one after the other in the FAT, from `clusters[0]`. */
  ghost predicate IsChain(link: Links, clusters: seq<uint32>) {
    && |clusters| > 0 && clusters[0] > 2
    && forall i :: 0 < i < |clusters| ==> link(clusters[i - 1]) == clusters[i]
  }

  /** The bytes of `count` consecutive sectors. */
  ghost function SectorData(disk: Disk, first: nat, count: nat): (data: seq<byte>)
    requires first + count <= TWO32 && ReadableSectors(disk, first, count)
    ensures |data| == SECTOR_SIZE * count
  {
    if count == 0 then [] else SectorData(disk, first, count - 1) + disk(first + count - 1).value
  }

  ghost function ClusterData(fs: Fs, cluster: uint32): (data: seq<byte>)
    requires ReadableCluster(fs, cluster)
    ensures |data| == fs.ClusterSize()
  {
    SectorData(fs.disk, fs.ClusterToSector(cluster), fs.sectorsPerCluster)
  }

  /** The bytes of a list of clusters, cluster after cluster. */
  ghost function ChainData(fs: Fs, clusters: seq<uint32>): (data: seq<byte>)
    requires ReadableClusters(fs, clusters)
  {
    if clusters == [] then []
    else ChainData(fs, clusters[..|clusters| - 1]) + ClusterData(fs, clusters[|clusters| - 1])
  }

  lemma {:induction false} SectorDataAt(disk: Disk, first: nat, count: nat, at: nat)
    requires first + count <= TWO32 && ReadableSectors(disk, first, count) && at < SECTOR_SIZE * count
    ensures FetchInSectors(disk, first, at) == Byte(SectorData(disk, first, count)[at])
    decreases count
  {
    if at < SECTOR_SIZE * (count - 1) {
      SectorDataAt(disk, first, count - 1, at);
    } else {
      DivModUnique(count - 1, at - SECTOR_SIZE * (count - 1), SECTOR_SIZE);
    }
  }

  lemma MulStep(n: int, k: int)
    ensures n * k == (n - 1) * k + k
  {}

  lemma {:induction false} ChainDataLength(fs: Fs, clusters: seq<uint32>)
    requires ReadableClusters(fs, clusters)
    ensures |ChainData(fs, clusters)| == |clusters| * fs.ClusterSize()
    decreases |clusters|
  {
    if |clusters| > 0 {
      ChainDataLength(fs, clusters[..|clusters| - 1]);
      MulStep(|clusters|, fs.ClusterSize());
    }
  }

  lemma {:induction false} ChainDataAt(fs: Fs, clusters: seq<uint32>, index: nat, base: nat, at: nat)
    requires ReadableClusters(fs, clusters) && index < |clusters| && at < fs.ClusterSize()
    requires base == index * fs.ClusterSize()
    ensures base + at < |ChainData(fs, clusters)|
    ensures FetchInCluster(fs, clusters[index], at) == Byte(ChainData(fs, clusters)[base + at])
    decreases |clusters|
  {
    var n := |clusters|;
    var front, last := clusters[..n - 1], clusters[n - 1];
    ChainDataLength(fs, front);
    if index == n - 1 {
      SectorDataAt(fs.disk, fs.ClusterToSector(last), fs.sectorsPerCluster, at);
    } else {
      ChainDataAt(fs, front, index, base, at);
    }
  }

  lemma {:induction false} WalkChain(link: Links, clusters: seq<uint32>, index: nat)
    requires IsChain(link, clusters) && index < |clusters|
    requires forall i :: 0 <= i < |clusters| ==> clusters[i] != EOC_MARKER
    ensures Iterate(link, clusters[0], index) == clusters[index]
    ensures Walk(link, clusters[0], index) == Ok(clusters[index])
    decreases index
  {
    if index > 0 {
      WalkChain(link, clusters, index - 1);
      assert forall j :: 0 < j < index - 1 ==> !EndsAt(link, clusters[0], j);
    }
  }

  lemma ViewInChain(view: View, fs: Fs, clusters: seq<uint32>, index: nat, base: nat, at: nat)
    requires fs.sectorsPerCluster != 0 && IsChain(fs.Links(), clusters) && ReadableClusters(fs, clusters)
    requires IsView(view, fs, clusters[0])
    requires index < |clusters| && at < fs.ClusterSize() && base == index * fs.ClusterSize()
    ensures base + at < |ChainData(fs, clusters)| == |clusters| * fs.ClusterSize()
    ensures view(base + at) == Byte(ChainData(fs, clusters)[base + at])
  {
    ChainDataLength(fs, clusters);
    ChainDataAt(fs, clusters, index, base, at);
    WalkChain(fs.Links(), clusters, index);
    ViewInCluster(view, fs, clusters[0], index, base, at);
  }

  lemma QuotientBelow(p: nat, n: nat, d: nat)
    requires d > 0 && p < n * d
    ensures p / d < n
  {
    DivModFacts(p, d);
    if p / d >= n {
      MulOrder(n, p / d, d);
    }
  }

  /** On an intact chain every position yields the byte of the concatenated clusters. */
  lemma ViewIsChainData(view: View, fs: Fs, clusters: seq<uint32>, p: nat)
    requires fs.sectorsPerCluster != 0 && IsChain(fs.Links(), clusters) && ReadableClusters(fs, clusters)
    requires IsView(view, fs, clusters[0])
    requires p < |clusters| * fs.ClusterSize()
    ensures p < |ChainData(fs, clusters)| == |clusters| * fs.ClusterSize()
    ensures view(p) == Byte(ChainData(fs, clusters)[p])
  {
    QuotientBelow(p, |clusters|, fs.ClusterSize());
    DivModFacts(p, fs.ClusterSize());
    ViewInChain(view, fs, clusters, p / fs.ClusterSize(), p - p % fs.ClusterSize(), p % fs.ClusterSize());
  }

  /** `content` is the file: `view` yields its bytes, one by one, up to its length. */
  ghost predicate Holds(view: View, content: seq<byte>) {
    forall p: nat :: p < |content| ==> view(p) == Byte(content[p])
  }

  /** A file whose chain is intact and long enough for its size is the first `fileSize`
      bytes of the concatenated clusters. */
  lemma IntactFileHolds(view: View, fs: Fs, clusters: seq<uint32>, fileSize: uint32)
    requires fs.sectorsPerCluster != 0 && IsChain(fs.Links(), clusters) && ReadableClusters(fs, clusters)
    requires IsView(view, fs, clusters[0])
    requires fileSize <= |clusters| * fs.ClusterSize()
    ensures |ChainData(fs, clusters)| == |clusters| * fs.ClusterSize()
    ensures Holds(view, ChainData(fs, clusters)[..fileSize])
  {
    ChainDataLength(fs, clusters);
    forall p: nat | p < fileSize
      ensures view(p) == Byte(ChainData(fs, clusters)[p])
    {
      ViewIsChainData(view, fs, clusters, p);
    }
  }

  // ---------- The cursor ----------

  /** The same calls on a plain byte sequence. */
  function CursorStep(content: seq<byte>, at: nat, op: Op): (o: Outcome)
    requires |content| < TWO32
  {
    match op
    case ReadOp(size) =>
      var left := if at < |content| then |content| - at else 0;
      var wanted := if Wrap32(size) <= left then Wrap32(size) else left;
      if wanted == 0 then Outcome(at, 0, [])
      else Outcome(at + wanted, ToInt32(wanted), content[at..at + wanted])
    case SeekOp(to) =>
      if 0 <= to <= |content| then Outcome(to, 0, []) else Outcome(at, -4, [])
  }

  function CursorRun(content: seq<byte>, at: nat, ops: seq<Op>): (run: seq<Outcome>)
    requires |content| < TWO32
    decreases |ops|
  {
    if ops == [] then []
    else
      var o := CursorStep(content, at, ops[0]);
      [o] + CursorRun(content, o.offset, ops[1..])
  }

  lemma IntactRead(view: View, content: seq<byte>, offset: uint32, size: int32)
    requires Holds(view, content) && |content| < TWO32
    ensures ReadOutcome(view, |content|, offset, size) == CursorStep(content, offset, ReadOp(size))
  {
    var n := Requested(|content|, offset, size);
    AvailableUnique(view, offset, n, n);
    if n > 0 {
      assert Bytes(view, offset, n) == content[offset..offset + n];
    }
  }

  /** Any sequence of reads and seeks on an intact file returns what a cursor over its
      bytes returns: every count, every byte and every position. */
  lemma {:induction false} DriverRefinesCursor(view: View, content: seq<byte>, offset: uint32, ops: seq<Op>)
    requires Holds(view, content) && |content| < TWO32
    ensures DriverRun(view, |content|, offset, ops) == CursorRun(content, offset, ops)
    decreases |ops|
  {
    if ops != [] {
      if ops[0].ReadOp? {
        IntactRead(view, content, offset, ops[0].size);
      }
      var o := DriverStep(view, |content|, offset, ops[0]);
      DriverRefinesCursor(view, content, o.offset, ops[1..]);
    }
  }

  /** End to end: a handle on an intact chain is a cursor over the concatenated clusters. */
  lemma IntactFileIsCursor(fs: Fs, clusters: seq<uint32>, fileSize: uint32, ops: seq<Op>)
    requires fs.sectorsPerCluster != 0 && IsChain(fs.Links(), clusters) && ReadableClusters(fs, clusters)
    requires fileSize <= |clusters| * fs.ClusterSize()
    ensures fileSize <= |ChainData(fs, clusters)|
    ensures DriverRun(FileView(fs, clusters[0]), fileSize, 0, ops)
         == CursorRun(ChainData(fs, clusters)[..fileSize], 0, ops)
  {
    var view := FileView(fs, clusters[0]);
    IntactFileHolds(view, fs, clusters, fileSize);
    DriverRefinesCursor(view, ChainData(fs, clusters)[..fileSize], 0, ops);
  }

  // ---------- Sound and broken chains ----------

  /** Linked clusters of the volume; their data sectors may be unreadable. */
  ghost predicate SoundChain(fs: Fs, clusters: seq<uint32>) {
    && IsChain(fs.Links(), clusters)
    && forall i :: 0 <= i < |clusters| ==> clusters[i] != EOC_MARKER && fs.ClusterToSector(clusters[i]) >= 0
  }

  /** What the FAT says comes after the last cluster: a cluster, the end marker, or an error
      code in place of a cluster. */
  function After(fs: Fs, clusters: seq<uint32>): (x: uint32)
    requires clusters != []
  {
    fs.NextCluster(clusters[|clusters| - 1])
  }

  /** The chain goes no further inside the volume: an end marker, a bad or reserved entry, an
      unreadable FAT sector or a link out of range. */
  ghost predicate Broken(fs: Fs, clusters: seq<uint32>) {
    SoundChain(fs, clusters) && fs.ClusterToSector(After(fs, clusters)) < 0
  }

  lemma ViewOnChain(view: View, fs: Fs, clusters: seq<uint32>, index: nat, base: nat, at: nat)
    requires fs.sectorsPerCluster != 0 && SoundChain(fs, clusters) && IsView(view, fs, clusters[0])
    requires index < |clusters| && at < fs.ClusterSize() && base == index * fs.ClusterSize()
    ensures view(base + at) == FetchInCluster(fs, clusters[index], at)
    ensures view(base + at).Byte? || view(base + at).SectorFault?
  {
    WalkChain(fs.Links(), clusters, index);
    ViewInCluster(view, fs, clusters[0], index, base, at);
  }

  /** On a sound chain nothing but a data sector can fail. */
  lemma OnlySectorsFail(view: View, fs: Fs, clusters: seq<uint32>, p: nat)
    requires fs.sectorsPerCluster != 0 && SoundChain(fs, clusters) && IsView(view, fs, clusters[0])
    requires p < |clusters| * fs.ClusterSize()
    ensures view(p).Byte? || view(p).SectorFault?
  {
    QuotientBelow(p, |clusters|, fs.ClusterSize());
    DivModFacts(p, fs.ClusterSize());
    ViewOnChain(view, fs, clusters, p / fs.ClusterSize(), p - p % fs.ClusterSize(), p % fs.ClusterSize());
  }

  lemma WalkPastEnd(link: Links, clusters: seq<uint32>, x: uint32)
    requires IsChain(link, clusters) && link(clusters[|clusters| - 1]) == x
    requires forall i :: 0 <= i < |clusters| ==> clusters[i] != EOC_MARKER
    ensures !EndsBefore(link, clusters[0], |clusters|)
    ensures Iterate(link, clusters[0], |clusters|) == x
  {
    forall j | 0 < j < |clusters|
      ensures !EndsAt(link, clusters[0], j)
    {
      WalkChain(link, clusters, j);
    }
    WalkChain(link, clusters, |clusters| - 1);
  }

  /** The position after a chain goes to the number the FAT gives there. */
  lemma ViewAtEnd(view: View, fs: Fs, clusters: seq<uint32>, base: nat, at: nat)
    requires fs.sectorsPerCluster != 0 && SoundChain(fs, clusters) && IsView(view, fs, clusters[0])
    requires base == |clusters| * fs.ClusterSize() && at < fs.ClusterSize()
    ensures view(base + at) == FetchInCluster(fs, After(fs, clusters), at)
  {
    WalkPastEnd(fs.Links(), clusters, After(fs, clusters));
    ViewInCluster(view, fs, clusters[0], |clusters|, base, at);
  }

  /** With a chain long enough for the file, every count is honest and every error clean,
      whatever data sectors fail. */
  lemma SoundChainHonest(view: View, fs: Fs, clusters: seq<uint32>, fileSize: uint32, offset: uint32, size: int32)
    requires fs.sectorsPerCluster != 0 && SoundChain(fs, clusters) && IsView(view, fs, clusters[0])
    requires fileSize <= |clusters| * fs.ClusterSize()
    ensures Honest(ReadOutcome(view, fileSize, offset, size), offset) <==> !LongCount(view, fileSize, offset, size)
    ensures size >= 0 ==> Honest(ReadOutcome(view, fileSize, offset, size), offset)
  {
    ViewCodesNegative(view, fs, clusters[0]);
    ReadHonest(view, fileSize, offset, size);
    forall k | 0 < k < Requested(fileSize, offset, size)
      ensures !BreaksAfter(view, offset, k)
    {
      OnlySectorsFail(view, fs, clusters, offset + k);
    }
  }

  /** The FAT ends the chain, on a volume so large that the end marker is a cluster number. */
  ghost predicate EndsInVolume(fs: Fs, clusters: seq<uint32>) {
    SoundChain(fs, clusters) && After(fs, clusters) == EOC_MARKER && fs.ClusterToSector(EOC_MARKER) >= 0
  }

  /** Every file that starts in the volume has a chain of `length` clusters inside it, or a
      shorter one after which the FAT gives nothing more. */
  lemma {:induction false} SoundOrBroken(fs: Fs, start: uint32, length: nat) returns (clusters: seq<uint32>)
    requires start > 2 && start != EOC_MARKER && fs.ClusterToSector(start) >= 0 && length > 0
    ensures SoundChain(fs, clusters) && clusters[0] == start
    ensures |clusters| == length || (|clusters| < length && (Broken(fs, clusters) || EndsInVolume(fs, clusters)))
    decreases length
  {
    if length == 1 {
      return [start];
    }
    clusters := SoundOrBroken(fs, start, length - 1);
    if |clusters| == length - 1 && !Broken(fs, clusters) && !EndsInVolume(fs, clusters) {
      clusters := clusters + [After(fs, clusters)];
    }
  }

  // ---------- Past a break ----------

  /** What a position yields that lies `j` clusters after a break, `x` being what the FAT
      gives there. The walk takes an error code for a cluster and goes on from it. */
  ghost function PastBreak(fs: Fs, x: uint32, j: nat, at: nat): (f: Fetch)
    requires at < fs.ClusterSize()
  {
    if x == EOC_MARKER || EndsBefore(fs.Links(), x, j) then WalkFault(ERROR_CORRUPTED_FS)
    else FetchInCluster(fs, Iterate(fs.Links(), x, j), at)
  }

  lemma ViewPastBreak(view: View, fs: Fs, clusters: seq<uint32>, j: nat, base: nat, at: nat)
    requires fs.sectorsPerCluster != 0 && SoundChain(fs, clusters) && IsView(view, fs, clusters[0])
    requires j > 0 && base == (|clusters| + j) * fs.ClusterSize() && at < fs.ClusterSize()
    ensures view(base + at) == PastBreak(fs, After(fs, clusters), j, at)
  {
    WalkPastEnd(fs.Links(), clusters, After(fs, clusters));
    WalkFrom(fs.Links(), clusters[0], |clusters|, j);
    ViewInCluster(view, fs, clusters[0], |clusters| + j, base, at);
  }

  /** What cluster number `index` of a file yields whose chain begins with `clusters`: their
      own bytes first, then what lies at the number the FAT gives after the last of them, as
      if it were a cluster, and further on what the FAT entry of that number decides. */
  ghost function ChainYields(fs: Fs, clusters: seq<uint32>, index: nat, at: nat): (f: Fetch)
    requires clusters != [] && at < fs.ClusterSize()
  {
    if index < |clusters| then FetchInCluster(fs, clusters[index], at)
    else if index == |clusters| then FetchInCluster(fs, After(fs, clusters), at)
    else PastBreak(fs, After(fs, clusters), index - |clusters|, at)
  }

  lemma QuotientAtLeast(p: nat, n: nat, d: nat)
    requires d > 0 && n * d <= p
    ensures n <= p / d
  {
    DivModFacts(p, d);
    if p / d < n {
      MulOrder(p / d + 1, n, d);
    }
  }

  lemma QuotientExactly(p: nat, n: nat, d: nat)
    requires d > 0
    ensures p / d < n <==> p < n * d
  {
    if p < n * d {
      QuotientBelow(p, n, d);
    } else {
      QuotientAtLeast(p, n, d);
    }
  }

  /** Exactly the positions before the end of a chain are answered from the chain. */
  lemma ChainRange(view: View, fs: Fs, clusters: seq<uint32>, index: nat, base: nat, at: nat)
    requires fs.sectorsPerCluster != 0 && SoundChain(fs, clusters) && IsView(view, fs, clusters[0])
    requires base == index * fs.ClusterSize() && at < fs.ClusterSize()
    ensures view(base + at) == ChainYields(fs, clusters, index, at)
    ensures index < |clusters| <==> base + at < |clusters| * fs.ClusterSize()
  {
    if index < |clusters| {
      ViewOnChain(view, fs, clusters, index, base, at);
    } else if index == |clusters| {
      ViewAtEnd(view, fs, clusters, base, at);
    } else {
      ViewPastBreak(view, fs, clusters, index - |clusters|, base, at);
    }
    DivModUnique(index, at, fs.ClusterSize());
    QuotientExactly(base + at, |clusters|, fs.ClusterSize());
  }

  /** After an end marker a position yields a byte exactly if it lies in the first cluster
      after the chain, the volume is so large that the marker is a cluster number, and the
      sector there can be read. */
  lemma PastEndMarker(view: View, fs: Fs, clusters: seq<uint32>, end: nat, p: nat)
    requires fs.sectorsPerCluster != 0 && SoundChain(fs, clusters) && IsView(view, fs, clusters[0])
    requires After(fs, clusters) == EOC_MARKER && end == |clusters| * fs.ClusterSize() <= p
    ensures var first := fs.ClusterToSector(EOC_MARKER);
            view(p).Byte? <==>
              p < end + fs.ClusterSize() && first >= 0 && fs.disk(first + (p - end) / SECTOR_SIZE).Some?
  {
    if p < end + fs.ClusterSize() {
      ViewAtEnd(view, fs, clusters, end, p - end);
    } else {
      FaultPastMarker(view, fs, clusters, end, p);
    }
  }

  lemma FaultPastMarker(view: View, fs: Fs, clusters: seq<uint32>, end: nat, p: nat)
    requires fs.sectorsPerCluster != 0 && SoundChain(fs, clusters) && IsView(view, fs, clusters[0])
    requires After(fs, clusters) == EOC_MARKER
    requires end == |clusters| * fs.ClusterSize() && end + fs.ClusterSize() <= p
    ensures view(p) == WalkFault(-5)
  {
    var size := fs.ClusterSize();
    DivModFacts(p, size);
    MulStep(|clusters| + 1, size);
    QuotientAtLeast(p, |clusters| + 1, size);
    ViewPastBreak(view, fs, clusters, p / size - |clusters|, p - p % size, p % size);
  }

  // ---------- Lost counts, wherever a read begins ----------

  /** `clusters` lie one after the other on the walk from `start`, the first of them as its
      number `index`, and no end marker among them stops the walk. */
  ghost predicate OnWalk(link: Links, start: uint32, index: nat, clusters: seq<uint32>) {
    && clusters != []
    && Walk(link, start, index) == Ok(clusters[0])
    && (forall i :: 0 < i < |clusters| ==> link(clusters[i - 1]) == clusters[i])
    && (forall i :: 0 <= i < |clusters| ==> index + i == 0 || clusters[i] != EOC_MARKER)
  }

  ghost predicate InVolume(fs: Fs, clusters: seq<uint32>) {
    forall i :: 0 <= i < |clusters| ==> fs.ClusterToSector(clusters[i]) >= 0
  }

  /** Clusters of the volume that a file meets from its cluster number `index` on. Nothing is
      said of how the walk came there: past a broken link they may belong to another chain. */
  ghost predicate Segment(fs: Fs, start: uint32, index: nat, clusters: seq<uint32>) {
    OnWalk(fs.Links(), start, index, clusters) && InVolume(fs, clusters)
  }

  /** The walk leaves the volume after the segment. */
  ghost predicate Breaks(fs: Fs, start: uint32, index: nat, clusters: seq<uint32>) {
    Segment(fs, start, index, clusters) && fs.ClusterToSector(After(fs, clusters)) < 0
  }

  lemma {:induction false} WalkOn(link: Links, start: uint32, index: nat, clusters: seq<uint32>, j: nat)
    requires OnWalk(link, start, index, clusters) && j <= |clusters|
    ensures Walk(link, start, index + j) == Ok(if j < |clusters| then clusters[j] else link(clusters[j - 1]))
    decreases j
  {
    if j > 0 {
      WalkOn(link, start, index, clusters, j - 1);
      WalkStep(link, start, index + j - 1, clusters[j - 1]);
    }
  }

  lemma ViewInSegment(view: View, fs: Fs, start: uint32, index: nat, clusters: seq<uint32>,
                      j: nat, base: nat, at: nat)
    requires fs.sectorsPerCluster != 0 && Segment(fs, start, index, clusters) && IsView(view, fs, start)
    requires j < |clusters| && base == (index + j) * fs.ClusterSize() && at < fs.ClusterSize()
    ensures view(base + at) == FetchInCluster(fs, clusters[j], at)
    ensures view(base + at).Byte? || view(base + at).SectorFault?
  {
    WalkOn(fs.Links(), start, index, clusters, j);
    ViewInCluster(view, fs, start, index + j, base, at);
  }

  lemma ViewOnSegment(view: View, fs: Fs, start: uint32, index: nat, clusters: seq<uint32>, begin: nat, p: nat)
    requires fs.sectorsPerCluster != 0 && Segment(fs, start, index, clusters) && IsView(view, fs, start)
    requires begin == index * fs.ClusterSize() <= p < begin + |clusters| * fs.ClusterSize()
    ensures view(p).Byte? || view(p).SectorFault?
  {
    var size := fs.ClusterSize();
    var j, at := (p - begin) / size, (p - begin) % size;
    QuotientBelow(p - begin, |clusters|, size);
    DivModFacts(p - begin, size);
    Distribute(index, j, size);
    ViewInSegment(view, fs, start, index, clusters, j, p - at, at);
  }

  lemma Distribute(a: int, b: int, k: int)
    ensures (a + b) * k == a * k + b * k
  {}

  lemma FaultAfterSegment(view: View, fs: Fs, start: uint32, index: nat, clusters: seq<uint32>, end: nat)
    requires fs.sectorsPerCluster != 0 && Breaks(fs, start, index, clusters) && IsView(view, fs, start)
    requires end == (index + |clusters|) * fs.ClusterSize()
    ensures view(end) == ClusterFault(fs.ClusterToSector(After(fs, clusters)))
  {
    WalkOn(fs.Links(), start, index, clusters, |clusters|);
    ViewInCluster(view, fs, start, index + |clusters|, end, 0);
  }

  /** A read that begins in a segment loses its count exactly if it crosses the end of the
      segment and finds everything before the end readable. */
  lemma SegmentLoses(view: View, fs: Fs, start: uint32, index: nat, clusters: seq<uint32>, begin: nat, end: nat,
                     fileSize: uint32, offset: uint32, size: int32)
    requires fs.sectorsPerCluster != 0 && Breaks(fs, start, index, clusters) && IsView(view, fs, start)
    requires begin == index * fs.ClusterSize() && end == (index + |clusters|) * fs.ClusterSize()
    requires begin <= offset < end
    ensures LostCount(view, fileSize, offset, size) <==>
            end < offset + Requested(fileSize, offset, size) && Readable(view, offset, end - offset)
  {
    var n := Requested(fileSize, offset, size);
    FaultAfterSegment(view, fs, start, index, clusters, end);
    Distribute(index, |clusters|, fs.ClusterSize());
    if LostCount(view, fileSize, offset, size) {
      var k :| 0 < k < n && BreaksAfter(view, offset, k);
      if offset + k < end {
        ViewOnSegment(view, fs, start, index, clusters, begin, offset + k);
        assert false;
      }
      assert end < offset + k ==> view(end).Byte?;
    }
    if end < offset + n && Readable(view, offset, end - offset) {
      assert BreaksAfter(view, offset, end - offset);
    }
  }

  lemma ByteInVolume(view: View, fs: Fs, start: uint32, index: nat, base: nat, p: nat)
    requires fs.sectorsPerCluster != 0 && IsView(view, fs, start) && view(p).Byte?
    requires base == index * fs.ClusterSize() <= p < base + fs.ClusterSize()
    ensures var w := Walk(fs.Links(), start, index);
            w.Ok? && w.value == Iterate(fs.Links(), start, index) && fs.ClusterToSector(w.value) >= 0
  {
    ViewInCluster(view, fs, start, index, base, p - base);
  }

  lemma FaultOutsideVolume(view: View, fs: Fs, start: uint32, index: nat, base: nat, p: nat)
    requires fs.sectorsPerCluster != 0 && IsView(view, fs, start) && view(p).ClusterFault?
    requires base == index * fs.ClusterSize() <= p < base + fs.ClusterSize()
    ensures var w := Walk(fs.Links(), start, index);
            w.Ok? && w.value == Iterate(fs.Links(), start, index) && fs.ClusterToSector(w.value) < 0
  {
    ViewInCluster(view, fs, start, index, base, p - base);
  }

  /** The clusters between a readable position and the first fault after it are readable in
      part, so they lie in the volume. */
  lemma BetweenInVolume(view: View, fs: Fs, start: uint32, offset: nat, k: nat, first: nat, last: nat, i: nat)
    requires fs.sectorsPerCluster != 0 && IsView(view, fs, start) && Readable(view, offset, k)
    requires first * fs.ClusterSize() <= offset < first * fs.ClusterSize() + fs.ClusterSize()
    requires last * fs.ClusterSize() <= offset + k && first <= i < last
    ensures fs.ClusterToSector(Iterate(fs.Links(), start, i)) >= 0
  {
    var size := fs.ClusterSize();
    MulOrder(i + 1, last, size);
    MulStep(i + 1, size);
    if first < i {
      MulOrder(first + 1, i, size);
      MulStep(first + 1, size);
      ByteInVolume(view, fs, start, i, i * size, i * size);
    } else {
      ByteInVolume(view, fs, start, i, i * size, offset);
    }
  }

  /** The numbers `first` to `last - 1` of a walk. */
  function Stretch(link: Links, start: uint32, first: nat, last: nat): (clusters: seq<uint32>)
    requires first <= last
    ensures |clusters| == last - first
  {
    seq<uint32>(last - first, j requires 0 <= j < last - first => Iterate(link, start, first + j))
  }

  lemma IteratesOnWalk(link: Links, start: uint32, first: nat, clusters: seq<uint32>)
    requires clusters != [] && Walk(link, start, first + |clusters|).Ok?
    requires forall j :: 0 <= j < |clusters| ==> clusters[j] == Iterate(link, start, first + j)
    ensures OnWalk(link, start, first, clusters)
    ensures link(clusters[|clusters| - 1]) == Iterate(link, start, first + |clusters|)
  {
    forall j | 0 <= j < |clusters|
      ensures link(clusters[j]) == Iterate(link, start, first + j + 1)
      ensures first + j == 0 || clusters[j] != EOC_MARKER
    {
      assert first + j > 0 ==> !EndsAt(link, start, first + j);
    }
    assert forall j :: 0 < j < first ==> !EndsAt(link, start, j);
  }

  /** A byte and a fault lie in different clusters. */
  lemma FaultElsewhere(view: View, fs: Fs, start: uint32, first: nat, p: nat, b: nat, last: nat, q: nat, d: nat)
    requires fs.sectorsPerCluster != 0 && IsView(view, fs, start) && view(p).Byte? && view(q).ClusterFault?
    requires b == first * fs.ClusterSize() <= p < b + fs.ClusterSize()
    requires d == last * fs.ClusterSize() <= q < d + fs.ClusterSize()
    ensures first != last && Walk(fs.Links(), start, last).Ok?
    ensures fs.ClusterToSector(Iterate(fs.Links(), start, last)) < 0
  {
    ByteInVolume(view, fs, start, first, b, p);
    FaultOutsideVolume(view, fs, start, last, d, q);
  }

  lemma InOrder(p: nat, q: nat, i: nat, j: nat, size: nat)
    requires p <= q && i * size <= p && q < j * size + size
    ensures i <= j
  {
    if j < i {
      MulOrder(j + 1, i, size);
      MulStep(j + 1, size);
    }
  }

  lemma StretchInVolume(view: View, fs: Fs, start: uint32, offset: nat, k: nat, first: nat, last: nat)
    requires fs.sectorsPerCluster != 0 && IsView(view, fs, start) && Readable(view, offset, k)
    requires first * fs.ClusterSize() <= offset < first * fs.ClusterSize() + fs.ClusterSize()
    requires last * fs.ClusterSize() <= offset + k && first <= last
    ensures InVolume(fs, Stretch(fs.Links(), start, first, last))
  {
    var clusters := Stretch(fs.Links(), start, first, last);
    forall i | 0 <= i < |clusters|
      ensures fs.ClusterToSector(clusters[i]) >= 0
    {
      BetweenInVolume(view, fs, start, offset, k, first, last, first + i);
    }
  }

  lemma StretchOnWalk(link: Links, start: uint32, first: nat, last: nat)
    requires first < last && Walk(link, start, last).Ok?
    ensures var clusters := Stretch(link, start, first, last);
            OnWalk(link, start, first, clusters) && link(clusters[|clusters| - 1]) == Iterate(link, start, last)
  {
    IteratesOnWalk(link, start, first, Stretch(link, start, first, last));
  }

  lemma LeavesVolume(fs: Fs, start: uint32, clusters: seq<uint32>, first: nat, x: uint32)
    requires OnWalk(fs.Links(), start, first, clusters) && InVolume(fs, clusters)
    requires fs.Links()(clusters[|clusters| - 1]) == x && fs.ClusterToSector(x) < 0
    ensures Breaks(fs, start, first, clusters)
  {}

  lemma SegmentBeforeFault(view: View, fs: Fs, start: uint32, offset: nat, k: nat, first: nat)
    returns (clusters: seq<uint32>)
    requires fs.sectorsPerCluster != 0 && IsView(view, fs, start) && k > 0 && BreaksAfter(view, offset, k)
    requires first * fs.ClusterSize() <= offset < first * fs.ClusterSize() + fs.ClusterSize()
    ensures Breaks(fs, start, first, clusters)
  {
    var size := fs.ClusterSize();
    var last := (offset + k) / size;
    DivModFacts(offset + k, size);
    FaultElsewhere(view, fs, start, first, offset, first * size, last, offset + k, last * size);
    InOrder(offset, offset + k, first, last, size);
    StretchInVolume(view, fs, start, offset, k, first, last);
    StretchOnWalk(fs.Links(), start, first, last);
    clusters := Stretch(fs.Links(), start, first, last);
    LeavesVolume(fs, start, clusters, first, Iterate(fs.Links(), start, last));
  }

  /** A read from `offset`, in cluster number `index`, crosses the end of the clusters that
      begin there and finds everything before the end readable. */
  ghost predicate Crosses(view: View, fs: Fs, index: nat, clusters: seq<uint32>,
                          fileSize: uint32, offset: uint32, size: int32) {
    var end := (index + |clusters|) * fs.ClusterSize();
    offset < end < offset + Requested(fileSize, offset, size) && Readable(view, offset, end - offset)
  }

  lemma SegmentEnd(index: nat, n: nat, size: nat, offset: nat)
    requires n > 0 && offset < index * size + size
    ensures offset < (index + n) * size
  {
    MulOrder(index + 1, index + n, size);
    MulStep(index + 1, size);
  }

  lemma CrossingLoses(view: View, fs: Fs, start: uint32, index: nat, clusters: seq<uint32>,
                      fileSize: uint32, offset: uint32, size: int32)
    requires fs.sectorsPerCluster != 0 && IsView(view, fs, start) && Breaks(fs, start, index, clusters)
    requires index * fs.ClusterSize() <= offset < index * fs.ClusterSize() + fs.ClusterSize()
    ensures LostCount(view, fileSize, offset, size) <==> Crosses(view, fs, index, clusters, fileSize, offset, size)
  {
    var begin, end := index * fs.ClusterSize(), (index + |clusters|) * fs.ClusterSize();
    SegmentEnd(index, |clusters|, fs.ClusterSize(), offset);
    SegmentLoses(view, fs, start, index, clusters, begin, end, fileSize, offset, size);
  }

  /** On every file, wherever it starts, and at every offset: a count is lost exactly if the
      clusters the walk meets from the offset on leave the volume inside the request, with
      everything before that readable. */
  lemma LostCountExactly(view: View, fs: Fs, start: uint32, index: nat,
                         fileSize: uint32, offset: uint32, size: int32)
    requires fs.sectorsPerCluster != 0 && IsView(view, fs, start)
    requires index * fs.ClusterSize() <= offset < index * fs.ClusterSize() + fs.ClusterSize()
    ensures LostCount(view, fileSize, offset, size) <==>
            exists clusters :: Breaks(fs, start, index, clusters)
                            && Crosses(view, fs, index, clusters, fileSize, offset, size)
  {
    if LostCount(view, fileSize, offset, size) {
      var k :| 0 < k < Requested(fileSize, offset, size) && BreaksAfter(view, offset, k);
      var clusters := SegmentBeforeFault(view, fs, start, offset, k, index);
      CrossingLoses(view, fs, start, index, clusters, fileSize, offset, size);
    }
    if clusters :| Breaks(fs, start, index, clusters) && Crosses(view, fs, index, clusters, fileSize, offset, size) {
      CrossingLoses(view, fs, start, index, clusters, fileSize, offset, size);
    }
  }

  /** Every file, every offset, every size: counts are honest and errors clean exactly unless
      the walk leaves the volume inside the request or the count does not fit. */
  lemma HonestExactly(view: View, fs: Fs, start: uint32, index: nat, fileSize: uint32, offset: uint32, size: int32)
    requires fs.sectorsPerCluster != 0 && IsView(view, fs, start)
    requires index * fs.ClusterSize() <= offset < index * fs.ClusterSize() + fs.ClusterSize()
    ensures Honest(ReadOutcome(view, fileSize, offset, size), offset) <==>
            && !LongCount(view, fileSize, offset, size)
            && !exists clusters :: Breaks(fs, start, index, clusters)
                                && Crosses(view, fs, index, clusters, fileSize, offset, size)
  {
    ViewCodesNegative(view, fs, start);
    ReadHonest(view, fileSize, offset, size);
    LostCountExactly(view, fs, start, index, fileSize, offset, size);
  }

  /** What such a read does: it delivers the bytes up to the end of the segment and moves the
      offset there, yet returns the error. */
  lemma LostCountOutcome(view: View, fs: Fs, start: uint32, index: nat, clusters: seq<uint32>, end: nat,
                         fileSize: uint32, offset: uint32, size: int32)
    requires fs.sectorsPerCluster != 0 && Breaks(fs, start, index, clusters) && IsView(view, fs, start)
    requires end == (index + |clusters|) * fs.ClusterSize()
    requires offset < end < offset + Requested(fileSize, offset, size) && Readable(view, offset, end - offset)
    ensures ReadOutcome(view, fileSize, offset, size)
         == Outcome(end, fs.ClusterToSector(After(fs, clusters)), Bytes(view, offset, end - offset))
  {
    FaultAfterSegment(view, fs, start, index, clusters, end);
    AvailableUnique(view, offset, Requested(fileSize, offset, size), end - offset);
  }

  /** Where the end marker is itself a cluster number, no read ever meets an invalid one. */
  lemma EndInVolumeNeverBreaks(view: View, fs: Fs, clusters: seq<uint32>, index: nat, base: nat, at: nat)
    requires fs.sectorsPerCluster != 0 && EndsInVolume(fs, clusters) && IsView(view, fs, clusters[0])
    requires base == index * fs.ClusterSize() && at < fs.ClusterSize()
    ensures !view(base + at).ClusterFault?
  {
    if index < |clusters| {
      ViewOnChain(view, fs, clusters, index, base, at);
    } else if index == |clusters| {
      ViewAtEnd(view, fs, clusters, base, at);
    } else {
      ViewPastBreak(view, fs, clusters, index - |clusters|, base, at);
    }
  }

  lemma NoInvalidCluster(view: View, fs: Fs, clusters: seq<uint32>, p: nat)
    requires fs.sectorsPerCluster != 0 && EndsInVolume(fs, clusters) && IsView(view, fs, clusters[0])
    ensures !view(p).ClusterFault?
  {
    var size := fs.ClusterSize();
    DivModFacts(p, size);
    EndInVolumeNeverBreaks(view, fs, clusters, p / size, p - p % size, p % size);
  }

  lemma EndInVolumeHonest(view: View, fs: Fs, clusters: seq<uint32>, fileSize: uint32, offset: uint32, size: int32)
    requires fs.sectorsPerCluster != 0 && EndsInVolume(fs, clusters) && IsView(view, fs, clusters[0])
    ensures Honest(ReadOutcome(view, fileSize, offset, size), offset) <==> !LongCount(view, fileSize, offset, size)
  {
    ViewCodesNegative(view, fs, clusters[0]);
    ReadHonest(view, fileSize, offset, size);
    forall k | 0 < k < Requested(fileSize, offset, size)
      ensures !BreaksAfter(view, offset, k)
    {
      NoInvalidCluster(view, fs, clusters, offset + k);
    }
  }

  // ---------- Examples ----------

  /** A volume with one-sector clusters whose sectors all hold the same bytes, FAT included. */
  function ExampleVolume(sector: Sector): Fs {
    Fs(_ => Some(sector), 1, 1, 8, 2, 100, 200, 100, 32)
  }

  /** Every cluster is marked as the last one of its chain. */
  function EndMarkers(): Sector {
    seq(512, _ => 0xFF)
  }

  /** Reading 600 bytes of a 1024-byte file that has only one cluster delivers 512 bytes,
      moves the offset, and returns an error. */
  lemma ShortChainExample()
    ensures var o := ReadOutcome(FileView(ExampleVolume(EndMarkers()), 3), 1024, 0, 600);
            o.result == -13 && o.offset == 512 == |o.data|
  {
    var fs := ExampleVolume(EndMarkers());
    var view := FileView(fs, 3);
    assert fs.Links()(3) == fs.NextCluster(3) == EOC_MARKER;
    assert Readable(view, 0, 512) by {
      IntactFileHolds(view, fs, [3], 512);
    }
    LostCountOutcome(view, fs, 3, 0, [3], 512, 1024, 0, 600);
  }

  /** A FAT sector in which cluster 3 is marked bad, and the entry that error code -1 would
      have links to cluster 5. */
  predicate BadLink(sector: Sector) {
    sector[12..16] == WordBytes(0x0FFF_FFF7) && sector[508..] == WordBytes(5)
  }

  lemma BadLinks(sector: Sector, fs: Fs)
    requires BadLink(sector) && fs == ExampleVolume(sector)
    ensures fs.NextCluster(3) == Wrap32(ERROR_IO)
    ensures fs.NextCluster(Wrap32(ERROR_IO)) == 5
  {
    StoredLink(fs, 3, 0x0FFF_FFF7);
    StoredLink(fs, Wrap32(ERROR_IO), 5);
  }

  lemma ForeignByte(sector: Sector, fs: Fs, view: View, at: nat)
    requires BadLink(sector) && fs == ExampleVolume(sector) && IsView(view, fs, 3) && at < 512
    ensures view(1024 + at) == Byte(sector[at])
  {
    BadLinks(sector, fs);
    OneStepPastBreak(fs, Wrap32(ERROR_IO), 5, at);
    ViewPastBreak(view, fs, [3], 1, 1024, at);
  }

  lemma OneStepPastBreak(fs: Fs, x: uint32, next: uint32, at: nat)
    requires x != EOC_MARKER && fs.NextCluster(x) == next && at < fs.ClusterSize()
    ensures PastBreak(fs, x, 1, at) == FetchInCluster(fs, next, at)
  {
    assert Iterate(fs.Links(), x, 1) == fs.Links()(Iterate(fs.Links(), x, 0));
  }

  /** Past a bad cluster the walk finds the bytes of a foreign cluster and counts them. */
  lemma ForeignBytesExample(sector: Sector, fs: Fs)
    requires BadLink(sector) && fs == ExampleVolume(sector)
    ensures fs.NextCluster(3) == Wrap32(ERROR_IO) && fs.ClusterToSector(5) == 103
    ensures ReadOutcome(FileView(fs, 3), 2048, 1024, 16) == Outcome(1040, 16, fs.disk(103).value[..16])
  {
    var view := FileView(fs, 3);
    BadLinks(sector, fs);
    forall p: nat | 1024 <= p < 1024 + 16
      ensures view(p) == Byte(sector[p - 1024])
    {
      ForeignByte(sector, fs, view, p - 1024);
    }
    ReadOutcomeIs(view, 2048, 1024, 16, sector[..16]);
  }

  /** The same with the chain of cluster 5 ended there. */
  predicate BadLinkToEnd(sector: Sector) {
    BadLink(sector) && sector[20..24] == WordBytes(0x0FFF_FFFF)
  }

  lemma ThirdOnWalk(link: Links, start: uint32, x: uint32, y: uint32)
    requires start > 2 && link(start) == x != EOC_MARKER && link(x) == y != EOC_MARKER
    ensures OnWalk(link, start, 2, [y])
  {
    WalkStep(link, start, 0, start);
    WalkStep(link, start, 1, x);
  }

  lemma ForeignSegment(sector: Sector, fs: Fs)
    requires BadLinkToEnd(sector) && fs == ExampleVolume(sector)
    ensures Broken(fs, [3]) && Breaks(fs, 3, 2, [5]) && After(fs, [5]) == EOC_MARKER
  {
    BadLinks(sector, fs);
    StoredLink(fs, 5, 0x0FFF_FFFF);
    ThirdOnWalk(fs.Links(), 3, Wrap32(ERROR_IO), 5);
  }

  lemma ForeignRun(sector: Sector, fs: Fs, view: View)
    requires BadLink(sector) && fs == ExampleVolume(sector) && IsView(view, fs, 3)
    ensures Readable(view, 1024, 512) && Bytes(view, 1024, 512) == sector
  {
    forall p: nat | 1024 <= p < 1024 + 512
      ensures view(p) == Byte(sector[p - 1024])
    {
      ForeignByte(sector, fs, view, p - 1024);
    }
  }

  /** A read that begins past the end of its own chain loses the count of foreign bytes. */
  lemma ForeignLossExample(sector: Sector, fs: Fs)
    requires BadLinkToEnd(sector) && fs == ExampleVolume(sector)
    ensures Broken(fs, [3]) && LostCount(FileView(fs, 3), 2048, 1024, 600)
    ensures ReadOutcome(FileView(fs, 3), 2048, 1024, 600) == Outcome(1536, ERROR_INVALID_CLUSTER, sector)
  {
    var view := FileView(fs, 3);
    ForeignSegment(sector, fs);
    ForeignRun(sector, fs, view);
    SegmentLoses(view, fs, 3, 2, [5], 1024, 1536, 2048, 1024, 600);
    LostCountOutcome(view, fs, 3, 2, [5], 1536, 2048, 1024, 600);
  }

  /** The boot sector of a volume so large that the end marker is the number of a cluster. */
  const LARGE_VOLUME: BootSector := BootSector(1, 32, 1, 0, 0x2000_0000, 0x0040_0000, 2)

  /** On such a volume bytes are delivered from beyond the end marker of a chain. */
  lemma PastEndMarkerExample(fs: Fs)
    requires fs == InitializeFs(_ => Some(EndMarkers()), LARGE_VOLUME, 0)
    ensures After(fs, [3]) == EOC_MARKER
    ensures ReadOutcome(FileView(fs, 3), 1024, 512, 16) == Outcome(528, 16, EndMarkers()[..16])
  {
    var view := FileView(fs, 3);
    assert fs.NextCluster(3) == EOC_MARKER;
    forall p: nat | 512 <= p < 512 + 16
      ensures view(p) == Byte(EndMarkers()[p - 512])
    {
      ViewAtEnd(view, fs, [3], 512, p - 512);
    }
    ReadOutcomeIs(view, 1024, 512, 16, EndMarkers()[..16]);
  }
}
