/** Volume geometry, FAT lookup and cluster-chain walking of os/fs/fat32.c, on every
    possible disk: sectors may be unreadable and the FAT may hold any bytes. */
module Fat32Volume {
  import opened Options
  import opened Words

  const SECTOR_SIZE: int := 512
  const EOC_MARKER: uint32 := 0x0FFF_FFFF

  const ERROR_IO: int := -1
  const ERROR_BAD_PARAMETER: int := -4
  const ERROR_CORRUPTED_FS: int := -5
  const ERROR_INVALID_CLUSTER: int := -13

  type Sector = s: seq<byte> | |s| == 512 witness seq(512, _ => 0)

  /** `read_sector`: the bytes of a sector, or None when the read fails. */
  type Disk = uint32 -> Option<Sector>

  datatype Fs = Fs(
    disk: Disk,
    sectorsPerCluster: byte,
    numFats: byte,
    sectorsPerFat: uint32,
    rootCluster: uint32,
    totalClusters: uint32,
    totalSectors: uint32,
    firstDataSector: uint32,
    fatStartSector: uint32)
  {
    function ClusterSize(): (size: nat) {
      SECTOR_SIZE * sectorsPerCluster
    }

    // ---------- One FAT entry ----------

    static function LittleEndian32(b: seq<byte>, at: nat): (w: uint32)
      requires at + 4 <= |b|
    {
      b[at] as int + 0x100 * b[at + 1] as int + 0x1_0000 * b[at + 2] as int + 0x100_0000 * b[at + 3] as int
    }

    static function FatEntryOffset(cluster: uint32): (at: nat)
      ensures at + 4 <= SECTOR_SIZE && at % 4 == 0
    {
      var fatOffset := Wrap32(cluster * 4);
      assert fatOffset % 4 == 0;
      fatOffset % SECTOR_SIZE
    }

    function FatEntrySector(cluster: uint32): (sector: uint32) {
      Wrap32(Wrap32(cluster * 4) / SECTOR_SIZE + fatStartSector)
    }

    /** `fat32_get_next_cluster`. Error codes are returned as cluster numbers, as in C. */
    function NextCluster(cluster: uint32): (next: uint32) {
      match disk(FatEntrySector(cluster))
      case None => Wrap32(ERROR_IO)
      case Some(buffer) =>
        var value := LittleEndian32(buffer, FatEntryOffset(cluster)) % 0x1000_0000;
        if value >= 0x0FFF_FFF8 then EOC_MARKER
        else if value == 0x0FFF_FFF7 then Wrap32(ERROR_IO)
        else if value < 2 then Wrap32(ERROR_CORRUPTED_FS)
        else value
    }

    /** `cluster_to_sector`: 32-bit unsigned arithmetic, reinterpreted as signed. */
    function ClusterToSector(cluster: uint32): (sector: int32)
      ensures sector >= 0 ==> sector == Wrap32((cluster - 2) * sectorsPerCluster + firstDataSector)
    {
      if cluster < 2 || cluster >= Wrap32(2 + totalClusters) then
        ERROR_INVALID_CLUSTER
      else
        ToInt32(Wrap32((cluster - 2) * sectorsPerCluster + firstDataSector))
    }

    /** The FAT as a link function between clusters. */
    function Links(): (link: Links) {
      cluster => NextCluster(cluster)
    }
  }

  // ---------- Stored words ----------

  /** A 32-bit word as it is stored, low byte first. */
  function WordBytes(w: uint32): (b: seq<byte>) {
    [w % 0x100, w / 0x100 % 0x100, w / 0x1_0000 % 0x100, w / 0x100_0000]
  }

  lemma WordExample()
    ensures WordBytes(0x1234_5678) == [0x78, 0x56, 0x34, 0x12]
  {}

  lemma WordDigits(w: uint32)
    ensures w == w % 0x100 + 0x100 * (w / 0x100 % 0x100)
              + 0x1_0000 * (w / 0x1_0000 % 0x100) + 0x100_0000 * (w / 0x100_0000)
  {
    var a, b, c := w / 0x100, w / 0x1_0000, w / 0x100_0000;
    assert b == a / 0x100 && c == b / 0x100;
  }

  lemma WordRoundTrip(w: uint32, b: seq<byte>, at: nat)
    requires at + 4 <= |b| && b[at..at + 4] == WordBytes(w)
    ensures Fs.LittleEndian32(b, at) == w
  {
    WordDigits(w);
    var word := b[at..at + 4];
    assert word[0] == b[at] && word[1] == b[at + 1] && word[2] == b[at + 2] && word[3] == b[at + 3];
  }

  /** A stored FAT entry links by its low 28 bits; the top four are reserved. End-of-chain,
      bad-cluster and reserved values are told apart as the FAT32 specification has them. */
  lemma StoredLink(fs: Fs, cluster: uint32, stored: uint32)
    requires fs.disk(fs.FatEntrySector(cluster)).Some?
    requires var at := Fs.FatEntryOffset(cluster);
             fs.disk(fs.FatEntrySector(cluster)).value[at..at + 4] == WordBytes(stored)
    ensures var link := stored % 0x1000_0000;
            fs.NextCluster(cluster) ==
              if link >= 0x0FFF_FFF8 then 0x0FFF_FFFF
              else if link == 0x0FFF_FFF7 then 0xFFFF_FFFF  // -1, an I/O error
              else if link < 2 then 0xFFFF_FFFB             // -5, a corrupted file system
              else link
  {
    WordRoundTrip(stored, fs.disk(fs.FatEntrySector(cluster)).value, Fs.FatEntryOffset(cluster));
  }

  /** Where the FAT cannot be read the error code -1 takes the place of the link. */
  lemma UnreadableLink(fs: Fs, cluster: uint32)
    requires fs.disk(fs.FatEntrySector(cluster)).None?
    ensures fs.NextCluster(cluster) == 0xFFFF_FFFF
  {}

  // ---------- Walking a chain ----------

  type Links = uint32 -> uint32

  /** `link` followed `steps` times. */
  function Iterate(link: Links, start: uint32, steps: nat): uint32 {
    if steps == 0 then start else link(Iterate(link, start, steps - 1))
  }

  ghost predicate EndsAt(link: Links, start: uint32, steps: nat) {
    Iterate(link, start, steps) == EOC_MARKER
  }

  /** An end-of-chain marker is met before the last step of a walk. */
  ghost predicate EndsBefore(link: Links, start: uint32, index: nat) {
    exists j :: 0 < j < index && EndsAt(link, start, j)
  }

  /** What `get_cluster_at_index` yields. */
  ghost function Walk(link: Links, start: uint32, index: nat): Status<uint32> {
    if start <= 2 then Err(ERROR_BAD_PARAMETER)
    else if EndsBefore(link, start, index) then Err(ERROR_CORRUPTED_FS)
    else Ok(Iterate(link, start, index))
  }

  /** `get_cluster_at_index`, `link` being `fat32_get_next_cluster` on the mounted volume. */
  method GetClusterAtIndex(link: Links, start: uint32, index: uint32) returns (result: Status<uint32>)
    ensures result == Walk(link, start, index)
  {
    if start <= 2 {
      return Err(ERROR_BAD_PARAMETER);
    }
    var current := start;
    for i := 0 to index
      invariant current == Iterate(link, start, i)
      invariant forall j :: 0 < j <= i && j < index ==> !EndsAt(link, start, j)
    {
      var next := link(current);
      if next == EOC_MARKER && i < index - 1 {
        assert EndsAt(link, start, i + 1);
        return Err(ERROR_CORRUPTED_FS);
      }
      current := next;
    }
    return Ok(current);
  }

  lemma {:induction false} IterateFrom(link: Links, start: uint32, n: nat, j: nat)
    ensures Iterate(link, start, n + j) == Iterate(link, Iterate(link, start, n), j)
    decreases j
  {
    if j > 0 {
      IterateFrom(link, start, n, j - 1);
    }
  }

  /** A walk that goes on `j > 0` steps after reaching `x` in `n` steps fails if `x` is the
      end marker and otherwise does what a walk from `x` would do, error code or not. */
  lemma WalkFrom(link: Links, start: uint32, n: nat, j: nat)
    requires start > 2 && n > 0 && j > 0 && !EndsBefore(link, start, n)
    ensures var x := Iterate(link, start, n);
            Walk(link, start, n + j) ==
              if x == EOC_MARKER || EndsBefore(link, x, j) then Err(ERROR_CORRUPTED_FS)
              else Ok(Iterate(link, x, j))
  {
    var x := Iterate(link, start, n);
    IterateFrom(link, start, n, j);
    if x == EOC_MARKER {
      assert EndsAt(link, start, n);
    } else if EndsBefore(link, x, j) {
      var i :| 0 < i < j && EndsAt(link, x, i);
      IterateFrom(link, start, n, i);
      assert EndsAt(link, start, n + i);
    } else {
      forall i | 0 < i < n + j
        ensures !EndsAt(link, start, i)
      {
        if n < i {
          IterateFrom(link, start, n, i - n);
          assert !EndsAt(link, x, i - n);
        }
      }
    }
  }

  lemma WalkStep(link: Links, start: uint32, index: nat, c: uint32)
    requires Walk(link, start, index) == Ok(c) && (index == 0 || c != EOC_MARKER)
    ensures Walk(link, start, index + 1) == Ok(link(c))
  {
    forall j | 0 < j < index + 1
      ensures !EndsAt(link, start, j)
    {
      assert j < index ==> !EndsAt(link, start, j);
    }
  }

  // ---------- Geometry ----------

  /** The fields of the boot sector that fix the layout (Microsoft FAT32 File System
      Specification v1.03, "Boot Sector and BPB"). */
  datatype BootSector = BootSector(
    sectorsPerCluster: byte,
    reservedSectors: uint16,
    numFats: byte,
    totalSectors16: uint16,
    totalSectors32: uint32,
    sectorsPerFat32: uint32,
    rootCluster: uint32)
  {
    function TotalSectors(): uint32 {
      if totalSectors16 != 0 then totalSectors16 else totalSectors32
    }

    /** Sectors taken by the reserved area and the FATs. */
    function Metadata(): nat {
      reservedSectors + numFats * sectorsPerFat32
    }
  }

  function DivideWord(w: uint32, d: byte): (q: uint32)
    requires d != 0
  {
    DivModFacts(w, d);
    w / d
  }

  /** `initialize_fat32_fs` on a boot sector read at `startSector`. */
  function InitializeFs(disk: Disk, boot: BootSector, startSector: uint32): (fs: Fs)
    requires boot.sectorsPerCluster != 0
  {
    var fatStart := Wrap32(startSector + boot.reservedSectors);
    var firstData := Wrap32(fatStart + boot.numFats * boot.sectorsPerFat32);
    var total := boot.TotalSectors();
    Fs(disk, boot.sectorsPerCluster, boot.numFats, boot.sectorsPerFat32, boot.rootCluster,
       DivideWord(Wrap32(total - Wrap32(firstData - startSector)), boot.sectorsPerCluster),
       total, firstData, fatStart)
  }

  /** No layout quantity leaves 31 bits. */
  predicate Fits31(boot: BootSector, startSector: uint32) {
    startSector + boot.Metadata() < TWO31 && startSector + boot.TotalSectors() < TWO31
  }

  /** A cluster number the driver accepts. */
  predicate ValidCluster(fs: Fs, cluster: uint32) {
    2 <= cluster < Wrap32(2 + fs.totalClusters)
  }

  /** Every sector of every accepted cluster is inside the volume's data region. */
  ghost predicate ClustersInVolume(fs: Fs, startSector: uint32) {
    forall c: uint32 :: ValidCluster(fs, c) ==>
      && fs.firstDataSector <= fs.ClusterToSector(c)
      && fs.ClusterToSector(c) + fs.sectorsPerCluster <= startSector + fs.totalSectors
  }

  lemma DivideBounds(n: nat, d: nat)
    requires d > 0
    ensures n / d * d <= n < n / d * d + d
  {
    assert n == n / d * d + n % d;
  }

  lemma DataRegion(disk: Disk, boot: BootSector, startSector: uint32)
    requires boot.sectorsPerCluster != 0 && Fits31(boot, startSector)
    requires boot.Metadata() <= boot.TotalSectors()
    ensures var fs := InitializeFs(disk, boot, startSector);
            && fs.firstDataSector == startSector + boot.Metadata()
            && fs.totalClusters == (boot.TotalSectors() - boot.Metadata()) / boot.sectorsPerCluster
            && fs.totalClusters * boot.sectorsPerCluster <= boot.TotalSectors() - boot.Metadata()
  {
    DivideBounds(boot.TotalSectors() - boot.Metadata(), boot.sectorsPerCluster);
  }

  lemma ClusterSectorExact(disk: Disk, boot: BootSector, startSector: uint32, c: uint32)
    requires boot.sectorsPerCluster != 0 && Fits31(boot, startSector)
    requires boot.Metadata() <= boot.TotalSectors()
    requires ValidCluster(InitializeFs(disk, boot, startSector), c)
    ensures var fs := InitializeFs(disk, boot, startSector);
            && fs.ClusterToSector(c) == (c - 2) * boot.sectorsPerCluster + fs.firstDataSector
            && fs.firstDataSector <= fs.ClusterToSector(c)
            && fs.ClusterToSector(c) + boot.sectorsPerCluster <= startSector + fs.totalSectors
  {
    var fs := InitializeFs(disk, boot, startSector);
    DataRegion(disk, boot, startSector);
    var spc, past := boot.sectorsPerCluster as int, (c - 2) * boot.sectorsPerCluster as int;
    MulOrder(c - 1, fs.totalClusters, spc);
    assert past + spc <= fs.totalClusters * spc;
    MulOrder(0, c - 2, spc);
  }

  /** On such a volume a cluster number is given a sector exactly if it is one of those the
      data region has room for, counted from 2, and is refused with -13 otherwise. */
  lemma AcceptedExactly(disk: Disk, boot: BootSector, startSector: uint32, c: uint32)
    requires boot.sectorsPerCluster != 0 && Fits31(boot, startSector)
    requires boot.Metadata() <= boot.TotalSectors()
    ensures var fs := InitializeFs(disk, boot, startSector);
            var room := (boot.TotalSectors() - boot.Metadata()) / boot.sectorsPerCluster;
            && (fs.ClusterToSector(c) >= 0 <==> 2 <= c < 2 + room)
            && (fs.ClusterToSector(c) < 0 ==> fs.ClusterToSector(c) == -13)
  {
    LayoutFits31(disk, boot, startSector);
    DataRegion(disk, boot, startSector);
    if ValidCluster(InitializeFs(disk, boot, startSector), c) {
      ClusterSectorExact(disk, boot, startSector, c);
    }
  }

  /** What a mounted volume takes from the boot sector: the 16-bit sector count wins over the
      32-bit one, FATs follow the reserved sectors and data follows the FATs. */
  lemma MountedVolume(disk: Disk, boot: BootSector, startSector: uint32)
    requires boot.sectorsPerCluster != 0 && Fits31(boot, startSector)
    ensures var fs := InitializeFs(disk, boot, startSector);
            && fs.disk == disk && fs.rootCluster == boot.rootCluster
            && fs.sectorsPerCluster == boot.sectorsPerCluster
            && fs.numFats == boot.numFats && fs.sectorsPerFat == boot.sectorsPerFat32
            && fs.fatStartSector == startSector + boot.reservedSectors
            && fs.firstDataSector == startSector + boot.reservedSectors + boot.numFats * boot.sectorsPerFat32
            && fs.totalSectors == (if boot.totalSectors16 == 0 then boot.totalSectors32 else boot.totalSectors16)
  {
    MulOrder(0, boot.numFats, boot.sectorsPerFat32);
  }

  /** The accepted clusters stay inside the volume exactly when the volume is large enough
      for its own metadata, or when the wrapped cluster count leaves no cluster at all. */
  lemma GeometrySound(disk: Disk, boot: BootSector, startSector: uint32)
    requires boot.sectorsPerCluster != 0 && Fits31(boot, startSector)
    ensures var fs := InitializeFs(disk, boot, startSector);
            ClustersInVolume(fs, startSector)
            <==> (boot.Metadata() <= boot.TotalSectors() + if boot.sectorsPerCluster == 1 then 2 else 0)
  {
    var fs := InitializeFs(disk, boot, startSector);
    if boot.Metadata() <= boot.TotalSectors() {
      forall c: uint32 | ValidCluster(fs, c)
        ensures fs.firstDataSector <= fs.ClusterToSector(c)
        ensures fs.ClusterToSector(c) + fs.sectorsPerCluster <= startSector + fs.totalSectors
      {
        ClusterSectorExact(disk, boot, startSector, c);
      }
      assert ClustersInVolume(fs, startSector);
    } else {
      UndersizedVolume(disk, boot, startSector);
    }
  }

  /** A volume smaller than its metadata usually still accepts cluster 2, past its own end. */
  lemma UndersizedVolume(disk: Disk, boot: BootSector, startSector: uint32)
    requires boot.sectorsPerCluster != 0 && Fits31(boot, startSector)
    requires boot.TotalSectors() < boot.Metadata()
    ensures var fs := InitializeFs(disk, boot, startSector);
            if boot.sectorsPerCluster == 1 && boot.Metadata() - boot.TotalSectors() <= 2 then
              forall c: uint32 :: !ValidCluster(fs, c)
            else
              ValidCluster(fs, 2) && fs.ClusterToSector(2) > startSector + fs.totalSectors
  {
    var fs := InitializeFs(disk, boot, startSector);
    assert fs.firstDataSector == startSector + boot.Metadata();
    var wrapped := boot.TotalSectors() - boot.Metadata() + TWO32;
    WordQuotient(wrapped, boot.sectorsPerCluster);
    assert fs.totalClusters == wrapped / boot.sectorsPerCluster;
  }

  lemma WordQuotient(n: nat, d: nat)
    requires 0 < d < 0x100 && TWO31 <= n < TWO32
    ensures 1 <= n / d
    ensures if d == 1 then n / d == n else n / d <= TWO31
  {
    DivideBounds(n, d);
    QuotientRange(n, d, n / d);
  }

  lemma QuotientRange(n: int, d: int, q: int)
    requires 0 < d < 0x100 && TWO31 <= n < TWO32 && q * d <= n < q * d + d
    ensures 1 <= q && if d == 1 then q == n else q <= TWO31
  {
    if q < 1 {
      MulOrder(q, 0, d);
    } else if d >= 2 {
      MulOrder(2, d, q);
    }
  }

  /** A volume of 100 sectors that claims 132 sectors of metadata. */
  lemma UndersizedExample(disk: Disk)
    ensures !ClustersInVolume(InitializeFs(disk, BootSector(8, 32, 2, 0, 100, 50, 2), 0), 0)
  {
    GeometrySound(disk, BootSector(8, 32, 2, 0, 100, 50, 2), 0);
  }

  /** Distinct accepted clusters share no sector. */
  lemma ClustersDisjoint(disk: Disk, boot: BootSector, startSector: uint32, a: uint32, b: uint32)
    requires boot.sectorsPerCluster != 0 && Fits31(boot, startSector)
    requires boot.Metadata() <= boot.TotalSectors()
    requires var fs := InitializeFs(disk, boot, startSector);
             ValidCluster(fs, a) && ValidCluster(fs, b) && a < b
    ensures var fs := InitializeFs(disk, boot, startSector);
            fs.ClusterToSector(a) + fs.sectorsPerCluster <= fs.ClusterToSector(b)
  {
    ClusterSectorExact(disk, boot, startSector, a);
    ClusterSectorExact(disk, boot, startSector, b);
    MulOrder(a - 1, b - 2, boot.sectorsPerCluster);
    assert (a - 1) * boot.sectorsPerCluster == (a - 2) * boot.sectorsPerCluster + boot.sectorsPerCluster;
  }

  // ---------- Where FAT entries lie ----------

  /** A FAT lookup multiplies the cluster number by four in 32 bits, so it sees the number
      modulo 2^30: 128 entries to a sector. */
  lemma FatSlot(fs: Fs, c: uint32)
    requires fs.fatStartSector < TWO31
    ensures fs.FatEntrySector(c) == c % 0x4000_0000 / 128 + fs.fatStartSector
    ensures Fs.FatEntryOffset(c) == 4 * (c % 0x4000_0000 % 128)
  {
    var r := c % 0x4000_0000;
    DivModUnique(c / 0x4000_0000, 4 * r, TWO32);
    assert Wrap32(c * 4) == 4 * r;
    DivModUnique(r / 128, 4 * (r % 128), 512);
  }

  /** The sector and the place in it where a cluster's link is stored. */
  function FatPlace(fs: Fs, c: uint32): (nat, nat) {
    (fs.FatEntrySector(c), Fs.FatEntryOffset(c))
  }

  ghost predicate InFirstFat(fs: Fs, c: uint32) {
    fs.fatStartSector <= fs.FatEntrySector(c) < fs.fatStartSector + fs.sectorsPerFat
  }

  lemma InFirstFatExactly(fs: Fs, c: uint32)
    requires fs.fatStartSector < TWO31
    ensures InFirstFat(fs, c) <==> c % 0x4000_0000 < 128 * fs.sectorsPerFat
  {
    FatSlot(fs, c);
  }

  ghost predicate FatCovers(fs: Fs) {
    forall c: uint32 :: ValidCluster(fs, c) ==> InFirstFat(fs, c)
  }

  lemma CoversExactly(fs: Fs)
    requires fs.fatStartSector < TWO31 && fs.totalClusters < TWO31
    ensures FatCovers(fs) <==>
            || fs.totalClusters == 0
            || fs.totalClusters + 2 <= 128 * fs.sectorsPerFat
            || 0x4000_0000 <= 128 * fs.sectorsPerFat
  {
    forall c: uint32
      ensures InFirstFat(fs, c) <==> c % 0x4000_0000 < 128 * fs.sectorsPerFat
    {
      InFirstFatExactly(fs, c);
    }
    var limit := 128 * fs.sectorsPerFat;
    if 0 < fs.totalClusters && limit < fs.totalClusters + 2 && limit < 0x4000_0000 {
      var outside := if limit >= 2 then limit else 2;
      assert ValidCluster(fs, outside) && !InFirstFat(fs, outside);
    }
  }

  /** The entries of all accepted clusters lie in the first FAT exactly when it is large
      enough for the cluster numbers, or for all the entries a lookup can tell apart. */
  lemma FatCoversClusters(disk: Disk, boot: BootSector, startSector: uint32)
    requires boot.sectorsPerCluster != 0 && Fits31(boot, startSector)
    requires boot.Metadata() <= boot.TotalSectors()
    ensures var fs := InitializeFs(disk, boot, startSector);
            FatCovers(fs) <==>
              || fs.totalClusters == 0
              || fs.totalClusters + 2 <= 128 * fs.sectorsPerFat
              || 0x4000_0000 <= 128 * fs.sectorsPerFat
  {
    LayoutFits31(disk, boot, startSector);
    CoversExactly(InitializeFs(disk, boot, startSector));
  }

  lemma LayoutFits31(disk: Disk, boot: BootSector, startSector: uint32)
    requires boot.sectorsPerCluster != 0 && Fits31(boot, startSector)
    requires boot.Metadata() <= boot.TotalSectors()
    ensures var fs := InitializeFs(disk, boot, startSector);
            fs.fatStartSector < TWO31 && fs.totalClusters < TWO31
  {
    DataRegion(disk, boot, startSector);
    DivModFacts(boot.TotalSectors() - boot.Metadata(), boot.sectorsPerCluster);
    MulOrder(0, boot.numFats, boot.sectorsPerFat32);
  }

  /** The first FAT ends before the data begins exactly when the volume has a FAT. */
  lemma FirstFatBeforeData(disk: Disk, boot: BootSector, startSector: uint32)
    requires boot.sectorsPerCluster != 0 && Fits31(boot, startSector)
    ensures var fs := InitializeFs(disk, boot, startSector);
            fs.fatStartSector + fs.sectorsPerFat <= fs.firstDataSector
            <==> boot.numFats > 0 || boot.sectorsPerFat32 == 0
  {
    if boot.numFats > 0 {
      MulOrder(1, boot.numFats, boot.sectorsPerFat32);
    }
  }

  /** Places differ exactly if the cluster numbers differ modulo 2^30. */
  lemma SamePlace(fs: Fs, a: uint32, b: uint32)
    requires fs.fatStartSector < TWO31
    ensures FatPlace(fs, a) == FatPlace(fs, b) <==> a % 0x4000_0000 == b % 0x4000_0000
  {
    FatSlot(fs, a);
    FatSlot(fs, b);
    DivModFacts(a % 0x4000_0000, 128);
    DivModFacts(b % 0x4000_0000, 128);
  }

  lemma DifferentPlaces(fs: Fs, a: uint32, b: uint32)
    requires fs.fatStartSector < TWO31 && fs.totalClusters <= 0x4000_0000
    requires ValidCluster(fs, a) && ValidCluster(fs, b) && a != b
    ensures FatPlace(fs, a) != FatPlace(fs, b)
  {
    SamePlace(fs, a, b);
  }

  /** No two accepted clusters share a FAT entry. */
  ghost predicate EntriesDistinct(fs: Fs) {
    forall a: uint32, b: uint32 :: ValidCluster(fs, a) && ValidCluster(fs, b) && a != b ==>
      FatPlace(fs, a) != FatPlace(fs, b)
  }

  lemma SmallFatDistinct(fs: Fs)
    requires fs.fatStartSector < TWO31 && fs.totalClusters <= 0x4000_0000
    ensures EntriesDistinct(fs)
  {
    forall a: uint32, b: uint32 | ValidCluster(fs, a) && ValidCluster(fs, b) && a != b
      ensures FatPlace(fs, a) != FatPlace(fs, b)
    {
      DifferentPlaces(fs, a, b);
    }
  }

  /** Two accepted clusters never share a FAT entry, exactly on volumes of at most 2^30
      clusters. */
  lemma FatEntriesDistinct(disk: Disk, boot: BootSector, startSector: uint32)
    requires boot.sectorsPerCluster != 0 && Fits31(boot, startSector)
    requires boot.Metadata() <= boot.TotalSectors()
    ensures var fs := InitializeFs(disk, boot, startSector);
            EntriesDistinct(fs) <==> fs.totalClusters <= 0x4000_0000
  {
    var fs := InitializeFs(disk, boot, startSector);
    LayoutFits31(disk, boot, startSector);
    if fs.totalClusters <= 0x4000_0000 {
      SmallFatDistinct(fs);
    } else {
      SharedEntry(fs);
    }
  }

  /** Clusters 2 and 2^30 + 2 share an entry. */
  lemma SharedEntry(fs: Fs)
    requires fs.fatStartSector < TWO31 && 0x4000_0000 < fs.totalClusters < TWO31
    ensures ValidCluster(fs, 2) && ValidCluster(fs, 0x4000_0002)
    ensures FatPlace(fs, 2) == FatPlace(fs, 0x4000_0002)
  {
    SamePlace(fs, 2, 0x4000_0002);
  }

  /** A volume of 2^31 - 1 one-sector clusters and metadata: its FAT is large enough for all
      of them, and still two of them share an entry. */
  lemma SharedEntryExample(disk: Disk)
    ensures var boot := BootSector(1, 32, 1, 0, 0x7FFF_FFFF, 0x00FF_0000, 2);
            var fs := InitializeFs(disk, boot, 0);
            && Fits31(boot, 0) && boot.Metadata() <= boot.TotalSectors()
            && fs.totalClusters + 2 <= 128 * fs.sectorsPerFat
            && ValidCluster(fs, 2) && ValidCluster(fs, 0x4000_0002)
            && FatPlace(fs, 2) == FatPlace(fs, 0x4000_0002)
  {
    SharedEntry(InitializeFs(disk, BootSector(1, 32, 1, 0, 0x7FFF_FFFF, 0x00FF_0000, 2), 0));
  }
}
