/** `read_dir_entry` of os/fs/fat32.c: 32-byte entries are compared one by one, cluster after
    cluster, until a match or the end marker. */
module Fat32Directory {
  import opened Options
  import opened Words
  import opened Fat32Volume
  import Content = Fat32Content
  import Names = Fat32Names

  const ENTRY_SIZE: nat := 32
  const ENTRIES_PER_SECTOR: nat := 16
  const NAME_LENGTH: nat := 11
  const ENTRY_EMPTY: byte := 0
  const ENTRY_DELETED: byte := 0xE5

  type Entry = e: seq<byte> | |e| == 32 witness seq(32, _ => 0)

  function EntryName(e: Entry): (name: string)
    ensures |name| == NAME_LENGTH
  {
    seq(NAME_LENGTH, i requires 0 <= i < NAME_LENGTH => e[i] as char)
  }

  /** What a lookup fills in: first cluster from its two halves, size and attributes. */
  datatype Found = Found(startCluster: uint32, fileSize: uint32, attributes: byte)

  function Decode(e: Entry): (f: Found) {
    var high, low := e[20] as int + 0x100 * e[21] as int, e[26] as int + 0x100 * e[27] as int;
    Found(high * 0x1_0000 + low, Fs.LittleEndian32(e, 28), e[11])
  }

  lemma ClusterHalves(e: Entry, cluster: uint32)
    requires e[26] == cluster % 0x100 && e[27] == cluster / 0x100 % 0x100
    requires e[20] == cluster / 0x1_0000 % 0x100 && e[21] == cluster / 0x100_0000
    ensures Decode(e).startCluster == cluster
  {
    WordDigits(cluster);
  }

  /** The halves of the first cluster and the size are read back as they were stored. */
  lemma DecodeStored(e: Entry, cluster: uint32, size: uint32)
    requires e[26..28] == WordBytes(cluster)[..2] && e[20..22] == WordBytes(cluster)[2..]
    requires e[28..32] == WordBytes(size)
    ensures Decode(e) == Found(cluster, size, e[11])
  {
    WordRoundTrip(size, e, 28);
    var low, high := e[26..28], e[20..22];
    assert low[0] == e[26] && low[1] == e[27] && high[0] == e[20] && high[1] == e[21];
    ClusterHalves(e, cluster);
  }

  /** `EndOfChain`: the walk came to the end-of-chain marker. `Undecided`: the entries or
      clusters looked at so far decide nothing. */
  datatype Lookup = Match(entry: Entry) | EndOfDirectory | Unreadable | EndOfChain | Undecided

  function EntryIn(sector: Sector, k: nat): (e: Entry)
    requires k < ENTRIES_PER_SECTOR
  {
    sector[ENTRY_SIZE * k..ENTRY_SIZE * k + ENTRY_SIZE]
  }

  /** Entry number `i` of the directory cluster that begins at sector `target`, None if its
      sector cannot be read. */
  function EntryAt(disk: Disk, target: uint32, i: nat): (e: Option<Entry>) {
    match disk(Wrap32(target + i / ENTRIES_PER_SECTOR))
    case None => None
    case Some(sector) => Some(EntryIn(sector, i % ENTRIES_PER_SECTOR))
  }

  type Directory = seq<Option<Entry>>

  /** The sector where `read_dir_entry` begins, in wrapping arithmetic. */
  function FirstSector(fs: Fs, cluster: uint32): uint32 {
    Wrap32(fs.firstDataSector + (cluster - 2) * fs.sectorsPerCluster)
  }

  /** The entries of one cluster. */
  function ClusterEntries(fs: Fs, cluster: uint32): (dir: Directory) {
    seq(ENTRIES_PER_SECTOR * fs.sectorsPerCluster, (i: nat) => EntryAt(fs.disk, FirstSector(fs, cluster), i))
  }

  // ---------- One cluster ----------

  /** An entry that is in use and stores the name. */
  predicate Stores(e: Entry, name: string) {
    e[0] != ENTRY_EMPTY && e[0] != ENTRY_DELETED && EntryName(e) == name
  }

  /** The outcome of a lookup that has reached entry `i`. */
  function Scan(dir: Directory, name: string, i: nat): (r: Lookup)
    requires i <= |dir|
    decreases |dir| - i
  {
    if i == |dir| then Undecided
    else match dir[i]
      case None => Unreadable
      case Some(e) =>
        if e[0] == ENTRY_EMPTY then EndOfDirectory
        else if Stores(e, name) then Match(e)
        else Scan(dir, name, i + 1)
  }

  /** The eleven name bytes of an entry spell `name`. */
  predicate Spells(e: Entry, name: string) {
    |name| == 11 && forall i :: 0 <= i < 11 ==> e[i] == name[i] as int
  }

  lemma SpellsExactly(e: Entry, name: string)
    ensures Spells(e, name) <==> EntryName(e) == name
  {
    if EntryName(e) == name {
      assert forall i :: 0 <= i < 11 ==> EntryName(e)[i] as int == e[i];
    }
  }

  /** A lookup passes over entry `i`: readable, not the end mark (first byte zero), and
      deleted (first byte 0xE5) or of another name. */
  predicate Passed(dir: Directory, name: string, i: nat)
    requires i < |dir|
  {
    dir[i].Some? && dir[i].value[0] != 0 && (dir[i].value[0] == 0xE5 || !Spells(dir[i].value, name))
  }

  /** A lookup that begins at entry `i` passes over all entries before `k`. */
  ghost predicate PassesTo(dir: Directory, name: string, i: nat, k: nat)
    requires k <= |dir|
  {
    forall j :: i <= j < k ==> Passed(dir, name, j)
  }

  /** The answer entry `k` gives to a lookup that has come to it. */
  function AnswerAt(dir: Directory, k: nat): (r: Lookup)
    requires k <= |dir|
  {
    if k == |dir| then Undecided
    else if dir[k].None? then Unreadable
    else if dir[k].value[0] == 0 then EndOfDirectory
    else Match(dir[k].value)
  }

  /** A lookup stops at the first entry it does not pass over, or goes through all of them. */
  lemma {:induction false} ScanStops(dir: Directory, name: string, i: nat) returns (k: nat)
    requires i <= |dir|
    ensures i <= k <= |dir| && PassesTo(dir, name, i, k) && (k < |dir| ==> !Passed(dir, name, k))
    ensures Scan(dir, name, i) == AnswerAt(dir, k)
    decreases |dir| - i
  {
    k := i;
    if i < |dir| && dir[i].Some? {
      SpellsExactly(dir[i].value, name);
      if Passed(dir, name, i) {
        k := ScanStops(dir, name, i + 1);
      }
    }
  }

  /** Entry `k` gives answer `r`, and a lookup that begins at `i` comes to it. */
  ghost predicate StopsAt(dir: Directory, name: string, i: nat, k: nat, r: Lookup) {
    && i <= k <= |dir| && PassesTo(dir, name, i, k)
    && (k < |dir| ==> !Passed(dir, name, k)) && r == AnswerAt(dir, k)
  }

  lemma ScanExactly(dir: Directory, name: string, i: nat, r: Lookup)
    requires i <= |dir|
    ensures Scan(dir, name, i) == r <==> exists k :: StopsAt(dir, name, i, k, r)
  {
    var stop := ScanStops(dir, name, i);
    assert StopsAt(dir, name, i, stop, Scan(dir, name, i));
    if k :| StopsAt(dir, name, i, k, r) {
      StopsOnce(dir, name, i, k, stop);
    }
  }

  lemma StopsOnce(dir: Directory, name: string, i: nat, k: nat, l: nat)
    requires i <= k <= |dir| && PassesTo(dir, name, i, k) && (k < |dir| ==> !Passed(dir, name, k))
    requires i <= l <= |dir| && PassesTo(dir, name, i, l) && (l < |dir| ==> !Passed(dir, name, l))
    ensures k == l
  {}

  /** Entry `k` is `e`, in use, and spells the name; everything before it is passed over. */
  ghost predicate FoundAt(dir: Directory, name: string, i: nat, k: nat, e: Entry) {
    && i <= k < |dir| && PassesTo(dir, name, i, k)
    && dir[k] == Some(e) && e[0] != 0 && e[0] != 0xE5 && Spells(e, name)
  }

  /** Entry `k` is the end mark or cannot be read; everything before it is passed over. */
  ghost predicate EndsAtEntry(dir: Directory, name: string, i: nat, k: nat, unreadable: bool) {
    && i <= k < |dir| && PassesTo(dir, name, i, k)
    && if unreadable then dir[k].None? else dir[k].Some? && dir[k].value[0] == 0
  }

  /** A lookup finds the earliest entry in use that spells the name, provided everything
      before it is readable and no end mark comes first; and nothing else. */
  lemma ScanFindsEarliest(dir: Directory, name: string, i: nat, e: Entry)
    requires i <= |dir|
    ensures Scan(dir, name, i) == Match(e) <==> exists k :: FoundAt(dir, name, i, k, e)
  {
    ScanExactly(dir, name, i, Match(e));
    if k :| StopsAt(dir, name, i, k, Match(e)) {
      assert FoundAt(dir, name, i, k, e);
    }
    if k :| FoundAt(dir, name, i, k, e) {
      assert StopsAt(dir, name, i, k, Match(e));
    }
  }

  /** A lookup without a match ends at an end mark, at an unreadable entry, or undecided after
      the last one, each exactly if all entries before are passed over. */
  lemma ScanFailsExactly(dir: Directory, name: string, i: nat)
    requires i <= |dir|
    ensures var r := Scan(dir, name, i);
            && (r == EndOfDirectory <==> exists k: nat :: EndsAtEntry(dir, name, i, k, false))
            && (r == Unreadable <==> exists k: nat :: EndsAtEntry(dir, name, i, k, true))
            && (r == Undecided <==> PassesTo(dir, name, i, |dir|))
            && r != EndOfChain
  {
    var stop := ScanStops(dir, name, i);
    assert stop < |dir| && dir[stop].None? ==> EndsAtEntry(dir, name, i, stop, true);
    assert stop < |dir| && dir[stop].Some? && dir[stop].value[0] == 0 ==> EndsAtEntry(dir, name, i, stop, false);
    forall k: nat, unreadable | EndsAtEntry(dir, name, i, k, unreadable)
      ensures k == stop
    {
      StopsOnce(dir, name, i, k, stop);
    }
  }

  lemma {:induction false} ScanSuffix(a: Directory, b: Directory, name: string, i: nat)
    requires i <= |b|
    ensures Scan(a + b, name, |a| + i) == Scan(b, name, i)
    decreases |b| - i
  {
    if i < |b| {
      ScanSuffix(a, b, name, i + 1);
    }
  }

  /** A lookup in two runs of entries goes on to the second only if the first does not
      decide it. */
  lemma {:induction false} ScanConcat(a: Directory, b: Directory, name: string, i: nat)
    requires i <= |a|
    ensures Scan(a + b, name, i) == if Scan(a, name, i).Undecided? then Scan(b, name, 0) else Scan(a, name, i)
    decreases |a| - i
  {
    if i < |a| {
      ScanConcat(a, b, name, i + 1);
    } else {
      ScanSuffix(a, b, name, 0);
    }
  }

  // ---------- Where the entries come from ----------

  lemma FirstSectorOfCluster(fs: Fs, cluster: uint32)
    requires fs.ClusterToSector(cluster) >= 0
    ensures FirstSector(fs, cluster) == fs.ClusterToSector(cluster)
  {}

  lemma EntrySector(fs: Fs, cluster: uint32, i: nat)
    requires fs.ClusterToSector(cluster) >= 0 && i < 16 * fs.sectorsPerCluster
    ensures ClusterEntries(fs, cluster)[i]
         == match fs.disk(fs.ClusterToSector(cluster) + i / 16)
            case None => None
            case Some(sector) => Some(sector[32 * (i % 16)..32 * (i % 16) + 32])
  {
    FirstSectorOfCluster(fs, cluster);
  }

  /** In an accepted cluster an entry is missing exactly if its sector cannot be read. */
  lemma EntryMissing(fs: Fs, cluster: uint32, i: nat)
    requires fs.ClusterToSector(cluster) >= 0 && i < 16 * fs.sectorsPerCluster
    ensures ClusterEntries(fs, cluster)[i].None? <==> fs.disk(fs.ClusterToSector(cluster) + i / 16).None?
  {
    EntrySector(fs, cluster, i);
  }

  lemma ByteInData(disk: Disk, first: nat, count: nat, sector: Sector, i: nat, j: nat)
    requires first + count <= TWO32 && Content.ReadableSectors(disk, first, count)
    requires j < 32 && i < 16 * count && disk(first + i / 16) == Some(sector)
    ensures Content.SectorData(disk, first, count)[32 * i + j] == sector[32 * (i % 16) + j]
  {
    ByteOfSector(i, j);
    Content.SectorDataAt(disk, first, count, 32 * i + j);
  }

  lemma SliceOfData(disk: Disk, first: nat, count: nat, sector: Sector, i: nat)
    requires first + count <= TWO32 && Content.ReadableSectors(disk, first, count)
    requires i < 16 * count && disk(first + i / 16) == Some(sector)
    ensures Content.SectorData(disk, first, count)[32 * i..32 * i + 32] == sector[32 * (i % 16)..32 * (i % 16) + 32]
  {
    var at := 32 * (i % 16);
    var part, entry := Content.SectorData(disk, first, count)[32 * i..32 * i + 32], sector[at..at + 32];
    forall j | 0 <= j < 32
      ensures part[j] == entry[j]
    {
      ByteInData(disk, first, count, sector, i, j);
    }
  }

  /** The entries of a cluster are its own bytes, 32 at a time and in order: a lookup reads
      what a file made of that cluster would hold. */
  lemma EntriesAreClusterData(fs: Fs, cluster: uint32, i: nat)
    requires Content.ReadableCluster(fs, cluster) && i < 16 * fs.sectorsPerCluster
    ensures ClusterEntries(fs, cluster)[i] == Some(Content.ClusterData(fs, cluster)[32 * i..32 * i + 32])
  {
    var first := fs.ClusterToSector(cluster);
    EntrySector(fs, cluster, i);
    assert fs.disk(first + i / 16).Some?;
    SliceOfData(fs.disk, first, fs.sectorsPerCluster, fs.disk(first + i / 16).value, i);
  }

  lemma ByteOfSector(i: nat, j: nat)
    requires j < 32
    ensures (32 * i + j) / 512 == i / 16 && (32 * i + j) % 512 == 32 * (i % 16) + j
  {
    DivModUnique(i / 16, 32 * (i % 16) + j, 512);
  }

  /** On a mounted volume the first lookup of a path reads the boot sector's root cluster,
      right behind the FATs for cluster 2. */
  lemma RootDirectory(disk: Disk, boot: BootSector, startSector: uint32)
    requires boot.sectorsPerCluster != 0 && Fits31(boot, startSector)
    requires boot.Metadata() <= boot.TotalSectors()
    requires ValidCluster(InitializeFs(disk, boot, startSector), boot.rootCluster)
    ensures var fs := InitializeFs(disk, boot, startSector);
            && fs.rootCluster == boot.rootCluster
            && FirstSector(fs, fs.rootCluster)
               == startSector + boot.reservedSectors + boot.numFats * boot.sectorsPerFat32
                  + (boot.rootCluster - 2) * boot.sectorsPerCluster
  {
    ClusterSectorExact(disk, boot, startSector, boot.rootCluster);
    FirstSectorOfCluster(InitializeFs(disk, boot, startSector), boot.rootCluster);
  }

  // ---------- From cluster to cluster ----------

  /** `fat32_read_fat_entry`: only the first byte of the entry is taken, so none of the
      special values is ever seen. None when the FAT sector cannot be read. */
  function DirectoryLink(fs: Fs, cluster: uint32): (next: Option<byte>) {
    match fs.disk(fs.FatEntrySector(cluster))
    case None => None
    case Some(sector) => Some(sector[Fs.FatEntryOffset(cluster)])
  }

  /** A lookup follows the chain of a directory exactly at the links below 256. */
  lemma DirectoryLinkExact(fs: Fs, cluster: uint32)
    ensures DirectoryLink(fs, cluster) == Some(fs.NextCluster(cluster)) <==> fs.NextCluster(cluster) < 0x100
  {
    var sector := fs.disk(fs.FatEntrySector(cluster));
    if sector.Some? {
      LowByte(sector.value, Fs.FatEntryOffset(cluster));
    }
  }

  /** The end of a chain is taken for one of the clusters 248 to 255. */
  lemma EndMarkerMissed(fs: Fs, cluster: uint32)
    requires fs.NextCluster(cluster) == EOC_MARKER
    ensures DirectoryLink(fs, cluster).Some? && 0xF8 <= DirectoryLink(fs, cluster).value
  {
    var value := Fs.LittleEndian32(fs.disk(fs.FatEntrySector(cluster)).value, Fs.FatEntryOffset(cluster));
    LowByte(fs.disk(fs.FatEntrySector(cluster)).value, Fs.FatEntryOffset(cluster));
    LowByteOfMarker(value % 0x1000_0000);
  }

  lemma LowByteOfMarker(value: nat)
    requires 0x0FFF_FFF8 <= value < 0x1000_0000
    ensures value % 0x100 >= 0xF8
  {}

  lemma LowByte(b: seq<byte>, at: nat)
    requires at + 4 <= |b|
    ensures Fs.LittleEndian32(b, at) % 0x1000_0000 % 0x100 == b[at]
  {}

  /** The outcome of a lookup that looks at no more than `rounds` clusters. */
  function LookUpWithin(fs: Fs, cluster: uint32, name: string, rounds: nat): (r: Lookup)
    decreases rounds, name
  {
    if rounds == 0 then Undecided
    else if cluster == EOC_MARKER then EndOfChain
    else
      var r := Scan(ClusterEntries(fs, cluster), name, 0);
      if !r.Undecided? then r
      else match DirectoryLink(fs, cluster)
        case None => Unreadable
        case Some(next) => LookUpWithin(fs, next, name, rounds - 1)
  }

  /** The first cluster, and one for each value of a byte. */
  const ENOUGH: nat := 257

  /** The outcome of `read_dir_entry`; `Undecided` stands for a call that never returns. */
  function LookUp(fs: Fs, cluster: uint32, name: string): (r: Lookup) {
    LookUpWithin(fs, cluster, name, ENOUGH)
  }

  /** The walk leaves `cluster` for another one. */
  predicate GoesOn(fs: Fs, name: string, cluster: uint32) {
    && cluster != EOC_MARKER
    && Scan(ClusterEntries(fs, cluster), name, 0).Undecided?
    && DirectoryLink(fs, cluster).Some?
  }

  /** The links a lookup follows. */
  function DirectoryLinks(fs: Fs): (link: Links)
    ensures forall c: uint32 :: link(c) < 0x100
  {
    cluster => match DirectoryLink(fs, cluster) case None => 0 case Some(next) => next
  }

  function Goes(fs: Fs, name: string): (goes: uint32 -> bool) {
    (cluster: uint32) => GoesOn(fs, name, cluster)
  }

  /** `goes` holds of the first `n` numbers of a walk. */
  ghost predicate Along(link: Links, goes: uint32 -> bool, start: uint32, n: nat) {
    forall i: nat :: i < n ==> goes(Iterate(link, start, i))
  }

  /** The walk leaves each of the first `n` clusters. */
  ghost predicate WalksOn(fs: Fs, name: string, cluster: uint32, n: nat) {
    Along(DirectoryLinks(fs), Goes(fs, name), cluster, n)
  }

  lemma AlongStep(link: Links, goes: uint32 -> bool, start: uint32, n: nat)
    requires n > 0
    ensures Along(link, goes, start, n) <==> goes(start) && Along(link, goes, link(start), n - 1)
  {
    assert Iterate(link, start, 0) == start;
    assert Iterate(link, start, 1) == link(Iterate(link, start, 0));
    forall i: nat
      ensures Iterate(link, start, 1 + i) == Iterate(link, link(start), i)
    {
      IterateFrom(link, start, 1, i);
    }
    if Along(link, goes, start, n) {
      forall i: nat | i < n - 1
        ensures goes(Iterate(link, link(start), i))
      {
        assert goes(Iterate(link, start, 1 + i));
      }
    }
    if goes(start) && Along(link, goes, link(start), n - 1) {
      forall i: nat | i < n
        ensures goes(Iterate(link, start, i))
      {
        assert i > 0 ==> Iterate(link, start, 1 + (i - 1)) == Iterate(link, link(start), i - 1);
      }
    }
  }

  lemma {:induction false} UndecidedWalksOn(fs: Fs, name: string, cluster: uint32, n: nat)
    ensures LookUpWithin(fs, cluster, name, n).Undecided? <==> WalksOn(fs, name, cluster, n)
    decreases n
  {
    if n > 0 {
      var link, goes := DirectoryLinks(fs), Goes(fs, name);
      AlongStep(link, goes, cluster, n);
      assert goes(cluster) == GoesOn(fs, name, cluster);
      if GoesOn(fs, name, cluster) {
        assert link(cluster) == DirectoryLink(fs, cluster).value;
        UndecidedWalksOn(fs, name, link(cluster), n - 1);
      }
    }
  }

  /** More rounds do not change an answer. */
  lemma {:induction false} AnswerStays(fs: Fs, name: string, cluster: uint32, n: nat, m: nat)
    requires n <= m && !LookUpWithin(fs, cluster, name, n).Undecided?
    ensures LookUpWithin(fs, cluster, name, m) == LookUpWithin(fs, cluster, name, n)
    decreases n
  {
    if n > 0 && GoesOn(fs, name, cluster) {
      AnswerStays(fs, name, DirectoryLink(fs, cluster).value, n - 1, m - 1);
    }
  }

  function Elements(s: seq<nat>): set<nat> {
    if s == [] then {} else Elements(s[..|s| - 1]) + {s[|s| - 1]}
  }

  function Below(n: nat): set<nat> {
    if n == 0 then {} else Below(n - 1) + {n - 1}
  }

  lemma {:induction false} ElementsExactly(s: seq<nat>, x: nat)
    ensures x in Elements(s) <==> x in s
    decreases |s|
  {
    if s != [] {
      ElementsExactly(s[..|s| - 1], x);
      assert s == s[..|s| - 1] + [s[|s| - 1]];
    }
  }

  lemma {:induction false} ElementsCount(s: seq<nat>)
    requires forall i, j :: 0 <= i < j < |s| ==> s[i] != s[j]
    ensures |Elements(s)| == |s|
    decreases |s|
  {
    if s != [] {
      var front, last := s[..|s| - 1], s[|s| - 1];
      ElementsCount(front);
      ElementsExactly(front, last);
    }
  }

  lemma {:induction false} BelowCount(n: nat)
    ensures |Below(n)| == n && forall x: nat :: x in Below(n) <==> x < n
    decreases n
  {
    if n > 0 {
      BelowCount(n - 1);
    }
  }

  lemma SubsetCount(a: set<nat>, b: set<nat>)
    requires a <= b
    ensures |a| <= |b|
  {
    assert b == a + (b - a);
  }

  /** Among more than `n` numbers below `n` two are equal. */
  lemma Pigeonhole(s: seq<nat>, n: nat)
    requires n < |s| && forall k :: 0 <= k < |s| ==> s[k] < n
    ensures exists i, j :: 0 <= i < j < |s| && s[i] == s[j]
  {
    if forall i, j :: 0 <= i < j < |s| ==> s[i] != s[j] {
      ElementsCount(s);
      BelowCount(n);
      forall x | x in Elements(s)
        ensures x in Below(n)
      {
        ElementsExactly(s, x);
      }
      SubsetCount(Elements(s), Below(n));
    }
  }

  /** A walk that returns to a cluster it has left goes on for ever. */
  lemma {:induction false} GoesOnForEver(link: Links, goes: uint32 -> bool, start: uint32, i: nat, j: nat, m: nat)
    requires i < j && Iterate(link, start, i) == Iterate(link, start, j)
    requires Along(link, goes, start, j)
    ensures goes(Iterate(link, start, m))
    decreases m
  {
    if m >= j {
      IterateFrom(link, start, i, m - j);
      IterateFrom(link, start, j, m - j);
      GoesOnForEver(link, goes, start, i, j, i + (m - j));
    }
  }

  /** Links that lead only to numbers below `n` come back to one of them in time. */
  lemma FindRepeat(link: Links, start: uint32, n: nat) returns (i: nat, j: nat)
    requires forall c: uint32 :: link(c) < n
    ensures i < j <= n + 1 && Iterate(link, start, i) == Iterate(link, start, j)
  {
    var s: seq<nat> := seq(n + 1, (k: nat) => Iterate(link, start, k + 1));
    Pigeonhole(s, n);
    var a, b :| 0 <= a < b < |s| && s[a] == s[b];
    return a + 1, b + 1;
  }

  lemma AlongForEver(link: Links, goes: uint32 -> bool, start: uint32, n: nat, m: nat)
    requires (forall c: uint32 :: link(c) < n) && Along(link, goes, start, n + 1)
    ensures Along(link, goes, start, m)
  {
    var i, j := FindRepeat(link, start, n);
    forall k: nat | k < m
      ensures goes(Iterate(link, start, k))
    {
      GoesOnForEver(link, goes, start, i, j, k);
    }
  }

  /** A lookup that is not decided after 257 clusters is never decided. */
  lemma LookUpSettles(fs: Fs, name: string, cluster: uint32, n: nat)
    requires n >= ENOUGH
    ensures LookUpWithin(fs, cluster, name, n) == LookUp(fs, cluster, name)
  {
    UndecidedWalksOn(fs, name, cluster, ENOUGH);
    if LookUp(fs, cluster, name).Undecided? {
      AlongForEver(DirectoryLinks(fs), Goes(fs, name), cluster, 0x100, n);
      UndecidedWalksOn(fs, name, cluster, n);
    } else {
      AnswerStays(fs, name, cluster, ENOUGH, n);
    }
  }

  /** A directory that begins at the end marker has no entry, and no sector is read for it. */
  lemma MarkerDirectory(fs: Fs, name: string)
    ensures LookUp(fs, 0x0FFF_FFFF, name) == EndOfChain
  {}

  /** Where a cluster decides nothing and its FAT sector cannot be read, the lookup fails so. */
  lemma LinkUnreadable(fs: Fs, cluster: uint32, name: string)
    requires cluster != 0x0FFF_FFFF && Scan(ClusterEntries(fs, cluster), name, 0).Undecided?
    requires fs.disk(fs.FatEntrySector(cluster)).None?
    ensures LookUp(fs, cluster, name) == Unreadable
  {}

  // ---------- A directory's chain ----------

  /** The entries of a list of clusters, one after the other. */
  function DirectoryOf(fs: Fs, clusters: seq<uint32>): (dir: Directory) {
    if clusters == [] then [] else ClusterEntries(fs, clusters[0]) + DirectoryOf(fs, clusters[1..])
  }

  /** `clusters` are linked in the FAT, and all after the first have numbers below 256. */
  ghost predicate LowChain(fs: Fs, clusters: seq<uint32>) {
    && clusters != [] && clusters[0] != EOC_MARKER
    && forall i :: 0 < i < |clusters| ==> fs.NextCluster(clusters[i - 1]) == clusters[i] < 0x100
  }

  lemma {:induction false} ChainWithin(fs: Fs, clusters: seq<uint32>, name: string)
    requires LowChain(fs, clusters) && !Scan(DirectoryOf(fs, clusters), name, 0).Undecided?
    ensures LookUpWithin(fs, clusters[0], name, |clusters|) == Scan(DirectoryOf(fs, clusters), name, 0)
    decreases |clusters|
  {
    var c, rest := clusters[0], clusters[1..];
    ScanConcat(ClusterEntries(fs, c), DirectoryOf(fs, rest), name, 0);
    if Scan(ClusterEntries(fs, c), name, 0).Undecided? && rest != [] {
      assert fs.NextCluster(clusters[0]) == clusters[1];
      DirectoryLinkExact(fs, c);
      ChainWithin(fs, rest, name);
    }
  }

  /** Where all links are below 256, a lookup is one scan over the concatenated clusters. */
  lemma LookUpFollowsChain(fs: Fs, clusters: seq<uint32>, name: string)
    requires LowChain(fs, clusters) && !Scan(DirectoryOf(fs, clusters), name, 0).Undecided?
    ensures LookUp(fs, clusters[0], name) == Scan(DirectoryOf(fs, clusters), name, 0)
  {
    ChainWithin(fs, clusters, name);
    if |clusters| <= ENOUGH {
      AnswerStays(fs, name, clusters[0], |clusters|, ENOUGH);
    } else {
      LookUpSettles(fs, name, clusters[0], |clusters|);
    }
  }

  lemma {:induction false} MatchStores(fs: Fs, cluster: uint32, name: string, rounds: nat)
    requires LookUpWithin(fs, cluster, name, rounds).Match?
    ensures Stores(LookUpWithin(fs, cluster, name, rounds).entry, name)
    decreases rounds
  {
    if GoesOn(fs, name, cluster) {
      MatchStores(fs, DirectoryLink(fs, cluster).value, name, rounds - 1);
    } else {
      var dir := ClusterEntries(fs, cluster);
      ScanFindsEarliest(dir, name, 0, Scan(dir, name, 0).entry);
    }
  }

  /** Two legal names that are equal ignoring case get the same answer; two that find the
      same entry are equal ignoring case. */
  lemma NamesFindSameEntry(fs: Fs, cluster: uint32, s: string, t: string)
    requires Names.Legal(s) && Names.Legal(t)
    ensures var a, b := LookUp(fs, cluster, Names.Formatted(s)), LookUp(fs, cluster, Names.Formatted(t));
            && (Names.UpperAll(s) == Names.UpperAll(t) ==> a == b)
            && (a.Match? && a == b ==> Names.UpperAll(s) == Names.UpperAll(t))
  {
    Names.SameStoredName(s, t);
    var a, b := LookUp(fs, cluster, Names.Formatted(s)), LookUp(fs, cluster, Names.Formatted(t));
    if a.Match? && a == b {
      MatchStores(fs, cluster, Names.Formatted(s), ENOUGH);
      MatchStores(fs, cluster, Names.Formatted(t), ENOUGH);
    }
  }

  /** A volume on which every sector, FAT included, consists of the mark of a deleted entry. */
  function DeletedVolume(): Fs {
    Fs(_ => Some(seq(512, _ => ENTRY_DELETED)), 1, 1, 8, 2, 300, 500, 100, 32)
  }

  /** Deleted entries up to the end of a cluster and a link back to it: no lookup returns. */
  lemma EndlessExample(fs: Fs, name: string)
    requires fs == DeletedVolume()
    ensures LookUp(fs, 0xE5, name).Undecided?
  {
    var link, goes := DirectoryLinks(fs), Goes(fs, name);
    forall i: nat
      ensures goes(Iterate(link, 0xE5, i))
    {
      StaysAt(link, 0xE5, i);
      DeletedScan(fs, name, 0);
    }
    UndecidedWalksOn(fs, name, 0xE5, ENOUGH);
  }

  lemma {:induction false} StaysAt(link: Links, c: uint32, i: nat)
    requires link(c) == c
    ensures Iterate(link, c, i) == c
    decreases i
  {
    if i > 0 {
      StaysAt(link, c, i - 1);
    }
  }

  lemma {:induction false} DeletedScan(fs: Fs, name: string, i: nat)
    requires fs == DeletedVolume() && i <= ENTRIES_PER_SECTOR
    ensures Scan(ClusterEntries(fs, 0xE5), name, i).Undecided?
    decreases ENTRIES_PER_SECTOR - i
  {
    if i < ENTRIES_PER_SECTOR {
      DeletedScan(fs, name, i + 1);
    }
  }

  // ---------- The loops ----------

  /** `sector` holds entries `first` to `first + 15`. */
  ghost predicate Holds(dir: Directory, first: nat, sector: Sector)
    requires first + ENTRIES_PER_SECTOR <= |dir|
  {
    forall i: nat :: first <= i < first + ENTRIES_PER_SECTOR ==> dir[i] == Some(EntryIn(sector, i - first))
  }

  /** The entries of one sector, as the inner loop reads them. */
  method ScanSector(sector: Sector, name: string, ghost dir: Directory, ghost first: nat)
    returns (r: Lookup)
    requires first + ENTRIES_PER_SECTOR <= |dir| && Holds(dir, first, sector)
    ensures Scan(dir, name, first) == if r.Undecided? then Scan(dir, name, first + ENTRIES_PER_SECTOR) else r
  {
    for k := 0 to ENTRIES_PER_SECTOR
      invariant Scan(dir, name, first) == Scan(dir, name, first + k)
    {
      var e := EntryIn(sector, k);
      assert dir[first + k] == Some(e);
      if e[0] == ENTRY_EMPTY {
        return EndOfDirectory;
      }
      if e[0] == ENTRY_DELETED {
        continue;
      }
      if EntryName(e) == name {
        return Match(e);
      }
    }
    return Undecided;
  }

  lemma SectorEntries(fs: Fs, cluster: uint32, s: nat, first: nat)
    requires s < fs.sectorsPerCluster && first == ENTRIES_PER_SECTOR * s
    ensures var dir, read := ClusterEntries(fs, cluster), fs.disk(Wrap32(FirstSector(fs, cluster) + s));
            && first + ENTRIES_PER_SECTOR <= |dir|
            && (read.Some? ==> Holds(dir, first, read.value))
            && (read.None? ==> dir[first] == None)
  {
    var dir, target := ClusterEntries(fs, cluster), FirstSector(fs, cluster);
    forall i: nat | first <= i < first + ENTRIES_PER_SECTOR
      ensures dir[i] == match fs.disk(Wrap32(target + s))
                        case None => None
                        case Some(sector) => Some(EntryIn(sector, i - first))
    {
      assert dir[i] == EntryAt(fs.disk, target, i);
      assert i / ENTRIES_PER_SECTOR == s && i % ENTRIES_PER_SECTOR == i - first;
    }
  }

  /** The sectors of one cluster. */
  method ScanCluster(fs: Fs, cluster: uint32, name: string) returns (r: Lookup)
    ensures r == Scan(ClusterEntries(fs, cluster), name, 0)
  {
    var target := FirstSector(fs, cluster);
    ghost var dir := ClusterEntries(fs, cluster);
    for s := 0 to fs.sectorsPerCluster
      invariant Scan(dir, name, 0) == Scan(dir, name, ENTRIES_PER_SECTOR * s)
    {
      SectorEntries(fs, cluster, s, ENTRIES_PER_SECTOR * s);
      var read := fs.disk(Wrap32(target + s));
      if read.None? {
        return Unreadable;
      }
      var found := ScanSector(read.value, name, dir, ENTRIES_PER_SECTOR * s);
      if !found.Undecided? {
        return found;
      }
    }
    return Undecided;
  }

  /** The loop over the clusters of a directory. */
  method FollowChain(fs: Fs, cluster: uint32, name: string, ghost limit: nat) returns (r: Lookup)
    requires !LookUpWithin(fs, cluster, name, limit).Undecided?
    ensures r == LookUpWithin(fs, cluster, name, limit)
  {
    var current: uint32 := cluster;
    ghost var rounds := limit;
    while current != EOC_MARKER
      invariant LookUpWithin(fs, cluster, name, limit) == LookUpWithin(fs, current, name, rounds)
      decreases rounds
    {
      var found := ScanCluster(fs, current, name);
      if !found.Undecided? {
        return found;
      }
      var next := DirectoryLink(fs, current);
      if next.None? {
        return Unreadable;
      }
      current, rounds := next.value, rounds - 1;
    }
    return EndOfChain;
  }

  /** `read_dir_entry`, whenever it returns. */
  method ReadDirEntry(fs: Fs, cluster: uint32, name: string) returns (r: Lookup)
    requires !LookUp(fs, cluster, Names.Formatted(name)).Undecided?
    ensures r == LookUp(fs, cluster, Names.Formatted(name))
  {
    var output := Names.FormatName(name);
    r := FollowChain(fs, cluster, output[..], ENOUGH);
  }
}
