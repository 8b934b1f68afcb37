/** `fat32_open` of os/fs/fat32.c: parse the path, then look each component up in the
    directory found for the one before. */
module Fat32Open {
  import opened Words
  import opened Fat32Volume
  import opened Fat32File
  import opened Fat32Directory
  import Content = Fat32Content
  import Names = Fat32Names
  import Path = Fat32Path

  /** `Endless`: a lookup on the way never returns, and neither does the call. */
  datatype OpenResult = Opened(file: Handle) | NoPath | NoFile | IsDir | Endless

  /** FAT32_ATTR_DIRECTORY, bit 4. */
  predicate IsDirectoryEntry(f: Found) {
    f.attributes / 0x10 % 2 == 1
  }

  /** The handle for the entry `f`, found under `name` in the directory at `parent`. */
  function HandleFor(f: Found, parent: uint32, name: string): Handle {
    Handle(f.startCluster, f.startCluster, f.fileSize, parent, 0, Names.Formatted(name))
  }

  /** What looking a name up in the directory at a cluster gives. */
  type Lookups = (uint32, string) -> Lookup

  function LookupsOn(fs: Fs): (find: Lookups) {
    (cluster: uint32, name: string) => LookUp(fs, cluster, Names.Formatted(name))
  }

  /** Where a list of components leads from the directory at `cluster`. */
  function Resolve(find: Lookups, cluster: uint32, components: seq<string>): (r: OpenResult)
    requires components != []
    decreases |components|
  {
    var last := |components| == 1;
    match find(cluster, components[0])
    case Match(entry) =>
      var found := Decode(entry);
      if !last then Resolve(find, found.startCluster, components[1..])
      else if IsDirectoryEntry(found) then IsDir
      else Opened(HandleFor(found, cluster, components[0]))
    case Undecided => Endless
    case _ => if last then NoFile else NoPath
  }

  /** Where the names lead from the root directory of a volume. */
  function ResolveOn(fs: Fs, components: seq<string>): (r: OpenResult)
    requires components != []
  {
    Resolve(LookupsOn(fs), fs.rootCluster, components)
  }

  /** The names `fat32_open` goes through. It counts up to the number of components less one,
      as an unsigned word, so with no component it goes on through `stale(0)`, `stale(1)`, ...,
      the strings that uninitialised memory holds from the component table on. */
  function NamesTried(components: seq<string>, stale: int -> string): (names: seq<string>)
    ensures |names| == Wrap32(|components| - 1) + 1 || |components| > TWO32
  {
    if components == [] then seq(TWO32 - 1, i requires 0 <= i < TWO32 - 1 => stale(i)) + [stale(-1)] else components
  }

  /** With no component the names are those of uninitialised memory, 2^32 of them. */
  lemma StaleNames(stale: int -> string, i: nat)
    requires i < TWO32
    ensures |NamesTried([], stale)| == TWO32
    ensures NamesTried([], stale)[i] == stale(if i == TWO32 - 1 then -1 else i)
  {}

  // ---------- The descent ----------

  /** A lookup of `name` in the directory at `d` finds `e`. */
  predicate Finds(find: Lookups, d: uint32, name: string, e: Entry) {
    find(d, name) == Match(e)
  }

  /** The entry found for `name` in the directory at `d` begins at cluster `next`. */
  ghost predicate Enters(find: Lookups, d: uint32, name: string, next: uint32) {
    exists e :: Finds(find, d, name, e) && Decode(e).startCluster == next
  }

  /** Directory 0 is `root`, and each name but the last is found in the directory of its
      number and leads to the next one. */
  ghost predicate Descends(find: Lookups, root: uint32, names: seq<string>, dirs: seq<uint32>) {
    && 0 < |dirs| <= |names| && dirs[0] == root
    && forall i :: 0 <= i < |dirs| - 1 ==> Enters(find, dirs[i], names[i], dirs[i + 1])
  }

  /** The descent ends in the last of `dirs`, where the next name is sought with answer `r`. */
  ghost predicate Seeks(find: Lookups, root: uint32, names: seq<string>, dirs: seq<uint32>, r: Lookup) {
    Descends(find, root, names, dirs) && r == find(dirs[|dirs| - 1], names[|dirs| - 1])
  }

  /** Bit 4 of the attribute byte. */
  predicate MarksDirectory(e: Entry) {
    e[11] % 0x20 >= 0x10
  }

  ghost predicate OpensAs(find: Lookups, root: uint32, names: seq<string>, dirs: seq<uint32>, e: Entry, h: Handle) {
    && Seeks(find, root, names, dirs, Match(e)) && |dirs| == |names| && !MarksDirectory(e)
    && h.startCluster == Decode(e).startCluster && h.fileSize == Decode(e).fileSize
    && h.currentCluster == h.startCluster && h.offset == 0
    && h.parentCluster == dirs[|dirs| - 1]
    && h.formattedName == Names.Formatted(names[|names| - 1])
  }

  ghost predicate EndsInDirectory(find: Lookups, root: uint32, names: seq<string>, dirs: seq<uint32>, e: Entry) {
    Seeks(find, root, names, dirs, Match(e)) && |dirs| == |names| && MarksDirectory(e)
  }

  /** Name number `|dirs| - 1` is not there. */
  ghost predicate Misses(find: Lookups, root: uint32, names: seq<string>, dirs: seq<uint32>, r: Lookup) {
    Seeks(find, root, names, dirs, r) && !r.Match? && !r.Undecided?
  }

  lemma DescendsTail(find: Lookups, names: seq<string>, dirs: seq<uint32>)
    requires |dirs| > 1 && Descends(find, dirs[0], names, dirs)
    ensures Descends(find, dirs[1], names[1..], dirs[1..])
    ensures Enters(find, dirs[0], names[0], dirs[1])
  {
    var n, d := names[1..], dirs[1..];
    forall i | 0 <= i < |d| - 1
      ensures Enters(find, d[i], n[i], d[i + 1])
    {
      assert Enters(find, dirs[i + 1], names[i + 1], dirs[i + 2]);
    }
  }

  lemma DescendsFrom(find: Lookups, root: uint32, names: seq<string>, next: uint32, rest: seq<uint32>)
    requires |names| > 1 && Enters(find, root, names[0], next) && Descends(find, next, names[1..], rest)
    ensures Descends(find, root, names, [root] + rest)
  {
    var dirs := [root] + rest;
    forall i | 0 <= i < |dirs| - 1
      ensures Enters(find, dirs[i], names[i], dirs[i + 1])
    {
      if i > 0 {
        assert Enters(find, rest[i - 1], names[1..][i - 1], rest[i]);
      }
    }
  }

  /** What opening gives once the descent has come to its last directory. */
  function Verdict(r: Lookup, last: bool, parent: uint32, name: string): (v: OpenResult)
    requires r.Match? ==> last
  {
    match r
    case Match(e) => if MarksDirectory(e) then IsDir else Opened(HandleFor(Decode(e), parent, name))
    case Undecided => Endless
    case _ => if last then NoFile else NoPath
  }

  lemma ResolveEnters(find: Lookups, root: uint32, names: seq<string>, next: uint32)
    requires |names| > 1 && Enters(find, root, names[0], next)
    ensures Resolve(find, root, names) == Resolve(find, next, names[1..])
  {}

  lemma FirstAnswer(find: Lookups, root: uint32, names: seq<string>, r: Lookup)
    requires names != [] && r == find(root, names[0]) && (r.Match? ==> |names| == 1)
    ensures Resolve(find, root, names) == Verdict(r, |names| == 1, root, names[0])
  {}

  lemma SeeksTail(find: Lookups, names: seq<string>, dirs: seq<uint32>, r: Lookup)
    requires |dirs| > 1 && Seeks(find, dirs[0], names, dirs, r)
    ensures Seeks(find, dirs[1], names[1..], dirs[1..], r)
    ensures Enters(find, dirs[0], names[0], dirs[1])
    ensures var n, d := names[1..], dirs[1..];
            && d != [] && d[0] == dirs[1] && d[|d| - 1] == dirs[|dirs| - 1]
            && n[|d| - 1] == names[|dirs| - 1] && (|d| == |n| <==> |dirs| == |names|)
  {
    DescendsTail(find, names, dirs);
  }

  /** The result of opening is decided where the descent stops: at the last name, or at the
      first one that is not found. */
  lemma {:induction false} DescentDecides(find: Lookups, names: seq<string>, dirs: seq<uint32>, r: Lookup)
    requires dirs != [] && Seeks(find, dirs[0], names, dirs, r)
    requires r.Match? ==> |dirs| == |names|
    ensures Resolve(find, dirs[0], names)
         == Verdict(r, |dirs| == |names|, dirs[|dirs| - 1], names[|dirs| - 1])
    decreases |dirs|
  {
    if |dirs| > 1 {
      SeeksTail(find, names, dirs, r);
      DescentDecides(find, names[1..], dirs[1..], r);
      ResolveEnters(find, dirs[0], names, dirs[1]);
    } else {
      FirstAnswer(find, dirs[0], names, r);
    }
  }

  lemma {:induction false} DescentStops(find: Lookups, root: uint32, names: seq<string>)
    returns (dirs: seq<uint32>, r: Lookup)
    requires names != []
    ensures Seeks(find, root, names, dirs, r) && (r.Match? ==> |dirs| == |names|)
    decreases |names|
  {
    r := find(root, names[0]);
    if |names| > 1 && r.Match? {
      var next := Decode(r.entry).startCluster;
      assert Finds(find, root, names[0], r.entry);
      var rest;
      rest, r := DescentStops(find, next, names[1..]);
      DescendsFrom(find, root, names, next, rest);
      dirs := [root] + rest;
    } else {
      dirs := [root];
    }
  }

  lemma SeeksDecides(find: Lookups, root: uint32, names: seq<string>, dirs: seq<uint32>, r: Lookup)
    requires Seeks(find, root, names, dirs, r) && (r.Match? ==> |dirs| == |names|)
    ensures Resolve(find, root, names) == Verdict(r, |dirs| == |names|, dirs[|dirs| - 1], names[|dirs| - 1])
  {
    DescentDecides(find, names, dirs, r);
  }

  /** A file is opened exactly if each name is found in the directory the one before led to,
      from the root directory on, the last one as a file, and the handle is made of that entry
      and its directory. */
  lemma OpenedExactly(fs: Fs, names: seq<string>, h: Handle)
    requires names != []
    ensures ResolveOn(fs, names) == Opened(h) <==>
            exists dirs, e :: OpensAs(LookupsOn(fs), fs.rootCluster, names, dirs, e, h)
  {
    var find, root := LookupsOn(fs), fs.rootCluster;
    var stop, r := DescentStops(find, root, names);
    SeeksDecides(find, root, names, stop, r);
    if ResolveOn(fs, names) == Opened(h) {
      assert OpensAs(find, root, names, stop, r.entry, h);
    }
    if dirs, e :| OpensAs(find, root, names, dirs, e, h) {
      SeeksDecides(find, root, names, dirs, Match(e));
    }
  }

  /** The errors of opening, each exactly where the descent earns it: a directory at the end,
      the last name missing, an earlier name missing, or a lookup that never returns. */
  lemma OpenFailsExactly(fs: Fs, names: seq<string>)
    requires names != []
    ensures var find, root, r := LookupsOn(fs), fs.rootCluster, ResolveOn(fs, names);
            && (r == IsDir <==> exists dirs, e :: EndsInDirectory(find, root, names, dirs, e))
            && (r == NoFile <==> exists dirs, l :: |dirs| == |names| && Misses(find, root, names, dirs, l))
            && (r == NoPath <==> exists dirs, l :: |dirs| < |names| && Misses(find, root, names, dirs, l))
            && (r == Endless <==> exists dirs :: Seeks(find, root, names, dirs, Undecided))
  {
    var find, root := LookupsOn(fs), fs.rootCluster;
    var stop, l := DescentStops(find, root, names);
    SeeksDecides(find, root, names, stop, l);
    if ResolveOn(fs, names) == IsDir {
      assert EndsInDirectory(find, root, names, stop, l.entry);
    }
    if ResolveOn(fs, names) == NoFile || ResolveOn(fs, names) == NoPath {
      assert Misses(find, root, names, stop, l);
    }
    forall dirs, m | Seeks(find, root, names, dirs, m) && (m.Match? ==> |dirs| == |names|)
      ensures ResolveOn(fs, names) == Verdict(m, |dirs| == |names|, dirs[|dirs| - 1], names[|dirs| - 1])
    {
      SeeksDecides(find, root, names, dirs, m);
    }
  }

  /** An absolute path of legal components is looked up component by component. */
  lemma AbsolutePathNames(components: seq<string>, path: string, stale: int -> string)
    requires components != [] && Path.Legal(components) && path == "/" + Path.Join(components)
    ensures NamesTried(Path.Parse(path), stale) == components
  {
    Path.ParseAbsolute(components, path);
  }

  // ---------- Opening ----------

  /** `read_dir_entry` under the name of a component, whenever it returns. */
  method Find(fs: Fs, cluster: uint32, name: string) returns (r: Lookup)
    requires !LookupsOn(fs)(cluster, name).Undecided?
    ensures r == LookupsOn(fs)(cluster, name)
  {
    r := ReadDirEntry(fs, cluster, name);
  }

  /** `fat32_open`, whenever it returns. */
  method Open(fs: Fs, path: string, stale: int -> string) returns (r: OpenResult)
    requires !ResolveOn(fs, NamesTried(Path.Parse(path), stale)).Endless?
    ensures r == ResolveOn(fs, NamesTried(Path.Parse(path), stale))
  {
    var components := Path.ParsePath(path);
    ghost var names := NamesTried(components, stale);
    ghost var find := LookupsOn(fs);
    var cluster := fs.rootCluster;
    var last := Wrap32(|components| - 1);
    assert names[0..] == names;
    for i := 0 to last
      invariant Resolve(find, cluster, names[i..]) == ResolveOn(fs, names)
    {
      assert names[i..][0] == names[i] && names[i..][1..] == names[i + 1..];
      var found := Find(fs, cluster, if i < |components| then components[i] else stale(i));
      if !found.Match? {
        return NoPath;
      }
      cluster := Decode(found.entry).startCluster;
    }
    var name := if components != [] then components[|components| - 1] else stale(-1);
    assert names[last..] == [name];
    r := OpenTarget(fs, cluster, name);
  }

  /** The last step of `fat32_open`: look the name up in its directory and fill the handle. */
  method OpenTarget(fs: Fs, cluster: uint32, name: string) returns (r: OpenResult)
    requires !Resolve(LookupsOn(fs), cluster, [name]).Endless?
    ensures r == Resolve(LookupsOn(fs), cluster, [name])
  {
    var target := Find(fs, cluster, name);
    if !target.Match? {
      return NoFile;
    }
    var file := Decode(target.entry);
    if IsDirectoryEntry(file) {
      return IsDir;
    }
    var output := Names.FormatName(name);
    return Opened(Handle(file.startCluster, file.startCluster, file.fileSize, cluster, 0, output[..]));
  }

  /** Legal 8.3 names, pairwise equal up to letter case. */
  ghost predicate EqualIgnoringCase(a: seq<string>, b: seq<string>) {
    |a| == |b| && forall i :: 0 <= i < |a| ==>
      Names.Legal(a[i]) && Names.Legal(b[i]) && Names.UpperAll(a[i]) == Names.UpperAll(b[i])
  }

  lemma {:induction false} ResolveIgnoresCase(fs: Fs, cluster: uint32, a: seq<string>, b: seq<string>)
    requires a != [] && EqualIgnoringCase(a, b)
    ensures Resolve(LookupsOn(fs), cluster, a) == Resolve(LookupsOn(fs), cluster, b)
    decreases |a|
  {
    Names.SameStoredName(a[0], b[0]);
    var r := LookupsOn(fs)(cluster, a[0]);
    assert r == LookupsOn(fs)(cluster, b[0]);
    if |a| > 1 && r.Match? {
      ResolveIgnoresCase(fs, Decode(r.entry).startCluster, a[1..], b[1..]);
    }
  }

  /** Two absolute paths of legal names that differ only in letter case open the same file:
      the same handle, or the same error. */
  lemma OpenIgnoresCase(fs: Fs, a: seq<string>, b: seq<string>, p: string, q: string, stale: int -> string)
    requires a != [] && EqualIgnoringCase(a, b) && Path.Legal(a) && Path.Legal(b)
    requires p == [Path.SLASH] + Path.Join(a) && q == [Path.SLASH] + Path.Join(b)
    ensures Path.Parse(p) == a && Path.Parse(q) == b
    ensures ResolveOn(fs, NamesTried(Path.Parse(p), stale)) == ResolveOn(fs, NamesTried(Path.Parse(q), stale))
  {
    Path.ParseAbsolute(a, p);
    Path.ParseAbsolute(b, q);
    ResolveIgnoresCase(fs, fs.rootCluster, a, b);
  }

  /** A handle describes where it came from: its name, looked up again in the directory it
      records as parent, gives the entry it was made from. */
  lemma HandleFoundInParent(fs: Fs, names: seq<string>)
    requires names != [] && ResolveOn(fs, names).Opened?
    ensures var h := ResolveOn(fs, names).file;
            var r := LookUp(fs, h.parentCluster, h.formattedName);
            && h.formattedName == Names.Formatted(names[|names| - 1])
            && r.Match? && !MarksDirectory(r.entry)
            && h.startCluster == h.currentCluster == Decode(r.entry).startCluster
            && h.fileSize == Decode(r.entry).fileSize && h.offset == 0
  {
    var h := ResolveOn(fs, names).file;
    OpenedExactly(fs, names, h);
    var dirs, e :| OpensAs(LookupsOn(fs), fs.rootCluster, names, dirs, e, h);
    assert LookupsOn(fs)(h.parentCluster, names[|names| - 1]) == Match(e);
  }

  /** From path to bytes: if opening succeeds and the chain of the file found is intact and
      long enough, any reads and seeks on the handle are those of a cursor over the
      concatenated clusters, from the beginning. */
  lemma OpenedFileIsCursor(fs: Fs, names: seq<string>, clusters: seq<uint32>, ops: seq<Content.Op>)
    requires names != [] && ResolveOn(fs, names).Opened?
    requires fs.sectorsPerCluster != 0
    requires Content.IsChain(fs.Links(), clusters) && Content.ReadableClusters(fs, clusters)
    requires var h := ResolveOn(fs, names).file;
             clusters[0] == h.startCluster && h.fileSize <= |clusters| * fs.ClusterSize()
    ensures var h := ResolveOn(fs, names).file;
            && h.currentCluster == h.startCluster
            && h.fileSize <= |Content.ChainData(fs, clusters)|
            && Content.DriverRun(FileView(fs, h.startCluster), h.fileSize, h.offset, ops)
               == Content.CursorRun(Content.ChainData(fs, clusters)[..h.fileSize], 0, ops)
  {
    HandleFoundInParent(fs, names);
    Content.IntactFileIsCursor(fs, clusters, ResolveOn(fs, names).file.fileSize, ops);
  }
}
