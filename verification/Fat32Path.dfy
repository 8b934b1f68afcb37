/** `parse_fat32_path` of os/fs/fat32.c: one left-to-right scan that cuts a path into at most
    16 components of at most 63 characters. */
module Fat32Path {
  /** A C string without its terminating zero. */
  type Text = string

  const SLASH: char := '/'
  const DOT: char := '.'
  const MAX_COMPONENTS: nat := 16
  const MAX_COMPONENT_LENGTH: nat := 64

  // ---------- Specification ----------

  /** One more character in front: a slash opens a new piece, any other joins the first. */
  function Prepend(c: char, pieces: seq<Text>): (r: seq<Text>)
    requires |pieces| > 0
    ensures |r| > 0
  {
    if c == SLASH then [""] + pieces else [[c] + pieces[0]] + pieces[1..]
  }

  /** The pieces between slashes, empty ones included. */
  function Split(s: Text): (pieces: seq<Text>)
    ensures |pieces| > 0
  {
    if s == [] then [""] else Prepend(s[0], Split(s[1..]))
  }

  predicate Keepable(piece: Text) {
    0 < |piece| < MAX_COMPONENT_LENGTH
  }

  function Keep(pieces: seq<Text>): (kept: seq<Text>) {
    if pieces == [] then []
    else Keep(pieces[..|pieces| - 1]) + if Keepable(pieces[|pieces| - 1]) then [pieces[|pieces| - 1]] else []
  }

  function Take(pieces: seq<Text>): (taken: seq<Text>) {
    if |pieces| <= MAX_COMPONENTS then pieces else pieces[..MAX_COMPONENTS]
  }

  function DropDot(path: Text): Text {
    if path != [] && path[0] == DOT then path[1..] else path
  }

  /** Drop one leading dot, split at slashes, keep pieces of length 1 to 63, the first 16. */
  function Parse(path: Text): (components: seq<Text>) {
    Take(Keep(Split(DropDot(path))))
  }

  // ---------- Laws of splitting ----------

  lemma {:induction false} SplitWhole(s: Text)
    requires SLASH !in s
    ensures Split(s) == [s]
    decreases |s|
  {
    if s != [] {
      SplitWhole(s[1..]);
      assert [s[0]] + s[1..] == s;
    }
  }

  lemma SplitCons(c: char, s: Text, t: Text)
    requires t == [c] + s
    ensures Split(t) == Prepend(c, Split(s))
  {
    assert t[1..] == s;
  }

  lemma PrependConcat(c: char, l: seq<Text>, r: seq<Text>)
    requires |l| > 0
    ensures Prepend(c, l + r) == Prepend(c, l) + r
  {
    assert (l + r)[1..] == l[1..] + r;
  }

  /** A slash separates for good: the pieces of the parts are the pieces of the whole. */
  lemma {:induction false} SplitAt(a: Text, b: Text)
    ensures Split(a + [SLASH] + b) == Split(a) + Split(b)
    decreases |a|
  {
    if a == [] {
      SplitCons(SLASH, b, a + [SLASH] + b);
    } else {
      var tail := a[1..];
      SplitAt(tail, b);
      SplitCons(a[0], tail, a);
      SplitCons(a[0], tail + [SLASH] + b, a + [SLASH] + b);
      PrependConcat(a[0], Split(tail), Split(b));
    }
  }

  lemma KeepAppend(pieces: seq<Text>, piece: Text)
    ensures Keep(pieces + [piece]) == Keep(pieces) + if Keepable(piece) then [piece] else []
  {
    assert (pieces + [piece])[..|pieces|] == pieces;
  }

  /** One more piece adds one component if it is kept and there is room. */
  lemma TakeAppend(pieces: seq<Text>, piece: Text)
    ensures var taken := Take(Keep(pieces));
            Take(Keep(pieces + [piece]))
            == if Keepable(piece) && |taken| < MAX_COMPONENTS then taken + [piece] else taken
  {
    KeepAppend(pieces, piece);
  }

  // ---------- Round trip ----------

  predicate LegalComponent(c: Text) {
    Keepable(c) && SLASH !in c
  }

  predicate Legal(cs: seq<Text>) {
    |cs| <= MAX_COMPONENTS && forall i :: 0 <= i < |cs| ==> LegalComponent(cs[i])
  }

  /** Components joined by slashes. */
  function Join(cs: seq<Text>): Text {
    if cs == [] then [] else if |cs| == 1 then cs[0] else Join(cs[..|cs| - 1]) + [SLASH] + cs[|cs| - 1]
  }

  lemma {:induction false} SplitJoin(cs: seq<Text>)
    requires cs != [] && Legal(cs)
    ensures Split(Join(cs)) == cs && Keep(cs) == cs && Join(cs) != [] && Join(cs)[0] == cs[0][0]
    decreases |cs|
  {
    if |cs| == 1 {
      SplitWhole(cs[0]);
      KeepAppend([], cs[0]);
      assert cs == [] + [cs[0]];
    } else {
      var front, last := cs[..|cs| - 1], cs[|cs| - 1];
      SplitJoin(front);
      SplitAt(Join(front), last);
      SplitWhole(last);
      assert cs == front + [last];
    }
  }

  /** Parsing a joined path gives its components back exactly when the path does not begin
      with a dot. */
  lemma ParseJoin(cs: seq<Text>)
    requires Legal(cs)
    ensures Parse(Join(cs)) == cs <==> cs == [] || cs[0][0] != DOT
  {
    if cs == [] {
      EmptyPath(Join(cs));
    } else if cs[0][0] == DOT {
      DotLost(cs);
    } else {
      ParseUndotted(cs);
    }
  }

  lemma DottedExample()
    ensures Parse(".config") == ["config"]
  {
    SplitWhole("config");
    KeepAppend([], "config");
    assert [] + ["config"] == ["config"];
  }

  lemma ParseUndotted(cs: seq<Text>)
    requires cs != [] && Legal(cs) && cs[0][0] != DOT
    ensures Parse(Join(cs)) == cs
  {
    SplitJoin(cs);
    assert DropDot(Join(cs)) == Join(cs);
    assert Take(Keep(Split(Join(cs)))) == Take(cs) == cs;
  }

  lemma EmptyPath(path: Text)
    requires path == []
    ensures Parse(path) == []
  {
    SplitWhole(path);
    KeepAppend([], path);
    assert Split(path) == [] + [path];
  }

  /** A path that begins with a dot parses as if its first component had lost the dot, and
      with it the whole component if there is nothing more to it. */
  lemma DotLost(cs: seq<Text>)
    requires cs != [] && Legal(cs) && cs[0][0] == '.'
    ensures Parse(Join(cs)) == if |cs[0]| == 1 then cs[1..] else cs[0 := cs[0][1..]]
    ensures Parse(Join(cs)) != cs
  {
    SplitJoin(cs);
    JoinTail(cs);
    var cut := cs[0 := cs[0][1..]];
    assert DropDot(Join(cs)) == Join(cut);
    SplitJoinNoSlash(cut);
    KeepFirst(cut);
  }

  lemma {:induction false} JoinTail(cs: seq<Text>)
    requires cs != [] && Legal(cs)
    ensures Join(cs) != [] && Join(cs)[1..] == Join(cs[0 := cs[0][1..]])
    decreases |cs|
  {
    if |cs| > 1 {
      var front, last := cs[..|cs| - 1], cs[|cs| - 1];
      JoinTail(front);
      var cut := cs[0 := cs[0][1..]];
      assert cut[..|cs| - 1] == front[0 := front[0][1..]];
      assert Join(cs)[1..] == Join(front)[1..] + [SLASH] + last;
    }
  }

  lemma {:induction false} SplitJoinNoSlash(cs: seq<Text>)
    requires cs != [] && forall i :: 0 <= i < |cs| ==> SLASH !in cs[i]
    ensures Split(Join(cs)) == cs
    decreases |cs|
  {
    if |cs| == 1 {
      SplitWhole(cs[0]);
    } else {
      var front, last := cs[..|cs| - 1], cs[|cs| - 1];
      SplitJoinNoSlash(front);
      SplitAt(Join(front), last);
      SplitWhole(last);
      assert cs == front + [last];
    }
  }

  /** Filtering drops an empty first piece or keeps it in front. */
  lemma {:induction false} KeepFirst(cs: seq<Text>)
    requires cs != [] && |cs[0]| < MAX_COMPONENT_LENGTH
    requires forall i :: 0 < i < |cs| ==> Keepable(cs[i])
    ensures Keep(cs) == if cs[0] == [] then cs[1..] else cs
    decreases |cs|
  {
    if |cs| > 1 {
      var front := cs[..|cs| - 1];
      KeepFirst(front);
      if cs[0] == [] {
        assert cs[1..] == front[1..] + [cs[|cs| - 1]];
      } else {
        assert cs == front + [cs[|cs| - 1]];
      }
    } else {
      assert cs[..0] == [] && cs == [cs[0]];
    }
  }

  lemma AbsolutePieces(cs: seq<Text>, path: Text)
    requires Legal(cs) && cs != [] && path == [SLASH] + Join(cs)
    ensures Split(path) == [""] + cs
  {
    SplitJoin(cs);
    SplitCons(SLASH, Join(cs), path);
  }

  lemma KeepDropsEmpty(cs: seq<Text>, pieces: seq<Text>)
    requires Legal(cs) && pieces == [""] + cs
    ensures Keep(pieces) == cs
  {
    KeepFirst(pieces);
    assert pieces[1..] == cs;
  }

  /** With a leading slash the dot is harmless: the components always come back. */
  lemma ParseAbsolute(cs: seq<Text>, path: Text)
    requires Legal(cs) && cs != [] && path == [SLASH] + Join(cs)
    ensures Parse(path) == cs
  {
    AbsolutePieces(cs, path);
    KeepDropsEmpty(cs, Split(path));
  }

  // ---------- Limits ----------

  lemma {:induction false} KeepAll(cs: seq<Text>)
    requires forall i :: 0 <= i < |cs| ==> Keepable(cs[i])
    ensures Keep(cs) == cs
    decreases |cs|
  {
    if cs != [] {
      var front := cs[..|cs| - 1];
      KeepAll(front);
      assert cs == front + [cs[|cs| - 1]];
    }
  }

  lemma {:induction false} KeepBehindEmpty(cs: seq<Text>)
    requires forall i :: 0 <= i < |cs| ==> Keepable(cs[i])
    ensures Keep([""] + cs) == cs
    decreases |cs|
  {
    if cs == [] {
      KeepAppend([], "");
      assert [""] + cs == [] + [""];
    } else {
      var front, last := cs[..|cs| - 1], cs[|cs| - 1];
      KeepBehindEmpty(front);
      KeepAppend([""] + front, last);
      assert [""] + cs == ([""] + front) + [last];
      assert cs == front + [last];
    }
  }

  /** Of any number of components of 1 to 63 characters the first 16 are returned. */
  lemma FirstSixteen(cs: seq<Text>)
    requires cs != [] && forall i :: 0 <= i < |cs| ==> 1 <= |cs[i]| <= 63 && '/' !in cs[i]
    ensures Parse("/" + Join(cs)) == if |cs| <= 16 then cs else cs[..16]
  {
    var path := "/" + Join(cs);
    SplitJoinNoSlash(cs);
    SplitCons('/', Join(cs), path);
    assert Split(path) == [""] + cs;
    KeepBehindEmpty(cs);
  }

  /** A single component is returned exactly if it has 1 to 63 characters, else dropped. */
  lemma ComponentLength(c: Text)
    requires '/' !in c
    ensures Parse("/" + c) == if 1 <= |c| <= 63 then [c] else []
  {
    var path := "/" + c;
    SplitWhole(c);
    SplitCons('/', c, path);
    assert Split(path) == [""] + [c];
    KeepAppend([""], c);
    KeepAppend([], "");
    assert [""] == [] + [""];
  }

  // ---------- Implementation ----------

  /** The scan of `p` is at `i`, inside the piece that begins at `start`; `done` are the
      pieces before it. */
  ghost predicate InPiece(p: Text, start: nat, i: nat, done: seq<Text>) {
    && start <= i <= |p| && (forall k :: start <= k < i ==> p[k] != SLASH)
    && (start > 0 ==> p[start - 1] == SLASH)
    && done == if start == 0 then [] else Split(p[..start - 1])
  }

  /** The copy into the component array, when the piece is not empty, not too long and there
      is a slot left. */
  method AddComponent(components: seq<Text>, p: Text, start: nat, i: nat) returns (r: seq<Text>)
    requires start <= i <= |p|
    ensures r == if Keepable(p[start..i]) && |components| < MAX_COMPONENTS
                 then components + [p[start..i]] else components
  {
    r := components;
    if i > start {
      var length := i - start;
      if length < MAX_COMPONENT_LENGTH && |components| < MAX_COMPONENTS {
        r := components + [p[start..i]];
      }
    }
  }

  /** The scan has reached `i`: inside a piece, or past the end with all pieces done. */
  ghost predicate Scanned(p: Text, start: nat, i: nat, components: seq<Text>, done: seq<Text>) {
    && start <= i <= |p| + 1
    && (if i <= |p| then InPiece(p, start, i, done) else done == Split(p))
    && components == Take(Keep(done))
  }

  lemma CloseKeeps(p: Text, start: nat, i: nat, components: seq<Text>, done: seq<Text>)
    requires Scanned(p, start, i, components, done) && i <= |p| && (i < |p| ==> p[i] == SLASH)
    ensures var piece := p[start..i];
            var more := if Keepable(piece) && |components| < MAX_COMPONENTS then components + [piece] else components;
            Scanned(p, i + 1, i + 1, more, done + [piece])
  {
    PieceDone(p, start, i, done);
    TakeAppend(done, p[start..i]);
  }

  lemma GoOnKeeps(p: Text, start: nat, i: nat, components: seq<Text>, done: seq<Text>)
    requires Scanned(p, start, i, components, done) && i < |p| && p[i] != SLASH
    ensures Scanned(p, start, i + 1, components, done)
  {
    PieceGoesOn(p, start, i, done);
  }

  /** The loop body: a separator or the end of the string closes the piece. */
  method ScanCharacter(p: Text, start: nat, i: nat, components: seq<Text>, ghost done: seq<Text>)
    returns (start': nat, components': seq<Text>, ghost done': seq<Text>)
    requires Scanned(p, start, i, components, done) && i <= |p|
    ensures Scanned(p, start', i + 1, components', done')
  {
    if i == |p| || p[i] == SLASH {
      CloseKeeps(p, start, i, components, done);
      components' := AddComponent(components, p, start, i);
      start', done' := i + 1, done + [p[start..i]];
    } else {
      GoOnKeeps(p, start, i, components, done);
      start', components', done' := start, components, done;
    }
  }

  lemma ScanStarts(p: Text, none: seq<Text>)
    requires none == []
    ensures Scanned(p, 0, 0, none, none)
  {}

  /** `parse_fat32_path`; `components` is the array of the path structure. */
  method ParsePath(path: Text) returns (components: seq<Text>)
    ensures components == Parse(path)
  {
    var p := DropDot(path);
    components := [];
    var start: nat := 0;
    ghost var done: seq<Text> := [];
    ScanStarts(p, done);
    for i := 0 to |p| + 1
      invariant Scanned(p, start, i, components, done)
    {
      start, components, done := ScanCharacter(p, start, i, components, done);
    }
  }

  lemma PieceGoesOn(p: Text, start: nat, i: nat, done: seq<Text>)
    requires InPiece(p, start, i, done) && i < |p| && p[i] != SLASH
    ensures InPiece(p, start, i + 1, done)
  {}

  lemma CutAtSlash(p: Text, start: nat, i: nat)
    requires 0 < start <= i <= |p| && p[start - 1] == SLASH
    ensures p[..i] == p[..start - 1] + [SLASH] + p[start..i]
  {}

  /** Splitting a prefix that ends with the piece from `start` on. */
  lemma SplitPrefix(p: Text, start: nat, i: nat)
    requires start <= i <= |p| && (start > 0 ==> p[start - 1] == SLASH)
    requires forall k :: start <= k < i ==> p[k] != SLASH
    ensures Split(p[..i]) == (if start == 0 then [] else Split(p[..start - 1])) + [p[start..i]]
  {
    var piece := p[start..i];
    SplitWhole(piece);
    if start > 0 {
      CutAtSlash(p, start, i);
      SplitAt(p[..start - 1], piece);
    } else {
      assert p[..i] == piece;
    }
  }

  /** Reaching a separator or the end completes one piece. */
  lemma PieceDone(p: Text, start: nat, i: nat, done: seq<Text>)
    requires InPiece(p, start, i, done) && (i < |p| ==> p[i] == SLASH)
    ensures i < |p| ==> InPiece(p, i + 1, i + 1, done + [p[start..i]])
    ensures i == |p| ==> Split(p) == done + [p[start..i]]
  {
    SplitPrefix(p, start, i);
    if i == |p| {
      assert p[..i] == p;
    }
  }
}
