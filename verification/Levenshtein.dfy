/** The edit distance of boot/bootloader.c: a recursion on prefix lengths that skips the
    three-way minimum when the last characters agree. It is shown to be the least number
    of single-character edits between the two strings, and a metric. */
module Levenshtein {

  function Min3(a: int, b: int, c: int): (m: int)
    ensures m <= a && m <= b && m <= c
    ensures m == a || m == b || m == c
  {
    if a <= b && a <= c then a
    else if b <= a && b <= c then b
    else c
  }

  /** Distance between the first `i` characters of `s` and the first `j` of `t`. */
  function Distance(s: string, t: string, i: nat, j: nat): (d: nat)
    requires i <= |s| && j <= |t|
  {
    if i == 0 then j
    else if j == 0 then i
    else if s[i - 1] == t[j - 1] then Distance(s, t, i - 1, j - 1)
    else
      var insert := Distance(s, t, i, j - 1);
      var remove := Distance(s, t, i - 1, j);
      var replace := Distance(s, t, i - 1, j - 1);
      1 + Min3(insert, remove, replace)
  }

  function Levenshtein(s: string, t: string): (d: nat) {
    Distance(s, t, |s|, |t|)
  }

  // ---------- The greedy recursion agrees with the full minimum ----------

  /** Lengthening one prefix by a character changes the distance by at most one. */
  lemma {:induction false} Lipschitz(s: string, t: string, i: nat, j: nat)
    requires i <= |s| && j <= |t|
    ensures i > 0 ==> Distance(s, t, i - 1, j) <= Distance(s, t, i, j) + 1
    ensures i > 0 ==> Distance(s, t, i, j) <= Distance(s, t, i - 1, j) + 1
    ensures j > 0 ==> Distance(s, t, i, j - 1) <= Distance(s, t, i, j) + 1
    ensures j > 0 ==> Distance(s, t, i, j) <= Distance(s, t, i, j - 1) + 1
    decreases i + j
  {
    if i > 0 && j > 0 {
      Lipschitz(s, t, i - 1, j);
      Lipschitz(s, t, i, j - 1);
      Lipschitz(s, t, i - 1, j - 1);
    }
  }

  function Mismatch(a: char, b: char): (c: nat) { if a == b then 0 else 1 }

  /** The textbook recurrence, minimum always taken, holds of the shortcut version. */
  lemma FullRecurrence(s: string, t: string, i: nat, j: nat)
    requires 0 < i <= |s| && 0 < j <= |t|
    ensures Distance(s, t, i, j)
         == Min3(Distance(s, t, i, j - 1) + 1,
                 Distance(s, t, i - 1, j) + 1,
                 Distance(s, t, i - 1, j - 1) + Mismatch(s[i - 1], t[j - 1]))
  {
    if s[i - 1] == t[j - 1] {
      assert Distance(s, t, i - 1, j - 1) <= Distance(s, t, i - 1, j) + 1 by { Lipschitz(s, t, i - 1, j); }
      assert Distance(s, t, i - 1, j - 1) <= Distance(s, t, i, j - 1) + 1 by { Lipschitz(s, t, i, j - 1); }
    }
  }

  datatype Move = Insert | Delete | Diagonal

  /** The cost of a script that ends with the given move. */
  function AfterMove(s: string, t: string, i: nat, j: nat, m: Move): nat
    requires 0 < i <= |s| && 0 < j <= |t|
  {
    match m
    case Insert => Distance(s, t, i, j - 1) + 1
    case Delete => Distance(s, t, i - 1, j) + 1
    case Diagonal => Distance(s, t, i - 1, j - 1) + Mismatch(s[i - 1], t[j - 1])
  }

  /** No move at the ends of two prefixes undercuts the distance... */
  lemma Moves(s: string, t: string, i: nat, j: nat)
    requires 0 < i <= |s| && 0 < j <= |t|
    ensures forall m: Move :: Distance(s, t, i, j) <= AfterMove(s, t, i, j, m)
  {
    FullRecurrence(s, t, i, j);
  }

  /** ... and one of them attains it. */
  lemma BestMove(s: string, t: string, i: nat, j: nat) returns (m: Move)
    requires 0 < i <= |s| && 0 < j <= |t|
    ensures Distance(s, t, i, j) == AfterMove(s, t, i, j, m)
  {
    m := if s[i - 1] == t[j - 1] then Diagonal
         else if Distance(s, t, i, j) == Distance(s, t, i, j - 1) + 1 then Insert
         else if Distance(s, t, i, j) == Distance(s, t, i - 1, j) + 1 then Delete
         else Diagonal;
  }

  // ---------- Metric laws ----------

  lemma {:induction false} LengthBounds(s: string, t: string, i: nat, j: nat)
    requires i <= |s| && j <= |t|
    ensures i - j <= Distance(s, t, i, j)
    ensures j - i <= Distance(s, t, i, j)
    ensures Distance(s, t, i, j) <= if i < j then j else i
    decreases i + j
  {
    if i > 0 && j > 0 {
      LengthBounds(s, t, i - 1, j - 1);
      LengthBounds(s, t, i - 1, j);
      LengthBounds(s, t, i, j - 1);
    }
  }

  lemma {:induction false} ZeroIffEqual(s: string, t: string, i: nat, j: nat)
    requires i <= |s| && j <= |t|
    ensures Distance(s, t, i, j) == 0 <==> s[..i] == t[..j]
    decreases i + j
  {
    if i > 0 && j > 0 {
      assert s[..i] == s[..i - 1] + [s[i - 1]];
      assert t[..j] == t[..j - 1] + [t[j - 1]];
      if s[i - 1] == t[j - 1] {
        ZeroIffEqual(s, t, i - 1, j - 1);
        if s[..i] == t[..j] {
          assert s[..i - 1] == s[..i][..i - 1] == t[..j][..j - 1] == t[..j - 1];
        }
      } else {
        assert s[..i][i - 1] == s[i - 1] && t[..j][j - 1] == t[j - 1];
      }
    }
  }

  lemma {:induction false} Symmetric(s: string, t: string, i: nat, j: nat)
    requires i <= |s| && j <= |t|
    ensures Distance(s, t, i, j) == Distance(t, s, j, i)
    decreases i + j
  {
    if i > 0 && j > 0 {
      Symmetric(s, t, i - 1, j - 1);
      Symmetric(s, t, i - 1, j);
      Symmetric(s, t, i, j - 1);
    }
  }

  lemma TriangleThroughEmpty(s: string, u: string, t: string, i: nat, k: nat, j: nat)
    requires i <= |s| && k <= |u| && j <= |t|
    requires i == 0 || k == 0 || j == 0
    ensures Distance(s, t, i, j) <= Distance(s, u, i, k) + Distance(u, t, k, j)
  {
    LengthBounds(s, u, i, k);
    LengthBounds(u, t, k, j);
    LengthBounds(s, t, i, j);
  }

  lemma {:induction false} Triangle(s: string, u: string, t: string, i: nat, k: nat, j: nat)
    requires i <= |s| && k <= |u| && j <= |t|
    ensures Distance(s, t, i, j) <= Distance(s, u, i, k) + Distance(u, t, k, j)
    decreases i + k + j, 1
  {
    if i == 0 || k == 0 || j == 0 {
      TriangleThroughEmpty(s, u, t, i, k, j);
    } else {
      var first := BestMove(s, u, i, k);
      var second := BestMove(u, t, k, j);
      if first.Delete? {
        Triangle(s, u, t, i - 1, k, j);
        Lipschitz(s, t, i, j);
      } else if second.Insert? {
        Triangle(s, u, t, i, k, j - 1);
        Lipschitz(s, t, i, j);
      } else {
        TriangleThroughLast(s, u, t, i, k, j, first, second);
      }
    }
  }

  /** The case where both cheapest scripts consume the last character of `u`. */
  lemma {:induction false} TriangleThroughLast(
      s: string, u: string, t: string, i: nat, k: nat, j: nat, first: Move, second: Move)
    requires 0 < i <= |s| && 0 < k <= |u| && 0 < j <= |t|
    requires first != Delete && second != Insert
    requires Distance(s, u, i, k) == AfterMove(s, u, i, k, first)
    requires Distance(u, t, k, j) == AfterMove(u, t, k, j, second)
    ensures Distance(s, t, i, j) <= Distance(s, u, i, k) + Distance(u, t, k, j)
    decreases i + k + j, 0
  {
    Triangle(s, u, t, if first.Insert? then i else i - 1, k - 1, if second.Delete? then j else j - 1);
    Moves(s, t, i, j);
    var m := if first.Insert? && second.Delete? then Diagonal
             else if first.Insert? then Insert
             else if second.Delete? then Delete
             else Diagonal;
    assert Distance(s, t, i, j) <= AfterMove(s, t, i, j, m);
  }

  /** The distance of whole strings is a metric, between the difference and the maximum
      of the lengths. */
  lemma LevenshteinIsMetric(s: string, u: string, t: string)
    ensures Levenshtein(s, t) == 0 <==> s == t
    ensures Levenshtein(s, t) == Levenshtein(t, s)
    ensures Levenshtein(s, t) <= Levenshtein(s, u) + Levenshtein(u, t)
    ensures |s| - |t| <= Levenshtein(s, t) && |t| - |s| <= Levenshtein(s, t)
    ensures Levenshtein(s, t) <= if |s| < |t| then |t| else |s|
  {
    ZeroIffEqual(s, t, |s|, |t|);
    assert s[..|s|] == s && t[..|t|] == t;
    Symmetric(s, t, |s|, |t|);
    Triangle(s, u, t, |s|, |u|, |t|);
    LengthBounds(s, t, |s|, |t|);
  }

  // ---------- Optimality against single-character edits ----------

  function InsertAt(s: string, p: nat, c: char): string
    requires p <= |s|
  {
    s[..p] + [c] + s[p..]
  }

  ghost predicate IsInsertion(s: string, t: string) {
    exists p: nat, c: char :: p <= |s| && t == InsertAt(s, p, c)
  }

  function Substitute(s: string, p: nat, c: char): string
    requires p < |s|
  {
    s[p := c]
  }

  ghost predicate IsSubstitution(s: string, t: string) {
    exists p: nat, c: char :: p < |s| && t == Substitute(s, p, c)
  }

  /** One insertion, deletion or substitution anywhere in the string. */
  ghost predicate OneEdit(s: string, t: string) {
    IsInsertion(s, t) || IsInsertion(t, s) || IsSubstitution(s, t)
  }

  /** A script as the strings it passes through; its cost is `|path| - 1`. */
  ghost predicate EditPath(path: seq<string>, s: string, t: string) {
    && |path| > 0
    && path[0] == s
    && path[|path| - 1] == t
    && forall k :: 0 < k < |path| ==> OneEdit(path[k - 1], path[k])
  }

  lemma {:induction false} InsertionCostsOne(s: string, t: string, p: nat, c: char, i: nat)
    requires p <= i <= |s| && t == InsertAt(s, p, c)
    ensures Distance(s, t, i, i + 1) <= 1
    decreases i
  {
    if i == p {
      assert s[..i] == t[..i];
      ZeroIffEqual(s, t, i, i);
      Lipschitz(s, t, i, i + 1);
    } else {
      InsertionCostsOne(s, t, p, c, i - 1);
    }
  }

  lemma {:induction false} SubstitutionCostsOne(s: string, t: string, p: nat, c: char, i: nat)
    requires p < i <= |s| && t == Substitute(s, p, c)
    ensures Distance(s, t, i, i) <= 1
    decreases i
  {
    if i == p + 1 {
      assert s[..p] == t[..p];
      ZeroIffEqual(s, t, p, p);
      FullRecurrence(s, t, i, i);
    } else {
      SubstitutionCostsOne(s, t, p, c, i - 1);
    }
  }

  lemma OneEditCostsOne(s: string, t: string)
    requires OneEdit(s, t)
    ensures Levenshtein(s, t) <= 1
  {
    if IsInsertion(s, t) {
      var p: nat, c: char :| p <= |s| && t == InsertAt(s, p, c);
      InsertionCostsOne(s, t, p, c, |s|);
    } else if IsInsertion(t, s) {
      var p: nat, c: char :| p <= |t| && s == InsertAt(t, p, c);
      InsertionCostsOne(t, s, p, c, |t|);
      Symmetric(s, t, |s|, |t|);
    } else {
      var p: nat, c: char :| p < |s| && t == Substitute(s, p, c);
      SubstitutionCostsOne(s, t, p, c, |s|);
    }
  }

  /** No script is cheaper than the distance. */
  lemma {:induction false} PathCostsAtLeast(path: seq<string>, s: string, t: string)
    requires EditPath(path, s, t)
    ensures Levenshtein(s, t) <= |path| - 1
    decreases |path|
  {
    LevenshteinIsMetric(s, s, t);
    if |path| > 1 {
      var u := path[|path| - 2];
      PathCostsAtLeast(path[..|path| - 1], s, u);
      assert OneEdit(u, t);
      OneEditCostsOne(u, t);
      LevenshteinIsMetric(s, u, t);
    }
  }

  lemma OneEditAppend(s: string, t: string, c: char)
    requires OneEdit(s, t)
    ensures OneEdit(s + [c], t + [c])
  {
    if IsInsertion(s, t) {
      var p: nat, d: char :| p <= |s| && t == InsertAt(s, p, d);
      assert t + [c] == InsertAt(s + [c], p, d);
    } else if IsInsertion(t, s) {
      var p: nat, d: char :| p <= |t| && s == InsertAt(t, p, d);
      assert s + [c] == InsertAt(t + [c], p, d);
    } else {
      var p: nat, d: char :| p < |s| && t == Substitute(s, p, d);
      assert t + [c] == Substitute(s + [c], p, d);
    }
  }

  lemma PathAppend(path: seq<string>, s: string, t: string, c: char) returns (longer: seq<string>)
    requires EditPath(path, s, t)
    ensures EditPath(longer, s + [c], t + [c]) && |longer| == |path|
  {
    longer := seq(|path|, k requires 0 <= k < |path| => path[k] + [c]);
    forall k | 0 < k < |longer|
      ensures OneEdit(longer[k - 1], longer[k])
    {
      OneEditAppend(path[k - 1], path[k], c);
    }
  }

  lemma PathExtend(path: seq<string>, s: string, u: string, t: string) returns (longer: seq<string>)
    requires EditPath(path, s, u) && OneEdit(u, t)
    ensures EditPath(longer, s, t) && |longer| == |path| + 1
  {
    longer := path + [t];
  }

  lemma PathPrepend(path: seq<string>, s: string, u: string, t: string) returns (longer: seq<string>)
    requires OneEdit(s, u) && EditPath(path, u, t)
    ensures EditPath(longer, s, t) && |longer| == |path| + 1
  {
    longer := [s] + path;
  }

  lemma LastCharacterIsOneEdit(s: string, i: nat)
    requires 0 < i <= |s|
    ensures OneEdit(s[..i - 1], s[..i]) && OneEdit(s[..i], s[..i - 1])
  {
    assert s[..i] == InsertAt(s[..i - 1], i - 1, s[i - 1]);
  }

  lemma PathDiagonal(path: seq<string>, s: string, t: string, i: nat, j: nat) returns (longer: seq<string>)
    requires 0 < i <= |s| && 0 < j <= |t|
    requires EditPath(path, s[..i - 1], t[..j - 1])
    ensures EditPath(longer, s[..i], t[..j])
    ensures |longer| == |path| + Mismatch(s[i - 1], t[j - 1])
  {
    longer := PathAppend(path, s[..i - 1], t[..j - 1], s[i - 1]);
    assert s[..i] == s[..i - 1] + [s[i - 1]];
    var u := t[..j - 1] + [s[i - 1]];
    assert t[..j] == Substitute(u, j - 1, t[j - 1]);
    if s[i - 1] == t[j - 1] {
      assert t[..j] == u;
    } else {
      longer := PathExtend(longer, s[..i], u, t[..j]);
    }
  }

  /** Some script costs exactly the distance. */
  lemma {:induction false} CheapestPath(s: string, t: string, i: nat, j: nat) returns (path: seq<string>)
    requires i <= |s| && j <= |t|
    ensures EditPath(path, s[..i], t[..j]) && |path| - 1 == Distance(s, t, i, j)
    decreases i + j
  {
    if i == 0 && j == 0 {
      path := [[]];
      return;
    }
    var m := Diagonal;
    if i > 0 && j > 0 {
      m := BestMove(s, t, i, j);
    }
    if i == 0 || m.Insert? {
      path := CheapestPath(s, t, i, j - 1);
      LastCharacterIsOneEdit(t, j);
      path := PathExtend(path, s[..i], t[..j - 1], t[..j]);
    } else if j == 0 || m.Delete? {
      path := CheapestPath(s, t, i - 1, j);
      LastCharacterIsOneEdit(s, i);
      path := PathPrepend(path, s[..i], s[..i - 1], t[..j]);
    } else {
      path := CheapestPath(s, t, i - 1, j - 1);
      path := PathDiagonal(path, s, t, i, j);
    }
  }

  /** `Levenshtein(s, t)` is the minimum cost over all edit scripts from `s` to `t`. */
  lemma LevenshteinIsMinimalEditCost(s: string, t: string)
    ensures exists path :: EditPath(path, s, t) && |path| - 1 == Levenshtein(s, t)
    ensures forall path :: EditPath(path, s, t) ==> Levenshtein(s, t) <= |path| - 1
  {
    var path := CheapestPath(s, t, |s|, |t|);
    assert s[..|s|] == s && t[..|t|] == t;
    forall other | EditPath(other, s, t)
      ensures Levenshtein(s, t) <= |other| - 1
    {
      PathCostsAtLeast(other, s, t);
    }
  }
}
