/** Short names of os/fs/fat32.c: `format_name_to_fat32` turns "name.ext" into the 11
    characters a directory entry stores (Microsoft FAT32 File System Specification v1.03,
    "FAT Directory Structure"). */
module Fat32Names {

  const BASE_LENGTH: nat := 8
  const EXT_LENGTH: nat := 3

  /** `toupper`. */
  function Upper(c: char): (u: char)
    ensures 'a' <= c <= 'z' ==> 'A' <= u <= 'Z'
    ensures !('a' <= c <= 'z') ==> u == c
  {
    if 'a' <= c <= 'z' then (c as int - 32) as char else c
  }

  /** The letters one by one; every other character stays. */
  lemma UpperLetters(k: nat, c: char)
    requires k < 26
    ensures Upper("abcdefghijklmnopqrstuvwxyz"[k]) == "ABCDEFGHIJKLMNOPQRSTUVWXYZ"[k]
    ensures c !in "abcdefghijklmnopqrstuvwxyz" ==> Upper(c) == c
  {
    var letters := "abcdefghijklmnopqrstuvwxyz";
    assert letters[k] as int == 'a' as int + k;
    if 'a' <= c <= 'z' {
      assert letters[c as int - 'a' as int] == c;
    }
  }

  /** `c` and `d` are the small and the capital form of one letter. */
  predicate Cases(c: char, d: char) {
    exists k :: 0 <= k < 26 && "abcdefghijklmnopqrstuvwxyz"[k] == c && "ABCDEFGHIJKLMNOPQRSTUVWXYZ"[k] == d
  }

  /** Two characters count as equal exactly if they are equal or the two cases of a letter. */
  lemma SameIgnoringCase(c: char, d: char)
    ensures Upper(c) == Upper(d) <==> c == d || Cases(c, d) || Cases(d, c)
  {
    CaseOf(c);
    CaseOf(d);
    if Cases(c, d) {
      var k :| 0 <= k < 26 && "abcdefghijklmnopqrstuvwxyz"[k] == c && "ABCDEFGHIJKLMNOPQRSTUVWXYZ"[k] == d;
      UpperLetters(k, d);
    }
    if Cases(d, c) {
      var k :| 0 <= k < 26 && "abcdefghijklmnopqrstuvwxyz"[k] == d && "ABCDEFGHIJKLMNOPQRSTUVWXYZ"[k] == c;
      UpperLetters(k, c);
    }
  }

  lemma CaseOf(c: char)
    ensures Upper(c) == c || Cases(c, Upper(c))
  {
    if 'a' <= c <= 'z' {
      var k := c as int - 'a' as int;
      UpperLetters(k, c);
      assert "abcdefghijklmnopqrstuvwxyz"[k] == c;
    }
  }

  function UpperAll(s: string): (u: string)
    ensures |u| == |s|
  {
    seq(|s|, i requires 0 <= i < |s| => Upper(s[i]))
  }

  /** `strchr(s, '.')` as an index, the length if there is none. */
  function DotIndex(s: string): (k: nat)
    ensures k <= |s|
    ensures k < |s| ==> s[k] == '.'
    ensures forall i :: 0 <= i < k ==> s[i] != '.'
  {
    if s == [] || s[0] == '.' then 0 else 1 + DotIndex(s[1..])
  }

  function BaseOf(s: string): string { s[..DotIndex(s)] }

  function ExtOf(s: string): string {
    if DotIndex(s) < |s| then s[DotIndex(s) + 1..] else ""
  }

  /** The first `width` characters in upper case, padded with spaces. */
  function Field(s: string, width: nat): (f: string)
    ensures |f| == width
  {
    seq(width, i requires 0 <= i < width => if i < |s| then Upper(s[i]) else ' ')
  }

  /** The stored form of a name. */
  function Formatted(s: string): (f: string)
    ensures |f| == BASE_LENGTH + EXT_LENGTH
  {
    Field(BaseOf(s), BASE_LENGTH) + Field(ExtOf(s), EXT_LENGTH)
  }

  // ---------- Reading a stored name back ----------

  function TrimRight(s: string): (t: string) {
    if s != [] && s[|s| - 1] == ' ' then TrimRight(s[..|s| - 1]) else s
  }

  /** The name a directory listing would show. */
  function Display(f: string): string
    requires |f| == BASE_LENGTH + EXT_LENGTH
  {
    var base, ext := TrimRight(f[..BASE_LENGTH]), TrimRight(f[BASE_LENGTH..]);
    if ext == "" then base else base + "." + ext
  }

  predicate PlainText(s: string) {
    forall i :: 0 <= i < |s| ==> s[i] != '.' && s[i] != ' '
  }

  /** An 8.3 name: one to eight characters, or these, a dot and one to three characters. */
  predicate Legal(s: string) {
    && PlainText(BaseOf(s)) && PlainText(ExtOf(s))
    && 0 < |BaseOf(s)| <= BASE_LENGTH && |ExtOf(s)| <= EXT_LENGTH
    && (DotIndex(s) < |s| ==> |ExtOf(s)| > 0)
  }

  lemma {:induction false} TrimField(s: string, width: nat)
    requires PlainText(s) && |s| <= width
    ensures TrimRight(Field(s, width)) == UpperAll(s)
    decreases width
  {
    var f := Field(s, width);
    if |s| < width {
      assert f[..width - 1] == Field(s, width - 1);
      TrimField(s, width - 1);
    } else {
      assert f == UpperAll(s);
    }
  }

  /** Formatting a legal name can be undone, up to letter case. */
  lemma FormatInvertible(s: string)
    requires Legal(s)
    ensures Display(Formatted(s)) == UpperAll(s)
  {
    var f := Formatted(s);
    assert f[..BASE_LENGTH] == Field(BaseOf(s), BASE_LENGTH);
    assert f[BASE_LENGTH..] == Field(ExtOf(s), EXT_LENGTH);
    TrimField(BaseOf(s), BASE_LENGTH);
    TrimField(ExtOf(s), EXT_LENGTH);
    if DotIndex(s) < |s| {
      assert s == BaseOf(s) + "." + ExtOf(s);
      assert UpperAll(s) == UpperAll(BaseOf(s)) + "." + UpperAll(ExtOf(s));
    } else {
      assert s == BaseOf(s);
    }
  }

  /** A legal name without small letters is displayed as it is. */
  lemma CapitalsComeBack(s: string)
    requires Legal(s) && forall i :: 0 <= i < |s| ==> s[i] !in "abcdefghijklmnopqrstuvwxyz"
    ensures Display(Formatted(s)) == s
  {
    FormatInvertible(s);
    forall i | 0 <= i < |s|
      ensures UpperAll(s)[i] == s[i]
    {
      UpperLetters(0, s[i]);
    }
  }

  lemma KernelFields(base: string, ext: string)
    requires base == "kernel" && ext == "bin"
    ensures Field(base, 8) == "KERNEL  " && Field(ext, 3) == "BIN"
  {}

  lemma KernelParts(s: string)
    requires s == "kernel.bin"
    ensures BaseOf(s) == "kernel" && ExtOf(s) == "bin"
  {
    assert s[..6] == "kernel" && s[6] == '.' && s[7..] == "bin";
    assert forall i :: 0 <= i < 6 ==> s[..6][i] == s[i] != '.';
    assert DotIndex(s) == 6;
  }

  lemma KernelExample(s: string)
    requires s == "kernel.bin"
    ensures Legal(s) && Formatted(s) == "KERNEL  BIN"
  {
    KernelParts(s);
    KernelFields(BaseOf(s), ExtOf(s));
  }

  lemma {:induction false} DotIndexUpper(s: string)
    ensures DotIndex(UpperAll(s)) == DotIndex(s)
    decreases |s|
  {
    if s != [] && s[0] != '.' {
      assert UpperAll(s)[1..] == UpperAll(s[1..]);
      DotIndexUpper(s[1..]);
    }
  }

  lemma FormatIgnoresCase(s: string)
    ensures Formatted(UpperAll(s)) == Formatted(s)
  {
    DotIndexUpper(s);
    var u := UpperAll(s);
    assert BaseOf(u) == UpperAll(BaseOf(s));
    assert ExtOf(u) == UpperAll(ExtOf(s));
    FieldUpper(BaseOf(s), BASE_LENGTH);
    FieldUpper(ExtOf(s), EXT_LENGTH);
  }

  lemma FieldUpper(s: string, width: nat)
    ensures Field(UpperAll(s), width) == Field(s, width)
  {}

  /** Two legal names are stored alike exactly if they are equal ignoring case. */
  lemma SameStoredName(s: string, t: string)
    requires Legal(s) && Legal(t)
    ensures Formatted(s) == Formatted(t) <==> UpperAll(s) == UpperAll(t)
  {
    FormatInvertible(s);
    FormatInvertible(t);
    FormatIgnoresCase(s);
    FormatIgnoresCase(t);
  }

  /** `format_name_to_fat32`. */
  method FormatName(input: string) returns (output: array<char>)
    ensures fresh(output) && output.Length == BASE_LENGTH + EXT_LENGTH
    ensures output[..] == Formatted(input)
  {
    output := new char[BASE_LENGTH + EXT_LENGTH](_ => ' ');
    var dot := DotIndex(input);
    var extLength := if dot < |input| then |input| - dot - 1 else 0;
    for i := 0 to BASE_LENGTH
      invariant forall j :: 0 <= j < i ==> output[j] == Field(BaseOf(input), BASE_LENGTH)[j]
    {
      output[i] := if i < dot then Upper(input[i]) else ' ';
    }
    for i := 0 to EXT_LENGTH
      invariant forall j :: 0 <= j < BASE_LENGTH ==> output[j] == Field(BaseOf(input), BASE_LENGTH)[j]
      invariant forall j :: 0 <= j < i ==> output[BASE_LENGTH + j] == Field(ExtOf(input), EXT_LENGTH)[j]
    {
      output[BASE_LENGTH + i] := if i < extLength then Upper(input[dot + 1 + i]) else ' ';
    }
    forall k | 0 <= k < BASE_LENGTH + EXT_LENGTH
      ensures output[k] == Formatted(input)[k]
    {
      var j := k - BASE_LENGTH;
      assert j >= 0 ==> output[BASE_LENGTH + j] == Field(ExtOf(input), EXT_LENGTH)[j];
    }
  }
}
