/**
 * The few pieces of Python string semantics the pipeline relies on:
 * `str.isspace`, `str.strip()`, `str.split(sep)[0]`, the truthiness of a
 * value that is a `str` or `None`, and how an f-string renders such a value.
 */
module PyStr {
  import opened Wrappers

  /** `c.isspace()`: the characters Python's `str.strip()` removes by default. */
  predicate IsSpace(c: char) {
    var n := c as int;
    (0x09 <= n <= 0x0D) || (0x1C <= n <= 0x20) || n == 0x85 || n == 0xA0
    || n == 0x1680 || (0x2000 <= n <= 0x200A) || n == 0x2028 || n == 0x2029
    || n == 0x202F || n == 0x205F || n == 0x3000
  }

  /**
   * Space, tab, newline and carriage return are whitespace; `/`, digits,
   * ASCII letters and anything above U+3000 are not.
   */
  lemma IsSpaceClasses(c: char)
    ensures c == ' ' || c == '\t' || c == '\n' || c == '\r' ==> IsSpace(c)
    ensures c == '/' || '0' <= c <= '9' || 'A' <= c <= 'Z' || 'a' <= c <= 'z' || c as int > 0x3000 ==> !IsSpace(c)
  {
  }

  /** Every character of `s` at an index in `[a, b)` is whitespace. */
  predicate SpaceBetween(s: string, a: int, b: int) {
    forall k :: a <= k < b && 0 <= k < |s| ==> IsSpace(s[k])
  }

  /** Neither the first nor the last character is whitespace. */
  predicate NoEdgeSpace(s: string) {
    s == [] || (!IsSpace(s[0]) && !IsSpace(s[|s| - 1]))
  }

  /** `r` is `s` with a run of whitespace cut off each end and none left at either end. */
  ghost predicate IsTrimOf(r: string, s: string) {
    exists i, j :: 0 <= i <= j <= |s| && r == s[i..j] && SpaceBetween(s, 0, i) && SpaceBetween(s, j, |s|) && NoEdgeSpace(r)
  }

  /** `s.lstrip()` */
  function LStrip(s: string): (r: string)
    ensures |r| <= |s| && r == s[|s| - |r|..]
    ensures SpaceBetween(s, 0, |s| - |r|)
    ensures r == [] || !IsSpace(r[0])
  {
    if |s| > 0 && IsSpace(s[0]) then
      var r := LStrip(s[1..]);
      LStripStep(s, r);
      r
    else s
  }

  lemma LStripStep(s: string, r: string)
    requires |s| > 0 && IsSpace(s[0]) && |r| < |s|
    requires r == s[1..][|s| - 1 - |r|..] && SpaceBetween(s[1..], 0, |s| - 1 - |r|)
    ensures r == s[|s| - |r|..] && SpaceBetween(s, 0, |s| - |r|)
  {
    forall k | 0 < k < |s| - |r| ensures IsSpace(s[k]) {
      assert s[k] == s[1..][k - 1];
    }
  }

  /** `s.rstrip()` */
  function RStrip(s: string): (r: string)
    ensures |r| <= |s| && r == s[..|r|]
    ensures SpaceBetween(s, |r|, |s|)
    ensures r == [] || !IsSpace(r[|r| - 1])
  {
    if |s| > 0 && IsSpace(s[|s| - 1]) then
      var r := RStrip(s[..|s| - 1]);
      RStripStep(s, r);
      r
    else s
  }

  lemma RStripStep(s: string, r: string)
    requires |s| > 0 && IsSpace(s[|s| - 1]) && |r| < |s|
    requires r == s[..|s| - 1][..|r|] && SpaceBetween(s[..|s| - 1], |r|, |s| - 1)
    ensures r == s[..|r|] && SpaceBetween(s, |r|, |s|)
  {
    forall k | |r| <= k < |s| - 1 ensures IsSpace(s[k]) {
      assert s[k] == s[..|s| - 1][k];
    }
  }

  /** `s.strip()`: no whitespace left at either end, and only characters of `s`. */
  function Strip(s: string): (r: string)
    ensures NoEdgeSpace(r)
    ensures forall k :: 0 <= k < |r| ==> r[k] in s
  {
    LRStripFacts(s);
    RStrip(LStrip(s))
  }

  /** `strip()` gives a trim of its argument. */
  lemma StripIsTrim(s: string)
    ensures IsTrimOf(Strip(s), s)
  {
    LRStripIsTrim(s);
  }

  lemma LRStripIsTrim(s: string)
    ensures IsTrimOf(RStrip(LStrip(s)), s)
  {
    var l := LStrip(s);
    var r := RStrip(l);
    var i := |s| - |l|;
    LRStripFacts(s);
    SliceOfSuffix(s, i, |r|);
    TrimWitness(r, s, i, i + |r|);
  }

  /** A prefix of a suffix is a slice; whitespace after the prefix carries over. */
  lemma SliceOfSuffix(s: string, i: nat, n: nat)
    requires i + n <= |s| && SpaceBetween(s[i..], n, |s| - i)
    ensures s[i..][..n] == s[i..i + n]
    ensures SpaceBetween(s, i + n, |s|)
  {
    forall k | i + n <= k < |s| ensures IsSpace(s[k]) {
      assert s[k] == s[i..][k - i];
    }
  }

  lemma TrimWitness(r: string, s: string, i: nat, j: nat)
    requires i <= j <= |s| && r == s[i..j] && SpaceBetween(s, 0, i) && SpaceBetween(s, j, |s|) && NoEdgeSpace(r)
    ensures IsTrimOf(r, s)
  {
  }

  lemma LRStripFacts(s: string)
    ensures NoEdgeSpace(RStrip(LStrip(s)))
    ensures forall k :: 0 <= k < |RStrip(LStrip(s))| ==> RStrip(LStrip(s))[k] in s
  {
    var l := LStrip(s);
    var r := RStrip(l);
    var i := |s| - |l|;
    assert r != [] ==> r[0] == l[0];
    forall k | 0 <= k < |r| ensures r[k] in s {
      assert r[k] == l[k] == s[i + k];
    }
  }

  /** LStrip stops at the first character that is not whitespace. */
  lemma {:induction false} LStripAt(s: string, i: nat)
    requires i <= |s| && SpaceBetween(s, 0, i) && (i == |s| || !IsSpace(s[i]))
    ensures LStrip(s) == s[i..]
  {
    if i > 0 {
      assert IsSpace(s[0]);
      assert forall k :: 0 <= k < |s| - 1 ==> s[1..][k] == s[k + 1];
      LStripAt(s[1..], i - 1);
      assert s[1..][i - 1..] == s[i..];
    }
  }

  /** RStrip stops after the last character that is not whitespace. */
  lemma {:induction false} RStripAt(s: string, j: nat)
    requires j <= |s| && SpaceBetween(s, j, |s|) && (j == 0 || !IsSpace(s[j - 1]))
    ensures RStrip(s) == s[..j]
    decreases |s| - j
  {
    if j < |s| {
      var t := s[..|s| - 1];
      assert IsSpace(s[|s| - 1]);
      assert forall k :: 0 <= k < |t| ==> t[k] == s[k];
      RStripAt(t, j);
      assert t[..j] == s[..j];
    }
  }

  /** A string made only of whitespace strips to the empty string. */
  lemma {:induction false} StripAllSpace(s: string)
    requires SpaceBetween(s, 0, |s|)
    ensures Strip(s) == []
  {
    LStripAt(s, |s|);
  }

  /** The trim of a string is unique: any trim of `s` is `s.strip()`. */
  lemma {:induction false} StripUnique(s: string, i: nat, j: nat)
    requires i <= j <= |s| && SpaceBetween(s, 0, i) && SpaceBetween(s, j, |s|) && NoEdgeSpace(s[i..j])
    ensures Strip(s) == s[i..j]
  {
    if i == j {
      StripAllSpace(s);
    } else {
      assert s[i] == s[i..j][0];
      LStripAt(s, i);
      RStripSuffix(s, i, j);
    }
  }

  lemma {:induction false} RStripSuffix(s: string, i: nat, j: nat)
    requires i < j <= |s| && SpaceBetween(s, j, |s|) && NoEdgeSpace(s[i..j])
    ensures RStrip(s[i..]) == s[i..j]
  {
    var l := s[i..];
    assert forall k :: 0 <= k < |l| ==> l[k] == s[i + k];
    assert l[j - i - 1] == s[i..j][j - i - 1];
    RStripAt(l, j - i);
    assert l[..j - i] == s[i..j];
  }

  /** `strip()` leaves a string without edge whitespace as it is. */
  lemma StripKeeps(s: string)
    requires NoEdgeSpace(s)
    ensures Strip(s) == s
  {
    assert s[0..|s|] == s;
    StripUnique(s, 0, |s|);
  }

  /** `s.split(sep)[0]`: the longest prefix of `s` without `sep`. */
  function SplitFirst(s: string, sep: char): (r: string)
    ensures r <= s
    ensures sep !in r
    ensures |r| == |s| || s[|r|] == sep
  {
    if s == [] || s[0] == sep then [] else [s[0]] + SplitFirst(s[1..], sep)
  }

  /** The prefix before the first separator is unique. */
  lemma {:induction false} SplitFirstUnique(s: string, sep: char, p: string)
    requires p <= s && sep !in p && (|p| == |s| || s[|p|] == sep)
    ensures SplitFirst(s, sep) == p
  {
    if p != [] {
      assert p[0] == s[0];
      assert p[1..] <= s[1..];
      SplitFirstUnique(s[1..], sep, p[1..]);
      assert p == [p[0]] + p[1..];
    }
  }

  /** Without a separator, `split(sep)[0]` is the whole string. */
  lemma SplitFirstKeeps(s: string, sep: char)
    requires sep !in s
    ensures SplitFirst(s, sep) == s
  {
    SplitFirstUnique(s, sep, s);
  }

  /** Python truthiness of a value that is a `str` or `None`: present and non-empty. */
  predicate Truthy(v: Option<string>) {
    v.Some? && v.value != ""
  }

  /** How an f-string renders a `str` or `None`. */
  function Show(v: Option<string>): string {
    match v
    case Some(s) => s
    case None => "None"
  }
}
