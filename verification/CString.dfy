/** Searching strings, as strstr and strchr do. */
module CString {

  /** pat stands in s at position i. */
  predicate StandsAt<T(==)>(s: seq<T>, pat: seq<T>, i: int) {
    0 <= i && i + |pat| <= |s| && s[i..i + |pat|] == pat
  }

  /** The first position of pat in s at from or behind, or -1. */
  function Find<T(==)>(s: seq<T>, pat: seq<T>, from: nat): (r: int)
    ensures r >= 0 ==> from <= r && StandsAt(s, pat, r) && forall j | from <= j < r :: !StandsAt(s, pat, j)
    ensures r < 0 ==> r == -1 && forall j | from <= j :: !StandsAt(s, pat, j)
    decreases |s| - from
  {
    if from + |pat| > |s| then -1
    else if s[from..from + |pat|] == pat then from
    else Find(s, pat, from + 1)
  }

  /** The first position of c in s at from or behind, or -1. */
  function FindChar<T(==)>(s: seq<T>, c: T, from: nat): (r: int)
    ensures r >= 0 ==> from <= r < |s| && s[r] == c && forall j | from <= j < r :: s[j] != c
    ensures r < 0 ==> r == -1 && forall j | from <= j < |s| :: s[j] != c
    decreases |s| - from
  {
    if from >= |s| then -1
    else if s[from] == c then from
    else FindChar(s, c, from + 1)
  }

  lemma StandsChars<T>(s: seq<T>, pat: seq<T>, i: int)
    requires StandsAt(s, pat, i)
    ensures forall k | 0 <= k < |pat| :: s[i + k] == pat[k]
  {
    forall k | 0 <= k < |pat| ensures s[i + k] == pat[k] {
      assert s[i..i + |pat|][k] == s[i + k];
    }
  }

  /** A pattern whose first character does not occur is not found. */
  lemma NotFound<T>(s: seq<T>, pat: seq<T>)
    requires pat != [] && pat[0] !in s
    ensures Find(s, pat, 0) == -1
  {
    var r := Find(s, pat, 0);
    if r >= 0 {
      StandsChars(s, pat, r);
    }
  }

  lemma SamePart<T>(s: seq<T>, t: seq<T>, n: nat, i: nat, j: nat)
    requires n <= |s| && n <= |t| && s[..n] == t[..n] && i <= j <= n
    ensures s[i..j] == t[i..j]
  {
    assert s[i..j] == s[..n][i..j] == t[..n][i..j] == t[i..j];
  }

  /** Where a pattern stands depends only on the characters there. */
  lemma StandsInPrefix<T>(s: seq<T>, t: seq<T>, pat: seq<T>, n: nat)
    requires n <= |s| && n <= |t| && s[..n] == t[..n]
    ensures forall j | j + |pat| <= n :: StandsAt(s, pat, j) <==> StandsAt(t, pat, j)
  {
    forall j | 0 <= j && j + |pat| <= n ensures StandsAt(s, pat, j) <==> StandsAt(t, pat, j) {
      SamePart(s, t, n, j, j + |pat|);
    }
  }

  lemma FoundInPrefix<T>(s: seq<T>, t: seq<T>, pat: seq<T>, n: nat)
    requires n <= |s| && n <= |t| && s[..n] == t[..n]
    requires 0 <= Find(s, pat, 0) && Find(s, pat, 0) + |pat| <= n
    ensures Find(t, pat, 0) == Find(s, pat, 0)
  {
    StandsInPrefix(s, t, pat, n);
    hide Find;
    var i := Find(s, pat, 0);
    assert StandsAt(t, pat, i);
  }

  lemma FoundCharInPrefix<T>(s: seq<T>, t: seq<T>, c: T, from: nat, n: nat)
    requires n <= |s| && n <= |t| && s[..n] == t[..n]
    requires 0 <= FindChar(s, c, from) < n
    ensures FindChar(t, c, from) == FindChar(s, c, from)
  {
    hide FindChar;
    assert forall k | 0 <= k < n :: s[k] == s[..n][k] == t[..n][k] == t[k];
    var q := FindChar(s, c, from);
    assert t[q] == c;
  }

  lemma FoundAtStart<T>(pat: seq<T>, rest: seq<T>)
    ensures Find(pat + rest, pat, 0) == 0
  {
    assert StandsAt(pat + rest, pat, 0);
  }

  lemma FoundChar<T>(a: seq<T>, c: T, b: seq<T>)
    requires c !in a
    ensures FindChar(a + [c] + b, c, 0) == |a|
  {
    var s := a + [c] + b;
    assert s[|a|] == c;
    assert forall k | 0 <= k < |a| :: s[k] == a[k];
  }

  predicate SameBehind<T(==)>(s: seq<T>, t: seq<T>, n: nat) { n <= |s| == |t| && s[n..] == t[n..] }

  lemma PartBehind<T>(s: seq<T>, t: seq<T>, n: nat, i: nat, j: nat)
    requires SameBehind(s, t, n) && n <= i <= j <= |s|
    ensures s[i..j] == t[i..j]
  {
    forall k | i <= k < j ensures s[k] == t[k] {
      assert s[k] == s[n..][k - n] == t[n..][k - n];
    }
  }

  /** The same of what lies behind. */
  lemma StandsBehind<T>(s: seq<T>, t: seq<T>, pat: seq<T>, n: nat, k: int)
    requires SameBehind(s, t, n) && n <= k
    ensures StandsAt(s, pat, k) <==> StandsAt(t, pat, k)
  {
    if k + |pat| <= |s| {
      PartBehind(s, t, n, k, k + |pat|);
    }
  }

  /** A pattern found only behind is found there again, or further ahead. */
  lemma FindBehind<T>(s: seq<T>, t: seq<T>, pat: seq<T>, n: nat)
    requires SameBehind(s, t, n) && Find(s, pat, 0) >= n
    ensures 0 <= Find(t, pat, 0) <= Find(s, pat, 0)
    ensures Find(t, pat, 0) >= n ==> Find(t, pat, 0) == Find(s, pat, 0)
  {
    var i, j := Find(s, pat, 0), Find(t, pat, 0);
    StandsBehind(s, t, pat, n, i);
    if j >= n { StandsBehind(s, t, pat, n, j); }
  }

  lemma FindCharBehind<T>(s: seq<T>, t: seq<T>, c: T, from: nat, n: nat)
    requires SameBehind(s, t, n) && n <= from
    ensures FindChar(s, c, from) == FindChar(t, c, from)
  {
    forall k | n <= k < |s| ensures s[k] == t[k] {
      assert s[k] == s[n..][k - n] == t[n..][k - n];
    }
    var i, j := FindChar(s, c, from), FindChar(t, c, from);
    if i >= 0 && j >= 0 { assert s[j] == c && t[i] == c; }
  }
}
