/** Searching in character sequences, as the C string functions do. */
module Text {
  import opened Seqs

  /** memchr / strchr: the first position of `c`, or the length if there is none. */
  function Find(s: string, c: char): (k: nat)
    ensures k <= |s| && c !in s[..k] && (k < |s| ==> s[k] == c)
  {
    if s == [] || s[0] == c then 0
    else
      var k := Find(s[1..], c) + 1;
      assert s[..k] == [s[0]] + s[1..][..k - 1];
      k
  }

  /** strrchr: one past the last position of `c`, or 0. */
  function FindLast(s: string, c: char): (k: nat)
    ensures k <= |s| && c !in s[k..] && (k > 0 ==> s[k - 1] == c)
  {
    if s == [] then 0
    else if s[|s| - 1] == c then |s|
    else
      var k := FindLast(s[..|s| - 1], c);
      assert s[k..] == s[..|s| - 1][k..] + [s[|s| - 1]];
      k
  }

  /** The C string at the front of a buffer: everything before the first NUL. */
  function CString(s: string): string {
    s[..Find(s, '\0')]
  }

  /** strstr: the first position where `pat` occurs, or the length plus one. */
  function Search(s: string, pat: string): (k: nat)
    ensures k <= |s| + 1 && (k <= |s| ==> k + |pat| <= |s|)
  {
    if pat <= s then 0 else if s == [] then 1 else 1 + Search(s[1..], pat)
  }

  /** There it occurs, and nowhere before. */
  lemma {:induction false} SearchExact(s: string, pat: string, i: nat)
    requires i <= Search(s, pat) && i <= |s|
    ensures pat <= s[i..] <==> i == Search(s, pat)
  {
    assert s[0..] == s;
    if i > 0 {
      SearchExact(s[1..], pat, i - 1);
      assert s[i..] == s[1..][i - 1..];
    }
  }

  /** Whether strstr finds the pattern. */
  predicate Contains(s: string, pat: string) {
    exists i | 0 <= i <= |s| :: pat <= s[i..]
  }

  lemma ContainsAt(s: string, pat: string, i: nat)
    requires i <= |s| && pat <= s[i..]
    ensures Contains(s, pat)
  {
  }

  lemma FindIs(s: string, c: char, k: nat)
    requires k <= |s| && c !in s[..k] && (k < |s| ==> s[k] == c)
    ensures Find(s, c) == k
  {
    assert forall i, j | 0 <= j < i <= |s| :: s[..i][j] == s[j];
  }

  /** What fits into `n` characters. */
  function Clip(s: string, n: nat): (r: string)
    ensures r <= s && |r| == if |s| <= n then |s| else n
  {
    if |s| <= n then s else s[..n]
  }

  /** Cutting at every step is cutting the whole. */
  lemma ClipAppend(a: string, b: string, n: nat)
    ensures Clip(a + b, n) == Clip(a, n) + Clip(b, n - |Clip(a, n)|)
  {
    if |a| > n {
      assert (a + b)[..n] == a[..n];
      Unit(a[..n]);
    } else if |a + b| > n {
      assert (a + b)[..n] == a + b[..n - |a|];
    }
  }
}
