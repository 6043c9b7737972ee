/** C strings: what a buffer holds up to its terminator. */
module CStrings {
  function CStr<T(==)>(s: seq<T>, nul: T): (r: seq<T>)
    ensures |r| <= |s| && r == s[..|r|] && nul !in r
    ensures |r| < |s| ==> s[|r|] == nul
  {
    if s == [] || s[0] == nul then [] else [s[0]] + CStr(s[1..], nul)
  }

  lemma {:induction false} CStrIs<T>(s: seq<T>, nul: T, n: nat)
    requires n < |s| && s[n] == nul && nul !in s[..n]
    ensures CStr(s, nul) == s[..n]
  {
    if n > 0 {
      assert s[0] == s[..n][0] && s[1..][..n - 1] == s[..n][1..];
      CStrIs(s[1..], nul, n - 1);
      assert s[..n] == [s[0]] + s[1..][..n - 1];
    }
  }

  lemma {:induction false} CStrShort<T>(s: seq<T>, nul: T)
    requires s != [] && s[|s| - 1] == nul
    ensures |CStr(s, nul)| < |s|
  {
    if s[0] != nul {
      CStrShort(s[1..], nul);
    }
  }

  /** strlen at index p of a buffer with a terminator at end or before. */
  method Strlen<T(==)>(buf: array<T>, p: nat, nul: T, ghost end: nat) returns (n: nat)
    requires p <= end < buf.Length && buf[end] == nul
    ensures p + n <= end && buf[p + n] == nul && nul !in buf[p..p + n]
    ensures buf[p..p + n] == CStr(buf[p..end + 1], nul)
  {
    n := 0;
    while buf[p + n] != nul
      invariant p + n <= end && nul !in buf[p..p + n]
      decreases end - n
    {
      n := n + 1;
    }
    assert buf[p..end + 1][..n] == buf[p..p + n];
    CStrIs(buf[p..end + 1], nul, n);
  }
}
