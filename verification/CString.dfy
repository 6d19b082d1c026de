/** The byte loops of lib/string.c that names and paths go through. A buffer is a sequence
    or an array of bytes; a C string in it ends at the first zero byte. */
module CString {
  import opened Memory

  /** The bytes before the first zero. */
  function Trunc(s: seq<byte>): (t: seq<byte>)
    ensures |t| <= |s| && t == s[..|t|] && 0 !in t
    ensures |t| < |s| ==> s[|t|] == 0
  {
    if s == [] || s[0] == 0 then [] else [s[0]] + Trunc(s[1..])
  }

  lemma {:induction false} TruncAppend(p: seq<byte>, rest: seq<byte>)
    requires 0 !in p
    ensures Trunc(p + rest) == p + Trunc(rest)
  {
    if p == [] {
      assert p + rest == rest;
    } else {
      var s := p + rest;
      assert s[0] == p[0] && s[1..] == p[1..] + rest;
      TruncAppend(p[1..], rest);
      assert p == [p[0]] + p[1..];
    }
  }

  /** A prefix without zeros belongs to the string. */
  lemma TruncPrefix(s: seq<byte>, k: nat)
    requires k <= |s| && 0 !in s[..k]
    ensures Trunc(s) == s[..k] + Trunc(s[k..])
  {
    hide Trunc;
    var p, rest := s[..k], s[k..];
    assert s == p + rest;
    TruncAppend(p, rest);
  }

  /** A prefix without zeros that is followed by a zero, or by the end, is the string. */
  lemma TruncIs(s: seq<byte>, k: nat)
    requires k <= |s| && 0 !in s[..k] && (k < |s| ==> s[k] == 0)
    ensures Trunc(s) == s[..k]
  {
    TruncPrefix(s, k);
  }

  /** memcpy from bytes outside `dst`. */
  method Memcpy(dst: array<byte>, at: nat, src: seq<byte>)
    requires at + |src| <= dst.Length
    modifies dst
    ensures dst[..] == Splice(old(dst[..]), at, src)
  {
    for i := 0 to |src|
      invariant dst[..] == Splice(old(dst[..]), at, src[..i])
    {
      dst[at + i] := src[i];
    }
    assert src[..|src|] == src;
  }

  /** The string in the first `n` bytes of a buffer, which may be shorter if the string ends in it. */
  function Key(s: seq<byte>, n: nat): seq<byte>
  {
    Trunc(if n <= |s| then s[..n] else s)
  }

  lemma KeyOfField(s: seq<byte>)
    ensures Key(s, |s|) == Trunc(s)
  {
    assert s[..|s|] == s;
  }

  /** strncmp: zero exactly when the strings agree in their first `n` bytes. A buffer need not have `n` bytes when its
      string is terminated. */
  method Strncmp(s1: seq<byte>, s2: seq<byte>, n: nat) returns (r: int)
    requires (n <= |s1| || 0 in s1) && (n <= |s2| || 0 in s2)
    ensures r == 0 <==> Key(s1, n) == Key(s2, n)
  {
    hide Trunc;
    ghost var t1, t2 := if n <= |s1| then s1[..n] else s1, if n <= |s2| then s2[..n] else s2;
    var i := 0;
    while i < n
      invariant i <= n && i <= |t1| && i <= |t2| && t1[..i] == t2[..i] && 0 !in t1[..i]
    {
      InBuffer(s1, t1, n, i);
      InBuffer(s2, t2, n, i);
      if s1[i] != s2[i] {
        SplitsAt(t1, t2, i);
        return (s1[i] as int) - (s2[i] as int);
      }
      if s1[i] == 0 {
        TruncIs(t1, i);
        TruncIs(t2, i);
        return 0;
      }
      i := i + 1;
    }
    assert t1[..n] == t1 && t2[..n] == t2;
    return 0;
  }

  /** As long as no zero was met the next byte is in the buffer. */
  lemma InBuffer(s: seq<byte>, t: seq<byte>, n: nat, i: nat)
    requires (n <= |s| || 0 in s) && t == (if n <= |s| then s[..n] else s)
    requires i < n && i <= |t| && 0 !in t[..i]
    ensures i < |t| && s[i] == t[i]
  {
    assert t[..|t|] == t;
  }

  /** Strings that agree without a zero up to `i` and differ there are different. */
  lemma SplitsAt(a: seq<byte>, b: seq<byte>, i: nat)
    requires i < |a| && i < |b| && a[..i] == b[..i] && 0 !in a[..i] && a[i] != b[i]
    ensures Trunc(a) != Trunc(b)
  {
    TruncPrefix(a, i);
    TruncPrefix(b, i);
    var t, u := Trunc(a), Trunc(b);
    assert t[i..] == Trunc(a[i..]) && u[i..] == Trunc(b[i..]);
  }

  /** `s` as a zero-padded field of `n` bytes. */
  function NameField(s: seq<byte>, n: nat): (f: seq<byte>)
    ensures |f| == n
  {
    var t := Trunc(s);
    if |t| >= n then t[..n] else t + Zeros(n - |t|)
  }

  /** strncpy: the string cut to `n` bytes, padded with zeros. */
  method Strncpy(dest: array<byte>, src: seq<byte>, n: nat)
    requires n <= dest.Length && (n <= |src| || 0 in src)
    modifies dest
    ensures dest[..n] == NameField(src, n) && dest[n..] == old(dest[n..])
  {
    ghost var t := Trunc(src);
    var i := 0;
    while i < n && src[i] != 0
      invariant i <= n && i <= |t|
      invariant forall j | 0 <= j < i :: dest[j] == t[j]
      invariant dest[n..] == old(dest[n..])
    {
      assert i < |t|;
      dest[i] := src[i];
      i := i + 1;
    }
    ghost var k := i;
    while i < n
      invariant k <= i <= n && k <= |t| && (k < n ==> k == |t|)
      invariant forall j | 0 <= j < i :: dest[j] == if j < k then t[j] else 0
      invariant dest[n..] == old(dest[n..])
    {
      dest[i] := 0;
      i := i + 1;
    }
  }

  /** A name shorter than its field comes back whole, a longer one cut. */
  lemma NameFieldReads(s: seq<byte>, n: nat)
    ensures Trunc(NameField(s, n)) == if |Trunc(s)| <= n then Trunc(s) else Trunc(s)[..n]
    ensures forall j | |Trunc(s)| <= j < n :: NameField(s, n)[j] == 0
  {
    var t, f := Trunc(s), NameField(s, n);
    var k := if |t| <= n then |t| else n;
    assert f[..k] == t[..k];
    TruncIs(f, k);
  }
}
