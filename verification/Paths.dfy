/** Paths as component lists: the parser skipelem of kernel/fs_inode.c over a buffer, the
    list of components it yields, and the round trip from components to a path and back. */
module Paths {
  import opened Memory
  import opened CString
  import opened Disk

  const SLASH: byte := 47

  function DropSlashes(s: seq<byte>): (r: seq<byte>)
    ensures |r| <= |s| && (r != [] ==> r[0] != SLASH)
  {
    if s != [] && s[0] == SLASH then DropSlashes(s[1..]) else s
  }

  /** The number of bytes before the first slash. */
  function ElemLength(s: seq<byte>): (n: nat)
    ensures n <= |s|
  {
    if s == [] || s[0] == SLASH then 0 else 1 + ElemLength(s[1..])
  }

  /** A component as it fits a name buffer with its terminator. */
  function Cut(elem: seq<byte>): seq<byte>
  {
    if |elem| >= DIRSIZ then elem[..DIRSIZ - 1] else elem
  }

  /** The first component of a path and the path after it; none when only slashes are left. */
  function SkipElem(s: seq<byte>): (r: Option<(seq<byte>, seq<byte>)>)
    ensures r.Some? ==> |r.value.1| < |s|
  {
    var t := DropSlashes(s);
    if t == [] then None
    else
      var n := ElemLength(t);
      Some((Cut(t[..n]), DropSlashes(t[n..])))
  }

  function Components(s: seq<byte>): seq<seq<byte>>
    decreases |s|
  {
    match SkipElem(s)
    case None => []
    case Some(e) => [e.0] + Components(e.1)
  }

  // ---------------------------------------------------------------- the parser

  /** The C string at index `p` of a buffer. */
  function Rest(path: seq<byte>, p: nat): seq<byte>
    requires p <= |path|
  {
    Trunc(path[p..])
  }

  lemma RestStep(path: seq<byte>, p: nat)
    requires p < |path|
    ensures path[p] == 0 ==> Rest(path, p) == []
    ensures path[p] != 0 ==> Rest(path, p) == [path[p]] + Rest(path, p + 1) && Rest(path, p)[1..] == Rest(path, p + 1)
  {
    assert path[p..][1..] == path[p + 1..];
  }

  lemma ElemLengthIs(s: seq<byte>, n: nat)
    requires n <= |s| && SLASH !in s[..n] && (n < |s| ==> s[n] == SLASH)
    ensures ElemLength(s) == n
  {
    if n > 0 {
      assert s[0] == s[..n][0];
      assert s[1..][..n - 1] == s[..n][1..];
      ElemLengthIs(s[1..], n - 1);
    }
  }

  /** A run of slashes is passed over. */
  method PassSlashes(path: seq<byte>, start: nat) returns (p: nat)
    requires start < |path| && 0 in path[start..]
    ensures start <= p < |path| && 0 in path[p..] && path[p] != SLASH
    ensures Rest(path, p) == DropSlashes(Rest(path, start))
  {
    hide Trunc;
    p := start;
    while path[p] == SLASH
      invariant start <= p < |path| && 0 in path[p..]
      invariant DropSlashes(Rest(path, p)) == DropSlashes(Rest(path, start))
      decreases |path| - p
    {
      RestStep(path, p);
      assert path[p..] == [path[p]] + path[p + 1..];
      p := p + 1;
    }
    RestStep(path, p);
  }

  /** The end of the component that starts at `s`. */
  method PassElem(path: seq<byte>, s: nat) returns (p: nat)
    requires s < |path| && 0 in path[s..] && path[s] != SLASH && path[s] != 0
    ensures s < p < |path| && 0 in path[p..]
    ensures p - s == ElemLength(Rest(path, s)) <= |Rest(path, s)|
    ensures path[s..p] == Rest(path, s)[..p - s] && Rest(path, p) == Rest(path, s)[p - s..]
  {
    p := s;
    while path[p] != SLASH && path[p] != 0
      invariant s <= p < |path| && 0 in path[p..]
      invariant SLASH !in path[s..p] && 0 !in path[s..p]
      invariant p == s ==> path[p] != SLASH && path[p] != 0
      decreases |path| - p
    {
      assert path[p..] == [path[p]] + path[p + 1..];
      assert path[s..p + 1] == path[s..p] + [path[p]];
      p := p + 1;
    }
    ElemEnds(path, s, p);
  }

  /** Where the component that starts at `s` ends. */
  lemma ElemEnds(path: seq<byte>, s: nat, p: nat)
    requires s <= p < |path| && SLASH !in path[s..p] && 0 !in path[s..p] && (path[p] == SLASH || path[p] == 0)
    ensures p - s == ElemLength(Rest(path, s)) <= |Rest(path, s)|
    ensures path[s..p] == Rest(path, s)[..p - s] && Rest(path, p) == Rest(path, s)[p - s..]
  {
    hide Trunc, ElemLength;
    var t, elem := Rest(path, s), path[s..p];
    assert path[s..][..p - s] == elem && path[s..][p - s..] == path[p..];
    TruncPrefix(path[s..], p - s);
    assert t[..p - s] == elem && t[p - s..] == Rest(path, p);
    RestStep(path, p);
    ElemLengthIs(t, p - s);
  }

  /** `elem`, the part of `path` from `s` to `p`, cut and terminated in the name buffer. */
  method CopyElem(path: seq<byte>, s: nat, p: nat, name: array<byte>)
    requires s <= p <= |path| && 0 !in path[s..p] && name.Length == DIRSIZ
    modifies name
    ensures Trunc(name[..]) == Cut(path[s..p])
  {
    var len := p - s;
    if len >= DIRSIZ {
      len := DIRSIZ - 1;
    }
    ghost var before := name[..];
    Memcpy(name, 0, path[s..s + len]);
    name[len] := 0;
    assert name[..] == Splice(before, 0, path[s..s + len])[len := 0];
    assert name[..][..len] == path[s..p][..len];
    TruncIs(name[..], len);
  }

  /** fs_inode.c skipelem: the component is left in `name`, the result points at what follows. */
  method Skipelem(path: seq<byte>, start: nat, name: array<byte>) returns (r: Option<nat>)
    requires start < |path| && 0 in path[start..] && name.Length == DIRSIZ
    modifies name
    ensures match SkipElem(Rest(path, start))
      case None => r.None? && name[..] == old(name[..])
      case Some(e) => r.Some? && start < r.value < |path| && 0 in path[r.value..]
                      && Rest(path, r.value) == e.1 && Trunc(name[..]) == e.0
  {
    hide Trunc, DropSlashes, ElemLength;
    var s := PassSlashes(path, start);
    RestIsEmpty(path, s);
    if path[s] == 0 {
      return None;
    }
    var p := PassElem(path, s);
    NoZero(path, s, p);
    CopyElem(path, s, p, name);
    var q := PassSlashes(path, p);
    return Some(q);
  }

  lemma RestIsEmpty(path: seq<byte>, p: nat)
    requires p < |path|
    ensures Rest(path, p) == [] <==> path[p] == 0
  {
  }

  lemma NoZero(path: seq<byte>, s: nat, p: nat)
    requires s <= p <= |path| && p - s <= |Rest(path, s)| && path[s..p] == Rest(path, s)[..p - s]
    ensures 0 !in path[s..p]
  {
  }

  // ---------------------------------------------------------------- the round trip

  function Slashes(n: nat): (s: seq<byte>)
    ensures |s| == n && forall k | 0 <= k < n :: s[k] == SLASH
  {
    if n == 0 then [] else [SLASH] + Slashes(n - 1)
  }

  /** The components, each followed by its number of slashes. */
  function Join(comps: seq<seq<byte>>, gaps: seq<nat>): seq<byte>
    requires |comps| == |gaps|
  {
    if comps == [] then [] else comps[0] + Slashes(gaps[0]) + Join(comps[1..], gaps[1..])
  }

  /** Components are nonempty and free of slashes, and a slash follows each of them but the last. */
  predicate Proper(comps: seq<seq<byte>>, gaps: seq<nat>)
  {
    && |comps| == |gaps|
    && (forall k | 0 <= k < |comps| :: comps[k] != [] && SLASH !in comps[k])
    && (forall k | 0 <= k < |gaps| - 1 :: gaps[k] > 0)
  }

  function CutAll(comps: seq<seq<byte>>): (r: seq<seq<byte>>)
    ensures |r| == |comps| && forall k | 0 <= k < |r| :: r[k] == Cut(comps[k])
  {
    if comps == [] then [] else [Cut(comps[0])] + CutAll(comps[1..])
  }

  lemma {:induction false} DropLeading(n: nat, s: seq<byte>)
    ensures DropSlashes(Slashes(n) + s) == DropSlashes(s)
  {
    if n == 0 {
      assert Slashes(0) + s == s;
    } else {
      assert (Slashes(n) + s)[1..] == Slashes(n - 1) + s;
      DropLeading(n - 1, s);
    }
  }

  lemma JoinStartsProper(comps: seq<seq<byte>>, gaps: seq<nat>)
    requires Proper(comps, gaps)
    ensures DropSlashes(Join(comps, gaps)) == Join(comps, gaps)
  {
    if comps != [] {
      assert Join(comps, gaps)[0] == comps[0][0];
    }
  }

  lemma SkipElemSplits(c: seq<byte>, rest: seq<byte>)
    requires c != [] && SLASH !in c && (rest != [] ==> rest[0] == SLASH)
    ensures SkipElem(c + rest) == Some((Cut(c), DropSlashes(rest)))
  {
    var t := c + rest;
    assert t[0] == c[0];
    assert t[..|c|] == c && t[|c|..] == rest;
    ElemLengthIs(t, |c|);
  }

  lemma SkipElemOfJoin(lead: nat, comps: seq<seq<byte>>, gaps: seq<nat>)
    requires Proper(comps, gaps) && comps != []
    ensures SkipElem(Slashes(lead) + Join(comps, gaps)) == Some((Cut(comps[0]), Join(comps[1..], gaps[1..])))
  {
    var rest := Slashes(gaps[0]) + Join(comps[1..], gaps[1..]);
    JoinSplits(comps, gaps);
    hide Join, ElemLength, Cut;
    DropLeading(lead, comps[0] + rest);
    SkipElemSplits(comps[0], rest);
    assert (comps[0] + rest)[0] == comps[0][0];
  }

  lemma JoinSplits(comps: seq<seq<byte>>, gaps: seq<nat>)
    requires Proper(comps, gaps) && comps != []
    ensures var rest := Slashes(gaps[0]) + Join(comps[1..], gaps[1..]);
      && Join(comps, gaps) == comps[0] + rest
      && (rest != [] ==> rest[0] == SLASH)
      && DropSlashes(rest) == Join(comps[1..], gaps[1..])
  {
    hide DropSlashes, Slashes;
    var tail := Join(comps[1..], gaps[1..]);
    assert Join(comps, gaps) == comps[0] + (Slashes(gaps[0]) + tail);
    if gaps[0] == 0 {
      assert |comps| == 1 && tail == [];
    } else {
      assert (Slashes(gaps[0]) + tail)[0] == SLASH;
    }
    DropLeading(gaps[0], tail);
    assert Proper(comps[1..], gaps[1..]);
    JoinStartsProper(comps[1..], gaps[1..]);
  }

  /** Parsing a path gives back the components it was joined from, each cut to thirteen bytes, whatever the
      numbers of slashes before, between and after them. */
  lemma {:induction false} ComponentsOfJoin(lead: nat, comps: seq<seq<byte>>, gaps: seq<nat>)
    requires Proper(comps, gaps)
    ensures Components(Slashes(lead) + Join(comps, gaps)) == CutAll(comps)
    decreases |comps|
  {
    if comps == [] {
      DropLeading(lead, []);
    } else {
      SkipElemOfJoin(lead, comps, gaps);
      assert Proper(comps[1..], gaps[1..]);
      ComponentsOfJoin(0, comps[1..], gaps[1..]);
      assert Slashes(0) + Join(comps[1..], gaps[1..]) == Join(comps[1..], gaps[1..]);
    }
  }

  /** Components short enough for a directory entry come back unchanged. */
  lemma ShortComponentsComeBack(lead: nat, comps: seq<seq<byte>>, gaps: seq<nat>)
    requires Proper(comps, gaps) && forall k | 0 <= k < |comps| :: |comps[k]| < DIRSIZ
    ensures Components(Slashes(lead) + Join(comps, gaps)) == comps
  {
    ComponentsOfJoin(lead, comps, gaps);
  }

  /** Every component of every path is nonempty, has no slash and fits a name buffer with its terminator,
      so a directory entry whose name fills all fourteen bytes is not reachable by any path. */
  lemma {:induction false} ComponentsFit(s: seq<byte>, k: nat)
    requires k < |Components(s)|
    ensures 0 < |Components(s)[k]| < DIRSIZ && SLASH !in Components(s)[k]
    decreases |s|
  {
    var t := DropSlashes(s);
    ElemHasNoSlash(t);
    if k > 0 {
      ComponentsFit(SkipElem(s).value.1, k - 1);
    }
  }

  lemma {:induction false} ElemHasNoSlash(s: seq<byte>)
    ensures SLASH !in s[..ElemLength(s)]
  {
    if s != [] && s[0] != SLASH {
      ElemHasNoSlash(s[1..]);
      assert s[..ElemLength(s)] == [s[0]] + s[1..][..ElemLength(s[1..])];
    }
  }
}
