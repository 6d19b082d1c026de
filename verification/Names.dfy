/** Which directory entries paths can reach. A path component is cut to thirteen bytes, while
    an entry has room for fourteen. */
module Names {
  import opened Memory
  import opened CString
  import opened Disk
  import opened Paths
  import opened TestFs

  ghost predicate OfSomePath(name: seq<byte>)
  {
    exists path: seq<byte> :: 0 !in path && name in Components(path)
  }

  predicate Nameable(name: seq<byte>)
  {
    0 < |name| < DIRSIZ && SLASH !in name && 0 !in name
  }

  lemma {:induction false} ComponentHasNoZero(path: seq<byte>, k: nat)
    requires 0 !in path && k < |Components(path)|
    ensures 0 !in Components(path)[k]
    decreases |path|
  {
    var t := DropSlashes(path);
    SuffixHasNoZero(path);
    SkipElemHasNoZero(path);
    if k > 0 {
      ComponentHasNoZero(SkipElem(path).value.1, k - 1);
    }
  }

  lemma {:induction false} SuffixHasNoZero(s: seq<byte>)
    requires 0 !in s
    ensures 0 !in DropSlashes(s)
  {
    if s != [] && s[0] == SLASH { SuffixHasNoZero(s[1..]); }
  }

  lemma SkipElemHasNoZero(s: seq<byte>)
    requires 0 !in s && SkipElem(s).Some?
    ensures 0 !in SkipElem(s).value.0 && 0 !in SkipElem(s).value.1
  {
    var t := DropSlashes(s);
    SuffixHasNoZero(s);
    var n := ElemLength(t);
    assert forall b | b in t[..n] :: b in t;
    assert forall b | b in t[n..] :: b in t;
    SuffixHasNoZero(t[n..]);
  }

  /** The components of paths are exactly the nonempty names of at most thirteen bytes without slash or zero. */
  lemma ComponentsAreNameable(name: seq<byte>)
    ensures OfSomePath(name) <==> Nameable(name)
  {
    if OfSomePath(name) {
      var path: seq<byte> :| 0 !in path && name in Components(path);
      var k: nat :| k < |Components(path)| && Components(path)[k] == name;
      ComponentsFit(path, k);
      ComponentHasNoZero(path, k);
    }
    if Nameable(name) {
      assert Slashes(0) + Join([name], [0]) == name by {
        assert Join([name][1..], [0][1..]) == [];
      }
      ShortComponentsComeBack(0, [name], [0]);
      assert name in Components(name);
    }
  }

  /** Some path has a component that matches entry `k`. */
  ghost predicate Reachable(d: Image, ino: Dinode, k: nat)
    requires EntryOk(ino, k)
  {
    exists name: seq<byte> :: OfSomePath(name) && Matches(d, ino, k, name)
  }

  /** An entry in use can be reached if and only if its name, up to a zero, is nonempty, has no slash and at most
      thirteen bytes. */
  lemma EntryReachableIff(d: Image, ino: Dinode, k: nat)
    requires EntryOk(ino, k) && Half(Entry(d, ino, k), 0) != 0
    ensures Reachable(d, ino, k) <==>
      var name := Trunc(Entry(d, ino, k)[2..]); 0 < |name| < DIRSIZ && SLASH !in name
  {
    hide Entry, Half, EntryOk;
    var name := Trunc(Entry(d, ino, k)[2..]);
    ComponentsAreNameable(name);
    assert Matches(d, ino, k, name);
  }

  // ---------------------------------------------------------------- a full name

  const FULL_NAME: seq<byte> := [97, 98, 99, 100, 101, 102, 103, 104, 105, 106, 107, 108, 109, 110]

  /** A root directory with one entry, whose name fills all fourteen bytes. */
  const FULL_NAME_DIR: seq<Dirent> := [Dirent(HELLO_INO, FULL_NAME)]

  lemma FullNameFits()
    ensures OneBlock(FULL_NAME_DIR) && |FULL_NAME| == DIRSIZ
  {
  }

  /** The search finds the entry under its own name, and under no component of any path. */
  lemma FullNameUnreachable(path: seq<byte>, name: seq<byte>)
    requires 0 !in path && name in Components(path) && OneBlock(FULL_NAME_DIR)
    ensures Lookup(RootDisk(FULL_NAME_DIR), INODESTART, ROOT_INO, FULL_NAME) == Some(HELLO_INO)
    ensures Lookup(RootDisk(FULL_NAME_DIR), INODESTART, ROOT_INO, name).None?
  {
    hide Packed, Content, Lookup, DinodeOn, RootDisk, DirentOk;
    FullNameFits();
    ComponentsAreNameable(name);
    RootDiskHolds(FULL_NAME_DIR);
    var d, dir := RootDisk(FULL_NAME_DIR), RootDir(FULL_NAME_DIR);
    PackedLookup(d, INODESTART, ROOT_INO, dir, FULL_NAME_DIR, FULL_NAME);
    PackedLookup(d, INODESTART, ROOT_INO, dir, FULL_NAME_DIR, name);
    assert FirstNamed(FULL_NAME_DIR, name, 1) == None;
  }

  // ---------------------------------------------------------------- the other side of the cut

  /** Two path elements are the same component exactly when they are equal or agree in their first thirteen bytes. */
  lemma CutAgrees(a: seq<byte>, b: seq<byte>)
    ensures Cut(a) == Cut(b) <==>
      a == b || (|a| >= DIRSIZ - 1 && |b| >= DIRSIZ - 1 && a[..DIRSIZ - 1] == b[..DIRSIZ - 1])
  {
    assert |a| == DIRSIZ - 1 ==> a[..DIRSIZ - 1] == a;
    assert |b| == DIRSIZ - 1 ==> b[..DIRSIZ - 1] == b;
    assert Cut(a) == a || |Cut(a)| == DIRSIZ - 1;
    assert Cut(b) == b || |Cut(b)| == DIRSIZ - 1;
    assert |a| >= DIRSIZ - 1 ==> Cut(a) == a[..DIRSIZ - 1];
    assert |b| >= DIRSIZ - 1 ==> Cut(b) == b[..DIRSIZ - 1];
  }

  /** Paths whose elements agree up to the cut have the same components, so they lead to the same inode, whatever their
      slashes. */
  lemma CutPathsResolveAlike(d: Image, inodestart: word, inum: word, lead: nat, elems: seq<seq<byte>>, gaps: seq<nat>,
                             lead': nat, others: seq<seq<byte>>, otherGaps: seq<nat>)
    requires Proper(elems, gaps) && Proper(others, otherGaps) && |elems| == |others|
    requires forall k | 0 <= k < |elems| :: Cut(elems[k]) == Cut(others[k])
    ensures Components(Slashes(lead) + Join(elems, gaps)) == Components(Slashes(lead') + Join(others, otherGaps))
    ensures Resolve(d, inodestart, Components(Slashes(lead) + Join(elems, gaps)), inum)
            == Resolve(d, inodestart, Components(Slashes(lead') + Join(others, otherGaps)), inum)
  {
    ComponentsOfJoin(lead, elems, gaps);
    ComponentsOfJoin(lead', others, otherGaps);
    assert CutAll(elems) == CutAll(others);
  }
}
