/** The inode cache of kernel/fs_inode.c as a value: its invariant, what iget and ilock do
    to it, and how much room a path resolution needs. */
module InodeCache {
  import opened Memory
  import opened Disk

  const NINODE: nat := 32

  datatype Inode = Inode(dev: nat, inum: word, ref: nat, valid: bool, din: Dinode)

  type Cache = seq<Inode>

  /** How often `x` occurs. */
  function Count(s: seq<nat>, x: nat): nat
  {
    if s == [] then 0 else Count(s[..|s| - 1], x) + (if s[|s| - 1] == x then 1 else 0)
  }

  /** `igets` lists the slots that calls of iget have returned so far. */
  ghost predicate CacheOk(c: Cache, d: Image, inodestart: word, igets: seq<nat>)
  {
    && |c| == NINODE
    && (forall i: nat | i < NINODE :: c[i].ref == Count(igets, i))
    && (forall i: nat, j: nat | i < j < NINODE && c[i].ref > 0 && c[j].ref > 0 :: c[i].inum != c[j].inum)
    && (forall i: nat | i < NINODE && c[i].valid ::
          c[i].ref > 0 && DinodeOn(d, inodestart, c[i].inum) == Some(c[i].din))
    && (forall i: nat | i < NINODE && !c[i].valid :: c[i].din.kind == 0)
  }

  // ---------------------------------------------------------------- iget

  /** The first live slot for `inum` from `i` on. */
  function FindLive(c: Cache, inum: word, i: nat): (r: Option<nat>)
    requires i <= |c|
    ensures r.Some? ==> i <= r.value < |c| && c[r.value].ref > 0 && c[r.value].inum == inum
    ensures r.None? ==> forall j | i <= j < |c| :: c[j].ref > 0 ==> c[j].inum != inum
    decreases |c| - i
  {
    if i == |c| then None
    else if c[i].ref > 0 && c[i].inum == inum then Some(i)
    else FindLive(c, inum, i + 1)
  }

  /** The first empty slot from `i` on. */
  function FindEmpty(c: Cache, i: nat): (r: Option<nat>)
    requires i <= |c|
    ensures r.Some? ==> i <= r.value < |c| && c[r.value].ref == 0
    ensures r.Some? ==> forall j | i <= j < r.value :: c[j].ref > 0
    ensures r.None? ==> forall j | i <= j < |c| :: c[j].ref > 0
    decreases |c| - i
  {
    if i == |c| then None else if c[i].ref == 0 then Some(i) else FindEmpty(c, i + 1)
  }

  /** The slot that iget returns. */
  function IgetSlot(c: Cache, inum: word): (r: Option<nat>)
    ensures r.Some? ==> r.value < |c|
  {
    match FindLive(c, inum, 0)
    case Some(i) => Some(i)
    case None => FindEmpty(c, 0)
  }

  /** The cache after iget. */
  function AfterIget(c: Cache, inum: word): Cache
  {
    match FindLive(c, inum, 0)
    case Some(i) => c[i := c[i].(ref := c[i].ref + 1)]
    case None =>
      match FindEmpty(c, 0)
      case Some(i) => c[i := Inode(0, inum, 1, false, c[i].din)]
      case None => c
  }

  lemma IgetKeepsOk(c: Cache, d: Image, inodestart: word, igets: seq<nat>, inum: word)
    requires CacheOk(c, d, inodestart, igets)
    ensures IgetSlot(c, inum).Some? ==>
      CacheOk(AfterIget(c, inum), d, inodestart, igets + [IgetSlot(c, inum).value])
  {
    if IgetSlot(c, inum).Some? {
      var i := IgetSlot(c, inum).value;
      assert (igets + [i])[..|igets|] == igets;
      assert c[i].ref == 0 ==> !c[i].valid;
    }
  }

  // ---------------------------------------------------------------- ilock

  /** The cache after ilock: the slot is filled from the disk unless it is valid already or its block cannot be read. */
  function AfterIlock(c: Cache, d: Image, inodestart: word, i: nat): Cache
    requires i < |c|
  {
    if c[i].valid then c
    else match DinodeOn(d, inodestart, c[i].inum)
      case None => c
      case Some(din) => c[i := c[i].(valid := true, din := din)]
  }

  lemma IlockKeepsOk(c: Cache, d: Image, inodestart: word, igets: seq<nat>, i: nat)
    requires CacheOk(c, d, inodestart, igets) && i < NINODE && c[i].ref > 0
    ensures CacheOk(AfterIlock(c, d, inodestart, i), d, inodestart, igets)
  {
  }

  /** After ilock the slot agrees with the disk, or has type 0 when the disk has no such inode. */
  lemma IlockAgrees(c: Cache, d: Image, inodestart: word, igets: seq<nat>, i: nat)
    requires CacheOk(c, d, inodestart, igets) && i < NINODE && c[i].ref > 0
    ensures var ip := AfterIlock(c, d, inodestart, i)[i];
      match DinodeOn(d, inodestart, c[i].inum)
      case Some(din) => ip.valid && ip.din == din
      case None => !ip.valid && ip.din.kind == 0
  {
  }

  // ---------------------------------------------------------------- room in the cache

  /** The inode numbers in the cache. */
  function Live(c: Cache): set<word>
  {
    set i: nat | i < |c| && c[i].ref > 0 :: c[i].inum
  }

  /** The number of empty slots. */
  function Free(c: Cache): nat
  {
    if c == [] then 0 else Free(c[..|c| - 1]) + (if c[|c| - 1].ref == 0 then 1 else 0)
  }

  /** iget can be called on the inodes of `path` in order without running out of slots. */
  predicate Admits(live: set<word>, free: nat, path: seq<word>)
    decreases |path|
  {
    path == []
    || (if path[0] in live then Admits(live, free, path[1..])
        else free > 0 && Admits(live + {path[0]}, free - 1, path[1..]))
  }

  function Elements(path: seq<word>): set<word>
  {
    if path == [] then {} else {path[0]} + Elements(path[1..])
  }

  /** There is room exactly when the inodes not yet cached are no more than the empty slots. */
  lemma {:induction false} AdmitsCounts(live: set<word>, free: nat, path: seq<word>)
    ensures Admits(live, free, path) <==> |Elements(path) - live| <= free
    decreases |path|
  {
    if path != [] {
      var p := path[0];
      if p in live {
        AdmitsCounts(live, free, path[1..]);
        assert Elements(path) - live == Elements(path[1..]) - live;
      } else {
        var rest := Elements(path[1..]) - (live + {p});
        assert Elements(path) - live == rest + {p};
        if free > 0 { AdmitsCounts(live + {p}, free - 1, path[1..]); }
      }
    }
  }

  /** The components lead from `inum` to an inode, and the cache has room for every inode met after it. */
  ghost predicate Walkable(d: Image, inodestart: word, c: Cache, comps: seq<seq<byte>>, inum: word)
  {
    Resolve(d, inodestart, comps, inum).Some? && Admits(Live(c), Free(c), Visited(d, inodestart, comps, inum))
  }

  /** The components lead from the root to an inode, and the cache has room for every inode met, the root included. */
  ghost predicate Reachable(d: Image, inodestart: word, c: Cache, comps: seq<seq<byte>>)
  {
    && Resolve(d, inodestart, comps, ROOT_INO).Some?
    && Admits(Live(c), Free(c), Met(d, inodestart, comps))
  }

  /** An inode can be opened by path exactly when the path resolves and the inodes met on the way that are not cached
      yet are no more than the empty slots. Slots are never given back. */
  lemma ReachableIff(d: Image, inodestart: word, c: Cache, comps: seq<seq<byte>>)
    ensures Reachable(d, inodestart, c, comps) <==>
      && Resolve(d, inodestart, comps, ROOT_INO).Some?
      && |Elements(Met(d, inodestart, comps)) - Live(c)| <= Free(c)
  {
    AdmitsCounts(Live(c), Free(c), Met(d, inodestart, comps));
  }

  /** With no slot left, only inodes that are cached can be met. */
  lemma FullReachableIff(d: Image, inodestart: word, c: Cache, comps: seq<seq<byte>>)
    requires Free(c) == 0
    ensures Reachable(d, inodestart, c, comps) <==>
      Resolve(d, inodestart, comps, ROOT_INO).Some? && Elements(Met(d, inodestart, comps)) <= Live(c)
  {
    hide Resolve, Met, Live, Elements, Reachable;
    ReachableIff(d, inodestart, c, comps);
    NothingNew(Elements(Met(d, inodestart, comps)), Live(c));
  }

  lemma NothingNew(met: set<word>, live: set<word>)
    ensures |met - live| == 0 <==> met <= live
  {
    if |met - live| == 0 {
      forall x | x in met ensures x in live {
        assert x !in met - live;
      }
    } else {
      var x :| x in met - live;
    }
  }

  /** The root is cached, as it is from the first lookup on, or can be. */
  ghost predicate RootAvailable(c: Cache)
  {
    ROOT_INO in Live(c) || Free(c) > 0
  }

  lemma {:induction false} FreeUpdate(c: Cache, i: nat, ip: Inode)
    requires i < |c|
    ensures Free(c[i := ip]) == Free(c) - (if c[i].ref == 0 then 1 else 0) + (if ip.ref == 0 then 1 else 0)
  {
    var n := |c| - 1;
    if i < n {
      FreeUpdate(c[..n], i, ip);
      assert c[i := ip][..n] == c[..n][i := ip];
    } else {
      assert c[i := ip][..n] == c[..n];
    }
  }

  lemma {:induction false} AllFree(c: Cache)
    requires forall i: nat | i < |c| :: c[i].ref == 0
    ensures Free(c) == |c| && Live(c) == {}
  {
    if c != [] { AllFree(c[..|c| - 1]); }
  }

  lemma {:induction false} NoneLeft(c: Cache)
    requires forall i: nat | i < |c| :: c[i].ref > 0
    ensures Free(c) == 0
  {
    if c != [] { NoneLeft(c[..|c| - 1]); }
  }

  function Identity(n: nat): (s: seq<nat>)
    ensures |s| == n
  {
    if n == 0 then [] else Identity(n - 1) + [n - 1]
  }

  lemma {:induction false} CountOnce(n: nat, x: nat)
    ensures Count(Identity(n), x) == if x < n then 1 else 0
  {
    if n > 0 {
      assert Identity(n)[..n - 1] == Identity(n - 1);
      CountOnce(n - 1, x);
    }
  }

  lemma {:induction false} NoneFree(c: Cache)
    ensures Free(c) == 0 <==> FindEmpty(c, 0).None?
  {
    if c != [] {
      var n := |c| - 1;
      NoneFree(c[..n]);
      if FindEmpty(c[..n], 0).Some? {
        assert c[FindEmpty(c[..n], 0).value].ref == 0;
      }
      if FindEmpty(c, 0).Some? && FindEmpty(c, 0).value < n {
        assert c[..n][FindEmpty(c, 0).value].ref == 0;
      }
    }
  }

  /** `c'` is what the cache has room for after it took in `inum`: nothing less if it was there, else one slot less. */
  ghost predicate TookIn(c: Cache, inum: word, c': Cache)
  {
    && (inum in Live(c) || Free(c) > 0)
    && Live(c') == Live(c) + {inum}
    && Free(c') == Free(c) - (if inum in Live(c) then 0 else 1)
  }

  /** iget fails exactly when the inode is not cached and no slot is left. */
  lemma IgetRoom(c: Cache, inum: word)
    ensures IgetSlot(c, inum).Some? <==> inum in Live(c) || Free(c) > 0
    ensures IgetSlot(c, inum).Some? ==> TookIn(c, inum, AfterIget(c, inum))
  {
    NoneFree(c);
    var c' := AfterIget(c, inum);
    if IgetSlot(c, inum).Some? {
      var i := IgetSlot(c, inum).value;
      FreeUpdate(c, i, c'[i]);
      LiveUpdate(c, i, c'[i]);
      assert FindLive(c, inum, 0).Some? ==> c[i].inum in Live(c);
    }
  }

  lemma LiveUpdate(c: Cache, i: nat, ip: Inode)
    requires i < |c| && ip.ref > 0 && (c[i].ref > 0 ==> ip.inum == c[i].inum)
    ensures Live(c[i := ip]) == Live(c) + {ip.inum}
  {
    var c' := c[i := ip];
    assert c'[i].inum in Live(c');
    forall x | x in Live(c) ensures x in Live(c') {
      var j: nat :| j < |c| && c[j].ref > 0 && c[j].inum == x;
      assert c'[j].inum == x && c'[j].ref > 0;
    }
  }

  lemma IlockRoom(c: Cache, d: Image, inodestart: word, i: nat)
    requires i < |c| && c[i].ref > 0
    ensures Live(AfterIlock(c, d, inodestart, i)) == Live(c) && Free(AfterIlock(c, d, inodestart, i)) == Free(c)
  {
    var c' := AfterIlock(c, d, inodestart, i);
    FreeUpdate(c, i, c'[i]);
    LiveUpdate(c, i, c'[i]);
    assert c' == c[i := c'[i]];
    assert c[i].inum in Live(c);
  }

  /** The inodes of `path` have been taken in, each that was not there for one slot. */
  ghost predicate TookAll(c: Cache, path: seq<word>, c': Cache)
  {
    Live(c') == Live(c) + Elements(path) && Free(c') + |Elements(path) - Live(c)| == Free(c)
  }

  lemma {:induction false} ElementsAppend(path: seq<word>, inum: word)
    ensures Elements(path + [inum]) == Elements(path) + {inum}
    decreases |path|
  {
    if path == [] {
      assert (path + [inum])[1..] == [];
    } else {
      ElementsAppend(path[1..], inum);
      assert (path + [inum])[1..] == path[1..] + [inum];
    }
  }

  lemma OneMoreNew(met: set<word>, live: set<word>, inum: word)
    ensures |met + {inum} - live| == |met - live| + (if inum in live + met then 0 else 1)
  {
    assert met + {inum} - live == (met - live) + (if inum in live + met then {} else {inum});
  }

  lemma TookOneMore(c: Cache, path: seq<word>, c1: Cache, inum: word, c2: Cache)
    requires TookAll(c, path, c1) && TookIn(c1, inum, c2)
    ensures TookAll(c, path + [inum], c2)
  {
    hide Live, Free, Elements;
    ElementsAppend(path, inum);
    OneMoreNew(Elements(path), Live(c), inum);
  }

  lemma TookRoot(c: Cache, c': Cache)
    requires TookIn(c, ROOT_INO, c')
    ensures TookAll(c, [ROOT_INO], c')
  {
    hide Live, Free;
    assert [ROOT_INO][1..] == [] && Elements([ROOT_INO]) == {ROOT_INO};
    assert {ROOT_INO} - Live(c) == if ROOT_INO in Live(c) then {} else {ROOT_INO};
  }

  /** Slots stay with their inode, and references only grow: there is no iput. */
  ghost predicate Grows(c: Cache, c': Cache)
  {
    && |c'| == |c|
    && (forall i: nat | i < |c| :: c'[i].ref >= c[i].ref)
    && (forall i: nat | i < |c| && c[i].ref > 0 :: c'[i].inum == c[i].inum)
    && (forall i: nat | i < |c| && c[i].valid :: c'[i].valid && c'[i].din == c[i].din)
  }

  lemma IlockGrows(c: Cache, d: Image, inodestart: word, i: nat)
    requires i < |c|
    ensures Grows(c, AfterIlock(c, d, inodestart, i))
  {
  }

  lemma IgetGrows(c: Cache, inum: word)
    requires forall i: nat | i < |c| && c[i].valid :: c[i].ref > 0
    ensures Grows(c, AfterIget(c, inum))
  {
  }

  lemma CacheRefs(c: Cache, d: Image, inodestart: word, igets: seq<nat>)
    requires CacheOk(c, d, inodestart, igets)
    ensures forall i: nat | i < |c| && c[i].valid :: c[i].ref > 0
    ensures Grows(c, c)
  {
  }

  lemma GrowsTwice(c0: Cache, c1: Cache, c2: Cache)
    requires Grows(c0, c1) && Grows(c1, c2)
    ensures Grows(c0, c2)
  {
  }

  /** What was cached stays cached. */
  lemma LiveGrows(c: Cache, c': Cache)
    requires Grows(c, c')
    ensures Live(c) <= Live(c')
  {
    forall x | x in Live(c) ensures x in Live(c') {
      var i: nat :| i < |c| && c[i].ref > 0 && c[i].inum == x;
      assert c'[i].inum == x && c'[i].ref > 0;
    }
  }

  /** A full cache stays as it is. */
  lemma FullStaysFull(c: Cache, c': Cache)
    requires Grows(c, c') && Free(c) == 0
    ensures Live(c') == Live(c) && Free(c') == 0
  {
    NoneFree(c);
    LiveGrows(c, c');
    forall i: nat | i < |c'| ensures c'[i].ref > 0 && c'[i].inum in Live(c) {
      assert c[i].inum in Live(c);
    }
    NoneLeft(c');
  }

  lemma AdmitsStep(live: set<word>, free: nat, inum: word, rest: seq<word>)
    ensures Admits(live, free, [inum] + rest)
            <==> (inum in live || free > 0)
                 && Admits(live + {inum}, free - (if inum in live || free == 0 then 0 else 1), rest)
  {
    assert ([inum] + rest)[1..] == rest;
    if inum in live { assert live + {inum} == live; }
  }

  lemma WalkStart(d: Image, inodestart: word, c: Cache, c': Cache, comps: seq<seq<byte>>)
    requires TookIn(c, ROOT_INO, c')
    ensures Reachable(d, inodestart, c, comps) <==> Walkable(d, inodestart, c', comps, ROOT_INO)
  {
    hide Live, Free, Resolve, Visited;
    AdmitsStep(Live(c), Free(c), ROOT_INO, Visited(d, inodestart, comps, ROOT_INO));
  }

  /** One component of a walk. */
  lemma WalkStep(d: Image, inodestart: word, c: Cache, c': Cache, comps: seq<seq<byte>>, inum: word)
    requires comps != []
    ensures Lookup(d, inodestart, inum, comps[0]).None? ==>
      Resolve(d, inodestart, comps, inum).None? && !Walkable(d, inodestart, c, comps, inum)
    ensures Lookup(d, inodestart, inum, comps[0]).Some? ==>
      var next := Lookup(d, inodestart, inum, comps[0]).value;
      && Resolve(d, inodestart, comps, inum) == Resolve(d, inodestart, comps[1..], next)
      && (next !in Live(c) && Free(c) == 0 ==> !Walkable(d, inodestart, c, comps, inum))
      && (TookIn(c, next, c') ==>
            (Walkable(d, inodestart, c, comps, inum) <==> Walkable(d, inodestart, c', comps[1..], next)))
  {
    hide Lookup, Admits, Live, Free;
    if Lookup(d, inodestart, inum, comps[0]).Some? {
      var next := Lookup(d, inodestart, inum, comps[0]).value;
      AdmitsStep(Live(c), Free(c), next, Visited(d, inodestart, comps[1..], next));
    }
  }

  /** On the way from the root: `met` has been taken in, and `comps` are still to be walked from `inum`. */
  ghost predicate OnTheWay(d: Image, inodestart: word, c0: Cache, whole: seq<word>, met: seq<word>, c: Cache,
                           comps: seq<seq<byte>>, inum: word)
  {
    TookAll(c0, met, c) && whole == met + Visited(d, inodestart, comps, inum)
  }

  lemma WayStart(d: Image, inodestart: word, c0: Cache, c: Cache, comps: seq<seq<byte>>)
    requires TookIn(c0, ROOT_INO, c)
    ensures OnTheWay(d, inodestart, c0, Met(d, inodestart, comps), [ROOT_INO], c, comps, ROOT_INO)
  {
    hide TookIn, TookAll;
    TookRoot(c0, c);
  }

  lemma WayStep(d: Image, inodestart: word, c0: Cache, whole: seq<word>, met: seq<word>, c: Cache, c': Cache,
                comps: seq<seq<byte>>, inum: word)
    requires OnTheWay(d, inodestart, c0, whole, met, c, comps, inum) && comps != []
    requires Lookup(d, inodestart, inum, comps[0]).Some? && TookIn(c, Lookup(d, inodestart, inum, comps[0]).value, c')
    ensures var next := Lookup(d, inodestart, inum, comps[0]).value;
      OnTheWay(d, inodestart, c0, whole, met + [next], c', comps[1..], next)
  {
    hide Lookup, TookIn, TookAll;
    TookOneMore(c0, met, c, Lookup(d, inodestart, inum, comps[0]).value, c');
  }

  lemma WayEnd(d: Image, inodestart: word, c0: Cache, whole: seq<word>, met: seq<word>, c: Cache, inum: word)
    requires OnTheWay(d, inodestart, c0, whole, met, c, [], inum)
    ensures TookAll(c0, whole, c)
  {
    hide TookAll;
    assert met + [] == met;
  }

  lemma WalkEnd(d: Image, inodestart: word, c: Cache, inum: word)
    ensures Walkable(d, inodestart, c, [], inum) && Resolve(d, inodestart, [], inum) == Some(inum)
  {
  }
}
