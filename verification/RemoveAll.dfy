/**
 Batched recursive deletion (internal/ufs/removeall_unix.go) through the quota
 filesystem (internal/ufs/fs_quota.go), over a tree some of whose entries the
 operating system refuses to remove. Opening and reading directories succeeds.
 */
module RemoveAll {
  import opened Int64
  import opened QuotaCounter

  type Name = string
  type Path = seq<Name>

  type Size = x: int64 | x >= 0

  datatype Entry = Dir | File(size: Size, regular: bool)

  datatype Errno = ENOENT | EISDIR | ENOTDIR | ENOTEMPTY | EPERM | EACCES | EOTHER

  /** What unlink answers for an entry that cannot be removed: anything but "no such entry". */
  type Refusal = e: Errno | e != ENOENT witness EPERM

  datatype Status = Ok | Err(errno: Errno)

  type Tree = map<Path, Entry>

  const REQ_SIZE := 1024

  // ---------------------------------------------------------------------
  // What must be left
  // ---------------------------------------------------------------------

  /** A refused directory whose error is not one of EISDIR, EPERM, EACCES is not descended into. */
  predicate Sealed(t: Tree, stuck: map<Path, Refusal>, r: Path) {
    && r in t && t[r].Dir?
    && r in stuck && stuck[r] !in {EISDIR, EPERM, EACCES}
  }

  /**
   Within the subtree at `top`, an entry stays exactly when it is a refused entry,
   an ancestor of one, or lies inside a sealed directory.
   */
  ghost predicate Kept(t: Tree, stuck: map<Path, Refusal>, top: Path, q: Path) {
    exists r :: r in t && Keeps(t, stuck, top, r, q)
  }

  ghost predicate Keeps(t: Tree, stuck: map<Path, Refusal>, top: Path, r: Path, q: Path) {
    && r in stuck && top <= r
    && (q <= r || (Sealed(t, stuck, r) && r <= q))
  }

  ghost function Pruned(t: Tree, stuck: map<Path, Refusal>, top: Path): Tree {
    map q | q in t && (top <= q ==> Kept(t, stuck, top, q)) :: t[q]
  }

  /** Every entry but the root sits in a directory. */
  ghost predicate Closed(t: Tree) {
    forall q {:trigger HasParent(t, q)} :: q in t ==> HasParent(t, q)
  }

  predicate HasParent(t: Tree, q: Path) {
    q != [] ==> Parent(q) in t && t[Parent(q)].Dir?
  }

  function Parent(q: Path): Path
    requires q != []
  {
    q[..|q| - 1]
  }

  ghost function Under(t: Tree, top: Path): set<Path> {
    set q | q in t && top <= q
  }

  function Children(t: Tree, dir: Path): set<Name> {
    set q | q in t && |q| == |dir| + 1 && dir <= q :: q[|dir|]
  }

  lemma ProperPrefix(p: Path, q: Path)
    requires p <= q && p != q
    ensures p < q
  {
    assert |p| == |q| ==> p == q;
  }

  /** Every entry below `dir` lies below a child of it. */
  lemma {:induction false} ChildOnTheWay(t: Tree, dir: Path, q: Path)
    requires Closed(t) && q in t && dir < q
    ensures q[..|dir| + 1] in t && q[|dir|] in Children(t, dir)
    decreases |q|
  {
    assert HasParent(t, q);
    if |q| > |dir| + 1 {
      ChildOnTheWay(t, dir, Parent(q));
      assert Parent(q)[..|dir| + 1] == q[..|dir| + 1];
    } else {
      assert q[..|dir| + 1] == q;
    }
  }

  /** Every ancestor of an entry is a directory of the tree. */
  lemma {:induction false} AncestorIsDir(t: Tree, p: Path, q: Path)
    requires Closed(t) && q in t && p < q
    ensures p in t && t[p].Dir?
    decreases |q|
  {
    assert HasParent(t, q);
    if |q| > |p| + 1 {
      AncestorIsDir(t, p, Parent(q));
    } else {
      assert Parent(q) == p;
    }
  }

  // ---------------------------------------------------------------------
  // Sizes
  // ---------------------------------------------------------------------

  function Bytes(e: Entry): Size {
    if e.File? && e.regular then e.size else 0
  }

  ghost function Total(t: Tree): nat
    decreases |t|
  {
    if t == map[] then 0
    else
      var q :| q in t;
      Bytes(t[q]) + Total(t - {q})
  }

  lemma {:induction false} TotalWithout(t: Tree, q: Path)
    requires q in t
    ensures Total(t) == Bytes(t[q]) + Total(t - {q})
    decreases |t|
  {
    var x :| x in t && Total(t) == Bytes(t[x]) + Total(t - {x});
    if x != q {
      TotalWithout(t - {x}, q);
      TotalWithout(t - {q}, x);
      assert t - {x} - {q} == t - {q} - {x};
    }
  }

  lemma {:induction false} TotalSplit(t: Tree, part: set<Path>)
    ensures Total(t) == Total(t - part) + Total(map q | q in t && q in part :: t[q])
    decreases |t|
  {
    var inside := map q | q in t && q in part :: t[q];
    if t == map[] {
      assert t - part == t && inside == t;
    } else {
      var x :| x in t;
      TotalWithout(t, x);
      TotalSplit(t - {x}, part);
      var t' := t - {x};
      var inside' := map q | q in t' && q in part :: t'[q];
      if x in part {
        TotalWithout(inside, x);
        assert inside - {x} == inside';
        assert t - part == t' - part;
      } else {
        TotalWithout(t - part, x);
        assert t - part - {x} == t' - part;
        assert inside == inside';
      }
    }
  }

  // ---------------------------------------------------------------------
  // Progress inside one directory
  // ---------------------------------------------------------------------

  /** The child of `dir` that `q` lies in. */
  function Branch(dir: Path, q: Path): Path
    requires dir < q
  {
    q[..|dir| + 1]
  }

  /** `t` is `t0` with some entries below `dir` gone, none that must stay; the branches in `done` are finished. */
  ghost predicate Progress(t0: Tree, t: Tree, stuck: map<Path, Refusal>, dir: Path, done: set<Name>) {
    && (forall q :: q in t ==> q in t0 && t[q] == t0[q])
    && (forall q :: q in t0 && q !in t ==> dir < q && !Kept(t0, stuck, Branch(dir, q), q))
    && (forall q :: q in t && dir < q && q[|dir|] in done ==> Kept(t0, stuck, Branch(dir, q), q))
  }

  /** Removing what can go never changes what must stay. */
  lemma KeptStable(t0: Tree, t: Tree, stuck: map<Path, Refusal>, dir: Path, done: set<Name>, p: Path, q: Path)
    requires Progress(t0, t, stuck, dir, done)
    requires |p| == |dir| + 1 && dir <= p
    ensures Kept(t, stuck, p, q) <==> Kept(t0, stuck, p, q)
  {
    if Kept(t0, stuck, p, q) {
      var r :| r in t0 && Keeps(t0, stuck, p, r, q);
      assert Keeps(t0, stuck, p, r, r);
      assert Branch(dir, r) == p;
      assert r in t;
      assert Keeps(t, stuck, p, r, q);
    }
    if Kept(t, stuck, p, q) {
      var r :| r in t && Keeps(t, stuck, p, r, q);
      assert Keeps(t0, stuck, p, r, q);
    }
  }

  lemma ProgressStep(t0: Tree, t: Tree, stuck: map<Path, Refusal>, dir: Path, done: set<Name>, c: Name)
    requires Progress(t0, t, stuck, dir, done)
    ensures Progress(t0, Pruned(t, stuck, dir + [c]), stuck, dir, done + {c})
  {
    var p := dir + [c];
    var t' := Pruned(t, stuck, p);
    forall q | q in t0 && q !in t' ensures dir < q && !Kept(t0, stuck, Branch(dir, q), q) {
      if q in t {
        KeptStable(t0, t, stuck, dir, done, p, q);
        assert Branch(dir, q) == p;
      }
    }
    forall q | q in t' && dir < q && q[|dir|] in done + {c} ensures Kept(t0, stuck, Branch(dir, q), q) {
      if q[|dir|] == c {
        assert Branch(dir, q) == p;
        KeptStable(t0, t, stuck, dir, done, p, q);
      }
    }
  }

  /** What keeps an entry keeps its ancestors within the subtree. */
  lemma KeptUpward(t: Tree, stuck: map<Path, Refusal>, top: Path, p: Path, q: Path)
    requires q in t && Kept(t, stuck, top, q) && top <= p <= q
    ensures Kept(t, stuck, top, p)
  {
    var r :| r in t && Keeps(t, stuck, top, r, q);
    assert p <= r || r <= p;
    assert Keeps(t, stuck, top, r, p);
  }

  /** Pruning keeps every entry in a directory. */
  lemma PrunedClosed(t: Tree, stuck: map<Path, Refusal>, top: Path)
    requires Closed(t)
    ensures Closed(Pruned(t, stuck, top))
  {
    var t' := Pruned(t, stuck, top);
    forall q | q in t' ensures HasParent(t', q) {
      assert HasParent(t, q);
      if q != [] && top <= Parent(q) {
        KeptUpward(t, stuck, top, Parent(q), q);
      }
    }
  }

  /** Below an unsealed directory, what keeps an entry lies in the entry's own branch. */
  lemma KeptInBranch(t0: Tree, stuck: map<Path, Refusal>, dir: Path, q: Path)
    requires !Sealed(t0, stuck, dir) && dir < q
    ensures Kept(t0, stuck, dir, q) <==> Kept(t0, stuck, Branch(dir, q), q)
  {
    if Kept(t0, stuck, Branch(dir, q), q) {
      var r :| r in t0 && Keeps(t0, stuck, Branch(dir, q), r, q);
      assert Keeps(t0, stuck, dir, r, q);
    }
    if Kept(t0, stuck, dir, q) {
      var r :| r in t0 && Keeps(t0, stuck, dir, r, q);
      ProperPrefix(dir, r);
      assert r[..|dir| + 1] == Branch(dir, q);
      assert Keeps(t0, stuck, Branch(dir, q), r, q);
    }
  }

  /** Once every branch is finished, everything but the directory itself is decided. */
  lemma BranchesDecided(t0: Tree, t: Tree, stuck: map<Path, Refusal>, dir: Path, done: set<Name>, q: Path)
    requires Closed(t) && !Sealed(t0, stuck, dir)
    requires Progress(t0, t, stuck, dir, done) && Children(t, dir) <= done
    requires q != dir
    ensures q in t <==> q in Pruned(t0, stuck, dir)
  {
    if q in t0 && dir < q {
      KeptInBranch(t0, stuck, dir, q);
      if q in t {
        ChildOnTheWay(t, dir, q);
      }
    }
  }

  /** A refused entry below the directory shows as a child that is left. */
  lemma KeeperLeavesChild(t0: Tree, t: Tree, stuck: map<Path, Refusal>, dir: Path, done: set<Name>, r: Path)
    requires Closed(t) && !Sealed(t0, stuck, dir)
    requires Progress(t0, t, stuck, dir, done) && Children(t, dir) <= done
    requires r in t0 && r in stuck && dir < r
    ensures Children(t, dir) != {}
  {
    assert Keeps(t0, stuck, dir, r, r);
    BranchesDecided(t0, t, stuck, dir, done, r);
    ChildOnTheWay(t, dir, r);
  }

  /** A child that is left is there because something below the directory is refused. */
  lemma ChildHasKeeper(t0: Tree, t: Tree, stuck: map<Path, Refusal>, dir: Path, done: set<Name>, q: Path)
    requires Closed(t) && !Sealed(t0, stuck, dir)
    requires Progress(t0, t, stuck, dir, done) && Children(t, dir) <= done
    requires q in t && dir < q
    ensures Kept(t0, stuck, dir, dir)
  {
    BranchesDecided(t0, t, stuck, dir, done, q);
    KeptUpward(t0, stuck, dir, dir, q);
  }

  /** The directory itself must stay exactly when it is refused or not empty. */
  lemma DirDecided(t0: Tree, t: Tree, stuck: map<Path, Refusal>, dir: Path, done: set<Name>)
    requires Closed(t) && dir in t0 && !Sealed(t0, stuck, dir)
    requires Progress(t0, t, stuck, dir, done) && Children(t, dir) <= done
    ensures Kept(t0, stuck, dir, dir) <==> dir in stuck || Children(t, dir) != {}
  {
    if dir in stuck {
      assert Keeps(t0, stuck, dir, dir, dir);
    } else if Children(t, dir) != {} {
      var q :| q in t && |q| == |dir| + 1 && dir <= q;
      ChildHasKeeper(t0, t, stuck, dir, done, q);
    } else if Kept(t0, stuck, dir, dir) {
      var r :| r in t0 && Keeps(t0, stuck, dir, r, dir);
      ProperPrefix(dir, r);
      KeeperLeavesChild(t0, t, stuck, dir, done, r);
    }
  }

  lemma AllBranchesDone(t0: Tree, t: Tree, stuck: map<Path, Refusal>, dir: Path, done: set<Name>)
    requires Closed(t) && dir in t0 && !Sealed(t0, stuck, dir)
    requires Progress(t0, t, stuck, dir, done) && Children(t, dir) <= done
    ensures Pruned(t0, stuck, dir) == if dir in stuck || Children(t, dir) != {} then t else t - {dir}
  {
    var left := Pruned(t0, stuck, dir);
    forall q | q != dir ensures q in t <==> q in left {
      BranchesDecided(t0, t, stuck, dir, done, q);
    }
    DirDecided(t0, t, stuck, dir, done);
    assert dir in t;
  }

  // ---------------------------------------------------------------------
  // What is subtracted although it stays
  // ---------------------------------------------------------------------

  /**
   A refused entry that the deletion reaches: no sealed directory lies above it.
   `Quota.unlinkat` subtracts a file's size before it tries to unlink it, so every
   such regular file is subtracted without going away.
   */
  ghost predicate Reached(t: Tree, stuck: map<Path, Refusal>, top: Path, r: Path) {
    && r in t && r in stuck && top <= r
    && (forall s :: s in t && top <= s < r ==> !Sealed(t, stuck, s))
  }

  ghost function ReachedFiles(t: Tree, stuck: map<Path, Refusal>, top: Path): Tree {
    map r | r in t && Reached(t, stuck, top, r) :: t[r]
  }

  /** The bytes of the refused regular files that a deletion at `top` reaches, each counted once. */
  ghost function RefusedBytes(t: Tree, stuck: map<Path, Refusal>, top: Path): nat {
    Total(ReachedFiles(t, stuck, top))
  }

  ghost predicate Overcounts(t: Tree, stuck: map<Path, Refusal>, top: Path) {
    RefusedBytes(t, stuck, top) > 0
  }

  /** The same for some of the branches of a directory. */
  ghost predicate ReachedIn(t: Tree, stuck: map<Path, Refusal>, dir: Path, names: set<Name>, r: Path) {
    r in t && dir < r && r[|dir|] in names && Reached(t, stuck, Branch(dir, r), r)
  }

  ghost function FilesIn(t: Tree, stuck: map<Path, Refusal>, dir: Path, names: set<Name>): Tree {
    map r | r in t && ReachedIn(t, stuck, dir, names, r) :: t[r]
  }

  ghost function RefusedIn(t: Tree, stuck: map<Path, Refusal>, dir: Path, names: set<Name>): nat {
    Total(FilesIn(t, stuck, dir, names))
  }

  lemma RefusedInAdd(t: Tree, stuck: map<Path, Refusal>, dir: Path, names: set<Name>, more: set<Name>)
    requires names !! more
    ensures RefusedIn(t, stuck, dir, names + more) == RefusedIn(t, stuck, dir, names) + RefusedIn(t, stuck, dir, more)
  {
    hide Reached, Total, Branch;
    var all, a, b := FilesIn(t, stuck, dir, names + more), FilesIn(t, stuck, dir, names), FilesIn(t, stuck, dir, more);
    TotalSplit(all, a.Keys);
    assert all - a.Keys == b;
    assert (map q | q in all && q in a.Keys :: all[q]) == a;
  }

  lemma RefusedInOne(t: Tree, stuck: map<Path, Refusal>, dir: Path, c: Name)
    ensures RefusedIn(t, stuck, dir, {c}) == RefusedBytes(t, stuck, dir + [c])
  {
    var p := dir + [c];
    forall r | r in t ensures ReachedIn(t, stuck, dir, {c}, r) <==> Reached(t, stuck, p, r) {
      if dir < r {
        assert r[|dir|] == c <==> Branch(dir, r) == p;
      }
      if p <= r {
        assert Branch(dir, r) == p;
      }
    }
    assert FilesIn(t, stuck, dir, {c}) == ReachedFiles(t, stuck, p);
  }

  /** Below an unsealed directory everything that is reached is reached in its own branch. */
  lemma ReachedInBranch(t: Tree, stuck: map<Path, Refusal>, dir: Path, r: Path)
    requires !Sealed(t, stuck, dir) && dir < r
    ensures Reached(t, stuck, dir, r) <==> Reached(t, stuck, Branch(dir, r), r)
  {
    if Reached(t, stuck, Branch(dir, r), r) {
      forall s | s in t && dir <= s < r ensures !Sealed(t, stuck, s) {
        if s != dir {
          ProperPrefix(dir, s);
          assert s[..|dir| + 1] == Branch(dir, r);
        }
      }
    }
  }

  /** A refused file is among what is left, and so is the branch it lies in. */
  lemma ReachedIsLeft(t0: Tree, t: Tree, stuck: map<Path, Refusal>, dir: Path, done: set<Name>, r: Path)
    requires !Sealed(t0, stuck, dir) && Closed(t) && Progress(t0, t, stuck, dir, done) && r in t0 && r != dir
    ensures ReachedIn(t0, stuck, dir, Children(t, dir), r) <==> Reached(t0, stuck, dir, r)
  {
    if dir <= r {
      ProperPrefix(dir, r);
      ReachedInBranch(t0, stuck, dir, r);
      if Reached(t0, stuck, dir, r) {
        assert Keeps(t0, stuck, Branch(dir, r), r, r);
        ChildOnTheWay(t, dir, r);
      }
    }
  }

  /** So the branches that are left hold all that is reached. */
  lemma RefusedInLeft(t0: Tree, t: Tree, stuck: map<Path, Refusal>, dir: Path, done: set<Name>)
    requires dir in t0 && t0[dir].Dir? && !Sealed(t0, stuck, dir)
    requires Closed(t) && Progress(t0, t, stuck, dir, done)
    ensures RefusedIn(t0, stuck, dir, Children(t, dir)) == RefusedBytes(t0, stuck, dir)
  {
    hide Progress, Closed, Reached, Children;
    var some, all := FilesIn(t0, stuck, dir, Children(t, dir)), ReachedFiles(t0, stuck, dir);
    forall r | r in t0 && r != dir ensures r in some <==> r in all {
      ReachedIsLeft(t0, t, stuck, dir, done, r);
    }
    assert dir !in some;
    if dir in all {
      TotalWithout(all, dir);
      assert all - {dir} == some;
    } else {
      assert all == some;
    }
  }

  lemma RefusedInSome(t0: Tree, stuck: map<Path, Refusal>, dir: Path, names: set<Name>)
    requires !Sealed(t0, stuck, dir)
    ensures RefusedIn(t0, stuck, dir, names) <= RefusedBytes(t0, stuck, dir)
  {
    hide Reached, Sealed;
    var some, all := FilesIn(t0, stuck, dir, names), ReachedFiles(t0, stuck, dir);
    forall r | r in some ensures r in all {
      ReachedInBranch(t0, stuck, dir, r);
    }
    TotalSplit(all, some.Keys);
    assert (map q | q in all && q in some.Keys :: all[q]) == some;
  }

  /** Removing what can go changes nothing about what is refused. */
  lemma RefusedStable(t0: Tree, t: Tree, stuck: map<Path, Refusal>, dir: Path, done: set<Name>, c: Name)
    requires Progress(t0, t, stuck, dir, done)
    ensures RefusedBytes(t, stuck, dir + [c]) == RefusedBytes(t0, stuck, dir + [c])
  {
    var p := dir + [c];
    forall r | r in t0 && r in stuck && p <= r ensures r in t {
      assert Branch(dir, r) == p;
      assert Keeps(t0, stuck, p, r, r);
    }
    forall r | r in t0 ensures Reached(t, stuck, p, r) <==> Reached(t0, stuck, p, r) {
    }
    assert ReachedFiles(t, stuck, p) == ReachedFiles(t0, stuck, p);
  }

  /** Every directory from `top` down holds fewer entries than one batch. */
  ghost predicate Small(t: Tree, top: Path) {
    forall q :: q in t && top <= q ==> |Children(t, q)| < 1024
  }

  lemma FewerChildren(t0: Tree, t: Tree, q: Path)
    requires forall x :: x in t ==> x in t0
    ensures Children(t, q) <= Children(t0, q) && |Children(t, q)| <= |Children(t0, q)|
  {
    SubsetSize(Children(t, q), Children(t0, q));
  }

  lemma SubsetSize<T>(a: set<T>, b: set<T>)
    requires a <= b
    ensures |a| <= |b|
  {
    assert a + (b - a) == b;
  }

  lemma SmallBelow(t0: Tree, t: Tree, stuck: map<Path, Refusal>, dir: Path, done: set<Name>, c: Name)
    requires Progress(t0, t, stuck, dir, done) && Small(t0, dir)
    ensures Small(t, dir + [c])
  {
    forall q | q in t && dir + [c] <= q ensures |Children(t, q)| < REQ_SIZE {
      FewerChildren(t0, t, q);
    }
  }

  /** Exactly one full batch of entries, some of which go: the directory is read twice. */
  ghost predicate Crowded(t: Tree, stuck: map<Path, Refusal>, dir: Path) {
    && dir in t && t[dir].Dir? && !Sealed(t, stuck, dir)
    && |Children(t, dir)| == 1024
    && exists c :: c in Children(t, dir) && !Kept(t, stuck, dir + [c], dir + [c])
  }

  /** What has been subtracted for refused files in these branches; exactly once where every directory is small. */
  ghost predicate Noted(t: Tree, stuck: map<Path, Refusal>, dir: Path, names: set<Name>, over: nat, exact: bool) {
    && over >= RefusedIn(t, stuck, dir, names)
    && (over > 0 ==> Overcounts(t, stuck, dir))
    && (exact ==> over == RefusedIn(t, stuck, dir, names))
  }

  /** The bill of one call of `RemoveAllFrom`. */
  ghost predicate Billed(t: Tree, stuck: map<Path, Refusal>, p: Path, over: nat) {
    && over >= RefusedBytes(t, stuck, p)
    && (over > 0 <==> Overcounts(t, stuck, p))
    && (Small(t, p) ==> over == RefusedBytes(t, stuck, p))
    && (Crowded(t, stuck, p) ==> over >= 2 * RefusedBytes(t, stuck, p))
  }

  lemma NotedOne(t0: Tree, t: Tree, stuck: map<Path, Refusal>, dir: Path, done: set<Name>, names: set<Name>, c: Name,
                 over: nat, o: nat)
    requires dir in t0 && t0[dir].Dir? && !Sealed(t0, stuck, dir) && Progress(t0, t, stuck, dir, done)
    requires Noted(t0, stuck, dir, names, over, Small(t0, dir)) && Billed(t, stuck, dir + [c], o) && c !in names
    ensures Noted(t0, stuck, dir, names + {c}, over + o, Small(t0, dir))
  {
    hide RefusedIn, RefusedBytes, Small, Crowded, Progress, Sealed;
    RefusedStable(t0, t, stuck, dir, done, c);
    RefusedInOne(t0, stuck, dir, c);
    RefusedInAdd(t0, stuck, dir, names, {c});
    RefusedInSome(t0, stuck, dir, {c});
    if Small(t0, dir) {
      SmallBelow(t0, t, stuck, dir, done, c);
    }
  }

  lemma {:induction false} UnlinkedLeaf(t: Tree, stuck: map<Path, Refusal>, p: Path)
    requires Closed(t)
    requires p in t ==> t[p].File? && p !in stuck
    ensures t - {p} == Pruned(t, stuck, p) && Closed(t - {p})
    ensures Billed(t, stuck, p, 0)
    ensures p in t ==> Total(t) - Total(t - {p}) == Bytes(t[p])
  {
    forall q | q in t && p <= q ensures q == p {
      if q != p {
        ProperPrefix(p, q);
        AncestorIsDir(t, p, q);
      }
    }
    assert ReachedFiles(t, stuck, p) == map[];
    if p in t {
      TotalWithout(t, p);
    }
    PrunedClosed(t, stuck, p);
  }

  lemma RefusedLeaf(t: Tree, stuck: map<Path, Refusal>, p: Path)
    requires Closed(t) && p in t && p in stuck
    requires t[p].File? || Sealed(t, stuck, p)
    ensures t == Pruned(t, stuck, p)
    ensures Billed(t, stuck, p, Bytes(t[p]))
  {
    hide Kept, Small, RefusedBytes, Closed, Pruned, Bytes;
    LeafStays(t, stuck, p);
    RefusedLeafBytes(t, stuck, p);
  }

  lemma LeafStays(t: Tree, stuck: map<Path, Refusal>, p: Path)
    requires Closed(t) && p in t && p in stuck
    requires t[p].File? || Sealed(t, stuck, p)
    ensures t == Pruned(t, stuck, p)
  {
    hide Kept, Closed, Sealed;
    forall q | q in t && p <= q ensures Kept(t, stuck, p, q) {
      KeptByLeaf(t, stuck, p, q);
    }
  }

  lemma KeptByLeaf(t: Tree, stuck: map<Path, Refusal>, p: Path, q: Path)
    requires Closed(t) && p in t && p in stuck && q in t && p <= q
    requires t[p].File? || Sealed(t, stuck, p)
    ensures Kept(t, stuck, p, q)
  {
    if q != p {
      ProperPrefix(p, q);
      AncestorIsDir(t, p, q);
    }
    assert Keeps(t, stuck, p, p, q);
  }

  lemma RefusedLeafBytes(t: Tree, stuck: map<Path, Refusal>, p: Path)
    requires Closed(t) && p in t && p in stuck
    requires t[p].File? || Sealed(t, stuck, p)
    ensures RefusedBytes(t, stuck, p) == Bytes(t[p])
  {
    var files := ReachedFiles(t, stuck, p);
    forall r | r in files ensures r == p {
      if r != p {
        ProperPrefix(p, r);
        AncestorIsDir(t, p, r);
      }
    }
    assert files == map[p := t[p]];
    TotalWithout(files, p);
    assert files - {p} == map[];
  }

  lemma PrunedChildren(t: Tree, stuck: map<Path, Refusal>, dir: Path, c: Name)
    ensures Children(Pruned(t, stuck, dir + [c]), dir) ==
            if dir + [c] in Pruned(t, stuck, dir + [c]) then Children(t, dir) else Children(t, dir) - {c}
  {
    var p := dir + [c];
    var t' := Pruned(t, stuck, p);
    forall q | q in t && |q| == |p| && dir <= q ensures q in t' <==> q != p || p in t' {
      assert p <= q ==> p == q;
    }
    forall d | d in Children(t, dir) ensures dir + [d] in t && (d == c <==> dir + [d] == p) {
      var q :| q in t && |q| == |dir| + 1 && dir <= q && q[|dir|] == d;
      assert q == dir + [d];
    }
    forall d | d in Children(t', dir) ensures dir + [d] in t' {
      var q :| q in t' && |q| == |dir| + 1 && dir <= q && q[|dir|] == d;
      assert q == dir + [d];
    }
    forall d | dir + [d] in t' ensures d in Children(t', dir) {
      assert (dir + [d])[|dir|] == d;
    }
  }

  /** What one call of `RemoveAllFrom` on a child means for the batch it belongs to. */
  lemma BatchStep(t0: Tree, start: Tree, t: Tree, stuck: map<Path, Refusal>, dir: Path, done: set<Name>, c: Name)
    requires Progress(t0, t, stuck, dir, done)
    requires c in Children(start, dir) && Children(t, dir) <= Children(start, dir)
    ensures var p, t' := dir + [c], Pruned(t, stuck, dir + [c]);
            && Progress(t0, t', stuck, dir, done + {c})
            && (if p in t' then Children(t', dir) == Children(t, dir) else Children(t', dir) < Children(start, dir))
  {
    ProgressStep(t0, t, stuck, dir, done, c);
    PrunedChildren(t, stuck, dir, c);
  }

  /** After the last batch of a pass every child that is left has been tried. */
  lemma PassDone(t0: Tree, start: Tree, t: Tree, stuck: map<Path, Refusal>, dir: Path, order: seq<Name>)
    requires IsListing(order, start, dir) && Children(t, dir) <= Children(start, dir)
    requires Progress(t0, t, stuck, dir, Names(order))
    ensures Progress(t0, t, stuck, dir, Children(t, dir))
  {
    assert forall c :: c in Children(t, dir) ==> c in order;
  }

  function Names(names: seq<Name>): set<Name> {
    set c | c in names
  }

  /** A pass over the whole listing subtracts all refused files of the directory. */
  lemma PassNoted(t0: Tree, start: Tree, stuck: map<Path, Refusal>, dir: Path, order: seq<Name>, over: nat)
    requires dir in t0 && t0[dir].Dir? && !Sealed(t0, stuck, dir)
    requires Closed(start) && Progress(t0, start, stuck, dir, {}) && IsListing(order, start, dir)
    requires Noted(t0, stuck, dir, Names(order), over, Small(t0, dir))
    ensures over >= RefusedBytes(t0, stuck, dir)
    ensures Small(t0, dir) ==> over == RefusedBytes(t0, stuck, dir)
  {
    hide Progress, Closed, Small, RefusedIn, RefusedBytes;
    RefusedInLeft(t0, start, stuck, dir, {});
    assert Names(order) == Children(start, dir);
  }

  lemma NotedBoth(t: Tree, stuck: map<Path, Refusal>, dir: Path, names: set<Name>, more: set<Name>,
                  over: nat, o: nat, exact: bool)
    requires Noted(t, stuck, dir, names, over, exact) && Noted(t, stuck, dir, more, o, exact) && names !! more
    ensures Noted(t, stuck, dir, names + more, over + o, exact)
  {
    hide RefusedIn;
    RefusedInAdd(t, stuck, dir, names, more);
  }

  lemma NotedNothing(t: Tree, stuck: map<Path, Refusal>, dir: Path, order: seq<Name>)
    ensures Noted(t, stuck, dir, Names(order[..0]), 0, Small(t, dir))
  {
    assert FilesIn(t, stuck, dir, Names(order[..0])) == map[];
  }

  lemma NotedMeans(t: Tree, stuck: map<Path, Refusal>, dir: Path, names: set<Name>, over: nat, exact: bool)
    requires Noted(t, stuck, dir, names, over, exact)
    ensures over > 0 ==> Overcounts(t, stuck, dir)
  {
  }

  lemma NoNames(names: seq<Name>, done: set<Name>)
    ensures Names(names[..0]) == {} && done + Names(names[..0]) == done
  {
  }

  lemma NextName(names: seq<Name>, i: nat, done: set<Name>)
    requires Distinct(names) && i < |names|
    ensures names[i] !in Names(names[..i])
    ensures Names(names[..i + 1]) == Names(names[..i]) + {names[i]}
    ensures done + Names(names[..i]) + {names[i]} == done + Names(names[..i + 1])
  {
    assert names[..i + 1] == names[..i] + [names[i]];
  }

  lemma SmallAtTop(t: Tree, dir: Path)
    requires dir in t
    ensures Small(t, dir) ==> |Children(t, dir)| < REQ_SIZE
  {
  }

  lemma CrowdedAtTop(t: Tree, stuck: map<Path, Refusal>, dir: Path)
    ensures Crowded(t, stuck, dir) ==> |Children(t, dir)| == REQ_SIZE
  {
  }

  lemma ChildPath(t: Tree, dir: Path, c: Name)
    requires c in Children(t, dir)
    ensures dir + [c] in t && dir < dir + [c]
  {
    var q :| q in t && |q| == |dir| + 1 && dir <= q && q[|dir|] == c;
    assert q == dir + [c];
  }

  /** A pass that settles every child and removes none shows that none can go. */
  lemma NoneWentInOnePass(t0: Tree, t: Tree, stuck: map<Path, Refusal>, dir: Path)
    requires Progress(t0, t, stuck, dir, Children(t, dir)) && Children(t, dir) == Children(t0, dir)
    ensures !Crowded(t0, stuck, dir)
  {
    hide Kept, Sealed;
    forall c | c in Children(t, dir) ensures Kept(t0, stuck, dir + [c], dir + [c]) {
      ChildPath(t, dir, c);
      var q := dir + [c];
      assert q[|dir|] == c && Branch(dir, q) == q;
    }
  }

  lemma BilledContents(t: Tree, stuck: map<Path, Refusal>, dir: Path, over: nat, again: bool)
    requires over >= RefusedBytes(t, stuck, dir) && (over > 0 ==> Overcounts(t, stuck, dir))
    requires Small(t, dir) ==> over == RefusedBytes(t, stuck, dir)
    requires Crowded(t, stuck, dir) ==> again
    requires again && |Children(t, dir)| <= REQ_SIZE ==> over >= 2 * RefusedBytes(t, stuck, dir)
    ensures Billed(t, stuck, dir, over)
  {
  }

  lemma ProgressRefl(t: Tree, stuck: map<Path, Refusal>, dir: Path)
    ensures Progress(t, t, stuck, dir, {})
  {
  }

  /** What has been achieved where a pass ends. */
  lemma PassEnds(t0: Tree, start: Tree, t: Tree, stuck: map<Path, Refusal>, dir: Path, order: seq<Name>, pos: nat, over: nat)
    requires dir in t0 && t0[dir].Dir? && !Sealed(t0, stuck, dir) && pos <= |order|
    requires Closed(start) && Progress(t0, start, stuck, dir, {}) && IsListing(order, start, dir)
    requires Children(t, dir) <= Children(start, dir) && Progress(t0, t, stuck, dir, Names(order[..pos]))
    requires Noted(t0, stuck, dir, Names(order[..pos]), over, Small(t0, dir))
    ensures Progress(t0, t, stuck, dir, {}) && (over > 0 ==> Overcounts(t0, stuck, dir))
    ensures pos == |order| ==>
              && Progress(t0, t, stuck, dir, Children(t, dir))
              && over >= RefusedBytes(t0, stuck, dir)
              && (Small(t0, dir) ==> over == RefusedBytes(t0, stuck, dir))
  {
    hide Progress, Closed, IsListing, Names, Noted, Small, RefusedBytes, Overcounts, Sealed, Children;
    NotedMeans(t0, stuck, dir, Names(order[..pos]), over, Small(t0, dir));
    ForgetDone(t0, t, stuck, dir, Names(order[..pos]));
    if pos == |order| {
      assert order[..pos] == order;
      PassNoted(t0, start, stuck, dir, order, over);
      PassDone(t0, start, t, stuck, dir, order);
    }
  }

  lemma ForgetDone(t0: Tree, t: Tree, stuck: map<Path, Refusal>, dir: Path, done: set<Name>)
    requires Progress(t0, t, stuck, dir, done)
    ensures Progress(t0, t, stuck, dir, {})
  {
  }

  lemma SmallerSubtree(t0: Tree, t: Tree, stuck: map<Path, Refusal>, dir: Path, done: set<Name>, c: Name)
    requires dir in t0 && Progress(t0, t, stuck, dir, done)
    ensures Under(t, dir + [c]) < Under(t0, dir)
  {
    assert dir in Under(t0, dir) && dir !in Under(t, dir + [c]);
  }

  // ---------------------------------------------------------------------
  // The code
  // ---------------------------------------------------------------------

  /** unlink and rmdir. */
  function UnlinkResult(t: Tree, stuck: map<Path, Refusal>, p: Path, rmdir: bool): Status {
    if p !in t then Err(ENOENT)
    else if p in stuck then Err(stuck[p])
    else if rmdir then
      if t[p].File? then Err(ENOTDIR) else if Children(t, p) != {} then Err(ENOTEMPTY) else Ok
    else
      if t[p].Dir? then Err(EISDIR) else Ok
  }

  /** The final rmdir settles the directory: it succeeds exactly when the directory must go. */
  lemma RmdirDecides(t0: Tree, t: Tree, stuck: map<Path, Refusal>, dir: Path)
    requires Closed(t0) && Closed(t) && dir in t0 && t0[dir].Dir? && !Sealed(t0, stuck, dir)
    requires Progress(t0, t, stuck, dir, Children(t, dir))
    ensures var left := if UnlinkResult(t, stuck, dir, true).Ok? then t - {dir} else t;
            left == Pruned(t0, stuck, dir) && Closed(left) && Total(left) == Total(t)
    ensures dir in t && UnlinkResult(t, stuck, dir, true) != Err(ENOENT)
  {
    AllBranchesDone(t0, t, stuck, dir, Children(t, dir));
    PrunedClosed(t0, stuck, dir);
    TotalWithout(t, dir);
  }

  /** The counter after `bytes` are subtracted from it; an uncalculated usage (-1) stays so while there is nothing to subtract. */
  function Subtracted(usage: int64, bytes: int): int64 {
    if bytes == 0 then usage else Clamp(usage - bytes)
  }

  ghost predicate Debited(u0: int64, u: int64, bytes: int) {
    0 <= bytes && u == Subtracted(u0, bytes)
  }

  lemma DebitedNothing(u0: int64, u: int64)
    requires Debited(u0, u, 0)
    ensures u == u0
  {
  }

  /** Subtracting `over` too much goes unnoticed only when the counter is emptied anyway. */
  lemma DebitIsExact(u0: int64, u: int64, removed: int, over: nat)
    requires 0 <= removed && Debited(u0, u, removed + over)
    ensures u0 >= 0 ==> u <= Subtracted(u0, removed)
    ensures u == Subtracted(u0, removed) <==> over == 0 || (u0 <= removed && (u0 >= 0 || removed > 0))
  {
  }

  lemma DebitCovers(u0: int64, u: int64, removed: int, over: nat, due: nat)
    requires 0 <= removed && Debited(u0, u, removed + over)
    ensures u == Subtracted(u0, removed + over)
    ensures u0 >= 0 && due <= over ==> u <= Subtracted(u0, removed + due)
  {
  }

  lemma DebitedTwice(u0: int64, u1: int64, u2: int64, a: int, b: int)
    requires Debited(u0, u1, a) && Debited(u1, u2, b)
    ensures Debited(u0, u2, a + b)
  {
  }

  lemma NothingDone(t: Tree, stuck: map<Path, Refusal>, dir: Path, u: int64)
    ensures Debited(u, u, 0) && Noted(t, stuck, dir, {}, 0, true)
  {
    assert FilesIn(t, stuck, dir, {}) == map[];
  }

  /** A directory listing: the children, each once, in some order. */
  ghost predicate IsListing(order: seq<Name>, t: Tree, dir: Path) {
    && (forall c :: c in order <==> c in Children(t, dir))
    && Distinct(order)
  }

  ghost predicate Distinct(order: seq<Name>) {
    forall i, j :: 0 <= i < j < |order| ==> order[i] != order[j]
  }

  lemma {:induction false} DistinctSize(order: seq<Name>)
    requires Distinct(order)
    ensures |Names(order)| == |order|
  {
    if order != [] {
      var rest, last := order[..|order| - 1], order[|order| - 1];
      DistinctSize(rest);
      assert Names(order) == Names(rest) + {last};
    }
  }

  lemma ListingCovers(order: seq<Name>, t: Tree, dir: Path)
    requires IsListing(order, t, dir)
    ensures Names(order) == Children(t, dir) && |order| == |Children(t, dir)| && Distinct(order)
    ensures forall j :: 0 <= j < |order| ==> order[j] in Children(t, dir)
  {
    DistinctSize(order);
    assert Names(order) == Children(t, dir);
  }

  /** The next batch of a listing. */
  lemma NextBatch(order: seq<Name>, pos: nat, next: nat)
    requires Distinct(order) && pos <= next <= |order|
    ensures Distinct(order[pos..next]) && Names(order[..pos]) !! Names(order[pos..next])
    ensures Names(order[..next]) == Names(order[..pos]) + Names(order[pos..next])
  {
    assert order[..next] == order[..pos] + order[pos..next];
  }

  class Disk {
    const stuck: map<Path, Refusal>
    var tree: Tree
    var usage: int64

    constructor (tree: Tree, stuck: map<Path, Refusal>, usage: int64)
      ensures this.tree == tree && this.stuck == stuck && this.usage == usage
    {
      this.tree, this.stuck, this.usage := tree, stuck, usage;
    }

    /** `Quota.unlinkat`: subtract first, then unlink, and keep the subtraction if that fails. */
    method Unlinkat(p: Path, rmdir: bool) returns (st: Status)
      modifies this
      ensures st == UnlinkResult(old(tree), stuck, p, rmdir)
      ensures tree == if st.Ok? then old(tree) - {p} else old(tree)
      ensures Debited(old(usage), usage, if !rmdir && p in old(tree) then Bytes(old(tree)[p]) else 0)
    {
      if !rmdir && p in tree && tree[p].File? && tree[p].regular {
        usage := NextUsage(usage, 0 - tree[p].size);
      }
      st := UnlinkResult(tree, stuck, p, rmdir);
      if st.Ok? {
        tree := tree - {p};
      }
    }

    /** Opening a directory fixes an arbitrary order of its present entries. */
    method OpenDir(dir: Path) returns (order: seq<Name>)
      ensures IsListing(order, tree, dir)
    {
      var rest := Children(tree, dir);
      order := [];
      while rest != {}
        invariant rest <= Children(tree, dir)
        invariant forall c :: c in order <==> c in Children(tree, dir) - rest
        invariant forall i, j :: 0 <= i < j < |order| ==> order[i] != order[j]
        decreases rest
      {
        var c :| c in rest;
        assert c !in order;
        order, rest := order + [c], rest - {c};
      }
    }

    method RemoveAllFrom(p: Path) returns (st: Status, ghost over: nat)
      requires Closed(tree)
      modifies this
      ensures Closed(tree)
      ensures tree == Pruned(old(tree), stuck, p)
      ensures st.Ok? <==> p !in tree
      ensures Debited(old(usage), usage, Total(old(tree)) - Total(tree) + over)
      ensures Billed(old(tree), stuck, p, over)
      decreases Under(tree, p), 3
    {
      hide Progress, Children, Closed, Billed, Total, Under, Pruned;
      ghost var t0 := tree;
      over := 0;
      st := Unlinkat(p, false);
      if st.Ok? || st.errno == ENOENT {
        UnlinkedLeaf(t0, stuck, p);
        return Ok, 0;
      }
      if st.errno !in {EISDIR, EPERM, EACCES} {
        over := Bytes(t0[p]);
        RefusedLeaf(t0, stuck, p);
        return;
      }
      if tree[p].File? {
        over := Bytes(t0[p]);
        RefusedLeaf(t0, stuck, p);
        return;
      }
      over := RemoveContentsFrom(p);
      RmdirDecides(t0, tree, stuck, p);
      var unlinked := Unlinkat(p, true);
      if unlinked.Ok? || unlinked.errno == ENOENT {
        return Ok, over;
      }
    }

    method RemoveContentsFrom(dir: Path) returns (ghost over: nat)
      requires Closed(tree)
      requires dir in tree && tree[dir].Dir? && !Sealed(tree, stuck, dir)
      modifies this
      ensures Closed(tree)
      ensures Progress(old(tree), tree, stuck, dir, Children(tree, dir))
      ensures Debited(old(usage), usage, Total(old(tree)) - Total(tree) + over)
      ensures Billed(old(tree), stuck, dir, over)
      decreases Under(tree, dir), 2
    {
      hide Progress, Children, Closed, RefusedBytes, Crowded, Small, Debited, Total, Under, Overcounts, Sealed;
      ghost var t0, due := tree, RefusedBytes(tree, stuck, dir);
      ghost var again := false;
      ProgressRefl(t0, stuck, dir);
      NothingDone(t0, stuck, dir, usage);
      SmallAtTop(t0, dir);
      CrowdedAtTop(t0, stuck, dir);
      over := 0;
      while true
        invariant Closed(tree) && Progress(t0, tree, stuck, dir, {})
        invariant Debited(old(usage), usage, Total(t0) - Total(tree) + over)
        invariant over > 0 ==> Overcounts(t0, stuck, dir)
        invariant !again ==> over == 0 && tree == t0
        invariant Small(t0, dir) ==> !again
        invariant |Children(tree, dir)| <= |Children(t0, dir)|
        invariant again && |Children(t0, dir)| <= REQ_SIZE ==> over >= due
        decreases Children(tree, dir)
      {
        var respSize: nat;
        ghost var o: nat;
        ghost var before, u := tree, usage;
        respSize, o := RemovePass(dir, t0);
        DebitedTwice(old(usage), u, usage, Total(t0) - Total(before) + over, Total(before) - Total(tree) + o);
        over := over + o;
        if respSize < REQ_SIZE {
          if Crowded(t0, stuck, dir) && !again {
            NoneWentInOnePass(t0, tree, stuck, dir);
          }
          BilledContents(t0, stuck, dir, over, again);
          return;
        }
        SubsetSize(Children(tree, dir), Children(before, dir));
        again := true;
      }
    }

    /** One pass over an opened directory: batches of names until one of them is not refused throughout. */
    method RemovePass(dir: Path, ghost t0: Tree) returns (respSize: nat, ghost over: nat)
      requires Closed(tree)
      requires dir in t0 && t0[dir].Dir? && !Sealed(t0, stuck, dir)
      requires Progress(t0, tree, stuck, dir, {})
      modifies this
      ensures Closed(tree) && Progress(t0, tree, stuck, dir, {})
      ensures Debited(old(usage), usage, Total(old(tree)) - Total(tree) + over)
      ensures over > 0 ==> Overcounts(t0, stuck, dir)
      ensures respSize >= REQ_SIZE ==> Children(tree, dir) < Children(old(tree), dir)
      ensures respSize < REQ_SIZE ==> Progress(t0, tree, stuck, dir, Children(tree, dir))
      ensures respSize < REQ_SIZE || |Children(old(tree), dir)| <= REQ_SIZE ==> over >= RefusedBytes(t0, stuck, dir)
      ensures |Children(old(tree), dir)| < REQ_SIZE ==>
                respSize < REQ_SIZE && (Small(t0, dir) ==> over == RefusedBytes(t0, stuck, dir))
      ensures |Children(old(tree), dir)| == REQ_SIZE && respSize < REQ_SIZE ==> Children(tree, dir) == Children(old(tree), dir)
      decreases Under(t0, dir), 1
    {
      hide Progress, Children, Closed, Noted, RefusedBytes, Small, Debited, IsListing, Total, Under;
      hide Distinct, Names, Sealed, Overcounts;
      var order := OpenDir(dir);
      ListingCovers(order, tree, dir);
      ghost var start := tree;
      ghost var tried: set<Name> := {};
      var pos := 0;
      over := 0;
      NothingDone(t0, stuck, dir, usage);
      NotedNothing(t0, stuck, dir, order);
      NoNames(order, {});
      while true
        invariant 0 <= pos <= |order| && (pos == 0 || pos >= REQ_SIZE) && tried == Names(order[..pos])
        invariant Closed(tree) && Progress(t0, tree, stuck, dir, tried)
        invariant Debited(old(usage), usage, Total(start) - Total(tree) + over)
        invariant Noted(t0, stuck, dir, tried, over, Small(t0, dir))
        invariant Children(tree, dir) == Children(start, dir)   // nothing was removed yet: the stream is stable
        decreases |order| - pos
      {
        var next := if pos + REQ_SIZE <= |order| then pos + REQ_SIZE else |order|;
        var names := order[pos..next];
        respSize := |names|;
        var numErr: nat;
        ghost var o: nat, before, u := *, tree, usage;
        NextBatch(order, pos, next);
        numErr, o := RemoveBatch(dir, names, t0, tried);
        DebitedTwice(old(usage), u, usage, Total(start) - Total(before) + over, Total(before) - Total(tree) + o);
        NotedBoth(t0, stuck, dir, tried, Names(names), over, o, Small(t0, dir));
        over, pos, tried := over + o, next, tried + Names(names);
        if numErr != REQ_SIZE {
          PassEnds(t0, start, tree, stuck, dir, order, pos, over);
          return;
        }
      }
    }

    /** One batch: every name is tried; refusals are counted. */
    method RemoveBatch(dir: Path, names: seq<Name>, ghost t0: Tree, ghost done: set<Name>)
      returns (numErr: nat, ghost over: nat)
      requires Closed(tree)
      requires dir in t0 && t0[dir].Dir? && !Sealed(t0, stuck, dir)
      requires Progress(t0, tree, stuck, dir, done)
      requires Distinct(names) && forall j :: 0 <= j < |names| ==> names[j] in Children(tree, dir)
      modifies this
      ensures Closed(tree) && Progress(t0, tree, stuck, dir, done + Names(names))
      ensures Debited(old(usage), usage, Total(old(tree)) - Total(tree) + over)
      ensures numErr <= |names|
      ensures numErr == |names| ==> Children(tree, dir) == Children(old(tree), dir)
      ensures numErr < |names| ==> Children(tree, dir) < Children(old(tree), dir)
      ensures Noted(t0, stuck, dir, Names(names), over, Small(t0, dir))
      decreases Under(t0, dir), 0
    {
      hide Progress, Children, Closed, Noted, Billed, Small, Debited, Total, Under, Distinct, Names, Sealed;
      numErr, over := 0, 0;
      NothingDone(t0, stuck, dir, usage);
      NotedNothing(t0, stuck, dir, names);
      NoNames(names, done);
      for i := 0 to |names|
        invariant Closed(tree) && Progress(t0, tree, stuck, dir, done + Names(names[..i]))
        invariant Debited(old(usage), usage, Total(old(tree)) - Total(tree) + over)
        invariant numErr <= i
        invariant numErr == i ==> Children(tree, dir) == Children(old(tree), dir)
        invariant numErr < i ==> Children(tree, dir) < Children(old(tree), dir)
        invariant Noted(t0, stuck, dir, Names(names[..i]), over, Small(t0, dir))
      {
        ghost var before, u := tree, usage;
        ghost var tried := done + Names(names[..i]);
        var st;
        ghost var o: nat;
        SmallerSubtree(t0, tree, stuck, dir, tried, names[i]);
        st, o := RemoveAllFrom(dir + [names[i]]);
        BatchStep(t0, old(tree), before, stuck, dir, tried, names[i]);
        NextName(names, i, done);
        NotedOne(t0, before, stuck, dir, tried, Names(names[..i]), names[i], over, o);
        DebitedTwice(old(usage), u, usage, Total(old(tree)) - Total(before) + over, Total(before) - Total(tree) + o);
        over := over + o;
        if st.Err? {
          numErr := numErr + 1;
        }
      }
      assert names[..|names|] == names;
    }

    /** `Quota.Remove`: one unlink or rmdir, subtracted only after it succeeded. */
    method Remove(p: Path) returns (st: Status)
      modifies this
      ensures st == UnlinkResult(old(tree), stuck, p, p in old(tree) && old(tree)[p].Dir?)
      ensures tree == if st.Ok? then old(tree) - {p} else old(tree)
      ensures Debited(old(usage), usage, if st.Ok? then Bytes(old(tree)[p]) else 0)
    {
      st := UnlinkResult(tree, stuck, p, p in tree && tree[p].Dir?);
      if st.Ok? {
        var entry := tree[p];
        tree := tree - {p};
        if entry.File? && entry.regular {
          usage := NextUsage(usage, 0 - entry.size);
        }
      }
    }

    /**
     `Quota.RemoveAll`. Everything under `p` goes except what is refused and what
     that holds in place; nothing else changes; the result is Ok exactly when `p`
     is gone. Usage drops by exactly the bytes that went away if and only if the
     deletion reached no refused regular file, or the counter hit zero anyway.
     */
    method RemoveAll(p: Path) returns (st: Status)
      requires Closed(tree)
      modifies this
      ensures Closed(tree)
      ensures p == [] ==> st.Err? && tree == old(tree) && usage == old(usage)
      ensures p != [] ==> tree == Pruned(old(tree), stuck, p)
      ensures p != [] ==> (st.Ok? <==> p !in tree)
      ensures p != [] ==>
                var removed := Total(old(tree)) - Total(tree);
                && (old(usage) >= 0 ==> usage <= Subtracted(old(usage), removed))
                && (Small(old(tree), p) ==>
                      usage == Subtracted(old(usage), removed + RefusedBytes(old(tree), stuck, p)))
                && (Crowded(old(tree), stuck, p) && old(usage) >= 0 ==>
                      usage <= Subtracted(old(usage), removed + 2 * RefusedBytes(old(tree), stuck, p)))
                && (usage == Subtracted(old(usage), removed) <==>
                    || !Overcounts(old(tree), stuck, p)
                    || (old(usage) <= removed && (old(usage) >= 0 || removed > 0)))
      ensures p != [] && NothingRefused(old(tree), stuck, p) ==>
                && tree == old(tree) - Under(old(tree), p)
                && usage == Subtracted(old(usage), Total(Subtree(old(tree), p)))
    {
      hide Children, Closed, RefusedBytes, Total, Under, Pruned, NothingRefused, Subtree, Subtracted, Debited;
      hide UnlinkResult, Bytes, Small, Crowded;
      if p == [] {
        return Err(EOTHER);
      }
      ghost var t0 := tree;
      if NothingRefused(t0, stuck, p) {
        AllGone(t0, stuck, p);
      }
      PrunedTotal(t0, stuck, p);
      ghost var over: nat := 0;
      st := Remove(p);
      if st.Ok? || st.errno == ENOENT {
        RemovedAtOnce(t0, stuck, p);
        st := Ok;
      } else {
        DebitedNothing(old(usage), usage);
        st, over := RemoveAllFrom(p);
      }
      DebitIsExact(old(usage), usage, Total(t0) - Total(tree), over);
      DebitCovers(old(usage), usage, Total(t0) - Total(tree), over, 2 * RefusedBytes(t0, stuck, p));
    }
  }

  ghost predicate NothingRefused(t: Tree, stuck: map<Path, Refusal>, top: Path) {
    forall r :: r in t && top <= r ==> r !in stuck
  }

  ghost function Subtree(t: Tree, top: Path): Tree {
    map q | q in t && q in Under(t, top) :: t[q]
  }

  lemma {:induction false} AllGone(t: Tree, stuck: map<Path, Refusal>, top: Path)
    requires NothingRefused(t, stuck, top)
    ensures Pruned(t, stuck, top) == t - Under(t, top)
    ensures Total(t) - Total(t - Under(t, top)) == Total(Subtree(t, top))
    ensures !Overcounts(t, stuck, top)
  {
    assert ReachedFiles(t, stuck, top) == map[];
    TotalSplit(t, Under(t, top));
  }

  lemma {:induction false} PrunedTotal(t: Tree, stuck: map<Path, Refusal>, top: Path)
    ensures Total(Pruned(t, stuck, top)) <= Total(t)
  {
    var left := Pruned(t, stuck, top);
    TotalSplit(t, t.Keys - left.Keys);
    assert left == t - (t.Keys - left.Keys);
  }

  /** A single unlink or rmdir that succeeds, or finds nothing, is already the whole deletion. */
  lemma {:induction false} RemovedAtOnce(t: Tree, stuck: map<Path, Refusal>, p: Path)
    requires Closed(t)
    requires UnlinkResult(t, stuck, p, p in t && t[p].Dir?) in {Ok, Err(ENOENT)}
    ensures UnlinkResult(t, stuck, p, p in t && t[p].Dir?).Ok? <==> p in t
    ensures t - {p} == Pruned(t, stuck, p) && Closed(t - {p})
    ensures p !in t ==> t - {p} == t
    ensures Total(t) - Total(t - {p}) == if p in t then Bytes(t[p]) else 0
    ensures RefusedBytes(t, stuck, p) == 0 && !Crowded(t, stuck, p)
  {
    if p in t && t[p].Dir? {
      EmptyDirGoes(t, stuck, p);
    } else {
      UnlinkedLeaf(t, stuck, p);
    }
  }

  lemma {:induction false} EmptyDirGoes(t: Tree, stuck: map<Path, Refusal>, p: Path)
    requires Closed(t) && p in t && t[p].Dir? && p !in stuck && Children(t, p) == {}
    ensures t - {p} == Pruned(t, stuck, p) && Closed(t - {p})
    ensures Total(t) - Total(t - {p}) == Bytes(t[p])
    ensures RefusedBytes(t, stuck, p) == 0
  {
    forall q | q in t && p <= q ensures q == p {
      if q != p {
        ProperPrefix(p, q);
        ChildOnTheWay(t, p, q);
      }
    }
    hide Closed;
    assert ReachedFiles(t, stuck, p) == map[];
    PrunedClosed(t, stuck, p);
    TotalWithout(t, p);
  }

  /** Deleting again removes nothing more. */
  lemma PrunedTwice(t: Tree, stuck: map<Path, Refusal>, top: Path)
    ensures Pruned(Pruned(t, stuck, top), stuck, top) == Pruned(t, stuck, top)
  {
    var once := Pruned(t, stuck, top);
    forall q | q in once && top <= q ensures Kept(once, stuck, top, q) {
      var r :| r in t && Keeps(t, stuck, top, r, q);
      assert Keeps(t, stuck, top, r, r);
      assert Keeps(once, stuck, top, r, q);
    }
  }

  /** The subtraction is not undone when unlinking fails: a file the OS refuses to remove is still subtracted. */
  lemma RefusedFileIsSubtracted()
    ensures var t := map[[] := Dir, ["a"] := Dir, ["a", "f"] := File(5, true)];
            var stuck := map[["a", "f"] := EPERM];
            RefusedBytes(t, stuck, ["a"]) == 5 && ["a", "f"] in Pruned(t, stuck, ["a"])
  {
    var t: Tree := map[[] := Dir, ["a"] := Dir, ["a", "f"] := File(5, true)];
    var stuck: map<Path, Refusal> := map[["a", "f"] := EPERM];
    var f: Path := ["a", "f"];
    assert Keeps(t, stuck, ["a"], f, f);
    OneRefusedFile(t, stuck, ["a"], f);
  }

  lemma OneRefusedFile(t: Tree, stuck: map<Path, Refusal>, top: Path, f: Path)
    requires f in t && t[f].File? && top <= f && stuck.Keys == {f}
    ensures RefusedBytes(t, stuck, top) == Bytes(t[f])
  {
    var files := ReachedFiles(t, stuck, top);
    assert files == map[f := t[f]];
    TotalWithout(files, f);
    assert files - {f} == map[];
  }

  /** Names of different lengths, as many as wanted. */
  function LongName(i: nat): Name {
    seq(i + 1, _ => 'x')
  }

  /** A directory "d" of `n` files of five bytes. */
  ghost function Crowd(n: nat): Tree {
    map q | q in CrowdPaths(n) :: if |q| == 2 then File(5, true) else Dir
  }

  ghost function CrowdPaths(n: nat): set<Path> {
    {[], ["d"]} + set i: nat | i < n :: ["d", LongName(i)]
  }

  lemma CrowdMembers(n: nat, q: Path)
    ensures q in Crowd(n) <==> q == [] || q == ["d"] || exists i: nat :: i < n && q == ["d", LongName(i)]
    ensures q in Crowd(n) ==> Crowd(n)[q] == if |q| == 2 then File(5, true) else Dir
  {
  }

  lemma CrowdChildren(n: nat)
    ensures Children(Crowd(n), ["d"]) == set i: nat | i < n :: LongName(i)
  {
    var t, names := Crowd(n), set i: nat | i < n :: LongName(i);
    forall c | c in Children(t, ["d"]) ensures c in names {
      var q :| q in t && |q| == 2 && ["d"] <= q && q[1] == c;
      CrowdMembers(n, q);
    }
    forall c | c in names ensures c in Children(t, ["d"]) {
      var i: nat :| i < n && c == LongName(i);
      var q: Path := ["d", LongName(i)];
      CrowdMembers(n, q);
      assert q[1] == c && ["d"] <= q;
    }
  }

  lemma {:induction false} NameCount(n: nat)
    ensures |set i: nat | i < n :: LongName(i)| == n
  {
    if n == 0 {
      assert (set i: nat | i < n :: LongName(i)) == {};
    } else {
      NameCount(n - 1);
      var before := set i: nat | i < n - 1 :: LongName(i);
      assert (set i: nat | i < n :: LongName(i)) == before + {LongName(n - 1)};
      assert forall i: nat :: i < n - 1 ==> |LongName(i)| != |LongName(n - 1)|;
    }
  }

  /**
   A directory of 1024 files one of which is refused: it is read twice, so what is
   subtracted for the one file that stays is at least twice its size.
   */
  lemma RefusedFileIsSubtractedTwice()
    ensures var t, stuck := Crowd(1024), map[["d", LongName(0)] := EPERM];
            && Closed(t) && Crowded(t, stuck, ["d"]) && RefusedBytes(t, stuck, ["d"]) == 5
            && forall over :: Billed(t, stuck, ["d"], over) ==> over >= 10
  {
    var n, dir := 1024, ["d"];
    var t := Crowd(n);
    var f: Path := ["d", LongName(0)];
    var stuck: map<Path, Refusal> := map[f := EPERM];
    forall q | q in t ensures HasParent(t, q) {
      CrowdMembers(n, q);
      CrowdMembers(n, []);
      CrowdMembers(n, dir);
      assert |q| == 2 ==> Parent(q) == dir;
      assert |q| == 1 ==> Parent(q) == [];
    }
    CrowdMembers(n, f);
    CrowdMembers(n, dir);
    OneRefusedFile(t, stuck, dir, f);
    CrowdChildren(n);
    NameCount(n);
    assert |LongName(0)| != |LongName(1)|;
    var c := LongName(1);
    assert c in Children(t, dir);
    var p := dir + [c];
    assert p[1] != f[1];
    assert !Kept(t, stuck, p, p);
  }
}
