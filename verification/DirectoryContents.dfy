/**
 Two uses of the walk: `DirectorySize` (server/filesystem/disk_space_unix.go), which
 counts hard-linked files once, and the selection of files for an archive
 (server/filesystem/archive.go) with an empty base directory.
 */
module DirectoryContents {
  import opened PathStrings
  import opened Walk

  /** Both callbacks fail on the first reported error and otherwise go on. */
  function StopOnError(tr: seq<Visit>): Answer {
    if tr != [] && !tr[|tr| - 1].kind.Entering? then Fail else Continue
  }

  /** Nothing in the flattened tree fails to open, read or stat. */
  predicate Healthy(items: seq<Item>) {
    forall i :: 0 <= i < |items| ==> items[i].Call? && items[i].visit.kind.Entering?
  }

  function Visits(items: seq<Item>): seq<Visit>
    requires Healthy(items)
  {
    seq(|items|, i requires 0 <= i < |items| => items[i].visit)
  }

  /** A walk that only stops on errors sees the whole of a healthy tree, and fails on any other. */
  lemma {:induction false} ScanEverything(items: seq<Item>, tr: seq<Visit>)
    ensures Scan(items, StopOnError, tr).1 == Fail <==> !Healthy(items)
    ensures Healthy(items) ==> Scan(items, StopOnError, tr).0 == tr + Visits(items)
    decreases |items|
  {
    if items != [] && items[0].Call? {
      var tr1 := tr + [items[0].visit];
      if items[0].visit.kind.Entering? {
        ScanEverything(items[1..], tr1);
        assert forall i :: 0 <= i < |items| - 1 ==> items[1..][i] == items[i + 1];
        assert forall i :: 0 < i < |items| ==> items[i] == items[1..][i - 1];
        assert Healthy(items) <==> Healthy(items[1..]);
        if Healthy(items) {
          assert Visits(items) == [items[0].visit] + Visits(items[1..]);
          assert tr1 + Visits(items[1..]) == tr + Visits(items);
        }
      }
    }
  }

  // ---------------------------------------------------------------------
  // Directory size
  // ---------------------------------------------------------------------

  function RegularFiles(visits: seq<Visit>): seq<Stat> {
    if visits == [] then []
    else
      var rest, k := RegularFiles(visits[..|visits| - 1]), visits[|visits| - 1].kind;
      if k.Entering? && k.stat.Some? && k.stat.value.regular then rest + [k.stat.value] else rest
  }

  function Count(files: seq<Stat>, ino: nat): nat {
    if files == [] then 0
    else Count(files[..|files| - 1], ino) + if files[|files| - 1].ino == ino then 1 else 0
  }

  /** An inode has one size and one link count, and no more names in the tree than links. */
  ghost predicate LinkCountsCorrect(files: seq<Stat>) {
    && (forall i, j :: 0 <= i < |files| && 0 <= j < |files| && files[i].ino == files[j].ino ==> files[i] == files[j])
    && (forall i :: 0 <= i < |files| ==> Count(files, files[i].ino) <= files[i].nlink)
  }

  function Inodes(files: seq<Stat>): set<(nat, nat)> {
    set s | s in files :: (s.ino, s.size)
  }

  /** The sizes of distinct inodes, added up. */
  ghost function SizeSum(inodes: set<(nat, nat)>): nat {
    if inodes == {} then 0
    else
      var x :| x in inodes;
      x.1 + SizeSum(inodes - {x})
  }

  lemma {:induction false} SizeSumWithout(inodes: set<(nat, nat)>, x: (nat, nat))
    requires x in inodes
    ensures SizeSum(inodes) == x.1 + SizeSum(inodes - {x})
    decreases |inodes|
  {
    var y :| y in inodes && SizeSum(inodes) == y.1 + SizeSum(inodes - {y});
    if y != x {
      SizeSumWithout(inodes - {y}, x);
      SizeSumWithout(inodes - {x}, y);
      assert inodes - {x} - {y} == inodes - {y} - {x};
    }
  }

  lemma {:induction false} CountPrefix(files: seq<Stat>, n: nat, ino: nat)
    requires n <= |files|
    ensures Count(files[..n], ino) <= Count(files, ino)
    ensures n < |files| && files[n].ino == ino ==> Count(files[..n], ino) < Count(files, ino)
    decreases |files|
  {
    if n < |files| {
      CountPrefix(files[..|files| - 1], n, ino);
      assert files[..|files| - 1][..n] == files[..n];
    } else {
      assert files[..n] == files;
    }
  }

  lemma {:induction false} CountPositive(files: seq<Stat>, i: nat)
    requires i < |files|
    ensures Count(files, files[i].ino) >= 1
  {
    if i < |files| - 1 {
      CountPositive(files[..|files| - 1], i);
    }
  }

  /** A file with a single link has no other name in the tree. */
  lemma SingleLinkIsFresh(files: seq<Stat>, i: nat, j: nat)
    requires LinkCountsCorrect(files) && i < j < |files| && files[i].ino == files[j].ino
    ensures files[j].nlink > 1
  {
    CountPositive(files[..j], i);
    CountPrefix(files, j, files[j].ino);
  }

  /** The next file adds its size exactly when its inode has not been seen. */
  lemma NextInode(files: seq<Stat>, i: nat)
    requires LinkCountsCorrect(files) && i < |files|
    ensures var seen := exists j :: 0 <= j < i && files[j].ino == files[i].ino;
            && (seen <==> exists j :: 0 <= j < i && files[j].ino == files[i].ino && files[j].nlink > 1)
            && (seen ==> files[i].nlink > 1)
            && SizeSum(Inodes(files[..i + 1])) == SizeSum(Inodes(files[..i])) + if seen then 0 else files[i].size
  {
    var s := files[i];
    var before, after := Inodes(files[..i]), Inodes(files[..i + 1]);
    assert files[..i + 1] == files[..i] + [s];
    assert after == before + {(s.ino, s.size)};
    if j :| 0 <= j < i && files[j].ino == s.ino {
      SingleLinkIsFresh(files, j, i);
      assert files[j] in files[..i] && files[j] == s;
      assert after == before;
    } else {
      SizeSumWithout(after, (s.ino, s.size));
      assert after - {(s.ino, s.size)} == before;
    }
  }

  /** The callback's accumulation over the regular files, in the order they are visited. */
  method AddUp(files: seq<Stat>) returns (size: nat)
    ensures LinkCountsCorrect(files) ==> size == SizeSum(Inodes(files))
  {
    size := 0;
    var hardLinks: seq<nat> := [];
    for i := 0 to |files|
      invariant forall ino :: ino in hardLinks <==> exists j :: 0 <= j < i && files[j].ino == ino && files[j].nlink > 1
      invariant LinkCountsCorrect(files) ==> size == SizeSum(Inodes(files[..i]))
    {
      var s := files[i];
      if LinkCountsCorrect(files) {
        NextInode(files, i);
      }
      if !(s.nlink > 1 && s.ino in hardLinks) {
        if s.nlink > 1 {
          hardLinks := hardLinks + [s.ino];
        }
        size := size + s.size;
      }
    }
    assert files[..|files|] == files;
  }

  method CollectRegular(visits: seq<Visit>) returns (files: seq<Stat>)
    ensures files == RegularFiles(visits)
  {
    files := [];
    for i := 0 to |visits|
      invariant files == RegularFiles(visits[..i])
    {
      assert visits[..i + 1][..i] == visits[..i];
      var k := visits[i].kind;
      if k.Entering? && k.stat.Some? && k.stat.value.regular {
        files := files + [k.stat.value];
      }
    }
    assert visits[..|visits|] == visits;
  }

  /** The size of a healthy tree is the sum over its distinct inodes, for any hard-link layout. */
  method DirectorySize(reg: Registry, dirfd: int, name: Name, n: Node) returns (size: nat, ok: bool)
    requires reg.Valid() && dirfd in reg.dirs
    modifies reg
    ensures reg.Valid() && reg.dirs == old(reg.dirs)
    ensures var items := RootItems(n, Resolve(old(reg.dirs)[dirfd], name), name);
            && (ok <==> Healthy(items))
            && (ok ==>
                  var files := RegularFiles(Visits(items));
                  LinkCountsCorrect(files) ==> size == SizeSum(Inodes(files)))
  {
    ghost var items := RootItems(n, Resolve(reg.dirs[dirfd], name), name);
    var visits;
    visits, ok := WalkDirat(reg, dirfd, name, n, StopOnError);
    ScanEverything(items, []);
    var files := CollectRegular(visits);
    size := AddUp(files);
    if ok {
      assert [] + Visits(items) == Visits(items);
    }
  }

  // ---------------------------------------------------------------------
  // Archive selection
  // ---------------------------------------------------------------------

  /** The test of `withFilesCallback`, on strings. */
  predicate Matches(f: string, relative: string) {
    f == relative || TrimSlash(f) + "/" <= TrimSlash(relative) + "/"
  }

  /** On clean paths the string test is the component-wise prefix test. */
  lemma {:induction false} MatchesIsPrefix(f: Path, rel: Path)
    requires f != [] && rel != [] && Components(f) && Components(rel)
    ensures Matches(Joined(f), Joined(rel)) <==> f <= rel
  {
    hide Joined, Slashed, Components;
    JoinedSlashed(f);
    JoinedSlashed(rel);
    SlashedPrefix(rel, f);
    if Joined(f) == Joined(rel) {
      assert Slashed(f) == Slashed(rel);
    }
  }

  /** The item spells, up to one slash at its end, the first components of the path. */
  ghost predicate Spells(f: string, rel: Path) {
    exists k :: 0 < k <= |rel| && TrimSlash(f) == Joined(rel[..k])
  }

  /** What the string test means for any item whatsoever. */
  lemma {:induction false} MatchesExactly(f: string, rel: Path)
    requires rel != [] && Components(rel)
    ensures Matches(f, Joined(rel)) <==> Spells(f, rel)
  {
    hide Joined, Slashed, Components;
    JoinedSlashed(rel);
    if TrimSlash(f) + "/" <= Slashed(rel) {
      var k := SlashedPrefixSpells(TrimSlash(f), rel);
    }
    if Spells(f, rel) {
      var k :| 0 < k <= |rel| && TrimSlash(f) == Joined(rel[..k]);
      SpelledIsPrefix(rel, k);
    }
  }

  lemma {:induction false} SpelledIsPrefix(rel: Path, k: nat)
    requires Components(rel) && 0 < k <= |rel|
    ensures Joined(rel[..k]) + "/" <= Slashed(rel)
  {
    JoinedSlashed(rel[..k]);
    SlashedPrefix(rel, rel[..k]);
  }

  /** The path is wanted: nothing is listed, or an item spells it or a directory above it. */
  ghost predicate Wanted(files: seq<string>, rel: Path) {
    files == [] || exists i :: 0 <= i < |files| && Spells(files[i], rel)
  }

  /** For clean listed paths: one of them is a component-wise prefix. */
  lemma WantedIsPrefix(files: seq<string>, listed: seq<Path>, rel: Path)
    requires |files| == |listed| && rel != [] && Components(rel)
    requires forall i :: 0 <= i < |files| ==> listed[i] != [] && Components(listed[i]) && files[i] == Joined(listed[i])
    ensures Wanted(files, rel) <==> listed == [] || exists i :: 0 <= i < |listed| && listed[i] <= rel
  {
    hide Spells, Joined, Components;
    forall i | 0 <= i < |files| ensures Spells(files[i], rel) <==> listed[i] <= rel {
      MatchesExactly(files[i], rel);
      MatchesIsPrefix(listed[i], rel);
    }
  }

  ghost function Selection(visits: seq<Visit>, files: seq<string>): seq<Path> {
    if visits == [] then []
    else
      var rest, v := Selection(visits[..|visits| - 1], files), visits[|visits| - 1];
      if v.kind.Entering? && !v.kind.isDir && Wanted(files, v.rel) then rest + [v.rel] else rest
  }

  method IsSelected(files: seq<string>, rel: Path) returns (b: bool)
    requires rel != [] && Components(rel)
    ensures b <==> Wanted(files, rel)
  {
    hide Spells;
    if |files| == 0 {
      return true;
    }
    var relative := Joined(rel);
    for i := 0 to |files|
      invariant forall j :: 0 <= j < i ==> !Spells(files[j], rel)
    {
      MatchesExactly(files[i], rel);
      if files[i] == relative || TrimSlash(files[i]) + "/" <= TrimSlash(relative) + "/" {
        return true;
      }
    }
    return false;
  }

  /** The callback over the visited entries: directories are walked through, files are archived if wanted. */
  method Select(visits: seq<Visit>, files: seq<string>) returns (archived: seq<Path>)
    requires forall i :: 0 <= i < |visits| && visits[i].kind.Entering? && !visits[i].kind.isDir ==>
               visits[i].rel != [] && Components(visits[i].rel)
    ensures archived == Selection(visits, files)
  {
    hide Wanted;
    archived := [];
    for i := 0 to |visits|
      invariant archived == Selection(visits[..i], files)
    {
      var v := visits[i];
      assert visits[..i + 1][..i] == visits[..i];
      if v.kind.Entering? && !v.kind.isDir {
        var chosen := IsSelected(files, v.rel);
        if chosen {
          archived := archived + [v.rel];
        }
      }
    }
    assert visits[..|visits|] == visits;
  }

  lemma {:induction false} SelectionExactly(visits: seq<Visit>, files: seq<string>, p: Path)
    ensures p in Selection(visits, files) <==>
            Wanted(files, p) && exists i :: 0 <= i < |visits| && IsFileVisit(visits[i], p)
  {
    hide Wanted;
    if visits != [] {
      var rest, last := visits[..|visits| - 1], visits[|visits| - 1];
      SelectionExactly(rest, files, p);
      if i :| 0 <= i < |rest| && IsFileVisit(rest[i], p) {
        assert IsFileVisit(visits[i], p);
      }
      if i :| 0 <= i < |visits| && IsFileVisit(visits[i], p) {
        assert i < |rest| ==> IsFileVisit(rest[i], p);
      }
    }
  }

  predicate IsFileVisit(v: Visit, p: Path) {
    v.kind.Entering? && !v.kind.isDir && v.rel == p
  }

  // Every entry is visited once

  /** No directory lists a name twice, and names contain no slash. */
  predicate WellNamed(n: Node)
    decreases n, 1
  {
    n.Dir? ==> WellNamedEntries(n.entries)
  }

  predicate WellNamedEntries(es: seq<Entry>)
    decreases es, 0
  {
    es != [] ==>
      && IsComponent(es[0].name)
      && (forall i :: 0 < i < |es| ==> es[i].name != es[0].name)
      && WellNamed(es[0].node)
      && WellNamedEntries(es[1..])
  }

  /** What the flattened entries of a directory are called. */
  lemma {:induction false} EntryNames(es: seq<Entry>, abs: Path, rel: Path, depth: nat, i: nat)
    requires Healthy(FlattenEntries(es, abs, rel, depth)) && i < |FlattenEntries(es, abs, rel, depth)|
    ensures var p := FlattenEntries(es, abs, rel, depth)[i].visit.rel;
            rel < p && exists k :: 0 <= k < |es| && es[k].name == p[|rel|]
    decreases es, 0
  {
    FlattenNothing(es, abs, rel, depth);
    hide Flatten, FlattenEntries;
    HealthyEntries(es, abs, rel, depth);
    var items := FlattenEntries(es, abs, rel, depth);
    var e := es[0];
    var path := rel + [e.name];
    var later := FlattenEntries(es[1..], abs, rel, depth);
    var here := Flatten(e.node, abs + [e.name], e.name, path, depth);
    if i < |here| {
      NodePaths(e.node, abs + [e.name], e.name, path, depth, i);
      assert es[0].name == items[i].visit.rel[|rel|];
    } else {
      EntryNames(es[1..], abs, rel, depth, i - |here|);
      var p := later[i - |here|].visit.rel;
      var k :| 0 <= k < |es[1..]| && es[1..][k].name == p[|rel|];
      assert es[k + 1].name == p[|rel|];
    }
  }

  lemma HealthySplit(a: seq<Item>, b: seq<Item>)
    requires Healthy(a + b)
    ensures Healthy(a) && Healthy(b)
  {
    assert forall i :: 0 <= i < |a| ==> a[i] == (a + b)[i];
    assert forall i :: 0 <= i < |b| ==> b[i] == (a + b)[|a| + i];
  }

  /** A healthy directory flattens to itself and its entries. */
  lemma {:induction false} HealthyDir(n: Node, abs: Path, name: Name, rel: Path, depth: nat)
    requires Healthy(Flatten(n, abs, name, rel, depth)) && n.Dir?
    ensures var inside := FlattenEntries(n.entries, abs, rel, depth + 1);
            Flatten(n, abs, name, rel, depth) == [Flatten(n, abs, name, rel, depth)[0]] + inside && Healthy(inside)
  {
    hide FlattenEntries;
    var items := Flatten(n, abs, name, rel, depth);
    FlattenBelow(n, abs, name, rel, depth);
    assert items == items[..1] + items[1..];
    HealthySplit(items[..1], items[1..]);
    assert |items| > 1 ==> items[1..][0] == items[1];
    assert n.openable && n.readable;
  }

  lemma {:induction false} NodePaths(n: Node, abs: Path, name: Name, rel: Path, depth: nat, i: nat)
    requires Healthy(Flatten(n, abs, name, rel, depth)) && i < |Flatten(n, abs, name, rel, depth)|
    ensures var p := Flatten(n, abs, name, rel, depth)[i].visit.rel;
            if i == 0 then p == rel else rel < p
    decreases n, 1
  {
    if i > 0 {
      HealthyDir(n, abs, name, rel, depth);
      EntryNames(n.entries, abs, rel, depth + 1, i - 1);
    }
  }

  lemma {:induction false} NodePathsDistinct(n: Node, abs: Path, name: Name, rel: Path, depth: nat, i: nat, j: nat)
    requires WellNamed(n) && Healthy(Flatten(n, abs, name, rel, depth))
    requires i < j < |Flatten(n, abs, name, rel, depth)|
    ensures Flatten(n, abs, name, rel, depth)[i].visit.rel != Flatten(n, abs, name, rel, depth)[j].visit.rel
    decreases n, 1
  {
    NodePaths(n, abs, name, rel, depth, i);
    NodePaths(n, abs, name, rel, depth, j);
    if i > 0 {
      HealthyDir(n, abs, name, rel, depth);
      EntryPathsDistinct(n.entries, abs, rel, depth + 1, i - 1, j - 1);
    }
  }

  lemma {:induction false} EntryPathsDistinct(es: seq<Entry>, abs: Path, rel: Path, depth: nat, i: nat, j: nat)
    requires WellNamedEntries(es) && Healthy(FlattenEntries(es, abs, rel, depth))
    requires i < j < |FlattenEntries(es, abs, rel, depth)|
    ensures FlattenEntries(es, abs, rel, depth)[i].visit.rel != FlattenEntries(es, abs, rel, depth)[j].visit.rel
    decreases es, 0
  {
    FlattenNothing(es, abs, rel, depth);
    hide Flatten, FlattenEntries;
    HealthyEntries(es, abs, rel, depth);
    var e := es[0];
    var path := rel + [e.name];
    var later := FlattenEntries(es[1..], abs, rel, depth);
    var here := Flatten(e.node, abs + [e.name], e.name, path, depth);
    if j < |here| {
      NodePathsDistinct(e.node, abs + [e.name], e.name, path, depth, i, j);
    } else if i >= |here| {
      EntryPathsDistinct(es[1..], abs, rel, depth, i - |here|, j - |here|);
    } else {
      NodePaths(e.node, abs + [e.name], e.name, path, depth, i);
      EntryNames(es[1..], abs, rel, depth, j - |here|);
      var k :| 0 <= k < |es[1..]| && es[1..][k].name == later[j - |here|].visit.rel[|rel|];
      assert es[k + 1].name != e.name;
    }
  }

  lemma {:induction false} SelectionOnce(visits: seq<Visit>, files: seq<string>)
    requires forall i, j :: 0 <= i < j < |visits| ==> visits[i].rel != visits[j].rel
    ensures var sel := Selection(visits, files); forall i, j :: 0 <= i < j < |sel| ==> sel[i] != sel[j]
  {
    if visits != [] {
      var rest, last := visits[..|visits| - 1], visits[|visits| - 1];
      SelectionOnce(rest, files);
      SelectionExactly(rest, files, last.rel);
    }
  }

  // The tree, looked up by path

  /** The first entry of that name. */
  function Find(es: seq<Entry>, name: Name): Option<Node> {
    if es == [] then None else if es[0].name == name then Some(es[0].node) else Find(es[1..], name)
  }

  /** The node at a path of the tree. */
  function Lookup(n: Node, path: Path): Option<Node>
    decreases |path|
  {
    if path == [] then Some(n)
    else if !n.Dir? then None
    else
      match Find(n.entries, path[0])
      case None => None
      case Some(child) => Lookup(child, path[1..])
  }

  ghost predicate Shows(item: Item, found: Option<Node>) {
    item.Call? && found.Some? && !found.value.Gone? && item.visit.kind == Enter(found.value)
  }

  /** Every visit is to a path of the tree, and shows the node there. */
  lemma {:induction false} VisitIsFound(n: Node, abs: Path, name: Name, rel: Path, depth: nat, i: nat)
    requires WellNamed(n) && !n.Gone? && Healthy(Flatten(n, abs, name, rel, depth)) && i < |Flatten(n, abs, name, rel, depth)|
    ensures var item := Flatten(n, abs, name, rel, depth)[i];
            rel <= item.visit.rel && Shows(item, Lookup(n, item.visit.rel[|rel|..]))
    decreases n, 1
  {
    hide FlattenEntries, Shows;
    NodePaths(n, abs, name, rel, depth, i);
    if i == 0 {
      FirstIsShown(n, abs, name, rel, depth);
    } else {
      HealthyDir(n, abs, name, rel, depth);
      EntryIsFound(n.entries, abs, rel, depth + 1, i - 1);
      var p := FlattenEntries(n.entries, abs, rel, depth + 1)[i - 1].visit.rel;
      assert p[|rel|..][0] == p[|rel|] && p[|rel|..][1..] == p[|rel| + 1..];
    }
  }

  lemma {:induction false} FirstIsShown(n: Node, abs: Path, name: Name, rel: Path, depth: nat)
    requires !n.Gone? && Healthy(Flatten(n, abs, name, rel, depth))
    ensures var item := Flatten(n, abs, name, rel, depth)[0];
            item.visit.rel == rel && Shows(item, Lookup(n, item.visit.rel[|rel|..]))
  {
    assert rel[|rel|..] == [];
  }

  /** The flattened entries of a healthy list: those of the first entry, then the others. */
  lemma {:induction false} HealthyEntries(es: seq<Entry>, abs: Path, rel: Path, depth: nat)
    requires es != [] && Healthy(FlattenEntries(es, abs, rel, depth))
    ensures var e := es[0];
            var here := Flatten(e.node, abs + [e.name], e.name, rel + [e.name], depth);
            var later := FlattenEntries(es[1..], abs, rel, depth);
            !e.node.Gone? && FlattenEntries(es, abs, rel, depth) == here + later && Healthy(here) && Healthy(later)
  {
    hide Flatten;
    var e := es[0];
    assert FlattenEntries(es, abs, rel, depth)[0].visit.kind.Entering?;
    assert !e.node.Gone?;
    HealthySplit(Flatten(e.node, abs + [e.name], e.name, rel + [e.name], depth), FlattenEntries(es[1..], abs, rel, depth));
  }

  lemma {:induction false} EntryIsFound(es: seq<Entry>, abs: Path, rel: Path, depth: nat, i: nat)
    requires WellNamedEntries(es) && Healthy(FlattenEntries(es, abs, rel, depth)) && i < |FlattenEntries(es, abs, rel, depth)|
    ensures var item := FlattenEntries(es, abs, rel, depth)[i];
            var p := item.visit.rel;
            rel < p && Find(es, p[|rel|]).Some? && Shows(item, Lookup(Find(es, p[|rel|]).value, p[|rel| + 1..]))
    decreases es, 0
  {
    FlattenNothing(es, abs, rel, depth);
    hide Flatten, FlattenEntries, Shows, Lookup, Find;
    HealthyEntries(es, abs, rel, depth);
    var e := es[0];
    var path := rel + [e.name];
    var here := Flatten(e.node, abs + [e.name], e.name, path, depth);
    if i < |here| {
      VisitIsFound(e.node, abs + [e.name], e.name, path, depth, i);
      FindFirst(es);
      assert here[i].visit.rel[|rel|] == path[|rel|] == e.name;
    } else {
      EntryIsFound(es[1..], abs, rel, depth, i - |here|);
      FindLater(es, FlattenEntries(es[1..], abs, rel, depth)[i - |here|].visit.rel[|rel|]);
    }
  }

  lemma {:induction false} FindFirst(es: seq<Entry>)
    requires es != []
    ensures Find(es, es[0].name) == Some(es[0].node)
  {
  }

  lemma {:induction false} FindHasName(es: seq<Entry>, name: Name)
    requires Find(es, name).Some?
    ensures exists k :: 0 <= k < |es| && es[k].name == name
  {
    if es[0].name != name {
      FindHasName(es[1..], name);
      var k :| 0 <= k < |es[1..]| && es[1..][k].name == name;
      assert es[k + 1].name == name;
    }
  }

  lemma {:induction false} FindLater(es: seq<Entry>, name: Name)
    requires es != [] && WellNamedEntries(es) && Find(es[1..], name).Some?
    ensures Find(es, name) == Find(es[1..], name)
  {
    FindHasName(es[1..], name);
    var k :| 0 <= k < |es[1..]| && es[1..][k].name == name;
    assert es[k + 1].name == name;
  }

  lemma {:induction false} FlattenNothing(es: seq<Entry>, abs: Path, rel: Path, depth: nat)
    ensures FlattenEntries(es, abs, rel, depth) != [] ==> es != []
  {
  }

  /** Every path of the tree is visited. */
  lemma {:induction false} FoundIsVisited(n: Node, abs: Path, name: Name, rel: Path, depth: nat, path: Path) returns (i: nat)
    requires WellNamed(n) && !n.Gone? && Healthy(Flatten(n, abs, name, rel, depth)) && Lookup(n, path).Some?
    ensures i < |Flatten(n, abs, name, rel, depth)| && Flatten(n, abs, name, rel, depth)[i].visit.rel == rel + path
    decreases n, 1
  {
    hide FlattenEntries;
    if path == [] {
      i := 0;
      NodePaths(n, abs, name, rel, depth, 0);
      assert rel + path == rel;
    } else {
      HealthyDir(n, abs, name, rel, depth);
      i := EntryIsVisited(n.entries, abs, rel, depth + 1, path);
      i := i + 1;
    }
  }

  lemma {:induction false} EntryIsVisited(es: seq<Entry>, abs: Path, rel: Path, depth: nat, path: Path) returns (i: nat)
    requires WellNamedEntries(es) && Healthy(FlattenEntries(es, abs, rel, depth))
    requires path != [] && Find(es, path[0]).Some? && Lookup(Find(es, path[0]).value, path[1..]).Some?
    ensures i < |FlattenEntries(es, abs, rel, depth)| && FlattenEntries(es, abs, rel, depth)[i].visit.rel == rel + path
    decreases es, 0
  {
    hide Flatten, FlattenEntries;
    HealthyEntries(es, abs, rel, depth);
    var e := es[0];
    var here := Flatten(e.node, abs + [e.name], e.name, rel + [e.name], depth);
    if e.name == path[0] {
      i := FoundIsVisited(e.node, abs + [e.name], e.name, rel + [e.name], depth, path[1..]);
      assert rel + [e.name] + path[1..] == rel + path;
    } else {
      i := EntryIsVisited(es[1..], abs, rel, depth, path);
      i := |here| + i;
    }
  }

  /** A walk visits exactly the paths of the tree, each with the node that is there. */
  lemma {:induction false} VisitsAreTheTree(n: Node, abs: Path, name: Name, p: Path, kind: VisitKind)
    requires !n.Gone? && WellNamed(n) && Healthy(Flatten(n, abs, name, [], 0))
    ensures var visits := Visits(Flatten(n, abs, name, [], 0));
            (exists i :: 0 <= i < |visits| && visits[i].rel == p && visits[i].kind == kind) <==>
            Lookup(n, p).Some? && !Lookup(n, p).value.Gone? && kind == Enter(Lookup(n, p).value)
  {
    hide Flatten;
    var items := Flatten(n, abs, name, [], 0);
    var visits := Visits(items);
    if i :| 0 <= i < |visits| && visits[i].rel == p && visits[i].kind == kind {
      VisitIsFound(n, abs, name, [], 0, i);
      assert p[0..] == p;
    }
    if Lookup(n, p).Some? {
      var i := FoundIsVisited(n, abs, name, [], 0, p);
      assert [] + p == p;
      VisitIsFound(n, abs, name, [], 0, i);
      assert visits[i].rel == p && visits[i].kind == Enter(Lookup(n, p).value);
    }
  }

  /**
   The archive of a healthy, well-named tree: the file at a path of the tree is
   archived exactly once if it is wanted, and nothing else is archived.
   */
  lemma {:induction false} ArchivedExactlyOnce(n: Node, abs: Path, name: Name, files: seq<string>, p: Path)
    requires !n.Gone? && WellNamed(n) && Healthy(Flatten(n, abs, name, [], 0))
    ensures var archived := Selection(Visits(Flatten(n, abs, name, [], 0)), files);
            && (forall i, j :: 0 <= i < j < |archived| ==> archived[i] != archived[j])
            && (p in archived <==> Wanted(files, p) && Lookup(n, p).Some? && Lookup(n, p).value.File?)
  {
    hide Flatten, Wanted;
    var items := Flatten(n, abs, name, [], 0);
    var visits := Visits(items);
    forall i, j | 0 <= i < j < |visits| ensures visits[i].rel != visits[j].rel {
      NodePathsDistinct(n, abs, name, [], 0, i, j);
    }
    SelectionOnce(visits, files);
    SelectionExactly(visits, files, p);
    if i :| 0 <= i < |visits| && IsFileVisit(visits[i], p) {
      VisitsAreTheTree(n, abs, name, p, visits[i].kind);
    }
    if Lookup(n, p).Some? && Lookup(n, p).value.File? {
      VisitsAreTheTree(n, abs, name, p, Enter(Lookup(n, p).value));
      var i :| 0 <= i < |visits| && visits[i].rel == p && visits[i].kind == Enter(Lookup(n, p).value);
      assert IsFileVisit(visits[i], p);
    }
  }

  lemma {:induction false} RegularFilesExactly(visits: seq<Visit>, s: Stat)
    ensures s in RegularFiles(visits) <==>
            s.regular && exists i :: 0 <= i < |visits| && ShowsStat(visits[i], s)
  {
    if visits != [] {
      var rest, last := visits[..|visits| - 1], visits[|visits| - 1];
      RegularFilesExactly(rest, s);
      if i :| 0 <= i < |rest| && ShowsStat(rest[i], s) {
        assert ShowsStat(visits[i], s);
      }
      if i :| 0 <= i < |visits| && ShowsStat(visits[i], s) {
        assert i < |rest| ==> ShowsStat(rest[i], s);
      }
    }
  }

  predicate ShowsStat(v: Visit, s: Stat) {
    v.kind.Entering? && v.kind.stat == Some(s)
  }

  /** The regular files whose sizes are added up are exactly those at the paths of the tree. */
  lemma {:induction false} CountedExactly(n: Node, abs: Path, name: Name, s: Stat)
    requires !n.Gone? && WellNamed(n) && Healthy(Flatten(n, abs, name, [], 0))
    ensures s in RegularFiles(Visits(Flatten(n, abs, name, [], 0))) <==>
            s.regular && exists p :: Lookup(n, p) == Some(File(s))
  {
    hide Flatten;
    var visits := Visits(Flatten(n, abs, name, [], 0));
    RegularFilesExactly(visits, s);
    if i :| 0 <= i < |visits| && ShowsStat(visits[i], s) {
      VisitsAreTheTree(n, abs, name, visits[i].rel, visits[i].kind);
      assert Lookup(n, visits[i].rel) == Some(File(s));
    }
    if p :| Lookup(n, p) == Some(File(s)) {
      VisitsAreTheTree(n, abs, name, p, Enter(File(s)));
      var i :| 0 <= i < |visits| && visits[i].rel == p && visits[i].kind == Enter(File(s));
      assert ShowsStat(visits[i], s);
    }
  }

  lemma {:induction false} NodeComponents(n: Node, abs: Path, name: Name, rel: Path, depth: nat, i: nat)
    requires WellNamed(n) && Components(rel)
    requires Healthy(Flatten(n, abs, name, rel, depth)) && i < |Flatten(n, abs, name, rel, depth)|
    ensures Components(Flatten(n, abs, name, rel, depth)[i].visit.rel)
    decreases n, 1
  {
    hide FlattenEntries;
    NodePaths(n, abs, name, rel, depth, i);
    if i > 0 {
      HealthyDir(n, abs, name, rel, depth);
      EntryComponents(n.entries, abs, rel, depth + 1, i - 1);
    }
  }

  lemma {:induction false} EntryComponents(es: seq<Entry>, abs: Path, rel: Path, depth: nat, i: nat)
    requires WellNamedEntries(es) && Components(rel)
    requires Healthy(FlattenEntries(es, abs, rel, depth)) && i < |FlattenEntries(es, abs, rel, depth)|
    ensures Components(FlattenEntries(es, abs, rel, depth)[i].visit.rel)
    decreases es, 0
  {
    FlattenNothing(es, abs, rel, depth);
    hide Flatten, FlattenEntries;
    HealthyEntries(es, abs, rel, depth);
    var e := es[0];
    var here := Flatten(e.node, abs + [e.name], e.name, rel + [e.name], depth);
    if i < |here| {
      NodeComponents(e.node, abs + [e.name], e.name, rel + [e.name], depth, i);
    } else {
      EntryComponents(es[1..], abs, rel, depth, i - |here|);
    }
  }

  /** The archive walk from a directory: the selection of the walked tree, and no token leaks. */
  method Archive(reg: Registry, dirfd: int, name: Name, n: Node, files: seq<string>)
    returns (archived: seq<Path>, ok: bool)
    requires reg.Valid() && dirfd in reg.dirs
    requires n.Dir? && WellNamed(n)
    modifies reg
    ensures reg.dirs == old(reg.dirs)
    ensures var items := RootItems(n, Resolve(old(reg.dirs)[dirfd], name), name);
            (ok <==> Healthy(items)) && (ok ==> archived == Selection(Visits(items), files))
  {
    ghost var abs := Resolve(reg.dirs[dirfd], name);
    ghost var items := RootItems(n, abs, name);
    var visits;
    visits, ok := WalkDirat(reg, dirfd, name, n, StopOnError);
    ScanEverything(items, []);
    archived := [];
    if ok {
      assert visits == Visits(items);
      ArchivePaths(n, abs, name);
      archived := Select(visits, files);
    }
  }

  lemma {:induction false} ArchivePaths(n: Node, abs: Path, name: Name)
    requires n.Dir? && WellNamed(n) && Healthy(Flatten(n, abs, name, [], 0))
    ensures var visits := Visits(Flatten(n, abs, name, [], 0));
            forall i :: 0 <= i < |visits| && visits[i].kind.Entering? && !visits[i].kind.isDir ==>
              visits[i].rel != [] && Components(visits[i].rel)
  {
    var visits := Visits(Flatten(n, abs, name, [], 0));
    assert visits[0].kind.isDir;
    hide Flatten;
    forall i | 0 <= i < |visits| && visits[i].kind.Entering? && !visits[i].kind.isDir
      ensures visits[i].rel != [] && Components(visits[i].rel)
    {
      NodeComponents(n, abs, name, [], 0, i);
      NodePaths(n, abs, name, [], 0, i);
    }
  }
}
