/**
 The directory walkers of internal/ufs/walk_unix.go and internal/ufs/fs_windows.go.
 On Windows a token of `dirRegistry` stands in for a directory descriptor; that is
 the form modelled here, and it covers the Unix walker, whose descriptors are
 opened and closed at the same places.

 The recursive walk is compared with a linear reading of the flattened tree.
 */
module Walk {

  datatype Option<T> = None | Some(value: T)

  type Name = string
  type Path = seq<Name>

  datatype Stat = Stat(regular: bool, ino: nat, nlink: nat, size: nat)

  /**
   A directory may fail to open, or fail to read (with the entries read so far).
   `Gone` is an entry that was listed but whose Lstat fails.
   */
  datatype Node =
    | File(stat: Stat)
    | Dir(openable: bool, readable: bool, entries: seq<Entry>)
    | Gone

  /** Directory listings never contain "." */
  type EntryName = s: Name | s != "." witness "a"

  datatype Entry = Entry(name: EntryName, node: Node)

  datatype VisitKind = Entering(isDir: bool, stat: Option<Stat>) | ReadFailed | StatFailed

  /** One call of the callback: what its directory token and name resolve to, and the relative path. */
  datatype Visit = Visit(at: Option<Path>, rel: Path, kind: VisitKind)

  /** The callback's answer, and a walk's result: nil, SkipDir, SkipAll or an error. */
  datatype Answer = Continue | SkipDir | SkipAll | Fail

  /** A callback may keep state: its answer depends on all the calls so far, the current one last. */
  type Callback = seq<Visit> -> Answer

  /** A directory path joined with a name, where "." is the directory itself. */
  function Resolve(dir: Path, name: Name): Path {
    if name == "." then dir else dir + [name]
  }

  function Enter(n: Node): VisitKind {
    Entering(n.Dir?, if n.File? then Some(n.stat) else None)
  }

  // ---------------------------------------------------------------------
  // The recursive walk
  // ---------------------------------------------------------------------

  function WalkNode(n: Node, abs: Path, name: Name, rel: Path, f: Callback, tr: seq<Visit>): (seq<Visit>, Answer)
    decreases n, 1
  {
    var tr1 := tr + [Visit(Some(abs), rel, Enter(n))];
    var a := f(tr1);
    if !n.Dir? then (tr1, a)
    else if a != Continue then (tr1, if a == SkipDir then Continue else a)
    else if !n.openable then (tr1, Fail)
    else if n.readable then WalkEntries(n.entries, abs, rel, f, tr1)
    else
      // the read error is reported with the directory's own token but its own name
      var tr2 := tr1 + [Visit(Some(Resolve(abs, name)), rel, ReadFailed)];
      var b := f(tr2);
      if b != Continue then (tr2, if b == SkipDir then Continue else b)
      else WalkEntries(n.entries, abs, rel, f, tr2)
  }

  function WalkEntries(es: seq<Entry>, abs: Path, rel: Path, f: Callback, tr: seq<Visit>): (r: (seq<Visit>, Answer))
    ensures r.1 != SkipDir
    decreases es, 0
  {
    if es == [] then (tr, Continue)
    else
      var e := es[0];
      var at, path := abs + [e.name], rel + [e.name];
      if e.node.Gone? then
        var tr1 := tr + [Visit(Some(at), path, StatFailed)];
        var a := f(tr1);
        if a != Continue && a != SkipDir then (tr1, a) else WalkEntries(es[1..], abs, rel, f, tr1)
      else
        var (tr1, a) := WalkNode(e.node, at, e.name, path, f, tr);
        if a == SkipDir then (tr1, Continue)
        else if a != Continue then (tr1, a)
        else WalkEntries(es[1..], abs, rel, f, tr1)
  }

  // ---------------------------------------------------------------------
  // The specification: one pass over the flattened tree
  // ---------------------------------------------------------------------

  /**
   `Call`: invoke the callback; when it answers SkipDir, drop the following items
   that lie deeper than `cut` (None: SkipDir has no effect). `Abort`: the walk ends in an error.
   */
  datatype Item =
    | Call(visit: Visit, depth: nat, cut: Option<int>)
    | Abort(depth: nat)

  /** Pre-order: a directory before its contents, SkipDir on a file cutting at its siblings' depth. */
  function Flatten(n: Node, abs: Path, name: Name, rel: Path, depth: nat): (items: seq<Item>)
    ensures |items| > 0 && items[0].depth == depth
    ensures forall i :: 0 < i < |items| ==> items[i].depth > depth
    decreases n, 1
  {
    var enter := Visit(Some(abs), rel, Enter(n));
    if !n.Dir? then [Call(enter, depth, Some(depth - 1))]
    else [Call(enter, depth, Some(depth))]
         + if !n.openable then [Abort(depth + 1)]
           else (if n.readable then []
                 else [Call(Visit(Some(Resolve(abs, name)), rel, ReadFailed), depth + 1, Some(depth))])
                + FlattenEntries(n.entries, abs, rel, depth + 1)
  }

  function FlattenEntries(es: seq<Entry>, abs: Path, rel: Path, depth: nat): (items: seq<Item>)
    ensures forall i :: 0 <= i < |items| ==> items[i].depth >= depth
    ensures items == [] || items[0].depth == depth
    decreases es, 0
  {
    if es == [] then []
    else
      var e := es[0];
      var at, path := abs + [e.name], rel + [e.name];
      (if e.node.Gone? then [Call(Visit(Some(at), path, StatFailed), depth, None)]
       else Flatten(e.node, at, e.name, path, depth))
      + FlattenEntries(es[1..], abs, rel, depth)
  }

  function Drop(items: seq<Item>, cut: int): seq<Item> {
    if items == [] || items[0].depth <= cut then items else Drop(items[1..], cut)
  }

  /** Read the items in order; stop at the first SkipAll or error. */
  function Scan(items: seq<Item>, f: Callback, tr: seq<Visit>): (seq<Visit>, Answer)
    decreases |items|
  {
    if items == [] then (tr, Continue)
    else if items[0].Abort? then (tr, Fail)
    else
      var tr1 := tr + [items[0].visit];
      match f(tr1)
      case Continue => Scan(items[1..], f, tr1)
      case SkipDir =>
        (match items[0].cut
         case None => Scan(items[1..], f, tr1)
         case Some(cut) =>
           DropShrinks(items[1..], cut);
           Scan(Drop(items[1..], cut), f, tr1))
      case a => (tr1, a)
  }

  lemma DropShrinks(items: seq<Item>, cut: int)
    ensures |Drop(items, cut)| <= |items|
  {
  }

  lemma {:induction false} DropAll(a: seq<Item>, rest: seq<Item>, cut: int)
    requires forall i :: 0 <= i < |a| ==> a[i].depth > cut
    ensures Drop(a + rest, cut) == Drop(rest, cut)
  {
    if a == [] {
      assert a + rest == rest;
    } else {
      assert (a + rest)[1..] == a[1..] + rest;
      DropAll(a[1..], rest, cut);
    }
  }

  lemma {:induction false} DropNone(rest: seq<Item>, cut: int)
    requires rest == [] || rest[0].depth <= cut
    ensures Drop(rest, cut) == rest
  {
  }

  /** What the rest of the flattened tree sees of a walked part. */
  ghost function Resume(r: (seq<Visit>, Answer), rest: seq<Item>, depth: nat, f: Callback): (seq<Visit>, Answer) {
    match r.1
    case Continue => Scan(rest, f, r.0)
    case SkipDir => Scan(Drop(rest, depth - 1), f, r.0)
    case _ => r
  }

  /** One callback, whatever follows. */
  lemma ScanCall(item: Item, rest: seq<Item>, f: Callback, tr: seq<Visit>)
    requires item.Call?
    ensures Scan([item] + rest, f, tr) ==
            match f(tr + [item.visit])
            case Continue => Scan(rest, f, tr + [item.visit])
            case SkipDir => Scan(if item.cut.None? then rest else Drop(rest, item.cut.value), f, tr + [item.visit])
            case a => (tr + [item.visit], a)
  {
    assert ([item] + rest)[1..] == rest;
  }

  lemma {:induction false} ScanAbort(items: seq<Item>, f: Callback, tr: seq<Visit>)
    requires items != [] && items[0].Abort?
    ensures Scan(items, f, tr) == (tr, Fail)
  {
  }

  lemma {:induction false} WalkNodeIsScan(
    n: Node, abs: Path, name: Name, rel: Path, depth: nat, f: Callback, tr: seq<Visit>, rest: seq<Item>)
    requires rest == [] || rest[0].depth <= depth
    ensures Scan(Flatten(n, abs, name, rel, depth) + rest, f, tr) ==
            Resume(WalkNode(n, abs, name, rel, f, tr), rest, depth, f)
    decreases n, 1
  {
    var items := Flatten(n, abs, name, rel, depth);
    var enter, below := items[0], items[1..];
    assert items + rest == [enter] + (below + rest);
    hide Scan, WalkEntries;
    ScanCall(enter, below + rest, f, tr);
    if !n.Dir? {
      assert below + rest == rest;
    } else if f(tr + [enter.visit]) == SkipDir {
      DropAll(below, rest, depth);
      assert Drop(rest, depth) == rest;
    } else if f(tr + [enter.visit]) == Continue {
      WalkBelowIsScan(n, abs, name, rel, depth, f, tr + [enter.visit], rest);
    }
  }

  lemma {:induction false} FlattenBelow(n: Node, abs: Path, name: Name, rel: Path, depth: nat)
    requires n.Dir?
    ensures var below, inside := Flatten(n, abs, name, rel, depth)[1..], FlattenEntries(n.entries, abs, rel, depth + 1);
            below == if !n.openable then [Abort(depth + 1)]
                     else if n.readable then inside
                     else [Call(Visit(Some(Resolve(abs, name)), rel, ReadFailed), depth + 1, Some(depth))] + inside
  {
  }

  /** The report of a read error: SkipDir drops the directory's contents. */
  lemma {:induction false} ReportIsScan(visit: Visit, inside: seq<Item>, rest: seq<Item>, depth: nat, f: Callback, tr: seq<Visit>)
    requires forall i :: 0 <= i < |inside| ==> inside[i].depth > depth
    requires rest == [] || rest[0].depth <= depth
    ensures Scan([Call(visit, depth + 1, Some(depth))] + inside + rest, f, tr) ==
            match f(tr + [visit])
            case Continue => Scan(inside + rest, f, tr + [visit])
            case SkipDir => Scan(rest, f, tr + [visit])
            case a => (tr + [visit], a)
  {
    hide Scan, Drop;
    var item := Call(visit, depth + 1, Some(depth));
    assert [item] + inside + rest == [item] + (inside + rest);
    ScanCall(item, inside + rest, f, tr);
    DropAll(inside, rest, depth);
    DropNone(rest, depth);
  }

  /** The contents of a directory the callback let through. */
  lemma {:induction false} WalkBelowIsScan(
    n: Node, abs: Path, name: Name, rel: Path, depth: nat, f: Callback, tr: seq<Visit>, rest: seq<Item>)
    requires n.Dir? && (rest == [] || rest[0].depth <= depth)
    ensures Scan(Flatten(n, abs, name, rel, depth)[1..] + rest, f, tr) ==
            if !n.openable then (tr, Fail)
            else if n.readable then Resume(WalkEntries(n.entries, abs, rel, f, tr), rest, depth, f)
            else
              var tr2 := tr + [Visit(Some(Resolve(abs, name)), rel, ReadFailed)];
              match f(tr2)
              case Continue => Resume(WalkEntries(n.entries, abs, rel, f, tr2), rest, depth, f)
              case SkipDir => Scan(rest, f, tr2)
              case a => (tr2, a)
    decreases n, 0
  {
    hide Scan, WalkEntries, FlattenEntries, Flatten, Drop;
    FlattenBelow(n, abs, name, rel, depth);
    if !n.openable {
      ScanAbort([Abort(depth + 1)] + rest, f, tr);
    } else {
      var visit := Visit(Some(Resolve(abs, name)), rel, ReadFailed);
      var start := if n.readable then tr else tr + [visit];
      WalkEntriesIsScan(n.entries, abs, rel, depth + 1, f, start, rest);
      ResumeBelow(WalkEntries(n.entries, abs, rel, f, start), rest, depth, f);
      if !n.readable {
        ReportIsScan(visit, FlattenEntries(n.entries, abs, rel, depth + 1), rest, depth, f, tr);
      }
    }
  }

  /** A list of entries never ends in SkipDir, so the depth at which it would cut is of no account. */
  lemma ResumeBelow(r: (seq<Visit>, Answer), rest: seq<Item>, depth: nat, f: Callback)
    requires r.1 != SkipDir
    ensures Resume(r, rest, depth + 1, f) == Resume(r, rest, depth, f)
  {
  }

  lemma {:induction false} WalkEntriesGone(es: seq<Entry>, abs: Path, rel: Path, f: Callback, tr: seq<Visit>)
    requires es != [] && es[0].node.Gone?
    ensures var tr1 := tr + [Visit(Some(abs + [es[0].name]), rel + [es[0].name], StatFailed)];
            WalkEntries(es, abs, rel, f, tr) ==
            if f(tr1) == Continue || f(tr1) == SkipDir then WalkEntries(es[1..], abs, rel, f, tr1) else (tr1, f(tr1))
  {
  }

  lemma {:induction false} WalkEntriesNode(es: seq<Entry>, abs: Path, rel: Path, f: Callback, tr: seq<Visit>)
    requires es != [] && !es[0].node.Gone?
    ensures var r := WalkNode(es[0].node, abs + [es[0].name], es[0].name, rel + [es[0].name], f, tr);
            WalkEntries(es, abs, rel, f, tr) ==
            if r.1 == Continue then WalkEntries(es[1..], abs, rel, f, r.0) else if r.1 == SkipDir then (r.0, Continue) else r
  {
  }

  /** The items of one entry. */
  function EntryItems(e: Entry, abs: Path, rel: Path, depth: nat): seq<Item> {
    if e.node.Gone? then [Call(Visit(Some(abs + [e.name]), rel + [e.name], StatFailed), depth, None)]
    else Flatten(e.node, abs + [e.name], e.name, rel + [e.name], depth)
  }

  lemma {:induction false} FlattenEntriesStep(es: seq<Entry>, abs: Path, rel: Path, depth: nat, rest: seq<Item>)
    requires es != []
    ensures FlattenEntries(es, abs, rel, depth) + rest ==
            EntryItems(es[0], abs, rel, depth) + (FlattenEntries(es[1..], abs, rel, depth) + rest)
  {
  }

  /** An entry whose Lstat fails, given the rest of the list. */
  lemma {:induction false} GoneEntryIsScan(
    es: seq<Entry>, abs: Path, rel: Path, depth: nat, f: Callback, tr: seq<Visit>, rest: seq<Item>)
    requires es != [] && es[0].node.Gone?
    requires var tr1 := tr + [Visit(Some(abs + [es[0].name]), rel + [es[0].name], StatFailed)];
             Scan(FlattenEntries(es[1..], abs, rel, depth) + rest, f, tr1) ==
             Resume(WalkEntries(es[1..], abs, rel, f, tr1), rest, depth, f)
    ensures Scan(FlattenEntries(es, abs, rel, depth) + rest, f, tr) ==
            Resume(WalkEntries(es, abs, rel, f, tr), rest, depth, f)
  {
    hide Scan, WalkEntries, FlattenEntries, Drop;
    FlattenEntriesStep(es, abs, rel, depth, rest);
    WalkEntriesGone(es, abs, rel, f, tr);
    ScanCall(EntryItems(es[0], abs, rel, depth)[0], FlattenEntries(es[1..], abs, rel, depth) + rest, f, tr);
  }

  /** Any other entry, given its own walk and the rest of the list. */
  lemma {:induction false} NodeEntryIsScan(
    es: seq<Entry>, abs: Path, rel: Path, depth: nat, f: Callback, tr: seq<Visit>, rest: seq<Item>)
    requires es != [] && !es[0].node.Gone? && depth > 0 && (rest == [] || rest[0].depth < depth)
    requires var r := WalkNode(es[0].node, abs + [es[0].name], es[0].name, rel + [es[0].name], f, tr);
             var later := FlattenEntries(es[1..], abs, rel, depth);
             && Scan(EntryItems(es[0], abs, rel, depth) + (later + rest), f, tr) == Resume(r, later + rest, depth, f)
             && Scan(later + rest, f, r.0) == Resume(WalkEntries(es[1..], abs, rel, f, r.0), rest, depth, f)
    ensures Scan(FlattenEntries(es, abs, rel, depth) + rest, f, tr) ==
            Resume(WalkEntries(es, abs, rel, f, tr), rest, depth, f)
  {
    hide Scan, WalkNode, WalkEntries, EntryItems, FlattenEntries, Drop;
    FlattenEntriesStep(es, abs, rel, depth, rest);
    WalkEntriesNode(es, abs, rel, f, tr);
    DropAll(FlattenEntries(es[1..], abs, rel, depth), rest, depth - 1);
    DropNone(rest, depth - 1);
  }

  lemma {:induction false} WalkEntriesIsScan(
    es: seq<Entry>, abs: Path, rel: Path, depth: nat, f: Callback, tr: seq<Visit>, rest: seq<Item>)
    requires depth > 0 && (rest == [] || rest[0].depth < depth)
    ensures Scan(FlattenEntries(es, abs, rel, depth) + rest, f, tr) ==
            Resume(WalkEntries(es, abs, rel, f, tr), rest, depth, f)
    decreases es, 0
  {
    if es == [] {
      assert FlattenEntries(es, abs, rel, depth) + rest == rest;
    } else {
      hide Scan, WalkNode, WalkEntries, Flatten, FlattenEntries, Drop, Resume;
      var e := es[0];
      if e.node.Gone? {
        var visit := Visit(Some(abs + [e.name]), rel + [e.name], StatFailed);
        WalkEntriesIsScan(es[1..], abs, rel, depth, f, tr + [visit], rest);
        GoneEntryIsScan(es, abs, rel, depth, f, tr, rest);
      } else {
        var r := WalkNode(e.node, abs + [e.name], e.name, rel + [e.name], f, tr);
        LaterIsShallow(es, abs, rel, depth, rest);
        WalkNodeIsScan(e.node, abs + [e.name], e.name, rel + [e.name], depth, f, tr,
                       FlattenEntries(es[1..], abs, rel, depth) + rest);
        WalkEntriesIsScan(es[1..], abs, rel, depth, f, r.0, rest);
        NodeEntryIsScan(es, abs, rel, depth, f, tr, rest);
      }
    }
  }

  lemma {:induction false} LaterIsShallow(es: seq<Entry>, abs: Path, rel: Path, depth: nat, rest: seq<Item>)
    requires es != [] && (rest == [] || rest[0].depth < depth)
    ensures var items := FlattenEntries(es[1..], abs, rel, depth) + rest; items == [] || items[0].depth <= depth
  {
  }

  // ---------------------------------------------------------------------
  // The code
  // ---------------------------------------------------------------------

  /** Integer tokens for directories; zero is never handed out. */
  class Registry {
    var next: int
    var dirs: map<int, Path>

    ghost predicate Valid()
      reads this
    {
      forall fd :: fd in dirs ==> fd != 0 && fd <= next
    }

    constructor ()
      ensures Valid() && dirs == map[]
    {
      next, dirs := 0, map[];
    }

    /** A fresh token: no live token is ever handed out twice. */
    method Add(dir: Path) returns (fd: int)
      requires Valid()
      modifies this
      ensures Valid() && next > old(next)
      ensures fd != 0 && fd !in old(dirs) && dirs == old(dirs)[fd := dir]
    {
      next := next + 1;
      if next == 0 {
        next := next + 1;
      }
      fd := next;
      dirs := dirs[fd := dir];
    }

    method Release(fd: int)
      requires Valid()
      modifies this
      ensures Valid() && next == old(next) && dirs == old(dirs) - {fd}
    {
      dirs := dirs - {fd};
    }

    /** What a token and a name resolve to, if the token is live. */
    function At(fd: int, name: Name): Option<Path>
      reads this
    {
      if fd in dirs then Some(Resolve(dirs[fd], name)) else None
    }
  }

  /**
   The recursive walk. On every path out of it the registry holds exactly the
   tokens it held before, and the callbacks are those of `WalkNode`, in which every
   entry is visited with a live token that resolves, with its name, to that entry.
   */
  method WalkDir(reg: Registry, parentfd: int, name: Name, rel: Path, n: Node, f: Callback, tr: seq<Visit>)
    returns (visits: seq<Visit>, out: Answer)
    requires reg.Valid() && parentfd in reg.dirs && !n.Gone?
    modifies reg
    ensures reg.Valid() && reg.dirs == old(reg.dirs) && reg.next >= old(reg.next)
    ensures (visits, out) == WalkNode(n, Resolve(old(reg.dirs)[parentfd], name), name, rel, f, tr)
    decreases n, 2
  {
    visits := tr + [Visit(reg.At(parentfd, name), rel, Enter(n))];
    out := f(visits);
    if out != Continue || !n.Dir? {
      if out == SkipDir && n.Dir? {
        out := Continue;
      }
      return;
    }
    if !n.openable {
      return visits, Fail;
    }
    var abs := Resolve(reg.dirs[parentfd], name);
    var dirfd := reg.Add(abs);
    visits, out := WalkOpened(reg, dirfd, name, rel, n, f, visits);
    reg.Release(dirfd);
    assert old(reg.dirs)[dirfd := abs] - {dirfd} == old(reg.dirs);
  }

  /** The part of the walk that runs while the directory's own token is registered. */
  method WalkOpened(reg: Registry, dirfd: int, name: Name, rel: Path, n: Node, f: Callback, tr: seq<Visit>)
    returns (visits: seq<Visit>, out: Answer)
    requires reg.Valid() && dirfd in reg.dirs && n.Dir?
    modifies reg
    ensures reg.Valid() && reg.dirs == old(reg.dirs) && reg.next >= old(reg.next)
    ensures var abs := old(reg.dirs)[dirfd];
            (visits, out) ==
            if n.readable then WalkEntries(n.entries, abs, rel, f, tr)
            else
              var tr2 := tr + [Visit(Some(Resolve(abs, name)), rel, ReadFailed)];
              match f(tr2)
              case Continue => WalkEntries(n.entries, abs, rel, f, tr2)
              case SkipDir => (tr2, Continue)
              case a => (tr2, a)
    decreases n, 1
  {
    visits := tr;
    if !n.readable {
      visits := visits + [Visit(reg.At(dirfd, name), rel, ReadFailed)];
      out := f(visits);
      if out != Continue {
        if out == SkipDir {
          out := Continue;
        }
        return;
      }
    }
    ghost var abs, start := reg.dirs[dirfd], visits;
    ghost var whole := WalkEntries(n.entries, abs, rel, f, start);
    var i := 0;
    while i < |n.entries|
      invariant 0 <= i <= |n.entries|
      invariant reg.Valid() && reg.dirs == old(reg.dirs) && reg.next >= old(reg.next)
      invariant WalkEntries(n.entries[i..], abs, rel, f, visits) == whole
    {
      var e := n.entries[i];
      assert n.entries[i..][1..] == n.entries[i + 1..] && n.entries[i..][0] == e;
      if e.node.Gone? {
        visits := visits + [Visit(reg.At(dirfd, e.name), rel + [e.name], StatFailed)];
        out := f(visits);
        if out != Continue && out != SkipDir {
          return;
        }
      } else {
        visits, out := WalkDir(reg, dirfd, e.name, rel + [e.name], e.node, f, visits);
        if out != Continue {
          if out == SkipDir {
            out := Continue;
          }
          return;
        }
      }
      i := i + 1;
    }
    out := Continue;
  }

  /** The flattened form of a walk's root, which may be missing. */
  function RootItems(n: Node, abs: Path, name: Name): seq<Item> {
    if n.Gone? then [Call(Visit(Some(abs), [], StatFailed), 0, None)] else Flatten(n, abs, name, [], 0)
  }

  /**
   The whole walk, from any root: the callbacks made are those of one pass over the
   flattened tree, SkipDir and SkipAll end in success, and no token leaks.
   */
  method WalkDirat(reg: Registry, dirfd: int, name: Name, n: Node, f: Callback) returns (visits: seq<Visit>, ok: bool)
    requires reg.Valid() && dirfd in reg.dirs
    modifies reg
    ensures reg.Valid() && reg.dirs == old(reg.dirs)
    ensures var items := RootItems(n, Resolve(old(reg.dirs)[dirfd], name), name);
            visits == Scan(items, f, []).0 && (ok <==> Scan(items, f, []).1 != Fail)
  {
    ghost var abs := Resolve(reg.dirs[dirfd], name);
    var out;
    if n.Gone? {
      visits := [Visit(reg.At(dirfd, name), [], StatFailed)];
      out := f(visits);
      ScanCall(RootItems(n, abs, name)[0], [], f, []);
    } else {
      visits, out := WalkDir(reg, dirfd, name, [], n, f, []);
      WalkNodeIsScan(n, abs, name, [], 0, f, [], []);
      assert Flatten(n, abs, name, [], 0) + [] == Flatten(n, abs, name, [], 0);
    }
    ok := out != Fail;
  }

  // ---------------------------------------------------------------------
  // Which entry a callback is about
  // ---------------------------------------------------------------------

  /** What an entry is called in its directory; the root of the walk is called `top`. */
  function NameOf(top: Name, rel: Path): Name {
    if rel == [] then top else rel[|rel| - 1]
  }

  /** The path a callback's token and name resolve to: its own entry's, except that the report of a read error adds the name again. */
  ghost predicate ResolvesTo(item: Item, root: Path, top: Name) {
    item.Call? ==>
      var rel := item.visit.rel;
      && (rel != [] ==> NameOf(top, rel) != ".")
      && item.visit.at == Some(if item.visit.kind == ReadFailed then Resolve(root + rel, NameOf(top, rel)) else root + rel)
  }

  lemma {:induction false} FlattenResolves(n: Node, root: Path, top: Name, rel: Path, depth: nat, i: nat)
    requires rel != [] ==> NameOf(top, rel) != "."
    requires i < |Flatten(n, root + rel, NameOf(top, rel), rel, depth)|
    ensures ResolvesTo(Flatten(n, root + rel, NameOf(top, rel), rel, depth)[i], root, top)
    decreases n, 1
  {
    if n.Dir? && n.openable && i > 0 {
      var skipped := if n.readable then 1 else 2;
      if i >= skipped {
        EntriesResolve(n.entries, root, top, rel, depth + 1, i - skipped);
      }
    }
  }

  lemma {:induction false} EntriesResolve(es: seq<Entry>, root: Path, top: Name, rel: Path, depth: nat, i: nat)
    requires i < |FlattenEntries(es, root + rel, rel, depth)|
    ensures ResolvesTo(FlattenEntries(es, root + rel, rel, depth)[i], root, top)
    decreases es, 0
  {
    var e := es[0];
    var path := rel + [e.name];
    assert root + rel + [e.name] == root + path && NameOf(top, path) == e.name;
    var here := if e.node.Gone? then 1 else |Flatten(e.node, root + path, e.name, path, depth)|;
    if i >= here {
      EntriesResolve(es[1..], root, top, rel, depth, i - here);
    } else if !e.node.Gone? {
      FlattenResolves(e.node, root, top, path, depth, i);
    }
  }

  lemma {:induction false} ScanVisitsItems(items: seq<Item>, f: Callback, tr: seq<Visit>, v: Visit)
    requires v in Scan(items, f, tr).0
    ensures v in tr || exists i :: 0 <= i < |items| && items[i].Call? && items[i].visit == v
    decreases |items|
  {
    if items != [] && items[0].Call? {
      var tr1 := tr + [items[0].visit];
      var cut := items[0].cut;
      var rest := if f(tr1) == SkipDir && cut.Some? then Drop(items[1..], cut.value) else items[1..];
      var skipped := if f(tr1) == SkipDir && cut.Some? then DropIsSuffix(items[1..], cut.value) else 0;
      if f(tr1) == Continue || f(tr1) == SkipDir {
        assert rest == items[1 + skipped..];
        ScanVisitsItems(rest, f, tr1, v);
        if i :| 0 <= i < |rest| && rest[i].Call? && rest[i].visit == v {
          assert items[1 + skipped + i] == rest[i];
        }
      }
    }
  }

  ghost function DropIsSuffix(items: seq<Item>, cut: int): (k: nat)
    ensures k <= |items| && Drop(items, cut) == items[k..]
  {
    if items == [] || items[0].depth <= cut then 0 else 1 + DropIsSuffix(items[1..], cut)
  }

  /**
   Every callback but the report of a read error comes with a token and name that
   resolve to its own entry. The report of a read error resolves to the directory's
   name below the directory, which is the directory only for a root called ".".
   */
  lemma CallbacksResolve(n: Node, root: Path, name: Name, f: Callback, v: Visit)
    requires v in Scan(RootItems(n, root, name), f, []).0
    ensures v.kind != ReadFailed ==> v.at == Some(root + v.rel)
    ensures v.kind == ReadFailed ==> v.at == Some(Resolve(root + v.rel, NameOf(name, v.rel)))
    ensures v.kind == ReadFailed ==> (v.at == Some(root + v.rel) <==> v.rel == [] && name == ".")
  {
    var items := RootItems(n, root, name);
    ScanVisitsItems(items, f, [], v);
    var i :| 0 <= i < |items| && items[i].Call? && items[i].visit == v;
    assert root + [] == root;
    if !n.Gone? {
      FlattenResolves(n, root, name, [], 0, i);
    }
    assert |Resolve(root + v.rel, NameOf(name, v.rel))| == |root + v.rel| + if NameOf(name, v.rel) == "." then 0 else 1;
  }
}
