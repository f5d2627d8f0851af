/**
 What the callback's answers do to a walk, said about the sequence of visits alone:
 nothing that an answer excludes is visited afterwards, and everything else is.
 */
module WalkSkips {
  import opened Walk
  import opened DirectoryContents

  /**
   What the answer to visit `v` excludes from then on. SkipDir on a directory excludes
   all of it, SkipDir on a file everything else in the file's directory, SkipDir on a
   report of a read error the directory's contents, SkipDir on a report of a failed
   Lstat nothing. SkipAll and an error exclude everything.
   */
  ghost predicate Excludes(answer: Answer, v: Visit, w: Visit) {
    match answer
    case Continue => false
    case SkipAll => true
    case Fail => true
    case SkipDir =>
      match v.kind
      case StatFailed => false
      case ReadFailed => v.rel < w.rel
      case Entering(isDir, _) => if isDir then v.rel <= w.rel else v.rel == [] || Parent(v.rel) < w.rel
  }

  function Parent(p: Path): Path
    requires p != []
  {
    p[..|p| - 1]
  }

  /** The answer to visit `i` of a trace. */
  function AnswerTo(f: Callback, tr: seq<Visit>, i: nat): Answer
    requires i < |tr|
  {
    f(tr[..i + 1])
  }

  /** From position `from` on, no visit follows one whose answer excludes it. */
  ghost predicate Honoured(f: Callback, tr: seq<Visit>, from: nat) {
    forall i, j :: from <= i < j < |tr| ==> !Excludes(AnswerTo(f, tr, i), tr[i], tr[j])
  }

  /** From position `from` on, `w` is visited or excluded by the answer to a visit. */
  ghost predicate Accounted(f: Callback, tr: seq<Visit>, from: nat, w: Visit) {
    exists i :: from <= i < |tr| && (tr[i] == w || Excludes(AnswerTo(f, tr, i), tr[i], w))
  }

  lemma {:induction false} AccountedLonger(f: Callback, tr: seq<Visit>, longer: seq<Visit>, from: nat, from': nat, w: Visit)
    requires Accounted(f, tr, from, w) && tr <= longer && from' <= from
    ensures Accounted(f, longer, from', w)
  {
    var i :| from <= i < |tr| && (tr[i] == w || Excludes(AnswerTo(f, tr, i), tr[i], w));
    assert longer[..i + 1] == tr[..i + 1];
    assert longer[i] == tr[i];
  }

  /** What is known of the visits that walking a node adds to a trace. */
  ghost predicate NodeTrace(n: Node, rel: Path, f: Callback, tr: seq<Visit>, r: (seq<Visit>, Answer)) {
    && tr < r.0 && Honoured(f, r.0, |tr|)
    && (forall i :: |tr| <= i < |r.0| ==> rel <= r.0[i].rel && (r.0[i].rel == rel && r.0[i].kind.Entering? ==> i == |tr|))
    && r.0[|tr|].kind == Enter(n) && r.0[|tr|].rel == rel
    && (if n.Dir? then r.1 != SkipDir && (f(r.0) == SkipAll || f(r.0) == Fail ==> r.1 == f(r.0))
        else |r.0| == |tr| + 1 && r.1 == f(r.0))
  }

  ghost predicate EntriesTrace(es: seq<Entry>, rel: Path, f: Callback, tr: seq<Visit>, r: (seq<Visit>, Answer)) {
    && tr <= r.0 && Honoured(f, r.0, |tr|)
    && (forall i :: |tr| <= i < |r.0| ==> rel < r.0[i].rel && Named(es, r.0[i].rel[|rel|]))
    && r.1 != SkipDir
    && (tr < r.0 && (f(r.0) == SkipAll || f(r.0) == Fail) ==> r.1 == f(r.0))
  }

  ghost predicate Named(es: seq<Entry>, name: Name) {
    exists k :: 0 <= k < |es| && es[k].name == name
  }

  lemma {:induction false} HonouredJoin(f: Callback, tr1: seq<Visit>, tr2: seq<Visit>, from: nat)
    requires from <= |tr1| && tr1 <= tr2 && Honoured(f, tr1, from) && Honoured(f, tr2, |tr1|)
    requires forall i, j :: from <= i < |tr1| <= j < |tr2| ==> !Excludes(AnswerTo(f, tr1, i), tr1[i], tr2[j])
    ensures Honoured(f, tr2, from)
  {
    hide Excludes;
    forall i | from <= i < |tr1| ensures AnswerTo(f, tr2, i) == AnswerTo(f, tr1, i) && tr1[i] == tr2[i] {
      assert tr2[..i + 1] == tr1[..i + 1];
    }
  }

  lemma {:induction false} SamePrefix(a: seq<Visit>, b: seq<Visit>)
    requires a <= b
    ensures a == b || a < b
    ensures forall i :: 0 <= i < |a| ==> a[i] == b[i]
  {
    assert |a| == |b| ==> a == b;
  }

  /** A visit whose answer is Continue excludes nothing. */
  lemma {:induction false} HonouredAfterContinue(f: Callback, tr: seq<Visit>, v: Visit, tr2: seq<Visit>)
    requires f(tr + [v]) == Continue && tr + [v] <= tr2 && Honoured(f, tr2, |tr| + 1)
    ensures Honoured(f, tr2, |tr|)
  {
    var tr1 := tr + [v];
    assert tr1[..|tr| + 1] == tr1;
    assert AnswerTo(f, tr1, |tr|) == Continue;
    HonouredJoin(f, tr1, tr2, |tr|);
  }

  /** After a node that was walked to its end, its answers exclude nothing under another name. */
  lemma {:induction false} OtherNameIsFree(
    n: Node, rel: Path, name: Name, f: Callback, tr: seq<Visit>, r: (seq<Visit>, Answer), i: nat, w: Visit)
    requires NodeTrace(n, rel + [name], f, tr, r) && r.1 == Continue && |tr| <= i < |r.0|
    requires rel < w.rel && w.rel[|rel|] != name
    ensures !Excludes(AnswerTo(f, r.0, i), r.0[i], w)
  {
    var v, answer, path := r.0[i], AnswerTo(f, r.0, i), rel + [name];
    assert v.rel[|rel|] == path[|rel|] == name;
    if i == |r.0| - 1 {
      assert r.0[..i + 1] == r.0;
    } else {
      assert !Excludes(answer, v, r.0[i + 1]);
    }
    assert answer != SkipAll && answer != Fail;
    assert !(v.rel <= w.rel);
    if v.rel != path {
      assert path <= Parent(v.rel);
      assert Parent(v.rel)[|rel|] == name;
    }
  }

  /** One visit, whatever its answer. */
  lemma {:induction false} HonouredOne(f: Callback, tr: seq<Visit>, v: Visit)
    ensures Honoured(f, tr + [v], |tr|)
  {
  }

  /** A directory whose contents were walked from `start` on, its own visit and perhaps a report before that. */
  lemma {:induction false} OpenedTrace(
    n: Node, rel: Path, f: Callback, tr: seq<Visit>, start: seq<Visit>, r: (seq<Visit>, Answer))
    requires n.Dir? && EntriesTrace(n.entries, rel, f, start, r) && f(start) == Continue && Honoured(f, r.0, |tr|)
    requires tr < start && start[|tr|].kind == Enter(n)
    requires forall i :: |tr| <= i < |start| ==> start[i].rel == rel && (i > |tr| ==> !start[i].kind.Entering?)
    ensures NodeTrace(n, rel, f, tr, r)
  {
    hide Honoured;
    SamePrefix(start, r.0);
    assert forall i :: |start| <= i < |r.0| ==> rel < r.0[i].rel;
  }

  lemma {:induction false} NodeTraceHolds(n: Node, abs: Path, name: Name, rel: Path, f: Callback, tr: seq<Visit>)
    requires WellNamed(n) && !n.Gone?
    ensures NodeTrace(n, rel, f, tr, WalkNode(n, abs, name, rel, f, tr))
    decreases n, 1
  {
    hide WalkEntries, Honoured, EntriesTrace;
    var v := Visit(Some(abs), rel, Enter(n));
    var tr1 := tr + [v];
    HonouredOne(f, tr, v);
    if n.Dir? && f(tr1) == Continue && n.openable {
      hide NodeTrace;
      if n.readable {
        var r := WalkEntries(n.entries, abs, rel, f, tr1);
        EntriesTraceHolds(n.entries, abs, rel, f, tr1);
        EntriesExtend(n.entries, rel, f, tr1, r);
        HonouredAfterContinue(f, tr, v, r.0);
        OpenedTrace(n, rel, f, tr, tr1, r);
      } else {
        UnreadableTrace(n, abs, name, rel, f, tr);
      }
    }
  }

  lemma {:induction false} EntriesExtend(es: seq<Entry>, rel: Path, f: Callback, tr: seq<Visit>, r: (seq<Visit>, Answer))
    requires EntriesTrace(es, rel, f, tr, r)
    ensures tr <= r.0 && Honoured(f, r.0, |tr|)
  {
  }

  lemma {:induction false} UnreadableTrace(n: Node, abs: Path, name: Name, rel: Path, f: Callback, tr: seq<Visit>)
    requires WellNamed(n) && n.Dir? && n.openable && !n.readable
    requires f(tr + [Visit(Some(abs), rel, Enter(n))]) == Continue
    ensures NodeTrace(n, rel, f, tr, WalkNode(n, abs, name, rel, f, tr))
    decreases n, 0
  {
    hide WalkEntries, Honoured, EntriesTrace;
    var v, report := Visit(Some(abs), rel, Enter(n)), Visit(Some(Resolve(abs, name)), rel, ReadFailed);
    var tr1, tr2 := tr + [v], tr + [v] + [report];
    HonouredOne(f, tr1, report);
    if f(tr2) == Continue {
      hide NodeTrace;
      var r := WalkEntries(n.entries, abs, rel, f, tr2);
      EntriesTraceHolds(n.entries, abs, rel, f, tr2);
      EntriesExtend(n.entries, rel, f, tr2, r);
      HonouredAfterContinue(f, tr1, report, r.0);
      HonouredAfterContinue(f, tr, v, r.0);
      OpenedTrace(n, rel, f, tr, tr2, r);
    } else {
      HonouredAfterContinue(f, tr, v, tr2);
      assert tr2[|tr|] == v && tr2[|tr| + 1] == report;
    }
  }

  lemma {:induction false} EntriesTraceHolds(es: seq<Entry>, abs: Path, rel: Path, f: Callback, tr: seq<Visit>)
    requires WellNamedEntries(es)
    ensures EntriesTrace(es, rel, f, tr, WalkEntries(es, abs, rel, f, tr))
    decreases es, 0
  {
    if es != [] {
      hide WalkNode, WalkEntries, Excludes, EntriesTrace, NodeTrace;
      if es[0].node.Gone? {
        WalkEntriesGone(es, abs, rel, f, tr);
        EntriesTraceHolds(es[1..], abs, rel, f, tr + [Visit(Some(abs + [es[0].name]), rel + [es[0].name], StatFailed)]);
        GoneTrace(es, abs, rel, f, tr);
      } else {
        var r := WalkNode(es[0].node, abs + [es[0].name], es[0].name, rel + [es[0].name], f, tr);
        WalkEntriesNode(es, abs, rel, f, tr);
        NodeTraceHolds(es[0].node, abs + [es[0].name], es[0].name, rel + [es[0].name], f, tr);
        EntriesTraceHolds(es[1..], abs, rel, f, r.0);
        NodeThenTrace(es, abs, rel, f, tr, r);
      }
    } else {
      assert WalkEntries(es, abs, rel, f, tr) == (tr, Continue);
    }
  }

  lemma {:induction false} NamedLater(es: seq<Entry>, name: Name)
    requires es != [] && WellNamedEntries(es) && Named(es[1..], name)
    ensures Named(es, name) && name != es[0].name
  {
    var k :| 0 <= k < |es[1..]| && es[1..][k].name == name;
    assert es[k + 1].name == name;
  }

  lemma {:induction false} GoneTrace(es: seq<Entry>, abs: Path, rel: Path, f: Callback, tr: seq<Visit>)
    requires es != [] && WellNamedEntries(es) && es[0].node.Gone?
    requires var tr1 := tr + [Visit(Some(abs + [es[0].name]), rel + [es[0].name], StatFailed)];
             && EntriesTrace(es[1..], rel, f, tr1, WalkEntries(es[1..], abs, rel, f, tr1))
             && WalkEntries(es, abs, rel, f, tr) ==
                if f(tr1) == Continue || f(tr1) == SkipDir then WalkEntries(es[1..], abs, rel, f, tr1) else (tr1, f(tr1))
    ensures EntriesTrace(es, rel, f, tr, WalkEntries(es, abs, rel, f, tr))
  {
    hide WalkEntries;
    var v := Visit(Some(abs + [es[0].name]), rel + [es[0].name], StatFailed);
    var tr1, r := tr + [v], WalkEntries(es, abs, rel, f, tr);
    assert Named(es, v.rel[|rel|]);
    if f(tr1) == Continue || f(tr1) == SkipDir {
      assert tr1[..|tr| + 1] == tr1;
      assert AnswerTo(f, tr1, |tr|) == f(tr1);
      HonouredJoin(f, tr1, r.0, |tr|);
      SamePrefix(tr1, r.0);
      forall i | |tr| <= i < |r.0| ensures rel < r.0[i].rel && Named(es, r.0[i].rel[|rel|]) {
        if i > |tr| {
          NamedLater(es, r.0[i].rel[|rel|]);
        } else {
          assert r.0[i] == v;
        }
      }
    }
  }

  lemma {:induction false} NodeThenTrace(
    es: seq<Entry>, abs: Path, rel: Path, f: Callback, tr: seq<Visit>, r: (seq<Visit>, Answer))
    requires es != [] && WellNamedEntries(es) && NodeTrace(es[0].node, rel + [es[0].name], f, tr, r)
    requires EntriesTrace(es[1..], rel, f, r.0, WalkEntries(es[1..], abs, rel, f, r.0))
    requires WalkEntries(es, abs, rel, f, tr) ==
             if r.1 == Continue then WalkEntries(es[1..], abs, rel, f, r.0) else if r.1 == SkipDir then (r.0, Continue) else r
    ensures EntriesTrace(es, rel, f, tr, WalkEntries(es, abs, rel, f, tr))
  {
    hide WalkEntries, Excludes;
    var name, all := es[0].name, WalkEntries(es, abs, rel, f, tr);
    var path := rel + [name];
    assert Named(es, name);
    forall i | |tr| <= i < |r.0| ensures rel < r.0[i].rel && r.0[i].rel[|rel|] == name {
      assert path <= r.0[i].rel && path[|rel|] == name;
    }
    if r.1 == Continue {
      forall j | |r.0| <= j < |all.0| ensures rel < all.0[j].rel && Named(es, all.0[j].rel[|rel|]) && all.0[j].rel[|rel|] != name {
        NamedLater(es, all.0[j].rel[|rel|]);
      }
      forall i, j | |tr| <= i < |r.0| <= j < |all.0| ensures !Excludes(AnswerTo(f, r.0, i), r.0[i], all.0[j]) {
        OtherNameIsFree(es[0].node, rel, name, f, tr, r, i, all.0[j]);
      }
      HonouredJoin(f, r.0, all.0, |tr|);
      SamePrefix(r.0, all.0);
      assert forall i :: 0 <= i < |r.0| ==> all.0[i] == r.0[i];
    }
  }

  // ---------------------------------------------------------------------
  // Nothing else is left out
  // ---------------------------------------------------------------------

  /** Every item is accounted for, unless the walk was ended altogether. */
  ghost predicate Covered(items: seq<Item>, f: Callback, tr: seq<Visit>, r: (seq<Visit>, Answer)) {
    r.1 == SkipAll || r.1 == Fail ||
    forall k :: 0 <= k < |items| && items[k].Call? ==> Accounted(f, r.0, |tr|, items[k].visit)
  }

  /** The answer to the last visit of a trace accounts for what it excludes. */
  lemma {:induction false} LastExcludes(f: Callback, tr: seq<Visit>, from: nat, w: Visit)
    requires from < |tr| && (tr[|tr| - 1] == w || Excludes(f(tr), tr[|tr| - 1], w))
    ensures Accounted(f, tr, from, w)
  {
    var i := |tr| - 1;
    assert tr[..i + 1] == tr;
    assert tr[i] == w || Excludes(AnswerTo(f, tr, i), tr[i], w);
  }

  /** Everything in a flattened node lies at or below it. */
  lemma {:induction false} ItemsBelow(n: Node, abs: Path, name: Name, rel: Path, depth: nat, k: nat)
    requires k < |Flatten(n, abs, name, rel, depth)| && Flatten(n, abs, name, rel, depth)[k].Call?
    ensures rel <= Flatten(n, abs, name, rel, depth)[k].visit.rel
    decreases n, 1
  {
    if n.Dir? && n.openable && k > 0 {
      var skipped := if n.readable then 1 else 2;
      if k >= skipped {
        EntryItemsBelow(n.entries, abs, rel, depth + 1, k - skipped);
      }
    }
  }

  lemma {:induction false} EntryItemsBelow(es: seq<Entry>, abs: Path, rel: Path, depth: nat, k: nat)
    requires k < |FlattenEntries(es, abs, rel, depth)| && FlattenEntries(es, abs, rel, depth)[k].Call?
    ensures rel < FlattenEntries(es, abs, rel, depth)[k].visit.rel
    decreases es, 0
  {
    var e := es[0];
    var path := rel + [e.name];
    var here := if e.node.Gone? then 1 else |Flatten(e.node, abs + [e.name], e.name, path, depth)|;
    if k >= here {
      EntryItemsBelow(es[1..], abs, rel, depth, k - here);
    } else if !e.node.Gone? {
      ItemsBelow(e.node, abs + [e.name], e.name, path, depth, k);
    }
  }

  lemma {:induction false} CoveredLonger(
    items: seq<Item>, f: Callback, tr: seq<Visit>, tr': seq<Visit>, r: (seq<Visit>, Answer), r': (seq<Visit>, Answer))
    requires Covered(items, f, tr', r) && |tr| <= |tr'| && r.0 <= r'.0 && r.1 != SkipAll && r.1 != Fail
    ensures Covered(items, f, tr, r')
  {
    forall k | 0 <= k < |items| && items[k].Call? ensures Accounted(f, r'.0, |tr|, items[k].visit) {
      AccountedLonger(f, r.0, r'.0, |tr'|, |tr|, items[k].visit);
    }
  }

  lemma {:induction false} CoveredJoin(a: seq<Item>, b: seq<Item>, f: Callback, tr: seq<Visit>, r: (seq<Visit>, Answer))
    requires Covered(a, f, tr, r) && Covered(b, f, tr, r)
    ensures Covered(a + b, f, tr, r)
  {
  }

  lemma {:induction false} FirstItem(n: Node, abs: Path, name: Name, rel: Path, depth: nat)
    ensures var items := Flatten(n, abs, name, rel, depth);
            && items == [items[0]] + items[1..] && items[0].Call? && items[0].visit == Visit(Some(abs), rel, Enter(n))
            && (!n.Dir? ==> items[1..] == [])
  {
  }

  lemma {:induction false} NodeCovers(n: Node, abs: Path, name: Name, rel: Path, depth: nat, f: Callback, tr: seq<Visit>)
    requires WellNamed(n) && !n.Gone?
    ensures Covered(Flatten(n, abs, name, rel, depth), f, tr, WalkNode(n, abs, name, rel, f, tr))
    decreases n, 3
  {
    hide Flatten, WalkEntries, Excludes, Accounted;
    var items, r := Flatten(n, abs, name, rel, depth), WalkNode(n, abs, name, rel, f, tr);
    var v := Visit(Some(abs), rel, Enter(n));
    var tr1 := tr + [v];
    FirstItem(n, abs, name, rel, depth);
    LastExcludesReport(f, tr1, |tr|);
    if n.Dir? && f(tr1) == Continue {
      BelowCovers(n, abs, name, rel, depth, f, tr);
      WalkExtends(n, abs, name, rel, f, tr);
      AccountedLonger(f, tr1, r.0, |tr|, |tr|, v);
      hide WalkNode;
      CoveredJoin([items[0]], items[1..], f, tr, r);
    } else if n.Dir? && f(tr1) == SkipDir {
      SkippedCovers(n, abs, name, rel, depth, f, tr);
    }
  }

  /** SkipDir on a directory accounts for all of it. */
  lemma {:induction false} SkippedCovers(n: Node, abs: Path, name: Name, rel: Path, depth: nat, f: Callback, tr: seq<Visit>)
    requires n.Dir? && f(tr + [Visit(Some(abs), rel, Enter(n))]) == SkipDir
    ensures forall k :: 0 <= k < |Flatten(n, abs, name, rel, depth)| && Flatten(n, abs, name, rel, depth)[k].Call? ==>
              Accounted(f, tr + [Visit(Some(abs), rel, Enter(n))], |tr|, Flatten(n, abs, name, rel, depth)[k].visit)
  {
    var items, tr1 := Flatten(n, abs, name, rel, depth), tr + [Visit(Some(abs), rel, Enter(n))];
    forall k | 0 <= k < |items| && items[k].Call? ensures Accounted(f, tr1, |tr|, items[k].visit) {
      ItemsBelow(n, abs, name, rel, depth, k);
      LastExcludes(f, tr1, |tr|, items[k].visit);
    }
  }

  lemma {:induction false} WalkExtends(n: Node, abs: Path, name: Name, rel: Path, f: Callback, tr: seq<Visit>)
    requires WellNamed(n) && n.Dir?
    ensures tr + [Visit(Some(abs), rel, Enter(n))] <= WalkNode(n, abs, name, rel, f, tr).0
  {
    hide WalkEntries;
    var tr1 := tr + [Visit(Some(abs), rel, Enter(n))];
    EntriesTraceHolds(n.entries, abs, rel, f, tr1);
    EntriesTraceHolds(n.entries, abs, rel, f, tr1 + [Visit(Some(Resolve(abs, name)), rel, ReadFailed)]);
  }

  lemma {:induction false} CoveredOne(item: Item, f: Callback, tr: seq<Visit>, r: (seq<Visit>, Answer))
    requires item.Call? && Accounted(f, r.0, |tr|, item.visit)
    ensures Covered([item], f, tr, r)
  {
  }

  /** The contents of a directory that the callback let through. */
  lemma {:induction false} BelowCovers(n: Node, abs: Path, name: Name, rel: Path, depth: nat, f: Callback, tr: seq<Visit>)
    requires WellNamed(n) && n.Dir? && f(tr + [Visit(Some(abs), rel, Enter(n))]) == Continue
    ensures Covered(Flatten(n, abs, name, rel, depth)[1..], f, tr, WalkNode(n, abs, name, rel, f, tr))
    decreases n, 2
  {
    FlattenBelow(n, abs, name, rel, depth);
    hide Flatten, FlattenEntries, WalkEntries, Accounted;
    var tr1 := tr + [Visit(Some(abs), rel, Enter(n))];
    if n.openable && n.readable {
      hide Covered;
      EntriesCover(n.entries, abs, rel, depth + 1, f, tr1);
      CoveredEarlier(FlattenEntries(n.entries, abs, rel, depth + 1), f, tr, tr1, WalkEntries(n.entries, abs, rel, f, tr1));
    } else if n.openable {
      hide Covered;
      ReportedCovers(n, abs, name, rel, depth, f, tr1, tr);
    }
  }

  lemma {:induction false} ReportedCovers(
    n: Node, abs: Path, name: Name, rel: Path, depth: nat, f: Callback, tr1: seq<Visit>, tr: seq<Visit>)
    requires WellNamed(n) && n.Dir? && |tr| <= |tr1|
    ensures var report := Visit(Some(Resolve(abs, name)), rel, ReadFailed);
            var tr2 := tr1 + [report];
            Covered([Call(report, depth + 1, Some(depth))] + FlattenEntries(n.entries, abs, rel, depth + 1), f, tr,
                    if f(tr2) == Continue then WalkEntries(n.entries, abs, rel, f, tr2)
                    else (tr2, if f(tr2) == SkipDir then Continue else f(tr2)))
    decreases n, 1
  {
    hide FlattenEntries, WalkEntries, Accounted;
    var report := Visit(Some(Resolve(abs, name)), rel, ReadFailed);
    var tr2, item := tr1 + [report], Call(report, depth + 1, Some(depth));
    var inside := FlattenEntries(n.entries, abs, rel, depth + 1);
    LastExcludesReport(f, tr2, |tr|);
    if f(tr2) == Continue {
      hide Covered;
      var r := WalkEntries(n.entries, abs, rel, f, tr2);
      EntriesTraceHolds(n.entries, abs, rel, f, tr2);
      EntriesExtend(n.entries, rel, f, tr2, r);
      EntriesCover(n.entries, abs, rel, depth + 1, f, tr2);
      CoveredEarlier(inside, f, tr, tr2, r);
      AccountedLonger(f, tr2, r.0, |tr|, |tr|, report);
      CoveredOne(item, f, tr, r);
      CoveredJoin([item], inside, f, tr, r);
    } else if f(tr2) == SkipDir {
      ReportCovers(n.entries, abs, rel, depth + 1, f, tr2, |tr|);
      CoveredJoin([item], inside, f, tr, (tr2, Continue));
    }
  }

  lemma {:induction false} LastExcludesReport(f: Callback, tr: seq<Visit>, from: nat)
    requires from < |tr|
    ensures Accounted(f, tr, from, tr[|tr| - 1])
  {
    LastExcludes(f, tr, from, tr[|tr| - 1]);
  }

  lemma {:induction false} CoveredEarlier(items: seq<Item>, f: Callback, tr: seq<Visit>, tr': seq<Visit>, r: (seq<Visit>, Answer))
    requires Covered(items, f, tr', r) && |tr| <= |tr'|
    ensures Covered(items, f, tr, r)
  {
    if r.1 != SkipAll && r.1 != Fail {
      CoveredLonger(items, f, tr, tr', r, r);
    }
  }

  /** SkipDir on the report of a read error accounts for the contents. */
  lemma {:induction false} ReportCovers(es: seq<Entry>, abs: Path, rel: Path, depth: nat, f: Callback, tr: seq<Visit>, from: nat)
    requires from < |tr| && tr[|tr| - 1].kind == ReadFailed && tr[|tr| - 1].rel == rel && f(tr) == SkipDir
    ensures forall k :: 0 <= k < |FlattenEntries(es, abs, rel, depth)| && FlattenEntries(es, abs, rel, depth)[k].Call? ==>
              Accounted(f, tr, from, FlattenEntries(es, abs, rel, depth)[k].visit)
  {
    var items := FlattenEntries(es, abs, rel, depth);
    forall k | 0 <= k < |items| && items[k].Call? ensures Accounted(f, tr, from, items[k].visit) {
      EntryItemsBelow(es, abs, rel, depth, k);
      LastExcludes(f, tr, from, items[k].visit);
    }
  }

  /** SkipDir on a file accounts for the rest of its directory. */
  lemma {:induction false} SiblingsCovered(es: seq<Entry>, abs: Path, rel: Path, depth: nat, f: Callback, tr: seq<Visit>, from: nat)
    requires from < |tr| && f(tr) == SkipDir
    requires var v := tr[|tr| - 1]; v.kind.Entering? && !v.kind.isDir && v.rel != [] && Parent(v.rel) == rel
    ensures forall k :: 0 <= k < |FlattenEntries(es, abs, rel, depth)| && FlattenEntries(es, abs, rel, depth)[k].Call? ==>
              Accounted(f, tr, from, FlattenEntries(es, abs, rel, depth)[k].visit)
  {
    var items := FlattenEntries(es, abs, rel, depth);
    forall k | 0 <= k < |items| && items[k].Call? ensures Accounted(f, tr, from, items[k].visit) {
      EntryItemsBelow(es, abs, rel, depth, k);
      LastExcludes(f, tr, from, items[k].visit);
    }
  }

  lemma {:induction false} EntriesCover(es: seq<Entry>, abs: Path, rel: Path, depth: nat, f: Callback, tr: seq<Visit>)
    requires WellNamedEntries(es)
    ensures Covered(FlattenEntries(es, abs, rel, depth), f, tr, WalkEntries(es, abs, rel, f, tr))
    decreases es, 0
  {
    if es != [] {
      hide Flatten, FlattenEntries, WalkNode, WalkEntries, Excludes, Accounted;
      var e, later := es[0], FlattenEntries(es[1..], abs, rel, depth);
      var here, r := EntryItems(e, abs, rel, depth), WalkEntries(es, abs, rel, f, tr);
      FlattenEntriesStep(es, abs, rel, depth, []);
      assert FlattenEntries(es, abs, rel, depth) + [] == FlattenEntries(es, abs, rel, depth) && later + [] == later;
      if e.node.Gone? {
        var visit := Visit(Some(abs + [e.name]), rel + [e.name], StatFailed);
        EntriesCover(es[1..], abs, rel, depth, f, tr + [visit]);
        EntriesTraceHolds(es[1..], abs, rel, f, tr + [visit]);
        WalkEntriesGone(es, abs, rel, f, tr);
        CoveredEarlier(later, f, tr, tr + [visit], WalkEntries(es[1..], abs, rel, f, tr + [visit]));
        LastExcludesReport(f, tr + [visit], |tr|);
        if f(tr + [visit]) == Continue || f(tr + [visit]) == SkipDir {
          AccountedLonger(f, tr + [visit], r.0, |tr|, |tr|, visit);
        }
      } else {
        var path := rel + [e.name];
        var r1 := WalkNode(e.node, abs + [e.name], e.name, path, f, tr);
        WalkEntriesNode(es, abs, rel, f, tr);
        NodeTraceHolds(e.node, abs + [e.name], e.name, path, f, tr);
        NodeCovers(e.node, abs + [e.name], e.name, path, depth, f, tr);
        EntriesCover(es[1..], abs, rel, depth, f, r1.0);
        EntriesTraceHolds(es[1..], abs, rel, f, r1.0);
        NodeThenCovers(es, abs, rel, depth, f, tr, r1);
      }
      CoveredJoin(here, later, f, tr, r);
    }
  }

  lemma {:induction false} NodeThenCovers(
    es: seq<Entry>, abs: Path, rel: Path, depth: nat, f: Callback, tr: seq<Visit>, r1: (seq<Visit>, Answer))
    requires es != [] && NodeTrace(es[0].node, rel + [es[0].name], f, tr, r1) && !es[0].node.Gone?
    requires Covered(EntryItems(es[0], abs, rel, depth), f, tr, r1)
    requires var rest := WalkEntries(es[1..], abs, rel, f, r1.0);
             && Covered(FlattenEntries(es[1..], abs, rel, depth), f, r1.0, rest) && EntriesTrace(es[1..], rel, f, r1.0, rest)
             && WalkEntries(es, abs, rel, f, tr) == if r1.1 == Continue then rest else if r1.1 == SkipDir then (r1.0, Continue) else r1
    ensures Covered(EntryItems(es[0], abs, rel, depth), f, tr, WalkEntries(es, abs, rel, f, tr))
    ensures Covered(FlattenEntries(es[1..], abs, rel, depth), f, tr, WalkEntries(es, abs, rel, f, tr))
  {
    hide FlattenEntries, EntryItems, WalkEntries, Excludes, Accounted;
    var here, later := EntryItems(es[0], abs, rel, depth), FlattenEntries(es[1..], abs, rel, depth);
    var r := WalkEntries(es, abs, rel, f, tr);
    if r1.1 == Continue {
      CoveredLonger(here, f, tr, tr, r1, r);
      CoveredEarlier(later, f, tr, r1.0, r);
    } else if r1.1 == SkipDir {
      CoveredLonger(here, f, tr, tr, r1, r);
      var v, path := r1.0[|r1.0| - 1], rel + [es[0].name];
      assert path <= v.rel && v.kind == Enter(es[0].node);
      FileVisitPath(es[0].node, path, f, tr, r1);
      assert Parent(path) == rel;
      SiblingsCovered(es[1..], abs, rel, depth, f, r1.0, |tr|);
    }
  }

  lemma {:induction false} FileVisitPath(n: Node, rel: Path, f: Callback, tr: seq<Visit>, r: (seq<Visit>, Answer))
    requires NodeTrace(n, rel, f, tr, r) && r.1 == SkipDir
    ensures r.0[|r.0| - 1].rel == rel
  {
  }

  // ---------------------------------------------------------------------
  // The whole walk
  // ---------------------------------------------------------------------

  /** The visits of a whole walk are those of its root. */
  lemma {:induction false} RootVisits(n: Node, abs: Path, name: Name, f: Callback)
    requires !n.Gone?
    ensures Scan(RootItems(n, abs, name), f, []).0 == WalkNode(n, abs, name, [], f, []).0
    ensures Scan(RootItems(n, abs, name), f, []).1 == Fail <==> WalkNode(n, abs, name, [], f, []).1 == Fail
    ensures Scan(RootItems(n, abs, name), f, []).1 == SkipAll <==> WalkNode(n, abs, name, [], f, []).1 == SkipAll
  {
    WalkNodeIsScan(n, abs, name, [], 0, f, [], []);
    assert Flatten(n, abs, name, [], 0) + [] == Flatten(n, abs, name, [], 0);
  }

  /**
   In every walk, for every callback: no visit follows one whose answer excludes it,
   and every visit the tree has to offer is made or excluded by an answer, unless a
   directory that cannot be opened ended the walk.
   */
  lemma {:induction false} WalkSkipsExactly(n: Node, abs: Path, name: Name, f: Callback, k: nat)
    requires WellNamed(n) && !n.Gone?
    requires k < |Flatten(n, abs, name, [], 0)| && Flatten(n, abs, name, [], 0)[k].Call?
    ensures var (visits, out) := Scan(RootItems(n, abs, name), f, []);
            && visits != [] && Honoured(f, visits, 0)
            && (Accounted(f, visits, 0, Flatten(n, abs, name, [], 0)[k].visit) || (out == Fail && f(visits) != Fail))
  {
    hide Flatten, Scan, WalkNode, Honoured, Accounted;
    var r := WalkNode(n, abs, name, [], f, []);
    RootVisits(n, abs, name, f);
    NodeTraceHolds(n, abs, name, [], f, []);
    NodeCovers(n, abs, name, [], 0, f, []);
    var w := Flatten(n, abs, name, [], 0)[k].visit;
    if f(r.0) == SkipAll || f(r.0) == Fail {
      LastExcludes(f, r.0, 0, w);
    }
    StoppedByAnswer(n, abs, name, f);
  }

  /** A walk ends in SkipAll only because the last answer says so. */
  lemma {:induction false} StoppedByAnswer(n: Node, abs: Path, name: Name, f: Callback)
    requires WellNamed(n) && !n.Gone?
    ensures WalkNode(n, abs, name, [], f, []).1 == SkipAll ==> f(WalkNode(n, abs, name, [], f, []).0) == SkipAll
  {
    NodeStop(n, abs, name, [], f, []);
  }

  lemma {:induction false} NodeStop(n: Node, abs: Path, name: Name, rel: Path, f: Callback, tr: seq<Visit>)
    ensures WalkNode(n, abs, name, rel, f, tr).1 == SkipAll ==> f(WalkNode(n, abs, name, rel, f, tr).0) == SkipAll
    decreases n, 1
  {
    if n.Dir? && n.openable {
      hide WalkEntries;
      var tr1 := tr + [Visit(Some(abs), rel, Enter(n))];
      EntriesStop(n.entries, abs, rel, f, tr1);
      EntriesStop(n.entries, abs, rel, f, tr1 + [Visit(Some(Resolve(abs, name)), rel, ReadFailed)]);
    }
  }

  lemma {:induction false} EntriesStop(es: seq<Entry>, abs: Path, rel: Path, f: Callback, tr: seq<Visit>)
    ensures WalkEntries(es, abs, rel, f, tr).1 == SkipAll ==> f(WalkEntries(es, abs, rel, f, tr).0) == SkipAll
    decreases es, 0
  {
    if es != [] {
      hide WalkNode;
      var e := es[0];
      if e.node.Gone? {
        EntriesStop(es[1..], abs, rel, f, tr + [Visit(Some(abs + [e.name]), rel + [e.name], StatFailed)]);
      } else {
        var r := WalkNode(e.node, abs + [e.name], e.name, rel + [e.name], f, tr);
        NodeStop(e.node, abs + [e.name], e.name, rel + [e.name], f, tr);
        EntriesStop(es[1..], abs, rel, f, r.0);
      }
    }
  }
}
