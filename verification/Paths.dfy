/**
 The lexical path jail of internal/ufs/fs_unix.go: `unsafePath` and its prefix
 test, for every clean absolute base and every input string. `filepath.Clean` and
 `filepath.Join` are given by their documented meaning on rooted paths.
 */
module Paths {
  import opened PathStrings

  datatype Result = Ok(path: string) | BadPathResolution

  /** The pieces between slashes, empty ones included. */
  function Split(s: string): (pieces: seq<string>)
    ensures |pieces| > 0
    ensures forall i :: 0 <= i < |pieces| ==> '/' !in pieces[i]
  {
    if s == "" then [""]
    else
      var rest := Split(s[1..]);
      if s[0] == '/' then [""] + rest else [[s[0]] + rest[0]] + rest[1..]
  }

  /** Cleaning, one piece at a time: "" and "." vanish, ".." removes the component before it, if any. */
  function Follow(pieces: seq<string>, at: seq<string>): seq<string> {
    if pieces == [] then at
    else
      var p := pieces[0];
      Follow(pieces[1..],
             if p == "" || p == "." then at
             else if p == ".." then (if at == [] then [] else at[..|at| - 1])
             else at + [p])
  }

  /** A component that cleaning leaves alone. */
  predicate Plain(c: string) {
    IsComponent(c) && c != "." && c != ".."
  }

  predicate PlainPath(cs: seq<string>) {
    forall i :: 0 <= i < |cs| ==> Plain(cs[i])
  }

  function Rooted(cs: seq<string>): string {
    "/" + Joined(cs)
  }

  /** `filepath.Clean` on a rooted path. */
  function Clean(s: string): string {
    Rooted(Follow(Split(s), []))
  }

  /** `filepath.Join` under a rooted base: empty elements are ignored. */
  function Join(base: string, s: string): string {
    if s == "" then Clean(base) else Clean(base + "/" + s)
  }

  predicate InsideOfBase(base: string, p: string) {
    base + "/" <= TrimSlash(p) + "/"
  }

  function UnsafePath(base: string, path: string): Result {
    var r := Clean(Join(base, TrimPrefix(path, base)));
    if InsideOfBase(base, r) then
      var rel := TrimPrefix(TrimPrefix(r, base), "/");
      Ok(if rel == "" then "." else rel)
    else BadPathResolution
  }

  // ---------------------------------------------------------------------
  // Splitting and cleaning
  // ---------------------------------------------------------------------

  lemma {:induction false} SplitAppend(a: string, b: string)
    ensures Split(a + "/" + b) == Split(a) + Split(b)
  {
    if a == "" {
      assert a + "/" + b == ['/'] + b;
      assert (['/'] + b)[1..] == b;
    } else {
      assert (a + "/" + b)[1..] == a[1..] + "/" + b;
      SplitAppend(a[1..], b);
    }
  }

  lemma {:induction false} SplitComponent(c: string)
    requires '/' !in c
    ensures Split(c) == [c]
  {
    if c != "" {
      SplitComponent(c[1..]);
      assert [c[0]] + c[1..] == c;
    }
  }

  lemma {:induction false} SplitJoined(cs: seq<string>)
    requires cs != [] && Components(cs)
    ensures Split(Joined(cs)) == cs
  {
    assert IsComponent(cs[0]);
    SplitComponent(cs[0]);
    if |cs| > 1 {
      SplitAppend(cs[0], Joined(cs[1..]));
      SplitJoined(cs[1..]);
    }
  }

  lemma {:induction false} FollowAppend(a: seq<string>, b: seq<string>, at: seq<string>)
    ensures Follow(a + b, at) == Follow(b, Follow(a, at))
    decreases |a|
  {
    if a == [] {
      assert a + b == b;
    } else {
      assert (a + b)[1..] == a[1..] + b;
      var p := a[0];
      FollowAppend(a[1..], b,
                   if p == "" || p == "." then at
                   else if p == ".." then (if at == [] then [] else at[..|at| - 1])
                   else at + [p]);
    }
  }

  lemma {:induction false} FollowPlain(cs: seq<string>, at: seq<string>)
    requires PlainPath(cs)
    ensures Follow(cs, at) == at + cs
    decreases |cs|
  {
    if cs == [] {
      assert at + cs == at;
    } else {
      assert Plain(cs[0]);
      FollowPlain(cs[1..], at + [cs[0]]);
      assert at + [cs[0]] + cs[1..] == at + cs;
    }
  }

  /** Cleaning leaves only plain components. */
  lemma {:induction false} FollowIsPlain(pieces: seq<string>, at: seq<string>)
    requires PlainPath(at) && forall i :: 0 <= i < |pieces| ==> '/' !in pieces[i]
    ensures PlainPath(Follow(pieces, at))
    decreases |pieces|
  {
    if pieces != [] {
      var p := pieces[0];
      FollowIsPlain(pieces[1..],
                    if p == "" || p == "." then at
                    else if p == ".." then (if at == [] then [] else at[..|at| - 1])
                    else at + [p]);
    }
  }

  lemma FollowRooted(cs: seq<string>)
    requires PlainPath(cs)
    ensures Follow(Split(Rooted(cs)), []) == cs
  {
    SplitAppend("", Joined(cs));
    assert "" + "/" + Joined(cs) == Rooted(cs);
    assert Split("") == [""];
    FollowAppend([""], Split(Joined(cs)), []);
    assert Follow([""], []) == [];
    if cs == [] {
      assert Split(Joined(cs)) == [""];
    } else {
      assert forall i :: 0 <= i < |cs| ==> Plain(cs[i]);
      SplitJoined(cs);
      FollowPlain(cs, []);
      assert [] + cs == cs;
    }
  }

  /** Clean is idempotent. */
  lemma CleanTwice(s: string)
    ensures Clean(Clean(s)) == Clean(s)
  {
    FollowIsPlain(Split(s), []);
    FollowRooted(Follow(Split(s), []));
  }

  /** Joining walks the pieces of the second path starting from the base. */
  lemma {:induction false} JoinFollows(bs: seq<string>, s: string)
    requires PlainPath(bs)
    ensures PlainPath(Follow(Split(s), bs))
    ensures Join(Rooted(bs), s) == Rooted(Follow(Split(s), bs))
    ensures Clean(Join(Rooted(bs), s)) == Rooted(Follow(Split(s), bs))
  {
    FollowRooted(bs);
    FollowIsPlain(Split(s), bs);
    SplitAppend(Rooted(bs), s);
    FollowAppend(Split(Rooted(bs)), Split(s), []);
    if s == "" {
      assert Split(s) == [""];
      assert Follow([""], bs) == bs;
    }
    FollowRooted(Follow(Split(s), bs));
  }

  // ---------------------------------------------------------------------
  // The prefix test
  // ---------------------------------------------------------------------

  lemma TrimSlashKeeps(s: string)
    requires s != "" && s[|s| - 1] != '/'
    ensures TrimSlash(s) == s
  {
  }

  lemma {:induction false} RootedSlashed(cs: seq<string>)
    requires PlainPath(cs)
    ensures TrimSlash(Rooted(cs)) + "/" == "/" + Slashed(cs)
    ensures cs != [] ==> Rooted(cs) + "/" == "/" + Slashed(cs)
  {
    if cs == [] {
      assert Rooted(cs) == "/" && Slashed(cs) == "";
    } else {
      hide Joined, Slashed, TrimSlash;
      PlainAreComponents(cs);
      JoinedSlashed(cs);
      var joined := Joined(cs);
      assert Rooted(cs) == "/" + joined;
      assert Rooted(cs)[|Rooted(cs)| - 1] == joined[|joined| - 1];
      TrimSlashKeeps(Rooted(cs));
      assert "/" + joined + "/" == "/" + (joined + "/");
    }
  }

  lemma PlainAreComponents(cs: seq<string>)
    requires PlainPath(cs)
    ensures Components(cs)
  {
    assert forall i :: 0 <= i < |cs| ==> Plain(cs[i]);
  }

  /** The string prefix test is the component-wise one, except that the base "/" contains nothing. */
  lemma InsideIsPrefix(bs: seq<string>, rs: seq<string>)
    requires PlainPath(bs) && PlainPath(rs)
    ensures InsideOfBase(Rooted(bs), Rooted(rs)) <==> bs != [] && bs <= rs
  {
    PlainAreComponents(bs);
    PlainAreComponents(rs);
    RootedSlashed(bs);
    RootedSlashed(rs);
    if bs == [] {
      assert Rooted(bs) + "/" == "//";
      if rs != [] {
        hide Joined, Slashed, TrimSlash, Components;
        JoinedSlashed(rs);
        assert Slashed(rs) == Joined(rs) + "/" && ("/" + Slashed(rs))[1] != '/';
      }
    } else {
      hide Joined, Slashed, TrimSlash, Rooted, Components;
      SlashedPrefix(rs, bs);
      PrefixCancel("/", Slashed(bs), Slashed(rs));
    }
  }

  /** What is left of a path inside the base once the base is trimmed off. */
  lemma {:induction false} JoinedAppend(a: seq<string>, b: seq<string>)
    requires a != [] && b != []
    ensures Joined(a + b) == Joined(a) + "/" + Joined(b)
  {
    if |a| == 1 {
      assert (a + b)[1..] == b;
    } else {
      assert (a + b)[1..] == a[1..] + b;
      JoinedAppend(a[1..], b);
    }
  }

  function Relative(cs: seq<string>): string {
    if cs == [] then "." else Joined(cs)
  }

  lemma TrimmedRemainder(bs: seq<string>, rest: seq<string>)
    requires bs != [] && PlainPath(bs) && PlainPath(rest)
    ensures var rel := TrimPrefix(TrimPrefix(Rooted(bs + rest), Rooted(bs)), "/");
            (if rel == "" then "." else rel) == Relative(rest)
  {
    hide TrimPrefix, Joined, Slashed;
    assert forall i :: 0 <= i < |rest| ==> Plain(rest[i]);
    if rest == [] {
      assert bs + rest == bs && Rooted(bs) + "" == Rooted(bs);
      TrimExact(Rooted(bs), "");
      TrimEmpty();
    } else {
      JoinedAppend(bs, rest);
      JoinedSlashed(rest);
      var tail := "/" + Joined(rest);
      assert Rooted(bs + rest) == Rooted(bs) + tail;
      TrimExact(Rooted(bs), tail);
      TrimExact("/", Joined(rest));
    }
  }

  // ---------------------------------------------------------------------
  // The main results
  // ---------------------------------------------------------------------

  /**
   For every clean absolute base other than "/" and every input: with `x` the input
   without the base in front, the call succeeds exactly when following the pieces of
   `x` from the base ends inside the base, and then returns the components below it.
   */
  lemma {:induction false} UnsafePathMeaning(bs: seq<string>, path: string)
    requires bs != [] && PlainPath(bs)
    ensures var rs := Follow(Split(TrimPrefix(path, Rooted(bs))), bs);
            PlainPath(rs) &&
            UnsafePath(Rooted(bs), path) == if bs <= rs then Ok(Relative(rs[|bs|..])) else BadPathResolution
  {
    hide Follow, Split, TrimPrefix, InsideOfBase, Rooted, Clean, Join, Relative;
    var x := TrimPrefix(path, Rooted(bs));
    var rs := Follow(Split(x), bs);
    JoinFollows(bs, x);
    InsideIsPrefix(bs, rs);
    if bs <= rs {
      assert rs == bs + rs[|bs|..];
      assert PlainPath(rs[|bs|..]);
      TrimmedRemainder(bs, rs[|bs|..]);
    }
  }

  /** The base "/" rejects every path, its own included. */
  lemma RootBaseRejectsAll(path: string)
    ensures UnsafePath("/", path) == BadPathResolution
  {
    var x := TrimPrefix(path, "/");
    assert Rooted([]) == "/";
    JoinFollows([], x);
    InsideIsPrefix([], Follow(Split(x), []));
  }

  /** Going back: a relative plain path resolves to itself. */
  lemma ResolveRelative(bs: seq<string>, cs: seq<string>)
    requires bs != [] && PlainPath(bs) && PlainPath(cs)
    ensures Join(Rooted(bs), Relative(cs)) == Rooted(bs + cs)
    ensures UnsafePath(Rooted(bs), Relative(cs)) == Ok(Relative(cs))
  {
    var s := Relative(cs);
    assert forall i :: 0 <= i < |cs| ==> Plain(cs[i]);
    if cs == [] {
      SplitComponent(".");
      assert Follow(["."], bs) == bs;
      assert bs + cs == bs;
    } else {
      SplitJoined(cs);
      FollowPlain(cs, bs);
      JoinedSlashed(cs);
    }
    assert s[0] != '/' && Rooted(bs)[0] == '/';
    assert TrimPrefix(s, Rooted(bs)) == s;
    JoinFollows(bs, s);
    UnsafePathMeaning(bs, s);
    assert (bs + cs)[|bs|..] == cs;
  }

  /**
   Whatever `unsafePath` accepts is a relative clean path without parent components;
   joining it to the base gives back the cleaned joined path, and resolving it again
   changes nothing.
   */
  lemma AcceptedPathsAreSafe(bs: seq<string>, path: string)
    requires bs != [] && PlainPath(bs)
    requires UnsafePath(Rooted(bs), path).Ok?
    ensures var r := UnsafePath(Rooted(bs), path).path;
            && (exists cs :: PlainPath(cs) && r == Relative(cs))
            && Join(Rooted(bs), r) == Join(Rooted(bs), TrimPrefix(path, Rooted(bs)))
            && UnsafePath(Rooted(bs), r) == Ok(r)
  {
    hide UnsafePath, Follow, Split, Join, Clean, Rooted, TrimPrefix, Relative;
    UnsafePathMeaning(bs, path);
    var x := TrimPrefix(path, Rooted(bs));
    var rs := Follow(Split(x), bs);
    var cs := rs[|bs|..];
    assert PlainPath(cs) && rs == bs + cs;
    ResolveRelative(bs, cs);
    JoinFollows(bs, x);
  }

  lemma {:induction false} EmptyPiece(at: seq<string>)
    ensures Split("") == [""] && Follow([""], at) == at
  {
  }

  lemma TrimExact(a: string, b: string)
    ensures TrimPrefix(a + b, a) == b
  {
  }

  lemma TrimEmpty()
    ensures TrimPrefix("", "/") == ""
  {
  }

  lemma {:induction false} AbsoluteRemainder(bs: seq<string>, cs: seq<string>)
    requires bs != [] && PlainPath(bs) && PlainPath(cs)
    ensures Follow(Split(TrimPrefix(Rooted(bs + cs), Rooted(bs))), bs) == bs + cs
  {
    hide Follow, Split, TrimPrefix;
    EmptyPiece(bs);
    if cs == [] {
      assert bs + cs == bs;
      assert Rooted(bs) + "" == Rooted(bs);
      TrimExact(Rooted(bs), "");
    } else {
      assert forall i :: 0 <= i < |cs| ==> Plain(cs[i]);
      JoinedAppend(bs, cs);
      TrimExact(Rooted(bs), "" + "/" + Joined(cs));
      assert Rooted(bs + cs) == Rooted(bs) + ("" + "/" + Joined(cs));
      SplitAppend("", Joined(cs));
      SplitJoined(cs);
      FollowAppend([""], cs, bs);
      FollowPlain(cs, bs);
    }
  }

  /** An absolute path below the base resolves to its components below the base. */
  lemma ResolveAbsolute(bs: seq<string>, cs: seq<string>)
    requires bs != [] && PlainPath(bs) && PlainPath(cs)
    ensures UnsafePath(Rooted(bs), Rooted(bs + cs)) == Ok(Relative(cs))
  {
    hide Follow, Split, UnsafePath;
    AbsoluteRemainder(bs, cs);
    UnsafePathMeaning(bs, Rooted(bs + cs));
    assert (bs + cs)[|bs|..] == cs;
  }

  // ---------------------------------------------------------------------
  // What parent pieces do
  // ---------------------------------------------------------------------

  /** How many more ".." than plain pieces there are. */
  function Net(pieces: seq<string>): int {
    if pieces == [] then 0
    else
      var p := pieces[|pieces| - 1];
      Net(pieces[..|pieces| - 1]) + if p == ".." then 1 else if p == "" || p == "." then 0 else -1
  }

  /** The largest such excess at any point: how far the path climbs above where it started. */
  function Climb(pieces: seq<string>): nat {
    if pieces == [] then 0
    else
      var before := Climb(pieces[..|pieces| - 1]);
      if Net(pieces) > before then Net(pieces) else before
  }

  /** The plain pieces that no later ".." takes back. */
  function Standing(pieces: seq<string>): seq<string> {
    if pieces == [] then []
    else
      var before, p := Standing(pieces[..|pieces| - 1]), pieces[|pieces| - 1];
      if p == "" || p == "." then before
      else if p != ".." then before + [p]
      else if before == [] then [] else before[..|before| - 1]
  }

  lemma {:induction false} ClimbIsLargest(pieces: seq<string>, k: nat)
    requires k <= |pieces|
    ensures Net(pieces[..k]) <= Climb(pieces)
    decreases |pieces|
  {
    if k < |pieces| {
      ClimbIsLargest(pieces[..|pieces| - 1], k);
      assert pieces[..|pieces| - 1][..k] == pieces[..k];
    } else {
      assert pieces[..k] == pieces;
    }
  }

  lemma {:induction false} ClimbIsReached(pieces: seq<string>) returns (k: nat)
    ensures k <= |pieces| && Net(pieces[..k]) == Climb(pieces)
    decreases |pieces|
  {
    if pieces == [] || Climb(pieces) == Net(pieces) {
      k := |pieces|;
      assert pieces[..k] == pieces;
    } else {
      k := ClimbIsReached(pieces[..|pieces| - 1]);
      assert pieces[..|pieces| - 1][..k] == pieces[..k];
    }
  }

  lemma {:induction false} StandingCount(pieces: seq<string>)
    ensures |Standing(pieces)| == Climb(pieces) - Net(pieces)
  {
    if pieces != [] {
      StandingCount(pieces[..|pieces| - 1]);
    }
  }

  lemma {:induction false} FollowLast(pieces: seq<string>, at: seq<string>)
    requires pieces != []
    ensures var before, p := Follow(pieces[..|pieces| - 1], at), pieces[|pieces| - 1];
            Follow(pieces, at) ==
            if p == "" || p == "." then before
            else if p == ".." then (if before == [] then [] else before[..|before| - 1])
            else before + [p]
  {
    var rest, p := pieces[..|pieces| - 1], pieces[|pieces| - 1];
    FollowAppend(rest, [p], at);
    assert rest + [p] == pieces;
    assert [p][1..] == [];
    assert Follow([p], Follow(rest, at)) ==
           if p == "" || p == "." then Follow(rest, at)
           else if p == ".." then (if Follow(rest, at) == [] then [] else Follow(rest, at)[..|Follow(rest, at)| - 1])
           else Follow(rest, at) + [p];
  }

  /** What is left of a place after climbing. */
  function Above(at: seq<string>, n: nat): seq<string> {
    if n >= |at| then [] else at[..|at| - n]
  }

  /** What the last piece does to the climb and to the pieces that stand. */
  lemma {:induction false} ClimbStep(pieces: seq<string>)
    requires pieces != []
    ensures var rest, p := pieces[..|pieces| - 1], pieces[|pieces| - 1];
            var standing := Standing(rest);
            && Climb(pieces) == Climb(rest) + (if p == ".." && standing == [] then 1 else 0)
            && Standing(pieces) == if p == "" || p == "." then standing
                                   else if p != ".." then standing + [p]
                                   else if standing == [] then [] else standing[..|standing| - 1]
  {
    StandingCount(pieces[..|pieces| - 1]);
  }

  /** Following pieces from a place: climb, then descend the pieces that stand. */
  lemma {:induction false} FollowClimbs(pieces: seq<string>, at: seq<string>)
    ensures Follow(pieces, at) == Above(at, Climb(pieces)) + Standing(pieces)
  {
    if pieces == [] {
      assert at + [] == at;
    } else {
      hide Follow, Climb, Standing;
      var rest, p := pieces[..|pieces| - 1], pieces[|pieces| - 1];
      FollowClimbs(rest, at);
      FollowLast(pieces, at);
      ClimbStep(pieces);
      var up, standing := Above(at, Climb(rest)), Standing(rest);
      if p == ".." && standing == [] {
        assert up + [] == up;
        AboveOnce(at, Climb(rest));
      } else if p == ".." {
        assert (up + standing)[..|up + standing| - 1] == up + standing[..|standing| - 1];
      } else if p != "" && p != "." {
        assert up + standing + [p] == up + (standing + [p]);
      }
    }
  }

  lemma {:induction false} AboveOnce(at: seq<string>, n: nat)
    ensures var up := Above(at, n); Above(at, n + 1) + [] == if up == [] then [] else up[..|up| - 1]
  {
  }

  /**
   The jail in terms of the input alone. A path that never has more ".." than plain
   pieces behind it stays inside and is accepted. One that climbs above the base is
   accepted exactly if the pieces that stand lead back through the components it
   climbed out of.
   */
  lemma {:induction false} JailExactly(bs: seq<string>, path: string)
    requires bs != [] && PlainPath(bs)
    ensures var pieces := Split(TrimPrefix(path, Rooted(bs)));
            var standing, up := Standing(pieces), if Climb(pieces) < |bs| then Climb(pieces) else |bs|;
            UnsafePath(Rooted(bs), path) ==
            if bs[|bs| - up..] <= standing then Ok(Relative(standing[up..])) else BadPathResolution
  {
    hide UnsafePath, Follow, Split, Rooted, TrimPrefix, Relative, Climb, Standing;
    var pieces := Split(TrimPrefix(path, Rooted(bs)));
    UnsafePathMeaning(bs, path);
    FollowClimbs(pieces, bs);
    var standing, up := Standing(pieces), if Climb(pieces) < |bs| then Climb(pieces) else |bs|;
    ReEntry(bs, up, standing);
    assert Above(bs, Climb(pieces)) == bs[..|bs| - up];
  }

  lemma {:induction false} ReEntry(bs: seq<string>, up: nat, standing: seq<string>)
    requires up <= |bs|
    ensures var rs := bs[..|bs| - up] + standing;
            (bs <= rs <==> bs[|bs| - up..] <= standing) && (bs <= rs ==> rs[|bs|..] == standing[up..])
  {
    var n := |bs| - up;
    var rs := bs[..n] + standing;
    assert bs == bs[..n] + bs[n..];
    if bs[n..] <= standing {
      assert rs[..|bs|] == bs[..n] + standing[..up] == bs;
    }
    if bs <= rs {
      assert rs[n..] == standing && rs[..|bs|][n..] == standing[..up];
    }
  }

  /** More ".." than plain pieces at some point, and the base is not entered again: rejected. */
  lemma EscapeIsRejected(bs: seq<string>, path: string, k: nat)
    requires bs != [] && PlainPath(bs)
    requires var pieces := Split(TrimPrefix(path, Rooted(bs)));
             && k <= |pieces| && Net(pieces[..k]) > 0
             && (Standing(pieces) == [] || Standing(pieces)[0] !in bs)
    ensures UnsafePath(Rooted(bs), path) == BadPathResolution
  {
    hide UnsafePath, Follow, Split, Rooted, TrimPrefix, Relative, Standing;
    var pieces := Split(TrimPrefix(path, Rooted(bs)));
    ClimbIsLargest(pieces, k);
    JailExactly(bs, path);
    var up := if Climb(pieces) < |bs| then Climb(pieces) else |bs|;
    assert bs[|bs| - up..][0] in bs;
  }
}
