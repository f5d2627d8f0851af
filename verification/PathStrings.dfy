/** Slash-separated paths as lists of components, and the string prefix test on them. */
module PathStrings {

  predicate IsComponent(c: string) {
    c != "" && '/' !in c
  }

  predicate Components(cs: seq<string>) {
    forall i :: 0 <= i < |cs| ==> IsComponent(cs[i])
  }

  /** Every component followed by a slash. */
  function Slashed(cs: seq<string>): string {
    if cs == [] then "" else cs[0] + "/" + Slashed(cs[1..])
  }

  /** The components joined by single slashes. */
  function Joined(cs: seq<string>): string {
    if cs == [] then "" else if |cs| == 1 then cs[0] else cs[0] + "/" + Joined(cs[1..])
  }

  function TrimPrefix(s: string, prefix: string): string {
    if prefix <= s then s[|prefix|..] else s
  }

  function TrimSlash(s: string): string {
    if s != "" && s[|s| - 1] == '/' then s[..|s| - 1] else s
  }

  lemma {:induction false} JoinedSlashed(cs: seq<string>)
    requires cs != [] && Components(cs)
    ensures Joined(cs) + "/" == Slashed(cs)
    ensures Joined(cs) != "" && Joined(cs)[0] != '/' && Joined(cs)[|Joined(cs)| - 1] != '/'
  {
    assert IsComponent(cs[0]);
    if |cs| > 1 {
      JoinedSlashed(cs[1..]);
      assert Joined(cs) == cs[0] + "/" + Joined(cs[1..]);
      assert Joined(cs) + "/" == cs[0] + "/" + (Joined(cs[1..]) + "/");
    } else {
      assert Slashed(cs) == cs[0] + "/" + "";
    }
  }

  lemma PrefixCancel(p: string, u: string, v: string)
    ensures p + u <= p + v <==> u <= v
  {
    assert (p + u)[|p|..] == u && (p + v)[|p|..] == v;
    if p + u <= p + v {
      assert (p + v)[..|p + u|][|p|..] == v[..|u|];
    }
    if u <= v {
      assert (p + v)[..|p + u|] == p + v[..|u|];
    }
  }

  lemma FirstSlash(x: string, u: string, y: string, v: string)
    requires '/' !in x && '/' !in y
    ensures x + "/" + u <= y + "/" + v ==> x == y
  {
    var s, t := x + "/" + u, y + "/" + v;
    assert s[|x|] == '/' && t[|y|] == '/';
    assert |x| < |y| ==> t[|x|] == y[|x|];
    assert |y| < |x| ==> s[|y|] == x[|y|];
    if s <= t {
      assert x == s[..|x|] && y == t[..|y|] && t[..|y|] == s[..|x|];
    }
  }

  /** Up to the first slash two strings in prefix relation agree. */
  lemma FirstComponents(x: string, u: string, y: string, v: string)
    requires '/' !in x && '/' !in y
    ensures x + "/" + u <= y + "/" + v <==> x == y && u <= v
  {
    FirstSlash(x, u, y, v);
    PrefixCancel(x + "/", u, v);
  }

  /** With a slash after every component, the string prefix test is the component-wise one. */
  lemma {:induction false} SlashedPrefix(a: seq<string>, b: seq<string>)
    requires Components(a) && Components(b)
    ensures Slashed(b) <= Slashed(a) <==> b <= a
  {
    if b != [] && a != [] {
      assert IsComponent(a[0]) && IsComponent(b[0]);
      FirstComponents(b[0], Slashed(b[1..]), a[0], Slashed(a[1..]));
      SlashedPrefix(a[1..], b[1..]);
      assert b <= a <==> b[0] == a[0] && b[1..] <= a[1..] by {
        if b[0] == a[0] && b[1..] <= a[1..] {
          assert b == [b[0]] + b[1..] && a == [a[0]] + a[1..];
        }
      }
    }
  }

  /** A string whose slashed form is a prefix spells the first components, some number of them. */
  lemma {:induction false} SlashedPrefixSpells(s: string, cs: seq<string>) returns (k: nat)
    requires Components(cs) && s + "/" <= Slashed(cs)
    ensures 0 < k <= |cs| && s == Joined(cs[..k])
    decreases |cs|
  {
    var c, rest := cs[0], Slashed(cs[1..]);
    assert IsComponent(c);
    assert forall i :: 0 <= i < |c| ==> Slashed(cs)[i] == c[i] && c[i] != '/';
    assert (s + "/")[|s|] == '/' && Slashed(cs)[|s|] == '/';
    if |s| == |c| {
      k := 1;
      assert s == Slashed(cs)[..|s|] == c;
      assert cs[..1] == [c];
    } else {
      var tail := s[|c| + 1..];
      assert s == Slashed(cs)[..|s|] && Slashed(cs)[..|c| + 1] == c + "/";
      assert s == c + "/" + tail;
      assert s + "/" == (c + "/") + (tail + "/") && Slashed(cs) == (c + "/") + rest;
      PrefixCancel(c + "/", tail + "/", rest);
      k := SlashedPrefixSpells(tail, cs[1..]);
      assert cs[..k + 1][1..] == cs[1..][..k];
      k := k + 1;
    }
  }
}
