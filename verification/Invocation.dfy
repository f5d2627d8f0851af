/**
 The startup command of environment/winproc/invocation.go: placeholder
 substitution followed by the tokenizer.
 */
module Invocation {
  import opened Tokenizer

  // ---------------------------------------------------------------------
  // Placeholders
  // ---------------------------------------------------------------------

  predicate IsSpace(c: char) {
    IsBlank(c) || c == '\U{c}'
  }

  predicate IsNameStart(c: char) {
    'A' <= c <= 'Z' || 'a' <= c <= 'z' || c == '_'
  }

  predicate IsNameChar(c: char) {
    IsNameStart(c) || '0' <= c <= '9'
  }

  /** The end of the run of characters satisfying `p` that starts at `i`. */
  function RunEnd(s: string, i: nat, p: char -> bool): (j: nat)
    requires i <= |s|
    ensures i <= j <= |s|
    ensures forall k :: i <= k < j ==> p(s[k])
    ensures j < |s| ==> !p(s[j])
    decreases |s| - i
  {
    if i < |s| && p(s[i]) then RunEnd(s, i + 1, p) else i
  }

  /**
   The match of the placeholder expression at the start of `s`: its length and the
   variable's name. The three runs are over disjoint character classes, so there is
   only one way to match.
   */
  function Placeholder(s: string): (r: Option<(nat, string)>)
    ensures r.Some? ==> 0 < r.value.0 <= |s|
  {
    if |s| < 2 || s[0] != '{' || s[1] != '{' then None
    else
      var a := RunEnd(s, 2, IsSpace);
      if a == |s| || !IsNameStart(s[a]) then None
      else
        var b := RunEnd(s, a, IsNameChar);
        var end := Closing(s, b);
        if end.Some? then Some((end.value, s[a..b])) else None
  }

  /** Where a placeholder ends whose name ends at `b`. */
  function Closing(s: string, b: nat): (r: Option<nat>)
    requires b <= |s|
    ensures r.Some? ==> b + 2 <= r.value <= |s|
  {
    var c := RunEnd(s, b, IsSpace);
    if c + 2 <= |s| && s[c] == '}' && s[c + 1] == '}' then Some(c + 2) else None
  }

  /** Unknown variables are empty. */
  function Value(env: map<string, string>, name: string): string {
    if name in env then env[name] else ""
  }

  /** Every placeholder, from left to right, replaced by its value. */
  function Substitute(s: string, env: map<string, string>): string
    decreases |s|
  {
    if s == "" then ""
    else
      var m := Placeholder(s);
      if m.Some? then Value(env, m.value.1) + Substitute(s[m.value.0..], env)
      else [s[0]] + Substitute(s[1..], env)
  }

  // ---------------------------------------------------------------------
  // Substituting before tokenizing
  // ---------------------------------------------------------------------

  predicate QuoteFree(s: string) {
    forall i :: 0 <= i < |s| ==> !IsQuote(s[i])
  }

  /** Every placeholder is written without blanks and its value, which may well be empty, has no quotes. */
  ghost predicate Tame(s: string, env: map<string, string>) {
    s == "" ||
    (&& Tame(s[1..], env)
     && (Placeholder(s).Some? ==>
           var (n, name) := Placeholder(s).value;
           QuoteFree(Value(env, name)) && forall i :: 0 <= i < n ==> !IsBlank(s[i])))
  }

  lemma {:induction false} RunEndPrefix(s: string, k: nat, i: nat, p: char -> bool)
    requires i <= k <= |s|
    ensures RunEnd(s[..k], i, p) == if RunEnd(s, i, p) < k then RunEnd(s, i, p) else k
    decreases k - i
  {
    if i < k && p(s[i]) {
      RunEndPrefix(s, k, i + 1, p);
    }
  }

  lemma SliceOfPrefix(s: string, k: nat, a: nat, b: nat)
    requires a <= b <= k <= |s|
    ensures s[..k][a..b] == s[a..b]
  {
  }

  lemma ClosingPrefix(s: string, k: nat, b: nat)
    requires b <= k <= |s|
    ensures Closing(s[..k], b) ==
            if Closing(s, b).Some? && Closing(s, b).value <= k then Closing(s, b) else None
  {
    RunEndPrefix(s, k, b, IsSpace);
  }

  /** A prefix of the text shows the same placeholder exactly when it contains it. */
  lemma PlaceholderPrefix(s: string, k: nat)
    requires k <= |s|
    ensures Placeholder(s[..k]) ==
            if Placeholder(s).Some? && Placeholder(s).value.0 <= k then Placeholder(s) else None
  {
    hide RunEnd, Closing;
    var t := s[..k];
    if k >= 2 && s[0] == '{' && s[1] == '{' {
      var a := RunEnd(s, 2, IsSpace);
      RunEndPrefix(s, k, 2, IsSpace);
      if a < k && IsNameStart(s[a]) {
        var b := RunEnd(s, a, IsNameChar);
        RunEndPrefix(s, k, a, IsNameChar);
        if b < k {
          ClosingPrefix(s, k, b);
          SliceOfPrefix(s, k, a, b);
        }
      }
    }
  }

  lemma {:induction false} TameSuffix(s: string, env: map<string, string>, n: nat)
    requires Tame(s, env) && n <= |s|
    ensures Tame(s[n..], env)
  {
    if n > 0 {
      TameSuffix(s[1..], env, n - 1);
      assert s[1..][n - 1..] == s[n..];
    }
  }

  lemma {:induction false} TamePrefix(s: string, env: map<string, string>, k: nat)
    requires Tame(s, env) && k <= |s|
    ensures Tame(s[..k], env)
    decreases |s|
  {
    if k > 0 {
      TamePrefix(s[1..], env, k - 1);
      assert s[..k][1..] == s[1..][..k - 1];
      PlaceholderPrefix(s, k);
    }
  }

  /** The end of the first word. */
  function WordEnd(s: string): (k: nat)
    ensures k <= |s|
  {
    RunEnd(s, 0, c => !IsBlank(c))
  }

  /** What substitution does first: how much it consumes and what it writes. */
  function Head(s: string, env: map<string, string>): (r: (nat, string))
    requires s != ""
    ensures 0 < r.0 <= |s|
  {
    match Placeholder(s)
    case Some(m) => (m.0, Value(env, m.1))
    case None => (1, [s[0]])
  }

  lemma {:induction false} SubstituteStep(s: string, env: map<string, string>)
    requires s != ""
    ensures Substitute(s, env) == Head(s, env).1 + Substitute(s[Head(s, env).0..], env)
  {
    hide Placeholder, Value;
  }

  lemma {:induction false} TamePlaceholder(s: string, env: map<string, string>)
    requires Tame(s, env) && s != ""
    ensures Placeholder(s).Some? ==> forall i :: 0 <= i < Placeholder(s).value.0 ==> !IsBlank(s[i])
  {
  }

  lemma HeadAtBlank(s: string, env: map<string, string>)
    requires s != "" && IsBlank(s[0])
    ensures Head(s, env) == (1, [s[0]])
  {
  }

  /** A blank is never part of a tame placeholder, so the text before it begins the same way. */
  lemma {:induction false} HeadPrefix(s: string, env: map<string, string>, k: nat)
    requires Tame(s, env) && 0 < k < |s| && IsBlank(s[k])
    ensures Head(s, env).0 <= k && Head(s[..k], env) == Head(s, env)
  {
    hide Placeholder;
    PlaceholderPrefix(s, k);
    TamePlaceholder(s, env);
  }

  /** Substitution works word by word. */
  lemma {:induction false} SubstituteSplits(s: string, env: map<string, string>, k: nat)
    requires Tame(s, env) && k < |s| && IsBlank(s[k]) && forall i :: 0 <= i < k ==> !IsBlank(s[i])
    ensures Substitute(s, env) == Substitute(s[..k], env) + [s[k]] + Substitute(s[k + 1..], env)
    decreases k
  {
    hide Placeholder, Head, Substitute, Tame;
    SubstituteStep(s, env);
    if k == 0 {
      HeadAtBlank(s, env);
      SubstituteNothing(env);
      assert s[..k] == "";
    } else {
      HeadPrefix(s, env, k);
      var n := Head(s, env).0;
      TameSuffix(s, env, n);
      SubstituteSplits(s[n..], env, k - n);
      SubstituteStep(s[..k], env);
      assert s[n..][..k - n] == s[..k][n..] && s[n..][k - n + 1..] == s[k + 1..];
    }
  }

  lemma {:induction false} SubstituteIsQuoteFree(s: string, env: map<string, string>)
    requires Tame(s, env) && QuoteFree(s)
    ensures QuoteFree(Substitute(s, env))
    decreases |s|
  {
    if s != "" {
      if Placeholder(s).Some? {
        var n := Placeholder(s).value.0;
        TameSuffix(s, env, n);
        SubstituteIsQuoteFree(s[n..], env);
      } else {
        SubstituteIsQuoteFree(s[1..], env);
      }
    }
  }

  /** Splitting at blanks: what tokenizing means without quotes. */
  function Words(s: string): seq<string>
    decreases |s|
  {
    var k := WordEnd(s);
    (if k == 0 then [] else [s[..k]]) + (if k == |s| then [] else Words(s[k + 1..]))
  }

  /** One word and the blank after it. */
  lemma {:induction false} FeedWordAndBlank(args: seq<string>, w: string, c: char, rest: string)
    requires Unbroken(w) && IsBlank(c)
    ensures FeedAll(Scanner(args, "", false, None), w + ([c] + rest)) ==
            FeedAll(Scanner(if w == "" then args else args + [w], "", false, None), rest)
  {
    var t := Scanner(args, "", false, None);
    FeedAppend(t, w, [c] + rest);
    FeedPlain(t, w);
    assert "" + w == w;
    assert ([c] + rest)[0] == c && ([c] + rest)[1..] == rest;
  }

  lemma {:induction false} WordsStep(s: string)
    ensures var k := WordEnd(s);
            && Unbroken(s[..k]) == QuoteFree(s[..k])
            && (k == |s| ==> Words(s) == if s == "" then [] else [s])
            && (k < |s| ==> IsBlank(s[k]) && Words(s) == (if k == 0 then [] else [s[..k]]) + Words(s[k + 1..]))
  {
    assert s[..|s|] == s;
  }

  lemma {:induction false} FeedWordsOf(args: seq<string>, s: string)
    requires QuoteFree(s)
    ensures Finish(FeedAll(Scanner(args, "", false, None), s)) == args + Words(s)
    decreases |s|
  {
    hide FeedAll, Feed, Words, WordEnd;
    var k := WordEnd(s);
    WordsStep(s);
    if k == |s| {
      assert s[..k] == s;
      FeedPlain(Scanner(args, "", false, None), s);
      assert "" + s == s;
      assert s == "" ==> args + Words(s) == args;
    } else {
      var w, rest := s[..k], s[k + 1..];
      assert s == w + ([s[k]] + rest);
      FeedWordAndBlank(args, w, s[k], rest);
      var args' := if w == "" then args else args + [w];
      FeedWordsOf(args', rest);
      assert args' + Words(rest) == args + Words(s);
    }
  }

  lemma {:induction false} TokensAreWords(s: string)
    requires QuoteFree(s)
    ensures Tokens(s) == Words(s)
  {
    FeedWordsOf([], s);
    assert [] + Words(s) == Words(s);
  }

  function SubstituteEach(args: seq<string>, env: map<string, string>): (r: seq<string>)
    ensures |r| == |args|
  {
    seq(|args|, i requires 0 <= i < |args| => Substitute(args[i], env))
  }

  lemma WordEndIs(s: string, k: nat)
    requires k <= |s| && (forall i :: 0 <= i < k ==> !IsBlank(s[i])) && (k < |s| ==> IsBlank(s[k]))
    ensures WordEnd(s) == k
  {
  }

  lemma {:induction false} WordsAtBlank(s: string, k: nat)
    requires k < |s| && IsBlank(s[k]) && forall i :: 0 <= i < k ==> !IsBlank(s[i])
    ensures Words(s) == (if k == 0 then [] else [s[..k]]) + Words(s[k + 1..])
  {
    hide Words, WordEnd;
    WordEndIs(s, k);
    WordsStep(s);
  }

  lemma {:induction false} WordsWithoutBlank(s: string)
    requires forall i :: 0 <= i < |s| ==> !IsBlank(s[i])
    ensures Words(s) == if s == "" then [] else [s]
  {
    hide Words, WordEnd;
    WordEndIs(s, |s|);
    WordsStep(s);
  }

  /** A blank separates words, whatever stands on either side. */
  lemma {:induction false} WordsAppend(a: string, c: char, b: string)
    requires IsBlank(c)
    ensures Words(a + [c] + b) == Words(a) + Words(b)
    decreases |a|
  {
    hide Words, WordEnd;
    var s, k := a + [c] + b, WordEnd(a);
    WordEndSplits(a);
    WordsAtBlank(s, k);
    if k == |a| {
      WordsWithoutBlank(a);
      assert s[..k] == a && s[k + 1..] == b;
    } else {
      WordsAtBlank(a, k);
      assert s[..k] == a[..k] && s[k + 1..] == a[k + 1..] + [c] + b;
      WordsAppend(a[k + 1..], c, b);
    }
  }

  lemma WordEndSplits(s: string)
    ensures forall i :: 0 <= i < WordEnd(s) ==> !IsBlank(s[i])
    ensures WordEnd(s) < |s| ==> IsBlank(s[WordEnd(s)])
  {
  }

  /** A word as the tokenizer knows it. */
  predicate Solid(w: string) {
    w != "" && forall i :: 0 <= i < |w| ==> !IsBlank(w[i])
  }

  lemma {:induction false} SolidIsOneWord(w: string)
    requires Solid(w)
    ensures Words(w) == [w]
  {
    WordEndIs(w, |w|);
    assert w[..|w|] == w;
  }

  lemma {:induction false} WordsAreSolid(s: string, i: nat)
    requires i < |Words(s)|
    ensures Solid(Words(s)[i])
    decreases |s|
  {
    hide Words, WordEnd;
    var k := WordEnd(s);
    WordsStep(s);
    WordEndSplits(s);
    if k < |s| && (i > 0 || k == 0) {
      WordsAreSolid(s[k + 1..], if k == 0 then i else i - 1);
    }
  }

  /** The words of the substituted arguments, one after the other. */
  function WordsOfEach(args: seq<string>, env: map<string, string>): seq<string> {
    if args == [] then [] else Words(Substitute(args[0], env)) + WordsOfEach(args[1..], env)
  }

  lemma {:induction false} WordsOfEachCons(w: string, args: seq<string>, env: map<string, string>)
    ensures WordsOfEach([w] + args, env) == Words(Substitute(w, env)) + WordsOfEach(args, env)
  {
    assert ([w] + args)[1..] == args;
  }

  lemma {:induction false} NoWords(env: map<string, string>)
    ensures Words("") == [] && WordsOfEach([], env) == []
  {
  }

  /** The words of a substituted text are those of its substituted words. */
  lemma {:induction false} WordsOfSubstituted(s: string, env: map<string, string>)
    requires Tame(s, env)
    ensures Words(Substitute(s, env)) == WordsOfEach(Words(s), env)
    decreases |s|
  {
    hide Substitute, Words, WordEnd, Tame, WordsOfEach;
    var k := WordEnd(s);
    WordsStep(s);
    WordEndSplits(s);
    SubstituteNothing(env);
    NoWords(env);
    if k == |s| {
      if s != "" {
        WordsOfEachCons(s, [], env);
        assert [s] + [] == [s];
      }
    } else {
      var w, rest := s[..k], s[k + 1..];
      SubstituteSplits(s, env, k);
      TameSuffix(s, env, k + 1);
      WordsOfSubstituted(rest, env);
      WordsAppend(Substitute(w, env), s[k], Substitute(rest, env));
      if k > 0 {
        WordsOfEachCons(w, Words(rest), env);
      } else {
        assert w == "" && Words(s) == Words(rest);
      }
    }
  }

  /** Where every substituted word is a word, each is its own only word. */
  lemma {:induction false} SolidEach(args: seq<string>, env: map<string, string>)
    requires forall i :: 0 <= i < |args| ==> Solid(Substitute(args[i], env))
    ensures WordsOfEach(args, env) == SubstituteEach(args, env)
    decreases |args|
  {
    hide Substitute, Words;
    if args != [] {
      SolidEach(args[1..], env);
      SolidIsOneWord(Substitute(args[0], env));
      assert SubstituteEach(args, env) == [Substitute(args[0], env)] + SubstituteEach(args[1..], env);
    }
  }

  lemma {:induction false} SubstituteNothing(env: map<string, string>)
    ensures Substitute("", env) == ""
  {
  }

  /**
   With a quote-free template and tame placeholders, substituting before tokenizing
   gives the arguments that tokenizing first and substituting in each would give, if
   and only if every word still is one afterwards: not empty, and without blanks.
   */
  lemma {:induction false} SubstitutionRespectsArguments(template: string, env: map<string, string>)
    requires QuoteFree(template) && Tame(template, env)
    ensures Tokens(Substitute(template, env)) == SubstituteEach(Tokens(template), env) <==>
            forall i :: 0 <= i < |Tokens(template)| ==> Solid(Substitute(Tokens(template)[i], env))
  {
    hide Substitute, Words, WordsOfEach, Tame, Tokens, Solid;
    SubstituteIsQuoteFree(template, env);
    WordsOfSubstituted(template, env);
    TokensAreWords(template);
    TokensAreWords(Substitute(template, env));
    var args, result := Words(template), Words(Substitute(template, env));
    if forall i :: 0 <= i < |args| ==> Solid(Substitute(args[i], env)) {
      SolidEach(args, env);
    }
    if result == SubstituteEach(args, env) {
      forall i | 0 <= i < |args| ensures Solid(Substitute(args[i], env)) {
        WordsAreSolid(Substitute(template, env), i);
      }
    }
  }

  // ---------------------------------------------------------------------
  // What substitution means
  // ---------------------------------------------------------------------

  predicate LegalName(name: string) {
    name != "" && IsNameStart(name[0]) && forall i :: 0 <= i < |name| ==> IsNameChar(name[i])
  }

  /** A placeholder as it is written: a name between double braces, with white space around it. */
  datatype Variable = Variable(before: string, name: string, after: string) {
    predicate Valid() {
      && LegalName(name)
      && (forall i :: 0 <= i < |before| ==> IsSpace(before[i]))
      && (forall i :: 0 <= i < |after| ==> IsSpace(after[i]))
    }
    function Show(): string {
      "{{" + before + name + after + "}}"
    }
  }

  /** A text cut into plain stretches and placeholders. */
  datatype Piece = Text(text: string) | Var(variable: Variable)

  function ShowPieces(pieces: seq<Piece>): string {
    if pieces == [] then ""
    else (if pieces[0].Text? then pieces[0].text else pieces[0].variable.Show()) + ShowPieces(pieces[1..])
  }

  /** Some placeholder stands at the start of `s`. */
  ghost predicate Begins(s: string) {
    exists v: Variable :: v.Valid() && v.Show() <= s
  }

  /** Placeholders are well written, and none begins inside a plain stretch. */
  ghost predicate ValidCut(pieces: seq<Piece>) {
    pieces == [] ||
    (&& ValidCut(pieces[1..])
     && match pieces[0]
        case Var(v) => v.Valid()
        case Text(t) => forall i :: 0 <= i < |t| ==> !Begins(t[i..] + ShowPieces(pieces[1..])))
  }

  /** The stretches as they are, each placeholder replaced by its variable's value, or by nothing if there is none. */
  function FilledIn(pieces: seq<Piece>, env: map<string, string>): string {
    if pieces == [] then ""
    else
      (match pieces[0]
       case Text(t) => t
       case Var(v) => if v.name in env then env[v.name] else "")
      + FilledIn(pieces[1..], env)
  }

  lemma {:induction false} RunEndIs(s: string, i: nat, j: nat, p: char -> bool)
    requires i <= j <= |s| && (forall k :: i <= k < j ==> p(s[k])) && (j < |s| ==> !p(s[j]))
    ensures RunEnd(s, i, p) == j
  {
  }

  /** The characters of a written placeholder, by position. */
  lemma {:induction false} VariableChars(v: Variable, s: string)
    requires v.Valid() && v.Show() <= s
    ensures var a, b, c := 2 + |v.before|, 2 + |v.before| + |v.name|, 2 + |v.before| + |v.name| + |v.after|;
            && |v.Show()| == c + 2 <= |s|
            && s[0] == s[1] == '{' && s[c] == s[c + 1] == '}' && s[a..b] == v.name
            && (forall k :: 2 <= k < a ==> IsSpace(s[k]))
            && (forall k :: a <= k < b ==> IsNameChar(s[k])) && IsNameStart(s[a])
            && (forall k :: b <= k < c ==> IsSpace(s[k]))
  {
    var a, b, c := 2 + |v.before|, 2 + |v.before| + |v.name|, 2 + |v.before| + |v.name| + |v.after|;
    var shown := v.Show();
    assert forall k :: 0 <= k < |shown| ==> s[k] == shown[k];
    assert forall k :: 2 <= k < a ==> shown[k] == v.before[k - 2];
    assert forall k :: a <= k < b ==> shown[k] == v.name[k - a];
    assert forall k :: b <= k < c ==> shown[k] == v.after[k - b];
    assert shown[c] == '}' && shown[c + 1] == '}';
    assert s[a..b] == v.name;
  }

  /** A placeholder at the start of a text is found, with its own name. */
  lemma {:induction false} WrittenIsFound(v: Variable, s: string)
    requires v.Valid() && v.Show() <= s
    ensures Placeholder(s) == Some((|v.Show()|, v.name))
  {
    hide RunEnd;
    var a, b, c := 2 + |v.before|, 2 + |v.before| + |v.name|, 2 + |v.before| + |v.name| + |v.after|;
    VariableChars(v, s);
    RunEndIs(s, 2, a, IsSpace);
    assert !IsNameChar(s[b]);
    RunEndIs(s, a, b, IsNameChar);
    RunEndIs(s, b, c, IsSpace);
  }

  /** What is found is a placeholder at the start of the text. */
  lemma {:induction false} FoundIsWritten(s: string) returns (v: Variable)
    requires Placeholder(s).Some?
    ensures v.Valid() && v.name == Placeholder(s).value.1 && v.Show() == s[..Placeholder(s).value.0]
  {
    var a := RunEnd(s, 2, IsSpace);
    var b := RunEnd(s, a, IsNameChar);
    var c := RunEnd(s, b, IsSpace);
    hide RunEnd;
    v := Variable(s[2..a], s[a..b], s[b..c]);
    assert a < b;
    assert s[..2] == "{{" && s[c..c + 2] == "}}";
    JoinSlices(s, a, b, c);
  }

  lemma {:induction false} JoinSlices(s: string, a: nat, b: nat, c: nat)
    requires 2 <= a <= b <= c && c + 2 <= |s|
    ensures s[..2] + s[2..a] + s[a..b] + s[b..c] + s[c..c + 2] == s[..c + 2]
  {
  }

  lemma {:induction false} BeginsIsFound(s: string)
    ensures Begins(s) <==> Placeholder(s).Some?
  {
    hide Placeholder;
    if v: Variable :| v.Valid() && v.Show() <= s {
      WrittenIsFound(v, s);
    }
    if Placeholder(s).Some? {
      var v := FoundIsWritten(s);
    }
  }

  lemma {:induction false} SubstituteText(t: string, rest: string, env: map<string, string>)
    requires forall i :: 0 <= i < |t| ==> !Begins(t[i..] + rest)
    ensures Substitute(t + rest, env) == t + Substitute(rest, env)
    decreases |t|
  {
    hide Placeholder, Begins, Substitute;
    if t == "" {
      assert t + rest == rest;
    } else {
      var s := t + rest;
      assert t[0..] == t;
      BeginsIsFound(s);
      SubstituteStep(s, env);
      assert s[1..] == t[1..] + rest;
      forall i | 0 <= i < |t[1..]| ensures !Begins(t[1..][i..] + rest) {
        assert t[1..][i..] == t[i + 1..];
      }
      SubstituteText(t[1..], rest, env);
      assert [t[0]] + (t[1..] + Substitute(rest, env)) == t + Substitute(rest, env);
    }
  }

  /** However a text is cut, substitution gives the pieces filled in. */
  lemma {:induction false} SubstituteFillsIn(pieces: seq<Piece>, env: map<string, string>)
    requires ValidCut(pieces)
    ensures Substitute(ShowPieces(pieces), env) == FilledIn(pieces, env)
    decreases |pieces|
  {
    hide Placeholder, Substitute, Begins;
    if pieces == [] {
      SubstituteNothing(env);
    } else {
      var rest := ShowPieces(pieces[1..]);
      SubstituteFillsIn(pieces[1..], env);
      if pieces[0].Text? {
        SubstituteText(pieces[0].text, rest, env);
      } else {
        var v := pieces[0].variable;
        var s := v.Show() + rest;
        assert s[..|v.Show()|] == v.Show() && s[|v.Show()|..] == rest;
        WrittenIsFound(v, s);
        SubstituteStep(s, env);
      }
    }
  }

  /** Every text can be cut so. */
  lemma {:induction false} EveryTextIsCut(s: string) returns (pieces: seq<Piece>)
    ensures ValidCut(pieces) && ShowPieces(pieces) == s
    decreases |s|
  {
    hide Placeholder, Begins;
    if s == "" {
      pieces := [];
    } else if Placeholder(s).Some? {
      var v := FoundIsWritten(s);
      var n := Placeholder(s).value.0;
      var rest := EveryTextIsCut(s[n..]);
      pieces := [Var(v)] + rest;
      assert pieces[1..] == rest;
      assert s[..n] + s[n..] == s;
    } else {
      BeginsIsFound(s);
      assert s[..1] + s[1..] == s;
      var rest := EveryTextIsCut(s[1..]);
      TextFirst(s[..1], rest);
      pieces := [Text(s[..1])] + rest;
    }
  }

  lemma {:induction false} TextFirst(t: string, pieces: seq<Piece>)
    requires |t| == 1 && ValidCut(pieces) && !Begins(t + ShowPieces(pieces))
    ensures ValidCut([Text(t)] + pieces) && ShowPieces([Text(t)] + pieces) == t + ShowPieces(pieces)
  {
    hide Begins;
    assert ([Text(t)] + pieces)[1..] == pieces;
    assert t[0..] == t;
  }

  // ---------------------------------------------------------------------
  // The whole command
  // ---------------------------------------------------------------------

  /** `kv` reads `k=...`, with the first equals sign right after `k`. */
  predicate Assigns(kv: string, k: string) {
    '=' !in k && k + "=" <= kv
  }

  /** The position of the first equals sign, or the length. */
  function FirstEquals(kv: string): (i: nat)
    ensures i <= |kv| && '=' !in kv[..i] && (i < |kv| ==> kv[i] == '=')
  {
    RunEnd(kv, 0, c => c != '=')
  }

  lemma AssignsFirst(kv: string, k: string)
    ensures Assigns(kv, k) <==> FirstEquals(kv) < |kv| && k == kv[..FirstEquals(kv)]
  {
    var i := FirstEquals(kv);
    if i < |kv| && k == kv[..i] {
      assert k + "=" == kv[..i + 1];
    }
    if Assigns(kv, k) {
      FirstEqualsIs(kv, |k|);
    }
  }

  lemma FirstEqualsIs(kv: string, n: nat)
    requires n < |kv| && kv[n] == '=' && '=' !in kv[..n]
    ensures FirstEquals(kv) == n
  {
  }

  /** The value of the last assignment to `k`, if there is one. */
  function Lookup(vars: seq<string>, k: string): Option<string> {
    if vars == [] then None
    else
      var last := vars[|vars| - 1];
      if Assigns(last, k) then Some(last[|k| + 1..]) else Lookup(vars[..|vars| - 1], k)
  }

  ghost predicate IsEnv(vars: seq<string>, env: map<string, string>) {
    forall k :: Lookup(vars, k) == if k in env then Some(env[k]) else None
  }

  lemma EnvStep(vars: seq<string>, kv: string, env: map<string, string>)
    requires IsEnv(vars, env)
    ensures var i := FirstEquals(kv);
            IsEnv(vars + [kv], if i < |kv| then env[kv[..i] := kv[i + 1..]] else env)
  {
    var all := vars + [kv];
    assert all[..|all| - 1] == vars && all[|all| - 1] == kv;
    var i := FirstEquals(kv);
    var env' := if i < |kv| then env[kv[..i] := kv[i + 1..]] else env;
    forall k ensures Lookup(all, k) == if k in env' then Some(env'[k]) else None {
      AssignsFirst(kv, k);
      assert Lookup(vars, k) == if k in env then Some(env[k]) else None;
    }
  }

  lemma EnvNone()
    ensures IsEnv([], map[])
  {
  }

  method EnvMap(vars: seq<string>) returns (env: map<string, string>)
    ensures IsEnv(vars, env)
  {
    hide IsEnv, Lookup;
    EnvNone();
    env := map[];
    for n := 0 to |vars|
      invariant IsEnv(vars[..n], env)
    {
      var kv := vars[n];
      var i := FirstEquals(kv);
      assert vars[..n] + [kv] == vars[..n + 1];
      EnvStep(vars[..n], kv, env);
      if i < |kv| {
        env := env[kv[..i] := kv[i + 1..]];
      }
    }
    assert vars[..|vars|] == vars;
  }

  /** Unicode white space, as strings.TrimSpace removes it. */
  predicate IsUnicodeSpace(c: char) {
    || '\U{9}' <= c <= '\U{d}' || c == ' ' || c == '\U{85}' || c == '\U{a0}' || c == '\U{1680}'
    || '\U{2000}' <= c <= '\U{200a}' || c == '\U{2028}' || c == '\U{2029}' || c == '\U{202f}'
    || c == '\U{205f}' || c == '\U{3000}'
  }

  predicate Blank(s: string) {
    forall i :: 0 <= i < |s| ==> IsUnicodeSpace(s[i])
  }

  /** The arguments to launch; None when there is no startup command or nothing is left of it. */
  function Command(env: map<string, string>): Option<seq<string>> {
    var startup := Value(env, "STARTUP");
    var argv := Tokens(Substitute(startup, env));
    if Blank(startup) || argv == [] then None else Some(argv)
  }

  /**
   The command: STARTUP, as assigned last, with its placeholders filled in from the
   variables and tokenized; nothing if STARTUP is blank or nothing is left of it.
   */
  method BuildCommand(vars: seq<string>) returns (r: Option<seq<string>>)
    ensures exists env :: IsEnv(vars, env) && r == Command(env)
    ensures forall env, pieces ::
              IsEnv(vars, env) && ValidCut(pieces) && ShowPieces(pieces) == Value(env, "STARTUP") ==>
                r == if Blank(Value(env, "STARTUP")) || Tokens(FilledIn(pieces, env)) == [] then None
                     else Some(Tokens(FilledIn(pieces, env)))
  {
    hide Substitute, ValidCut, ShowPieces, FilledIn, IsEnv;
    var env := EnvMap(vars);
    forall other | IsEnv(vars, other) ensures other == env {
      EnvUnique(vars, env, other);
    }
    forall pieces | ValidCut(pieces) && ShowPieces(pieces) == Value(env, "STARTUP")
      ensures Substitute(Value(env, "STARTUP"), env) == FilledIn(pieces, env)
    {
      SubstituteFillsIn(pieces, env);
    }
    var startup := Value(env, "STARTUP");
    if RunEnd(startup, 0, IsUnicodeSpace) == |startup| {
      return None;
    }
    var argv := Tokenize(Substitute(startup, env));
    if |argv| == 0 {
      return None;
    }
    return Some(argv);
  }

  lemma EnvUnique(vars: seq<string>, env: map<string, string>, other: map<string, string>)
    requires IsEnv(vars, env) && IsEnv(vars, other)
    ensures env == other
  {
    forall k
      ensures k in env <==> k in other
      ensures k in env ==> env[k] == other[k]
    {
      var value := Lookup(vars, k);
    }
  }

  lemma {:induction false} NoWordsIsBlank(s: string)
    requires Words(s) == []
    ensures Blank(s)
    decreases |s|
  {
    var k := WordEnd(s);
    WordsStep(s);
    if s != "" {
      NoWordsIsBlank(s[1..]);
      assert forall i :: 1 <= i < |s| ==> s[i] == s[1..][i - 1];
    }
  }

  /**
   With a quote-free startup command that is not blank and tame placeholders, each of
   its words becomes one argument if and only if every word still is one after
   substitution.
   */
  lemma {:induction false} TameCommand(env: map<string, string>)
    requires var startup := Value(env, "STARTUP"); QuoteFree(startup) && Tame(startup, env) && !Blank(startup)
    ensures var args := Tokens(Value(env, "STARTUP"));
            && args != []
            && (Command(env) == Some(SubstituteEach(args, env)) <==>
                forall i :: 0 <= i < |args| ==> Solid(Substitute(args[i], env)))
  {
    hide Tame, Substitute, Solid, QuoteFree, Tokens, Value;
    var startup := Value(env, "STARTUP");
    SubstitutionRespectsArguments(startup, env);
    TokensAreWords(startup);
    if Words(startup) == [] {
      NoWordsIsBlank(startup);
    }
  }
}
