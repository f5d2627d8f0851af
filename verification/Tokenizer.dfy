/**
 The quote-aware tokenizer of environment/winproc/invocation.go, and what it makes of
 every command line.
 */
module Tokenizer {

  datatype Option<T> = None | Some(value: T)

  predicate IsQuote(c: char) {
    c == '\'' || c == '"'
  }

  predicate IsBlank(c: char) {
    c == ' ' || c == '\t' || c == '\r' || c == '\n'
  }

  // ---------------------------------------------------------------------
  // The tokenizer
  // ---------------------------------------------------------------------

  /** The loop's variables: finished arguments, the current one, whether there is one, and the open quote. */
  datatype Scanner = Scanner(args: seq<string>, cur: string, inArg: bool, quote: Option<char>)

  const Fresh := Scanner([], "", false, None)

  function Feed(t: Scanner, c: char): Scanner {
    if t.quote.Some? then
      if c == t.quote.value then t.(quote := None) else t.(cur := t.cur + [c])
    else if IsQuote(c) then t.(quote := Some(c), inArg := true)
    else if IsBlank(c) then
      if t.inArg then Scanner(t.args + [t.cur], "", false, None) else t
    else t.(cur := t.cur + [c], inArg := true)
  }

  function FeedAll(t: Scanner, s: string): Scanner
    decreases |s|
  {
    if s == "" then t else FeedAll(Feed(t, s[0]), s[1..])
  }

  function Finish(t: Scanner): seq<string> {
    if t.inArg then t.args + [t.cur] else t.args
  }

  function Tokens(s: string): seq<string> {
    Finish(FeedAll(Fresh, s))
  }

  method Tokenize(s: string) returns (args: seq<string>)
    ensures args == Tokens(s)
  {
    args := [];
    var cur: string := "";
    var inArg := false;
    var quote: Option<char> := None;
    for i := 0 to |s|
      invariant FeedAll(Fresh, s) == FeedAll(Scanner(args, cur, inArg, quote), s[i..])
    {
      var r := s[i];
      assert s[i..][0] == r && s[i..][1..] == s[i + 1..];
      if quote.Some? {
        if r == quote.value {
          quote := None;
        } else {
          cur := cur + [r];
        }
      } else if r == '\'' || r == '"' {
        quote := Some(r);
        inArg := true;
      } else if r == ' ' || r == '\t' || r == '\r' || r == '\n' {
        if inArg {
          args := args + [cur];
          cur := "";
          inArg := false;
        }
      } else {
        cur := cur + [r];
        inArg := true;
      }
    }
    assert s[|s|..] == "";
    if inArg {
      args := args + [cur];
    }
  }

  lemma {:induction false} FeedNothing(t: Scanner)
    ensures FeedAll(t, "") == t
  {
  }

  lemma {:induction false} FeedAppend(t: Scanner, a: string, b: string)
    ensures FeedAll(t, a + b) == FeedAll(FeedAll(t, a), b)
    decreases |a|
  {
    if a == "" {
      assert a + b == b;
    } else {
      assert (a + b)[1..] == a[1..] + b;
      FeedAppend(Feed(t, a[0]), a[1..], b);
    }
  }

  // ---------------------------------------------------------------------
  // Tokenizing undoes quoting
  // ---------------------------------------------------------------------

  predicate Unbroken(s: string) {
    forall i :: 0 <= i < |s| ==> !IsBlank(s[i]) && !IsQuote(s[i])
  }

  /** A stretch of text between two equal quotes it does not contain, or bare and without blanks and quotes. */
  datatype Segment = Quoted(quote: char, text: string) | Bare(text: string) {
    predicate Valid() {
      match this
      case Quoted(quote, text) => IsQuote(quote) && quote !in text
      case Bare(text) => text != "" && Unbroken(text)
    }
    function Show(): string {
      match this
      case Quoted(quote, text) => [quote] + text + [quote]
      case Bare(text) => text
    }
  }

  /** An argument written as one or more segments. */
  predicate ValidArg(segments: seq<Segment>) {
    segments != [] && forall i :: 0 <= i < |segments| ==> segments[i].Valid()
  }

  function ShowArg(segments: seq<Segment>): string {
    if segments == [] then "" else segments[0].Show() + ShowArg(segments[1..])
  }

  function Meaning(segments: seq<Segment>): string {
    if segments == [] then "" else segments[0].text + Meaning(segments[1..])
  }

  /** A command line: each argument followed by some white space. */
  datatype Word = Word(segments: seq<Segment>, gap: string) {
    predicate Valid() {
      ValidArg(segments) && gap != "" && forall i :: 0 <= i < |gap| ==> IsBlank(gap[i])
    }
  }

  function Show(words: seq<Word>): string {
    if words == [] then "" else ShowArg(words[0].segments) + words[0].gap + Show(words[1..])
  }

  function Meanings(words: seq<Word>): seq<string> {
    if words == [] then [] else [Meaning(words[0].segments)] + Meanings(words[1..])
  }

  lemma {:induction false} FeedQuoted(t: Scanner, q: char, text: string)
    requires t.quote == Some(q) && q !in text
    ensures FeedAll(t, text) == t.(cur := t.cur + text)
    decreases |text|
  {
    if text == "" {
      assert t.cur + text == t.cur;
    } else {
      assert text[0] in text;
      FeedQuoted(Feed(t, text[0]), q, text[1..]);
      assert t.cur + [text[0]] + text[1..] == t.cur + text;
    }
  }

  lemma {:induction false} FeedPlain(t: Scanner, w: string)
    requires t.quote.None? && Unbroken(w)
    ensures FeedAll(t, w) == t.(cur := t.cur + w, inArg := t.inArg || w != "")
    decreases |w|
  {
    if w == "" {
      assert t.cur + w == t.cur;
    } else {
      FeedPlain(Feed(t, w[0]), w[1..]);
      assert t.cur + [w[0]] + w[1..] == t.cur + w;
    }
  }

  lemma {:induction false} FeedSegment(t: Scanner, s: Segment)
    requires t.quote.None? && s.Valid()
    ensures FeedAll(t, s.Show()) == t.(cur := t.cur + s.text, inArg := true)
  {
    if s.Bare? {
      FeedPlain(t, s.text);
    } else {
      FeedQuotedSegment(t, s);
    }
  }

  lemma {:induction false} FeedQuotedSegment(t: Scanner, s: Segment)
    requires t.quote.None? && s.Valid() && s.Quoted?
    ensures FeedAll(t, s.Show()) == t.(cur := t.cur + s.text, inArg := true)
  {
    var t1 := t.(quote := Some(s.quote), inArg := true);
    assert s.Show() == [s.quote] + (s.text + [s.quote]);
    FeedAppend(t, [s.quote], s.text + [s.quote]);
    assert FeedAll(t, [s.quote]) == FeedAll(t1, [s.quote][1..]) == t1;
    FeedAppend(t1, s.text, [s.quote]);
    FeedQuoted(t1, s.quote, s.text);
    var t2 := t1.(cur := t.cur + s.text);
    assert FeedAll(t2, [s.quote]) == FeedAll(t2.(quote := None), [s.quote][1..]) == t2.(quote := None);
  }

  lemma {:induction false} FeedArg(t: Scanner, segments: seq<Segment>)
    requires t.quote.None? && forall i :: 0 <= i < |segments| ==> segments[i].Valid()
    ensures FeedAll(t, ShowArg(segments)) ==
            t.(cur := t.cur + Meaning(segments), inArg := t.inArg || segments != [])
    decreases |segments|
  {
    hide FeedAll, ShowArg, Meaning;
    if segments == [] {
      NoSegments();
      FeedNothing(t);
      assert t.cur + "" == t.cur;
    } else {
      var s, rest := segments[0], segments[1..];
      FirstSegment(segments);
      FeedAppend(t, s.Show(), ShowArg(rest));
      FeedSegment(t, s);
      FeedArg(t.(cur := t.cur + s.text, inArg := true), rest);
      assert t.cur + s.text + Meaning(rest) == t.cur + (s.text + Meaning(rest));
    }
  }

  lemma {:induction false} NoSegments()
    ensures ShowArg([]) == "" && Meaning([]) == ""
  {
  }

  lemma {:induction false} FirstSegment(segments: seq<Segment>)
    requires segments != []
    ensures ShowArg(segments) == segments[0].Show() + ShowArg(segments[1..])
    ensures Meaning(segments) == segments[0].text + Meaning(segments[1..])
  {
  }

  lemma {:induction false} FeedGap(t: Scanner, gap: string)
    requires t.quote.None? && gap != "" && forall i :: 0 <= i < |gap| ==> IsBlank(gap[i])
    ensures FeedAll(t, gap) == if t.inArg then Scanner(t.args + [t.cur], "", false, None) else t
    decreases |gap|
  {
    if |gap| == 1 {
      assert gap[1..] == "";
    } else {
      FeedGap(Feed(t, gap[0]), gap[1..]);
    }
  }

  lemma {:induction false} FeedWords(args: seq<string>, words: seq<Word>)
    requires forall i :: 0 <= i < |words| ==> words[i].Valid()
    ensures FeedAll(Scanner(args, "", false, None), Show(words)) == Scanner(args + Meanings(words), "", false, None)
    decreases |words|
  {
    hide FeedAll, ShowArg, Meaning;
    if words == [] {
      FeedNothing(Scanner(args, "", false, None));
      assert args + Meanings(words) == args;
    } else {
      var t, w := Scanner(args, "", false, None), words[0];
      assert w.Valid();
      FeedAppend(t, ShowArg(w.segments) + w.gap, Show(words[1..]));
      FeedAppend(t, ShowArg(w.segments), w.gap);
      FeedArg(t, w.segments);
      assert "" + Meaning(w.segments) == Meaning(w.segments);
      FeedGap(t.(cur := Meaning(w.segments), inArg := true), w.gap);
      FeedWords(args + [Meaning(w.segments)], words[1..]);
      assert args + [Meaning(w.segments)] + Meanings(words[1..]) == args + Meanings(words);
    }
  }

  /** However arguments are cut into quoted and bare segments and spaced, tokenizing gives back their texts. */
  lemma {:induction false} TokensOfQuoted(words: seq<Word>)
    requires forall i :: 0 <= i < |words| ==> words[i].Valid()
    ensures Tokens(Show(words)) == Meanings(words)
  {
    FeedWords([], words);
    assert [] + Meanings(words) == Meanings(words);
  }

  /** Every string, with whatever quotes and blanks in it, can be written in segments. */
  function Quote(s: string): (segments: seq<Segment>)
    ensures ValidArg(segments) && Meaning(segments) == s
    decreases |s|
  {
    if |s| <= 1 then [Quoted(if s == "'" then '"' else '\'', s)]
    else
      assert s == s[..1] + s[1..];
      [Quoted(if s[0] == '\'' then '"' else '\'', s[..1])] + Quote(s[1..])
  }

  function QuoteAll(args: seq<string>): (words: seq<Word>)
    ensures forall i :: 0 <= i < |words| ==> words[i].Valid()
    ensures Meanings(words) == args
  {
    if args == [] then [] else [Word(Quote(args[0]), " ")] + QuoteAll(args[1..])
  }

  /** Tokenizing undoes quoting, for every list of strings, empty ones included. */
  lemma {:induction false} TokenizeUndoesQuoting(args: seq<string>)
    ensures Tokens(Show(QuoteAll(args))) == args
  {
    TokensOfQuoted(QuoteAll(args));
  }

  // ---------------------------------------------------------------------
  // Every command line
  // ---------------------------------------------------------------------

  /** What ends a line: nothing, or an argument without a blank after it, its last quote perhaps left open. */
  datatype Tail = NoTail | Tail(segments: seq<Segment>, open: Option<(char, string)>) {
    predicate Valid() {
      this.Tail? ==>
        && (forall i :: 0 <= i < |segments| ==> segments[i].Valid())
        && (segments != [] || open.Some?)
        && (open.Some? ==> IsQuote(open.value.0) && open.value.0 !in open.value.1)
    }
    function Show(): string {
      match this
      case NoTail => ""
      case Tail(segments, open) => ShowArg(segments) + if open.Some? then [open.value.0] + open.value.1 else ""
    }
    function Arguments(): seq<string> {
      match this
      case NoTail => []
      case Tail(segments, open) => [Meaning(segments) + if open.Some? then open.value.1 else ""]
    }
  }

  /** Blanks, arguments each followed by blanks, and what ends the line. */
  datatype Line = Line(lead: string, words: seq<Word>, tail: Tail) {
    predicate Valid() {
      && (forall i :: 0 <= i < |lead| ==> IsBlank(lead[i]))
      && (forall i :: 0 <= i < |words| ==> words[i].Valid())
      && tail.Valid()
    }
    function Text(): string {
      lead + Show(words) + tail.Show()
    }
    function Arguments(): seq<string> {
      Meanings(words) + tail.Arguments()
    }
  }

  lemma {:induction false} FeedTail(args: seq<string>, tail: Tail)
    requires tail.Valid()
    ensures Finish(FeedAll(Scanner(args, "", false, None), tail.Show())) == args + tail.Arguments()
  {
    var t := Scanner(args, "", false, None);
    if tail.NoTail? {
      FeedNothing(t);
      assert args + [] == args;
    } else {
      var text := Meaning(tail.segments);
      FeedArg(t, tail.segments);
      assert "" + text == text;
      if tail.open.Some? {
        var (q, rest) := tail.open.value;
        var t1 := t.(cur := text, inArg := tail.segments != []);
        FeedAppend(t, ShowArg(tail.segments), [q] + rest);
        FeedOpen(t1, q, rest);
      } else {
        assert ShowArg(tail.segments) + "" == ShowArg(tail.segments);
        assert text + "" == text;
      }
    }
  }

  lemma {:induction false} FeedOpen(t: Scanner, q: char, rest: string)
    requires t.quote.None? && IsQuote(q) && q !in rest
    ensures FeedAll(t, [q] + rest) == t.(quote := Some(q), inArg := true, cur := t.cur + rest)
  {
    assert ([q] + rest)[0] == q && ([q] + rest)[1..] == rest;
    FeedQuoted(t.(quote := Some(q), inArg := true), q, rest);
  }

  lemma {:induction false} FeedLead(lead: string)
    requires forall i :: 0 <= i < |lead| ==> IsBlank(lead[i])
    ensures FeedAll(Fresh, lead) == Fresh
  {
    if lead == "" {
      FeedNothing(Fresh);
    } else {
      FeedGap(Fresh, lead);
    }
  }

  /** A line tokenizes to its arguments. */
  lemma {:induction false} TokensOfLine(line: Line)
    requires line.Valid()
    ensures Tokens(line.Text()) == line.Arguments()
  {
    hide FeedAll, Finish;
    var shown, rest := Show(line.words), line.tail.Show();
    FeedLead(line.lead);
    FeedWords([], line.words);
    assert [] + Meanings(line.words) == Meanings(line.words);
    FeedAppend(Fresh, line.lead + shown, rest);
    FeedAppend(Fresh, line.lead, shown);
    FeedTail(Meanings(line.words), line.tail);
  }

  lemma {:induction false} ShowArgAppend(segments: seq<Segment>, s: Segment)
    ensures ShowArg(segments + [s]) == ShowArg(segments) + s.Show()
    decreases |segments|
  {
    if segments == [] {
      assert segments + [s] == [s] && [s][1..] == [];
    } else {
      assert (segments + [s])[1..] == segments[1..] + [s];
      ShowArgAppend(segments[1..], s);
    }
  }

  lemma {:induction false} ShowAppend(words: seq<Word>, w: Word)
    ensures Show(words + [w]) == Show(words) + (ShowArg(w.segments) + w.gap)
    decreases |words|
  {
    if words == [] {
      assert words + [w] == [w] && [w][1..] == [];
    } else {
      assert (words + [w])[1..] == words[1..] + [w];
      ShowAppend(words[1..], w);
    }
  }

  /** One more character at the end of the tail. */
  function GrownTail(tail: Tail, c: char): (r: Tail)
    requires tail.Valid() && (IsBlank(c) ==> tail.Tail? && tail.open.Some?)
    ensures r.Valid() && r.Tail?
  {
    var segments := if tail.NoTail? then [] else tail.segments;
    if tail.Tail? && tail.open.Some? then
      var (q, text) := tail.open.value;
      if c == q then Tail(segments + [Quoted(q, text)], None) else Tail(segments, Some((q, text + [c])))
    else if IsQuote(c) then Tail(segments, Some((c, "")))
    else Tail(segments + [Bare([c])], None)
  }

  lemma {:induction false} GrownTailShows(tail: Tail, c: char)
    requires tail.Valid() && (IsBlank(c) ==> tail.Tail? && tail.open.Some?)
    ensures GrownTail(tail, c).Show() == tail.Show() + [c]
  {
    var segments := if tail.NoTail? then [] else tail.segments;
    if tail.Tail? && tail.open.Some? {
      ShowArgAppend(segments, Quoted(tail.open.value.0, tail.open.value.1));
    } else if !IsQuote(c) {
      ShowArgAppend(segments, Bare([c]));
    }
  }

  /** A blank after an argument ends it. */
  lemma {:induction false} GrownByWord(line: Line, c: char) returns (r: Line)
    requires line.Valid() && IsBlank(c) && line.tail.Tail? && line.tail.open.None?
    ensures r.Valid() && r.Text() == line.Text() + [c]
  {
    hide Show, ShowArg;
    var words, tail := line.words, line.tail;
    var w := Word(tail.segments, [c]);
    ShowAppend(words, w);
    r := Line(line.lead, words + [w], NoTail);
    assert w.Valid();
    var a := ShowArg(tail.segments);
    assert a + "" == a;
    assert line.lead + (Show(words) + (a + [c])) + "" == line.lead + Show(words) + a + [c];
  }

  /** A blank after blanks belongs to them. */
  lemma {:induction false} GrownByGap(line: Line, c: char) returns (r: Line)
    requires line.Valid() && IsBlank(c) && line.tail.NoTail?
    ensures r.Valid() && r.Text() == line.Text() + [c]
  {
    hide Show, ShowArg;
    var words := line.words;
    if words == [] {
      r := line.(lead := line.lead + [c]);
      ShowNothing();
      assert line.lead + "" + "" + [c] == line.lead + [c] + "" + "";
    } else {
      var n := |words| - 1;
      var first, w := words[..n], words[n];
      var w' := w.(gap := w.gap + [c]);
      assert w.Valid() && w'.Valid();
      ShowAppend(first, w);
      ShowAppend(first, w');
      assert words == first + [w];
      r := line.(words := first + [w']);
      var a := ShowArg(w.segments);
      assert line.lead + (Show(first) + (a + (w.gap + [c]))) + "" == line.lead + (Show(first) + (a + w.gap)) + "" + [c];
    }
  }

  lemma {:induction false} ShowNothing()
    ensures Show([]) == ""
  {
  }

  lemma {:induction false} GrownLine(line: Line, c: char) returns (r: Line)
    requires line.Valid()
    ensures r.Valid() && r.Text() == line.Text() + [c]
  {
    hide Show, ShowArg;
    if !IsBlank(c) || (line.tail.Tail? && line.tail.open.Some?) {
      hide GrownTail;
      GrownTailShows(line.tail, c);
      r := line.(tail := GrownTail(line.tail, c));
      assert line.lead + Show(line.words) + (line.tail.Show() + [c]) == line.Text() + [c];
    } else if line.tail.Tail? {
      r := GrownByWord(line, c);
    } else {
      r := GrownByGap(line, c);
    }
  }

  /** Every string is a line, so `TokensOfLine` says what every string tokenizes to. */
  lemma {:induction false} EveryStringIsLine(s: string) returns (line: Line)
    ensures line.Valid() && line.Text() == s
  {
    if s == "" {
      line := Line("", [], NoTail);
    } else {
      var n := |s| - 1;
      line := EveryStringIsLine(s[..n]);
      line := GrownLine(line, s[n]);
      assert s[..n] + [s[n]] == s;
    }
  }
}
