/**
 The console reader `ScanReader` of system/utils.go over a stream that ends in
 EOF. `bufio.Reader.ReadLine` with a 256-byte buffer is given by its documented
 behaviour: it hands out a line in fragments, never splits a CRLF pair, and drops
 the line ending.
 */
module ScanReader {

  type Byte = b: nat | b < 256

  const CR: Byte := 13
  const LF: Byte := 10
  const SPACE: Byte := 32

  const FRAGMENT := 256
  const MAX_BUFFER := 65536

  // ---------------------------------------------------------------------
  // Lines and fragments
  // ---------------------------------------------------------------------

  /** Where the first line of `s` ends, its line feed excluded. */
  function LineEnd(s: seq<Byte>): (n: nat)
    ensures n <= |s|
    ensures LF !in s[..n]
    ensures n < |s| ==> s[n] == LF
  {
    if s == [] || s[0] == LF then 0
    else
      var n := LineEnd(s[1..]);
      assert s[..1 + n] == [s[0]] + s[1..][..n];
      1 + n
  }

  predicate Terminated(s: seq<Byte>) {
    LineEnd(s) < |s|
  }

  function AfterLine(s: seq<Byte>): seq<Byte> {
    if Terminated(s) then s[LineEnd(s) + 1..] else []
  }

  function TrimCR(s: seq<Byte>): seq<Byte> {
    if s != [] && s[|s| - 1] == CR then s[..|s| - 1] else s
  }

  /** The first line of `s` without its line ending. */
  function Line(s: seq<Byte>): seq<Byte> {
    if Terminated(s) then TrimCR(s[..LineEnd(s)]) else s
  }

  /**
   The read at the start of `s`. `eager`: the underlying reader reports EOF together
   with its last bytes, which shows only when exactly one buffer is left.
   */
  datatype Read = Read(line: seq<Byte>, isPrefix: bool, eof: bool, rest: seq<Byte>)

  function Split(s: seq<Byte>): (p: nat)
    requires |s| >= FRAGMENT
    ensures 0 < p <= |s|
  {
    if s[FRAGMENT - 1] == CR then FRAGMENT - 1 else FRAGMENT
  }

  /** The rest of the line fits the buffer. */
  predicate LastFragment(line: seq<Byte>, terminated: bool, eager: bool) {
    |line| < FRAGMENT || (!terminated && |line| == FRAGMENT && eager)
  }

  function ReadLine(s: seq<Byte>, eager: bool): (r: Read)
    ensures s != [] ==> |r.rest| < |s|
    ensures |r.line| <= FRAGMENT
    ensures r.eof <==> s == []
  {
    var raw := s[..LineEnd(s)];
    if s == [] then Read([], false, true, [])
    else if LastFragment(raw, Terminated(s), eager) then Read(Line(s), false, false, AfterLine(s))
    else Read(s[..Split(raw)], true, false, s[Split(raw)..])
  }

  /** The fragments of a raw line, in order. */
  function Fragments(raw: seq<Byte>, terminated: bool, eager: bool): (fs: seq<seq<Byte>>)
    ensures forall i :: 0 <= i < |fs| ==> |fs[i]| <= FRAGMENT
    decreases |raw|
  {
    if LastFragment(raw, terminated, eager) then [if terminated then TrimCR(raw) else raw]
    else [raw[..Split(raw)]] + Fragments(raw[Split(raw)..], terminated, eager)
  }

  function Concat(fs: seq<seq<Byte>>): seq<Byte> {
    if fs == [] then [] else fs[0] + Concat(fs[1..])
  }

  /** Cutting a line before its end cuts nothing off its line ending. */
  lemma TrimAfterCut(raw: seq<Byte>, p: nat)
    requires p <= |raw|
    requires p == |raw| ==> p == 0 || raw[p - 1] != CR
    ensures raw[..p] + TrimCR(raw[p..]) == TrimCR(raw)
  {
    assert raw[..p] + raw[p..] == raw;
    if p < |raw| {
      assert raw[p..][|raw| - p - 1] == raw[|raw| - 1];
      assert raw[..p] + raw[p..][..|raw| - p - 1] == raw[..|raw| - 1];
    } else {
      assert raw[p..] == [] && raw[..p] + [] == raw;
    }
  }

  lemma {:induction false} ConcatCons(f: seq<Byte>, fs: seq<seq<Byte>>)
    ensures Concat([f] + fs) == f + Concat(fs)
  {
    assert ([f] + fs)[1..] == fs;
  }

  /** The fragments put together are the line: no byte is lost and no CRLF is split. */
  lemma {:induction false} FragmentsMakeLine(raw: seq<Byte>, terminated: bool, eager: bool)
    ensures Concat(Fragments(raw, terminated, eager)) == if terminated then TrimCR(raw) else raw
    decreases |raw|
  {
    hide TrimCR, Concat;
    if LastFragment(raw, terminated, eager) {
      var whole := if terminated then TrimCR(raw) else raw;
      ConcatCons(whole, []);
      ConcatNothing();
      assert [whole] + [] == [whole] && whole + [] == whole;
    } else {
      var p := Split(raw);
      FragmentsMakeLine(raw[p..], terminated, eager);
      ConcatCons(raw[..p], Fragments(raw[p..], terminated, eager));
      TrimAfterCut(raw, p);
      assert raw[..p] + raw[p..] == raw;
    }
  }

  lemma ConcatNothing()
    ensures Concat([]) == []
  {
  }

  // ---------------------------------------------------------------------
  // The carriage-return rewrite
  // ---------------------------------------------------------------------

  /** Every " \r" becomes "\r\n", from left to right. */
  function Rewrite(s: seq<Byte>): (r: seq<Byte>)
    ensures |r| == |s|
  {
    if |s| < 2 then s
    else if s[0] == SPACE && s[1] == CR then [CR, LF] + Rewrite(s[2..])
    else [s[0]] + Rewrite(s[1..])
  }

  /** `c` is `s` except that some " \r" pairs read "\r\n". */
  ghost predicate Rewritten(c: seq<Byte>, s: seq<Byte>) {
    |c| == |s| && forall i :: 0 <= i < |s| ==> c[i] == s[i] || RewrittenAround(c, s, i)
  }

  ghost predicate RewrittenAround(c: seq<Byte>, s: seq<Byte>, i: nat) {
    RewrittenAt(c, s, i) || (i > 0 && RewrittenAt(c, s, i - 1))
  }

  ghost predicate RewrittenAt(c: seq<Byte>, s: seq<Byte>, i: nat) {
    i + 1 < |s| && i + 1 < |c| && s[i] == SPACE && s[i + 1] == CR && c[i] == CR && c[i + 1] == LF
  }

  lemma RewrittenAppend(c: seq<Byte>, s: seq<Byte>, d: seq<Byte>, t: seq<Byte>)
    requires Rewritten(c, s) && Rewritten(d, t)
    ensures Rewritten(c + d, s + t)
  {
    forall i | 0 <= i < |s + t| ensures (c + d)[i] == (s + t)[i] || RewrittenAround(c + d, s + t, i) {
      if i < |s| {
        assert c[i] == s[i] || RewrittenAround(c, s, i);
      } else {
        var k := i - |s|;
        assert d[k] == (c + d)[i] && t[k] == (s + t)[i];
        assert d[k] == t[k] || RewrittenAround(d, t, k);
        if RewrittenAt(d, t, k) {
          assert RewrittenAt(c + d, s + t, i);
        } else if k > 0 && RewrittenAt(d, t, k - 1) {
          assert RewrittenAt(c + d, s + t, i - 1);
        }
      }
    }
  }

  /** A space with a carriage return after it. */
  predicate PairAt(s: seq<Byte>, i: int) {
    0 <= i < |s| - 1 && s[i] == 32 && s[i + 1] == 13
  }

  /** What a byte reads afterwards: every such pair is carriage return and line feed, every other byte as it was. */
  function ReadsAs(s: seq<Byte>, i: nat): Byte
    requires i < |s|
  {
    if PairAt(s, i) then 13 else if PairAt(s, i - 1) then 10 else s[i]
  }

  ghost predicate AllRewritten(c: seq<Byte>, s: seq<Byte>) {
    |c| == |s| && forall i :: 0 <= i < |s| ==> c[i] == ReadsAs(s, i)
  }

  lemma {:induction false} ReadsAsBelow(s: seq<Byte>, n: nat, i: nat)
    requires n <= i < |s| && !PairAt(s, n - 1)
    ensures ReadsAs(s, i) == ReadsAs(s[n..], i - n)
  {
    assert i > n ==> s[i - 1] == s[n..][i - n - 1];
    assert i + 1 < |s| ==> s[i + 1] == s[n..][i - n + 1];
  }

  /** The rewrite of the first byte or pair. */
  lemma {:induction false} RewriteStep(s: seq<Byte>) returns (n: nat, head: seq<Byte>)
    requires s != []
    ensures 0 < n <= |s| && |head| == n && Rewrite(s) == head + Rewrite(s[n..]) && !PairAt(s, n - 1)
    ensures forall i :: 0 <= i < n ==> head[i] == ReadsAs(s, i)
  {
    n := if |s| >= 2 && s[0] == SPACE && s[1] == CR then 2 else 1;
    head := if n == 2 then [CR, LF] else [s[0]];
    if |s| == 1 {
      assert s == head + s[1..];
    }
  }

  lemma {:induction false} RewriteExactly(s: seq<Byte>)
    ensures AllRewritten(Rewrite(s), s)
    decreases |s|
  {
    if s != [] {
      hide Rewrite, ReadsAs, PairAt;
      var n, head := RewriteStep(s);
      var rest := Rewrite(s[n..]);
      RewriteExactly(s[n..]);
      forall i | 0 <= i < |s| ensures (head + rest)[i] == ReadsAs(s, i) {
        if i >= n {
          ReadsAsBelow(s, n, i);
          assert (head + rest)[i] == rest[i - n];
        }
      }
    }
  }

  lemma {:induction false} RewriteIsRewritten(s: seq<Byte>)
    ensures Rewritten(Rewrite(s), s)
    decreases |s|
  {
    if |s| >= 2 {
      if s[0] == SPACE && s[1] == CR {
        RewriteIsRewritten(s[2..]);
        assert RewrittenAt([CR, LF], [SPACE, CR], 0);
        RewrittenAppend([CR, LF], [SPACE, CR], Rewrite(s[2..]), s[2..]);
        assert [SPACE, CR] + s[2..] == s;
      } else {
        RewriteIsRewritten(s[1..]);
        RewrittenAppend([s[0]], [s[0]], Rewrite(s[1..]), s[1..]);
        assert [s[0]] + s[1..] == s;
      }
    }
  }

  // ---------------------------------------------------------------------
  // Emission
  // ---------------------------------------------------------------------

  function Flush(buf: seq<Byte>): seq<seq<Byte>> {
    if buf == [] then [] else [buf]
  }

  /** The events for the fragments of one line, after `buf` of it is buffered. */
  function Emit(fs: seq<seq<Byte>>, buf: seq<Byte>): seq<seq<Byte>>
    requires |buf| <= MAX_BUFFER
  {
    if fs == [] then Flush(buf)
    else
      var f := Rewrite(fs[0]);
      if |buf| + |f| > MAX_BUFFER then [buf + f[..MAX_BUFFER - |buf|]] + Emit(fs[1..], [])
      else Emit(fs[1..], buf + f)
  }

  /** The events for the rest of a stream whose current line has `buf` buffered. */
  function EmitStream(s: seq<Byte>, buf: seq<Byte>, eager: bool): seq<seq<Byte>>
    requires |buf| <= MAX_BUFFER
    decreases |s|
  {
    if s == [] then Flush(buf)
    else
      AfterLineShrinks(s);
      Emit(Fragments(s[..LineEnd(s)], Terminated(s), eager), buf) + EmitStream(AfterLine(s), [], eager)
  }

  lemma AfterLineShrinks(s: seq<Byte>)
    requires s != []
    ensures |AfterLine(s)| < |s|
  {
  }

  /** The rest of a line is the first line of the rest of the stream. */
  lemma {:induction false} MidLine(s: seq<Byte>, p: nat)
    requires p <= LineEnd(s)
    ensures LineEnd(s[p..]) == LineEnd(s) - p
    ensures s[p..][..LineEnd(s) - p] == s[..LineEnd(s)][p..]
    ensures Terminated(s[p..]) == Terminated(s) && AfterLine(s[p..]) == AfterLine(s)
  {
    hide LineEnd;
    assert s[p..][..LineEnd(s) - p] == s[..LineEnd(s)][p..];
    LineEndIs(s[p..], LineEnd(s) - p);
    if Terminated(s) {
      assert s[p..][LineEnd(s) - p + 1..] == s[LineEnd(s) + 1..];
    }
  }

  lemma {:induction false} LineEndIs(s: seq<Byte>, n: nat)
    requires n <= |s| && LF !in s[..n] && (n < |s| ==> s[n] == LF)
    ensures LineEnd(s) == n
  {
    if n > 0 {
      assert s[..n][0] == s[0];
      assert s[1..][..n - 1] == s[..n][1..];
      LineEndIs(s[1..], n - 1);
    }
  }

  /** The events of the rest of a line, and of the stream after it. */
  lemma {:induction false} EmitRest(s: seq<Byte>, p: nat, buf: seq<Byte>, eager: bool)
    requires 0 < p <= LineEnd(s) && |buf| <= MAX_BUFFER
    ensures Emit(Fragments(s[..LineEnd(s)][p..], Terminated(s), eager), buf) + EmitStream(AfterLine(s), [], eager)
         == EmitStream(s[p..], buf, eager)
  {
    hide LineEnd, Emit, EmitStream, Fragments, Terminated, AfterLine;
    MidLine(s, p);
    if s[p..] == [] {
      assert s[..LineEnd(s)][p..] == [];
      EndOfLastLine(s, p, buf, eager);
    } else {
      EmitStreamStep(s[p..], buf, eager);
    }
  }

  /** A last line that ends with a full fragment leaves one empty fragment. */
  lemma {:induction false} EndOfLastLine(s: seq<Byte>, p: nat, buf: seq<Byte>, eager: bool)
    requires 0 < p <= LineEnd(s) && s[p..] == [] && |buf| <= MAX_BUFFER
    ensures Emit(Fragments([], Terminated(s), eager), buf) + EmitStream(AfterLine(s), [], eager)
         == EmitStream(s[p..], buf, eager)
  {
    hide LineEnd;
    var none: seq<Byte> := [];
    assert !Terminated(s) && AfterLine(s) == [];
    assert Fragments(none, false, eager) == [none];
    assert [none][1..] == [] && buf + Rewrite(none) == buf;
    assert Emit([none], buf) == Flush(buf);
  }

  lemma {:induction false} EmitStep(f: seq<Byte>, fs: seq<seq<Byte>>, buf: seq<Byte>)
    requires |buf| <= MAX_BUFFER
    ensures var g := Rewrite(f);
            Emit([f] + fs, buf) ==
            if |buf| + |g| > MAX_BUFFER then [buf + g[..MAX_BUFFER - |buf|]] + Emit(fs, []) else Emit(fs, buf + g)
  {
    assert ([f] + fs)[1..] == fs;
  }

  /** What one read adds to the events of the stream. */
  ghost function Advanced(r: Read, buf: seq<Byte>, eager: bool): seq<seq<Byte>>
    requires |buf| <= MAX_BUFFER
  {
    var f := Rewrite(r.line);
    if |buf| + |f| > MAX_BUFFER then [buf + f[..MAX_BUFFER - |buf|]] + EmitStream(r.rest, [], eager)
    else if r.isPrefix then EmitStream(r.rest, buf + f, eager)
    else Flush(buf + f) + EmitStream(r.rest, [], eager)
  }

  lemma {:induction false} LastReadAdvances(s: seq<Byte>, buf: seq<Byte>, eager: bool)
    requires s != [] && |buf| <= MAX_BUFFER
    requires LastFragment(s[..LineEnd(s)], Terminated(s), eager)
    ensures EmitStream(s, buf, eager) == Advanced(ReadLine(s, eager), buf, eager)
  {
    hide LineEnd;
    var r := ReadLine(s, eager);
    var raw, t := s[..LineEnd(s)], Terminated(s);
    assert !t ==> raw == s;
    var fs := Fragments(raw, t, eager);
    assert fs == [r.line] + [];
    EmitStep(r.line, [], buf);
    var f := Rewrite(r.line);
    if |buf| + |f| > MAX_BUFFER {
      assert [buf + f[..MAX_BUFFER - |buf|]] + Emit([], []) == [buf + f[..MAX_BUFFER - |buf|]];
    }
  }

  lemma {:induction false} EmitStreamStep(s: seq<Byte>, buf: seq<Byte>, eager: bool)
    requires s != [] && |buf| <= MAX_BUFFER
    ensures EmitStream(s, buf, eager) ==
            Emit(Fragments(s[..LineEnd(s)], Terminated(s), eager), buf) + EmitStream(AfterLine(s), [], eager)
  {
  }

  lemma {:induction false} FragmentsStep(raw: seq<Byte>, terminated: bool, eager: bool)
    requires !LastFragment(raw, terminated, eager)
    ensures Fragments(raw, terminated, eager) ==
            [raw[..Split(raw)]] + Fragments(raw[Split(raw)..], terminated, eager)
  {
  }

  ghost function PrefixRead(s: seq<Byte>, eager: bool): (p: nat)
    requires s != [] && !LastFragment(s[..LineEnd(s)], Terminated(s), eager)
    ensures 0 < p <= LineEnd(s) && p == Split(s[..LineEnd(s)])
    ensures ReadLine(s, eager) == Read(s[..LineEnd(s)][..p], true, false, s[p..])
  {
    var raw := s[..LineEnd(s)];
    assert s[..Split(raw)] == raw[..Split(raw)];
    Split(raw)
  }

  /** The first fragment of a line and what follows it. */
  lemma {:induction false} AdvancedPast(
    line: seq<Byte>, rest: seq<Byte>, fs: seq<seq<Byte>>, after: seq<seq<Byte>>, buf: seq<Byte>, eager: bool)
    requires |buf| <= MAX_BUFFER
    requires forall b :: |b| <= MAX_BUFFER ==> Emit(fs, b) + after == EmitStream(rest, b, eager)
    ensures Emit([line] + fs, buf) + after == Advanced(Read(line, true, false, rest), buf, eager)
  {
    hide Emit, EmitStream, Rewrite;
    EmitStep(line, fs, buf);
    var f := Rewrite(line);
    if |buf| + |f| > MAX_BUFFER {
      var c := [buf + f[..MAX_BUFFER - |buf|]];
      assert c + Emit(fs, []) + after == c + (Emit(fs, []) + after);
    }
  }

  lemma {:induction false} PrefixReadAdvances(s: seq<Byte>, buf: seq<Byte>, eager: bool)
    requires s != [] && |buf| <= MAX_BUFFER
    requires !LastFragment(s[..LineEnd(s)], Terminated(s), eager)
    ensures EmitStream(s, buf, eager) == Advanced(ReadLine(s, eager), buf, eager)
  {
    hide LineEnd, Emit, EmitStream, Fragments, Terminated, AfterLine, ReadLine, LastFragment, Split, Advanced;
    var raw, t, p := s[..LineEnd(s)], Terminated(s), PrefixRead(s, eager);
    var fs, after := Fragments(raw[p..], t, eager), EmitStream(AfterLine(s), [], eager);
    forall b: seq<Byte> | |b| <= MAX_BUFFER ensures Emit(fs, b) + after == EmitStream(s[p..], b, eager) {
      EmitRest(s, p, b, eager);
    }
    AdvancedPast(raw[..p], s[p..], fs, after, buf, eager);
    FragmentsStep(raw, t, eager);
    EmitStreamStep(s, buf, eager);
  }

  lemma {:induction false} EndAdvances(buf: seq<Byte>, eager: bool)
    requires |buf| <= MAX_BUFFER
    ensures EmitStream([], buf, eager) == Advanced(ReadLine([], eager), buf, eager)
  {
    EmitNothing(buf, eager);
    ReadNothing(eager);
    assert buf + [] == buf;
  }

  /** One read advances the stream by one fragment, and past the end by nothing. */
  lemma {:induction false} ReadAdvances(s: seq<Byte>, buf: seq<Byte>, eager: bool)
    requires |buf| <= MAX_BUFFER
    ensures EmitStream(s, buf, eager) == Advanced(ReadLine(s, eager), buf, eager)
  {
    hide LineEnd, EmitStream, Advanced, ReadLine;
    if s == [] {
      EndAdvances(buf, eager);
    } else if LastFragment(s[..LineEnd(s)], Terminated(s), eager) {
      LastReadAdvances(s, buf, eager);
    } else {
      PrefixReadAdvances(s, buf, eager);
    }
  }

  // ---------------------------------------------------------------------
  // The code
  // ---------------------------------------------------------------------

  /** The inner loop: reads until an event is complete or the stream ends. */
  method ScanEvent(s: seq<Byte>, eager: bool) returns (buf: seq<Byte>, rem: seq<Byte>, eof: bool)
    ensures EmitStream(s, [], eager) == Flush(buf) + EmitStream(rem, [], eager)
    ensures eof ==> rem == []
    ensures |rem| < |s| || (eof && rem == s)
  {
    hide EmitStream, ReadLine, Rewrite, Advanced, Flush;
    buf, rem, eof := [], s, false;
    var reading := true;
    while reading
      invariant |buf| <= MAX_BUFFER
      invariant |rem| < |s| || (rem == s && (reading || eof))
      invariant eof ==> rem == [] && !reading
      invariant EmitStream(s, [], eager) ==
                if reading then EmitStream(rem, buf, eager) else Flush(buf) + EmitStream(rem, [], eager)
      decreases |rem|, reading
    {
      ReadAdvances(rem, buf, eager);
      ReadShrinks(rem, eager);
      var r := ReadLine(rem, eager);
      AdvancedMeans(r, buf, eager);
      var line := Rewrite(r.line);
      var ns := |buf| + |line|;
      rem, eof := r.rest, r.eof;
      if ns > MAX_BUFFER {
        buf := buf + line[..|line| - (ns - MAX_BUFFER)];
        reading := false;
      } else {
        buf := buf + line;
        if !r.isPrefix || eof {
          reading := false;
        }
      }
    }
  }

  /** The outer loop. It terminates, and its events are those of the stream. */
  method Scan(s: seq<Byte>, eager: bool) returns (events: seq<seq<Byte>>)
    ensures events == EmitStream(s, [], eager)
  {
    hide EmitStream;
    events := [];
    var rem, eof := s, false;
    EmitNothing([], eager);
    while !eof
      invariant events + EmitStream(rem, [], eager) == EmitStream(s, [], eager)
      invariant eof ==> rem == []
      decreases |rem|, !eof
    {
      var buf;
      ghost var before := EmitStream(rem, [], eager);
      buf, rem, eof := ScanEvent(rem, eager);
      assert events + before == events + Flush(buf) + EmitStream(rem, [], eager);
      if |buf| > 0 {
        events := events + [buf];
      }
    }
  }

  lemma ReadShrinks(s: seq<Byte>, eager: bool)
    ensures var r := ReadLine(s, eager);
            && (r.eof <==> s == []) && (r.eof ==> r.rest == [] && !r.isPrefix && r.line == [])
            && (s != [] ==> |r.rest| < |s|)
  {
  }

  /** What one read adds, by cases. */
  lemma {:induction false} AdvancedMeans(r: Read, buf: seq<Byte>, eager: bool)
    requires |buf| <= MAX_BUFFER
    ensures var f := Rewrite(r.line);
            Advanced(r, buf, eager) ==
            if |buf| + |f| > MAX_BUFFER then Flush(buf + f[..|f| - (|buf| + |f| - MAX_BUFFER)]) + EmitStream(r.rest, [], eager)
            else if r.isPrefix then EmitStream(r.rest, buf + f, eager)
            else Flush(buf + f) + EmitStream(r.rest, [], eager)
  {
  }

  lemma {:induction false} EmitNothing(buf: seq<Byte>, eager: bool)
    requires |buf| <= MAX_BUFFER
    ensures EmitStream([], buf, eager) == Flush(buf) && Flush(buf) + EmitStream([], [], eager) == Flush(buf)
  {
  }

  lemma ReadNothing(eager: bool)
    ensures ReadLine([], eager) == Read([], false, true, []) && Rewrite([]) == []
  {
  }

  // ---------------------------------------------------------------------
  // What the events are
  // ---------------------------------------------------------------------

  ghost predicate GoodEvents(events: seq<seq<Byte>>) {
    forall i :: 0 <= i < |events| ==> 0 < |events[i]| <= 65536
  }

  lemma {:induction false} EmitIsGood(fs: seq<seq<Byte>>, buf: seq<Byte>)
    requires |buf| <= MAX_BUFFER
    ensures GoodEvents(Emit(fs, buf))
    decreases |fs|
  {
    if fs != [] {
      var f := Rewrite(fs[0]);
      EmitIsGood(fs[1..], []);
      if |buf| + |f| <= MAX_BUFFER {
        EmitIsGood(fs[1..], buf + f);
      }
    }
  }

  /** Every event is non-empty and at most 65536 bytes long. */
  lemma {:induction false} EventsAreBounded(s: seq<Byte>, eager: bool)
    ensures GoodEvents(EmitStream(s, [], eager))
    decreases |s|
  {
    if s != [] {
      AfterLineShrinks(s);
      EmitIsGood(Fragments(s[..LineEnd(s)], Terminated(s), eager), []);
      EventsAreBounded(AfterLine(s), eager);
    }
  }

  function RewriteAll(fs: seq<seq<Byte>>): seq<Byte> {
    if fs == [] then [] else Rewrite(fs[0]) + RewriteAll(fs[1..])
  }

  lemma {:induction false} RewriteAllIsRewritten(fs: seq<seq<Byte>>)
    ensures Rewritten(RewriteAll(fs), Concat(fs))
  {
    if fs != [] {
      RewriteIsRewritten(fs[0]);
      RewriteAllIsRewritten(fs[1..]);
      RewrittenAppend(Rewrite(fs[0]), fs[0], RewriteAll(fs[1..]), Concat(fs[1..]));
    }
  }

  lemma {:induction false} EmitWhole(fs: seq<seq<Byte>>, buf: seq<Byte>)
    requires |buf| + |Concat(fs)| <= MAX_BUFFER
    ensures Emit(fs, buf) == Flush(buf + RewriteAll(fs))
    decreases |fs|
  {
    if fs == [] {
      assert buf + RewriteAll(fs) == buf;
    } else {
      var f := Rewrite(fs[0]);
      EmitWhole(fs[1..], buf + f);
      assert buf + f + RewriteAll(fs[1..]) == buf + RewriteAll(fs);
    }
  }

  /**
   A line of at most 65536 bytes is emitted as one event, byte for byte up to the
   carriage-return rewrite, before everything that follows it; an empty line not at all.
   */
  lemma {:induction false} ShortLineIsWhole(s: seq<Byte>, eager: bool)
    requires s != [] && |Line(s)| <= 65536
    ensures exists event :: Rewritten(event, Line(s)) && (|Line(s)| < 255 ==> AllRewritten(event, Line(s)))
              && EmitStream(s, [], eager) == Flush(event) + EmitStream(AfterLine(s), [], eager)
  {
    var fs := Fragments(s[..LineEnd(s)], Terminated(s), eager);
    hide Rewritten, AllRewritten, Rewrite;
    FragmentsMakeLine(s[..LineEnd(s)], Terminated(s), eager);
    assert !Terminated(s) ==> s[..LineEnd(s)] == s;
    EmitWhole(fs, []);
    assert [] + RewriteAll(fs) == RewriteAll(fs);
    RewriteAllIsRewritten(fs);
    if |Line(s)| < 255 {
      OneFragment(s, eager);
      RewriteExactly(Line(s));
    }
  }

  /** A line that fits the reader's buffer is read in one piece. */
  lemma {:induction false} OneFragment(s: seq<Byte>, eager: bool)
    requires s != [] && |Line(s)| < 255
    ensures RewriteAll(Fragments(s[..LineEnd(s)], Terminated(s), eager)) == Rewrite(Line(s))
  {
    hide LineEnd, Rewrite;
    var raw, t := s[..LineEnd(s)], Terminated(s);
    assert !t ==> raw == s;
    assert Fragments(raw, t, eager) == [Line(s)];
    assert [Line(s)][1..] == [];
    assert Rewrite(Line(s)) + [] == Rewrite(Line(s));
  }

  /** Lines as a program writes them, each with a line feed or with carriage return and line feed after it. */
  function Written(lines: seq<(seq<Byte>, bool)>): seq<Byte> {
    if lines == [] then []
    else lines[0].0 + (if lines[0].1 then [13, 10] else [10]) + Written(lines[1..])
  }

  function NonEmpty(lines: seq<(seq<Byte>, bool)>): seq<seq<Byte>> {
    if lines == [] then []
    else (if lines[0].0 == [] then [] else [lines[0].0]) + NonEmpty(lines[1..])
  }

  /** The first line read is the first line written. */
  lemma {:induction false} FirstWritten(line: seq<Byte>, crlf: bool, rest: seq<Byte>)
    requires LF !in line && (line != [] ==> line[|line| - 1] != CR)
    ensures var s := line + (if crlf then [13, 10] else [10]) + rest;
            s != [] && Line(s) == line && AfterLine(s) == rest
  {
    var raw := if crlf then line + [13] else line;
    var s := line + (if crlf then [13, 10] else [10]) + rest;
    assert s == raw + [10] + rest;
    assert s[..|raw|] == raw && s[|raw|] == LF && s[|raw| + 1..] == rest;
    LineEndIs(s, |raw|);
    assert TrimCR(raw) == line;
  }

  /** Reading lines undoes writing them, up to empty lines. */
  lemma {:induction false} LinesOfWritten(lines: seq<(seq<Byte>, bool)>)
    requires forall i :: 0 <= i < |lines| ==>
               LF !in lines[i].0 && (lines[i].0 != [] ==> lines[i].0[|lines[i].0| - 1] != CR)
    ensures Lines(Written(lines)) == NonEmpty(lines)
    decreases |lines|
  {
    if lines != [] {
      hide Line, AfterLine;
      FirstWritten(lines[0].0, lines[0].1, Written(lines[1..]));
      LinesStep(Written(lines));
      LinesOfWritten(lines[1..]);
    }
  }

  /** The non-empty lines of the stream, in order. */
  function Lines(s: seq<Byte>): seq<seq<Byte>>
    decreases |s|
  {
    if s == [] then []
    else
      AfterLineShrinks(s);
      (if Line(s) == [] then [] else [Line(s)]) + Lines(AfterLine(s))
  }

  ghost predicate Matching(events: seq<seq<Byte>>, lines: seq<seq<Byte>>) {
    |events| == |lines| && forall i :: 0 <= i < |events| ==> Rewritten(events[i], lines[i])
  }

  lemma MatchingCons(event: seq<Byte>, line: seq<Byte>, events: seq<seq<Byte>>, lines: seq<seq<Byte>>)
    requires Rewritten(event, line) && Matching(events, lines)
    ensures Matching(Flush(event) + events, (if line == [] then [] else [line]) + lines)
  {
  }

  lemma {:induction false} LinesStep(s: seq<Byte>)
    requires s != []
    ensures Lines(s) == (if Line(s) == [] then [] else [Line(s)]) + Lines(AfterLine(s))
  {
  }

  ghost predicate AllShort(lines: seq<seq<Byte>>) {
    forall i :: 0 <= i < |lines| ==> |lines[i]| <= 65536
  }

  lemma FirstIsShort(line: seq<Byte>, lines: seq<seq<Byte>>)
    requires AllShort((if line == [] then [] else [line]) + lines)
    ensures |line| <= 65536 && AllShort(lines)
  {
    var all := (if line == [] then [] else [line]) + lines;
    var skipped := if line == [] then 0 else 1;
    assert line != [] ==> all[0] == line;
    assert forall i :: 0 <= i < |lines| ==> lines[i] == all[i + skipped];
  }

  /** A stream of short lines: one event per non-empty line, in order and complete. */
  lemma {:induction false} ShortLinesInOrder(s: seq<Byte>, eager: bool)
    requires AllShort(Lines(s))
    ensures Matching(EmitStream(s, [], eager), Lines(s))
    decreases |s|
  {
    if s != [] {
      hide EmitStream, Line, AfterLine, Rewritten, Matching, Lines, AllShort;
      AfterLineShrinks(s);
      LinesStep(s);
      FirstIsShort(Line(s), Lines(AfterLine(s)));
      ShortLinesInOrder(AfterLine(s), eager);
      ShortLineIsWhole(s, eager);
      var event :| Rewritten(event, Line(s))
        && EmitStream(s, [], eager) == Flush(event) + EmitStream(AfterLine(s), [], eager);
      MatchingCons(event, Line(s), EmitStream(AfterLine(s), [], eager), Lines(AfterLine(s)));
    }
  }

  /** Events and the stretches dropped after each of them, put together in order. */
  function Interleave(events: seq<seq<Byte>>, gaps: seq<seq<Byte>>): seq<Byte>
    requires |gaps| == |events|
  {
    if events == [] then [] else events[0] + gaps[0] + Interleave(events[1..], gaps[1..])
  }

  /** A stretch is dropped only after an event that fills the buffer, and is at most one fragment long. */
  ghost predicate SmallGaps(events: seq<seq<Byte>>, gaps: seq<seq<Byte>>) {
    && |gaps| == |events|
    && forall i :: 0 <= i < |events| ==> |gaps[i]| <= 256 && (gaps[i] != [] ==> |events[i]| == 65536)
  }

  lemma {:induction false} InterleaveCons(event: seq<Byte>, gap: seq<Byte>, events: seq<seq<Byte>>, gaps: seq<seq<Byte>>)
    requires SmallGaps(events, gaps) && |gap| <= FRAGMENT && (gap != [] ==> |event| == MAX_BUFFER)
    ensures SmallGaps([event] + events, [gap] + gaps)
    ensures Interleave([event] + events, [gap] + gaps) == event + gap + Interleave(events, gaps)
  {
    assert ([event] + events)[1..] == events && ([gap] + gaps)[1..] == gaps;
  }

  lemma FlushInterleaves(buf: seq<Byte>) returns (gaps: seq<seq<Byte>>)
    ensures SmallGaps(Flush(buf), gaps) && Interleave(Flush(buf), gaps) == buf
  {
    gaps := if buf == [] then [] else [[]];
    if buf != [] {
      InterleaveCons(buf, [], [], []);
      assert [buf] + [] == [buf] && [[]] + [] == gaps && buf + [] + [] == buf;
    }
  }

  /** The rewritten fragments of a line are its events with small gaps. */
  lemma {:induction false} EmitInterleaves(fs: seq<seq<Byte>>, buf: seq<Byte>) returns (gaps: seq<seq<Byte>>)
    requires |buf| <= MAX_BUFFER && forall i :: 0 <= i < |fs| ==> |fs[i]| <= FRAGMENT
    ensures SmallGaps(Emit(fs, buf), gaps) && Interleave(Emit(fs, buf), gaps) == buf + RewriteAll(fs)
    decreases |fs|
  {
    hide Interleave, SmallGaps, Rewrite, Emit, RewriteAll;
    if fs == [] {
      EmitNoMore(buf);
      gaps := FlushInterleaves(buf);
    } else {
      var f, rest := Rewrite(fs[0]), RewriteAll(fs[1..]);
      assert fs == [fs[0]] + fs[1..];
      EmitStep(fs[0], fs[1..], buf);
      RewriteAllStep(fs);
      if |buf| + |f| > MAX_BUFFER {
        var room := MAX_BUFFER - |buf|;
        gaps := EmitInterleaves(fs[1..], []);
        InterleaveCons(buf + f[..room], f[room..], Emit(fs[1..], []), gaps);
        gaps := [f[room..]] + gaps;
        assert [] + rest == rest;
        assert f[..room] + f[room..] == f;
        assert buf + f[..room] + f[room..] + rest == buf + (f + rest);
      } else {
        gaps := EmitInterleaves(fs[1..], buf + f);
        assert buf + f + rest == buf + (f + rest);
      }
    }
  }

  lemma {:induction false} EmitNoMore(buf: seq<Byte>)
    requires |buf| <= MAX_BUFFER
    ensures Emit([], buf) == Flush(buf) && buf + RewriteAll([]) == buf
  {
  }

  lemma {:induction false} RewriteAllStep(fs: seq<seq<Byte>>)
    requires fs != []
    ensures RewriteAll(fs) == Rewrite(fs[0]) + RewriteAll(fs[1..])
  {
  }

  /**
   A line of any length: its events, with the stretches that were dropped put back,
   are the line byte for byte up to the carriage-return rewrite. A stretch of at most
   256 bytes is dropped after an event that fills the buffer, and nothing elsewhere.
   */
  lemma LongLineLoss(s: seq<Byte>, eager: bool) returns (gaps: seq<seq<Byte>>)
    requires s != []
    ensures var events := Emit(Fragments(s[..LineEnd(s)], Terminated(s), eager), []);
            && EmitStream(s, [], eager) == events + EmitStream(AfterLine(s), [], eager)
            && SmallGaps(events, gaps) && Rewritten(Interleave(events, gaps), Line(s))
  {
    var fs := Fragments(s[..LineEnd(s)], Terminated(s), eager);
    FragmentsMakeLine(s[..LineEnd(s)], Terminated(s), eager);
    assert !Terminated(s) ==> s[..LineEnd(s)] == s;
    gaps := EmitInterleaves(fs, []);
    assert [] + RewriteAll(fs) == RewriteAll(fs);
    RewriteAllIsRewritten(fs);
  }
}
