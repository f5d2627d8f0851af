/**
 The sink pool of system/sink_pool.go: a list of bounded channels behind a
 reader/writer lock, with a fan-out that drops a channel's oldest message when it
 stays full. Channel 0 is Go's nil channel.
 */
module SinkPool {

  type ChanId = nat
  type Msg = string

  /** The position of the first occurrence. */
  function IndexOf(sinks: seq<ChanId>, c: ChanId): (i: nat)
    requires c in sinks
    ensures i < |sinks| && sinks[i] == c
    ensures forall j :: 0 <= j < i ==> sinks[j] != c
  {
    if sinks[0] == c then 0 else 1 + IndexOf(sinks[1..], c)
  }

  /** The list without the first occurrence of `c`; the others keep their order. */
  function Remove(sinks: seq<ChanId>, c: ChanId): seq<ChanId> {
    if c in sinks then sinks[..IndexOf(sinks, c)] + sinks[IndexOf(sinks, c) + 1..] else sinks
  }

  lemma RemoveAt(sinks: seq<ChanId>, c: ChanId, i: nat)
    requires i < |sinks| && sinks[i] == c && forall j :: 0 <= j < i ==> sinks[j] != c
    ensures c in sinks && Remove(sinks, c) == sinks[..i] + sinks[i + 1..]
  {
    var k := IndexOf(sinks, c);
    assert k == i;
  }

  lemma RemoveAbsent(sinks: seq<ChanId>, c: ChanId)
    requires forall j :: 0 <= j < |sinks| ==> sinks[j] != c
    ensures c !in sinks && Remove(sinks, c) == sinks
  {
  }

  class Pool {
    var sinks: seq<ChanId>
    var closed: seq<ChanId>   // the channels closed so far, in order

    constructor ()
      ensures sinks == [] && closed == []
    {
      sinks, closed := [], [];
    }

    method On(c: ChanId)
      modifies this
      ensures sinks == old(sinks) + [c] && closed == old(closed)
    {
      sinks := sinks + [c];
    }

    method Off(c: ChanId)
      modifies this
      ensures sinks == Remove(old(sinks), c)
      ensures closed == if c in old(sinks) && c != 0 then old(closed) + [c] else old(closed)
    {
      hide Remove;
      for i := 0 to |sinks|
        invariant sinks == old(sinks) && closed == old(closed)
        invariant forall j :: 0 <= j < i ==> sinks[j] != c
      {
        if c == sinks[i] {
          RemoveAt(sinks, c, i);
          sinks := sinks[..i] + sinks[i + 1..];
          if c != 0 {
            closed := closed + [c];
          }
          return;
        }
      }
      RemoveAbsent(sinks, c);
    }

    method Destroy()
      modifies this
      ensures sinks == []
      ensures closed == old(closed) + NonNil(old(sinks))
    {
      for i := 0 to |sinks|
        invariant sinks == old(sinks) && closed == old(closed) + NonNil(sinks[..i])
      {
        assert sinks[..i + 1][..i] == sinks[..i];
        if sinks[i] != 0 {
          closed := closed + [sinks[i]];
        }
      }
      assert sinks[..|sinks|] == sinks;
      sinks := [];
    }
  }

  function NonNil(cs: seq<ChanId>): seq<ChanId> {
    if cs == [] then []
    else
      var rest := NonNil(cs[..|cs| - 1]);
      if cs[|cs| - 1] != 0 then rest + [cs[|cs| - 1]] else rest
  }

  // ---------------------------------------------------------------------
  // The protocol
  // ---------------------------------------------------------------------

  /** `history` is a history variable: the messages pushed while the channel was in the pool. */
  datatype Chan = Chan(
    cap: nat, buf: seq<Msg>, delivered: seq<Msg>, history: seq<Msg>, registered: bool, closed: bool)

  /** The goroutine that serves one channel for one push: at the end it has sent the message or given up. */
  datatype WorkerPc = Trying | MadeRoom | Sent | GaveUp

  predicate Ended(pc: WorkerPc) {
    pc == Sent || pc == GaveUp
  }

  datatype Worker = Worker(chan: ChanId, pc: WorkerPc)

  datatype Push = Push(msg: Msg, workers: seq<Worker>, active: bool)

  /** `panicked`: a send on a closed channel or a second close has happened. */
  datatype State = State(sinks: seq<ChanId>, chans: seq<Chan>, pushes: seq<Push>, panicked: bool)

  datatype Step =
    | NewChan(cap: nat)
    | On(c: ChanId)
    | Off(c: ChanId)
    | Destroy
    | BeginPush(msg: Msg)
    | Send(p: nat, w: nat)
    | HandOff(p: nat, w: nat)      // a receiver is waiting on an empty channel
    | DropOldest(p: nat, w: nat)   // after 10ms without room
    | Resend(p: nat, w: nat)
    | EndPush(p: nat)
    | Receive(c: ChanId)

  /** The writer lock excludes every push that holds the reader lock. */
  ghost predicate NoReader(s: State) {
    forall i :: 0 <= i < |s.pushes| ==> !s.pushes[i].active
  }

  ghost predicate WorkerAt(s: State, p: nat, w: nat, pc: WorkerPc) {
    && p < |s.pushes| && s.pushes[p].active && w < |s.pushes[p].workers|
    && s.pushes[p].workers[w].pc == pc
    && s.pushes[p].workers[w].chan < |s.chans|
  }

  function ChanOf(s: State, p: nat, w: nat): Chan
    requires p < |s.pushes| && w < |s.pushes[p].workers| && s.pushes[p].workers[w].chan < |s.chans|
  {
    s.chans[s.pushes[p].workers[w].chan]
  }

  ghost predicate Enabled(s: State, step: Step) {
    match step
    case NewChan(_) => true
    case On(c) => NoReader(s) && c < |s.chans| && !s.chans[c].registered   // each channel is registered once
    case Off(_) => NoReader(s)
    case Destroy => NoReader(s)
    case BeginPush(_) => true
    case Send(p, w) =>
      WorkerAt(s, p, w, Trying) && (ChanOf(s, p, w).closed || |ChanOf(s, p, w).buf| < ChanOf(s, p, w).cap)
    case HandOff(p, w) => WorkerAt(s, p, w, Trying) && (ChanOf(s, p, w).closed || ChanOf(s, p, w).buf == [])
    case DropOldest(p, w) => WorkerAt(s, p, w, Trying)
    case Resend(p, w) => WorkerAt(s, p, w, MadeRoom)
    case EndPush(p) =>
      p < |s.pushes| && s.pushes[p].active
      && forall w :: 0 <= w < |s.pushes[p].workers| ==> Ended(s.pushes[p].workers[w].pc)
    case Receive(c) => c < |s.chans| && s.chans[c].buf != []
  }

  ghost function SetWorker(s: State, p: nat, w: nat, pc: WorkerPc): State
    requires p < |s.pushes| && w < |s.pushes[p].workers|
  {
    var push := s.pushes[p];
    s.(pushes := s.pushes[p := push.(workers := push.workers[w := push.workers[w].(pc := pc)])])
  }

  ghost function SetChan(s: State, c: ChanId, ch: Chan): State
    requires c < |s.chans|
  {
    s.(chans := s.chans[c := ch])
  }

  ghost function CloseAll(chans: seq<Chan>, cs: seq<ChanId>): seq<Chan> {
    seq(|chans|, i requires 0 <= i < |chans| => if i in cs then chans[i].(closed := true) else chans[i])
  }

  /** Closing panics when one of the channels is closed already or is listed twice. */
  ghost predicate ClosePanics(chans: seq<Chan>, cs: seq<ChanId>) {
    || (exists i :: 0 <= i < |cs| && cs[i] < |chans| && chans[cs[i]].closed)
    || (exists i, j :: 0 <= i < j < |cs| && cs[i] == cs[j])
  }

  ghost function Record(chans: seq<Chan>, cs: seq<ChanId>, msg: Msg): seq<Chan> {
    seq(|chans|, i requires 0 <= i < |chans| =>
      if i in cs then chans[i].(history := chans[i].history + [msg]) else chans[i])
  }

  ghost function Workers(cs: seq<ChanId>): seq<Worker> {
    seq(|cs|, i requires 0 <= i < |cs| => Worker(cs[i], Trying))
  }

  ghost function Apply(s: State, step: Step): State
    requires Enabled(s, step)
  {
    match step
    case NewChan(cap) => s.(chans := s.chans + [Chan(cap, [], [], [], false, false)])
    case On(c) => SetChan(s.(sinks := s.sinks + [c]), c, s.chans[c].(registered := true))
    case Off(c) =>
      if c !in s.sinks then s
      else State(Remove(s.sinks, c), CloseAll(s.chans, [c]), s.pushes, s.panicked || ClosePanics(s.chans, [c]))
    case Destroy => State([], CloseAll(s.chans, s.sinks), s.pushes, s.panicked || ClosePanics(s.chans, s.sinks))
    case BeginPush(msg) =>
      s.(chans := Record(s.chans, s.sinks, msg), pushes := s.pushes + [Push(msg, Workers(s.sinks), true)])
    case Send(p, w) => Enqueue(s, p, w)
    case HandOff(p, w) =>
      var c, ch := s.pushes[p].workers[w].chan, ChanOf(s, p, w);
      if ch.closed then s.(panicked := true)
      else SetWorker(SetChan(s, c, ch.(delivered := ch.delivered + [s.pushes[p].msg])), p, w, Sent)
    case DropOldest(p, w) =>
      var c, ch := s.pushes[p].workers[w].chan, ChanOf(s, p, w);
      if ch.buf != [] then SetWorker(SetChan(s, c, ch.(buf := ch.buf[1..])), p, w, MadeRoom)
      else SetWorker(s, p, w, if ch.closed then MadeRoom else GaveUp)
    case Resend(p, w) =>
      if ChanOf(s, p, w).closed || |ChanOf(s, p, w).buf| < ChanOf(s, p, w).cap then Enqueue(s, p, w)
      else SetWorker(s, p, w, GaveUp)
    case EndPush(p) => s.(pushes := s.pushes[p := s.pushes[p].(active := false)])
    case Receive(c) =>
      var ch := s.chans[c];
      SetChan(s, c, ch.(buf := ch.buf[1..], delivered := ch.delivered + [ch.buf[0]]))
  }

  ghost function Enqueue(s: State, p: nat, w: nat): State
    requires p < |s.pushes| && w < |s.pushes[p].workers| && s.pushes[p].workers[w].chan < |s.chans|
  {
    var c, ch := s.pushes[p].workers[w].chan, ChanOf(s, p, w);
    if ch.closed then s.(panicked := true)
    else SetWorker(SetChan(s, c, ch.(buf := ch.buf + [s.pushes[p].msg])), p, w, Sent)
  }

  ghost predicate Runs(s: State, steps: seq<Step>)
    decreases |steps|
  {
    steps == [] || (Enabled(s, steps[0]) && Runs(Apply(s, steps[0]), steps[1..]))
  }

  ghost function Exec(s: State, steps: seq<Step>): State
    requires Runs(s, steps)
    decreases |steps|
  {
    if steps == [] then s else Exec(Apply(s, steps[0]), steps[1..])
  }

  // Safety

  /**
   Pooled channels are open and listed once, channels that have left the pool are
   closed, and every running push works on pooled channels only.
   */
  ghost predicate Safe(s: State) {
    && !s.panicked
    && (forall i :: 0 <= i < |s.chans| && s.chans[i].closed ==> s.chans[i].registered)
    && (forall i :: 0 <= i < |s.chans| && s.chans[i].registered && !s.chans[i].closed ==> i in s.sinks)
    && (forall i :: 0 <= i < |s.sinks| ==> Pooled(s, s.sinks[i]))
    && (forall i, j :: 0 <= i < j < |s.sinks| ==> s.sinks[i] != s.sinks[j])
    && (forall p :: 0 <= p < |s.pushes| && s.pushes[p].active ==> WorkersPooled(s.sinks, s.pushes[p].workers))
  }

  ghost predicate Pooled(s: State, c: ChanId) {
    c < |s.chans| && s.chans[c].registered && !s.chans[c].closed
  }

  ghost predicate WorkersPooled(sinks: seq<ChanId>, ws: seq<Worker>) {
    forall w :: 0 <= w < |ws| ==> ws[w].chan in sinks
  }

  lemma WorkerChanIsOpen(s: State, p: nat, w: nat)
    requires Safe(s) && p < |s.pushes| && s.pushes[p].active && w < |s.pushes[p].workers|
    ensures s.pushes[p].workers[w].chan in s.sinks && Pooled(s, s.pushes[p].workers[w].chan)
  {
    assert WorkersPooled(s.sinks, s.pushes[p].workers);
  }

  ghost predicate DistinctSinks(sinks: seq<ChanId>) {
    forall i, j :: 0 <= i < j < |sinks| ==> sinks[i] != sinks[j]
  }

  lemma RemoveIndex(sinks: seq<ChanId>, c: ChanId) returns (k: nat)
    requires c in sinks
    ensures k < |sinks| && sinks[k] == c && |Remove(sinks, c)| == |sinks| - 1
    ensures forall i :: 0 <= i < k ==> Remove(sinks, c)[i] == sinks[i]
    ensures forall i :: k <= i < |sinks| - 1 ==> Remove(sinks, c)[i] == sinks[i + 1]
  {
    hide IndexOf;
    k := IndexOf(sinks, c);
    assert Remove(sinks, c) == sinks[..k] + sinks[k + 1..];
  }

  /** Where no channel is listed twice, removing one leaves exactly the others. */
  lemma RemoveMembers(sinks: seq<ChanId>, c: ChanId)
    requires DistinctSinks(sinks) && c in sinks
    ensures DistinctSinks(Remove(sinks, c))
    ensures forall d :: d in Remove(sinks, c) <==> d in sinks && d != c
  {
    hide Remove;
    var k := RemoveIndex(sinks, c);
    var rest := Remove(sinks, c);
    forall d ensures d in rest <==> d in sinks && d != c {
      if i :| 0 <= i < |rest| && rest[i] == d {
        assert d == sinks[if i < k then i else i + 1];
      }
      if i :| 0 <= i < |sinks| && sinks[i] == d && d != c {
        assert rest[if i < k then i else i - 1] == d;
      }
    }
    forall i, j | 0 <= i < j < |rest| ensures rest[i] != rest[j] {
      assert rest[i] == sinks[if i < k then i else i + 1] && rest[j] == sinks[if j < k then j else j + 1];
    }
  }

  lemma SinksOfSafe(s: State)
    requires Safe(s)
    ensures DistinctSinks(s.sinks) && forall c :: c in s.sinks ==> Pooled(s, c)
  {
    forall c | c in s.sinks ensures Pooled(s, c) {
      var i :| 0 <= i < |s.sinks| && s.sinks[i] == c;
      assert Pooled(s, s.sinks[i]);
    }
  }

  lemma OffIsSafe(s: State, c: ChanId)
    requires Safe(s) && Enabled(s, Off(c)) && c in s.sinks
    ensures Safe(Apply(s, Off(c)))
  {
    var t := Apply(s, Off(c));
    SinksOfSafe(s);
    RemoveMembers(s.sinks, c);
    hide Remove;
    forall i | 0 <= i < |t.sinks| ensures Pooled(t, t.sinks[i]) {
      assert t.sinks[i] in t.sinks;
      assert Pooled(s, t.sinks[i]);
    }
    assert Pooled(s, c);
  }

  lemma DestroyIsSafe(s: State)
    requires Safe(s) && Enabled(s, Destroy)
    ensures Safe(Apply(s, Destroy))
  {
    assert forall i :: 0 <= i < |s.sinks| ==> Pooled(s, s.sinks[i]);
    assert !ClosePanics(s.chans, s.sinks);
  }

  /** The same pool, the same channels registered and closed, the same workers. */
  ghost predicate QueuesChange(s: State, t: State) {
    && t.sinks == s.sinks && !t.panicked
    && |t.chans| >= |s.chans| && |t.pushes| == |s.pushes|
    && (forall i :: 0 <= i < |s.chans| ==>
          t.chans[i].registered == s.chans[i].registered && t.chans[i].closed == s.chans[i].closed)
    && (forall i :: |s.chans| <= i < |t.chans| ==> !t.chans[i].closed && !t.chans[i].registered)
    && (forall p :: 0 <= p < |s.pushes| ==> SameWorkers(s.pushes[p], t.pushes[p]))
  }

  ghost predicate SameWorkers(a: Push, b: Push) {
    && (b.active ==> a.active)
    && |b.workers| == |a.workers|
    && forall w :: 0 <= w < |a.workers| ==> b.workers[w].chan == a.workers[w].chan
  }

  lemma WorkerStepQueues(s: State, step: Step)
    requires Safe(s) && Enabled(s, step)
    requires step.Send? || step.HandOff? || step.DropOldest? || step.Resend?
    ensures QueuesChange(s, Apply(s, step))
  {
    WorkerChanIsOpen(s, step.p, step.w);
    hide Safe;
    var push, t := s.pushes[step.p], Apply(s, step);
    assert SameWorkers(push, t.pushes[step.p]);
  }

  /** A change of one channel's queues or one worker's position is harmless. */
  lemma QueueStepIsSafe(s: State, t: State)
    requires Safe(s) && QueuesChange(s, t)
    ensures Safe(t)
  {
    forall i | 0 <= i < |t.sinks| ensures Pooled(t, t.sinks[i]) {
      assert Pooled(s, s.sinks[i]);
    }
    forall p | 0 <= p < |t.pushes| && t.pushes[p].active ensures WorkersPooled(t.sinks, t.pushes[p].workers) {
      assert WorkersPooled(s.sinks, s.pushes[p].workers);
    }
  }

  lemma OnIsSafe(s: State, c: ChanId)
    requires Safe(s) && Enabled(s, On(c))
    ensures Safe(Apply(s, On(c)))
  {
    var t := Apply(s, On(c));
    assert forall i :: 0 <= i < |s.sinks| ==> Pooled(s, s.sinks[i]);
    forall i | 0 <= i < |t.sinks| ensures Pooled(t, t.sinks[i]) {}
  }

  lemma OtherStepQueues(s: State, step: Step)
    requires Safe(s) && Enabled(s, step)
    requires step.NewChan? || step.EndPush? || step.Receive?
    ensures QueuesChange(s, Apply(s, step))
  {
    assert !s.panicked;
    hide Safe;
  }

  lemma StepIsSafe(s: State, step: Step)
    requires Safe(s) && Enabled(s, step)
    ensures Safe(Apply(s, step))
  {
    hide Safe, QueuesChange;
    if step.On? {
      OnIsSafe(s, step.c);
    } else if step.Off? {
      if step.c in s.sinks {
        OffIsSafe(s, step.c);
      }
    } else if step.Destroy? {
      DestroyIsSafe(s);
    } else if step.BeginPush? {
      BeginPushIsSafe(s, step.msg);
    } else {
      if step.NewChan? || step.EndPush? || step.Receive? {
        OtherStepQueues(s, step);
      } else {
        WorkerStepQueues(s, step);
      }
      QueueStepIsSafe(s, Apply(s, step));
    }
  }

  lemma BeginPushIsSafe(s: State, msg: Msg)
    requires Safe(s)
    ensures Safe(Apply(s, BeginPush(msg)))
  {
    var t := Apply(s, BeginPush(msg));
    forall i | 0 <= i < |t.sinks| ensures Pooled(t, t.sinks[i]) {
      assert Pooled(s, s.sinks[i]);
    }
    assert WorkersPooled(s.sinks, Workers(s.sinks));
  }

  /** Under any interleaving nothing is sent on a closed channel and none is closed twice. */
  lemma {:induction false} RunsNeverPanic(s: State, steps: seq<Step>)
    requires Safe(s) && Runs(s, steps)
    ensures Safe(Exec(s, steps)) && !Exec(s, steps).panicked
    decreases |steps|
  {
    if steps != [] {
      StepIsSafe(s, steps[0]);
      RunsNeverPanic(Apply(s, steps[0]), steps[1..]);
    }
  }

  /** Off and Destroy close what they take out: in every run a channel that was ever pooled is closed exactly once it has left. */
  lemma {:induction false} ClosedExactlyWhenOut(s: State, steps: seq<Step>, c: ChanId)
    requires Safe(s) && Runs(s, steps)
    requires c < |Exec(s, steps).chans| && Exec(s, steps).chans[c].registered
    ensures Exec(s, steps).chans[c].closed <==> c !in Exec(s, steps).sinks
  {
    RunsNeverPanic(s, steps);
    var t := Exec(s, steps);
    if c in t.sinks {
      var i :| 0 <= i < |t.sinks| && t.sinks[i] == c;
      assert Pooled(t, t.sinks[i]);
    }
  }

  /** Off takes out that channel alone, Destroy all of them. */
  lemma LeavesExactly(s: State, step: Step, c: ChanId)
    requires Safe(s) && Enabled(s, step) && (step.Off? || step.Destroy?)
    ensures c in Apply(s, step).sinks <==> c in s.sinks && step.Off? && step.c != c
  {
    SinksOfSafe(s);
    hide Safe, Remove;
    if step.Off? && step.c in s.sinks {
      RemoveMembers(s.sinks, step.c);
    }
  }

  // ---------------------------------------------------------------------
  // Order of delivery
  // ---------------------------------------------------------------------

  /** `a` is `b` with some elements left out. */
  ghost predicate Subsequence(a: seq<Msg>, b: seq<Msg>)
    decreases |b|
  {
    || a == []
    || (b != [] && a[|a| - 1] == b[|b| - 1] && Subsequence(a[..|a| - 1], b[..|b| - 1]))
    || (b != [] && Subsequence(a, b[..|b| - 1]))
  }

  lemma {:induction false} SubsequenceSkip(a: seq<Msg>, b: seq<Msg>, x: Msg)
    requires Subsequence(a, b)
    ensures Subsequence(a, b + [x])
  {
    assert (b + [x])[..|b|] == b;
  }

  lemma {:induction false} SubsequenceTake(a: seq<Msg>, b: seq<Msg>, x: Msg)
    requires Subsequence(a, b)
    ensures Subsequence(a + [x], b + [x])
  {
    assert (a + [x])[..|a|] == a && (b + [x])[..|b|] == b;
  }

  /** The last element is matched with the last one or with an earlier one. */
  lemma {:induction false} SubsequenceCases(a: seq<Msg>, b: seq<Msg>)
    requires Subsequence(a, b) && a != []
    ensures b != []
    ensures || Subsequence(a, b[..|b| - 1])
            || (a[|a| - 1] == b[|b| - 1] && Subsequence(a[..|a| - 1], b[..|b| - 1]))
  {
  }

  /** Leaving out one more element keeps it a subsequence. */
  lemma {:induction false} SubsequenceOmit(p: seq<Msg>, y: Msg, q: seq<Msg>, b: seq<Msg>)
    requires Subsequence(p + [y] + q, b)
    ensures Subsequence(p + q, b)
    decreases |b|
  {
    hide Subsequence;
    var a := p + [y] + q;
    SubsequenceCases(a, b);
    var b', last := b[..|b| - 1], b[|b| - 1];
    assert b' + [last] == b;
    if Subsequence(a, b') {
      SubsequenceOmit(p, y, q, b');
      SubsequenceSkip(p + q, b', last);
    } else if q == [] {
      assert a[..|a| - 1] == p && p + q == p;
      SubsequenceSkip(p, b', last);
    } else {
      var q' := q[..|q| - 1];
      assert a[..|a| - 1] == p + [y] + q';
      SubsequenceOmit(p, y, q', b');
      SubsequenceTake(p + q', b', last);
      assert p + q' + [last] == p + q;
    }
  }

  ghost predicate ChanOrdered(ch: Chan) {
    |ch.buf| <= ch.cap && Subsequence(ch.delivered + ch.buf, ch.history)
  }

  /** A worker that has not finished still owes the last message of its channel's history. */
  ghost predicate Owes(ch: Chan, msg: Msg, pc: WorkerPc) {
    && ch.history != [] && ch.history[|ch.history| - 1] == msg
    && Subsequence(ch.delivered + ch.buf, ch.history[..|ch.history| - 1])
    && (pc == MadeRoom ==> |ch.buf| < ch.cap)
  }

  /** The message is the last one delivered or buffered. */
  ghost predicate Newest(ch: Chan, msg: Msg) {
    var all := ch.delivered + ch.buf;
    all != [] && all[|all| - 1] == msg
  }

  ghost predicate Served(ch: Chan, msg: Msg, pc: WorkerPc) {
    && (!Ended(pc) ==> Owes(ch, msg, pc))
    && (pc == Sent ==> Newest(ch, msg))
  }

  /** There is one worker for each channel of the pool, and it has done what its position says. */
  ghost predicate PushOrdered(s: State, push: Push) {
    && |push.workers| == |s.sinks|
    && (forall w :: 0 <= w < |push.workers| ==>
          push.workers[w].chan == s.sinks[w] < |s.chans|
          && Served(s.chans[push.workers[w].chan], push.msg, push.workers[w].pc))
    && (forall v, w :: 0 <= v < w < |push.workers| ==> push.workers[v].chan != push.workers[w].chan)
  }

  ghost predicate Ordered(s: State) {
    && (forall c :: 0 <= c < |s.chans| ==> ChanOrdered(s.chans[c]))
    && (forall p :: 0 <= p < |s.pushes| && s.pushes[p].active ==> PushOrdered(s, s.pushes[p]))
    && (forall p, q :: 0 <= p < q < |s.pushes| && s.pushes[p].active ==> !s.pushes[q].active)
  }

  /** Sending the owed message, to the buffer or straight to a receiver. */
  lemma SendOrdered(ch: Chan, msg: Msg, pc: WorkerPc)
    requires ChanOrdered(ch) && Owes(ch, msg, pc)
    ensures |ch.buf| < ch.cap ==> ChanOrdered(ch.(buf := ch.buf + [msg]))
    ensures Newest(ch.(buf := ch.buf + [msg]), msg)
    ensures ch.buf == [] ==>
              ChanOrdered(ch.(delivered := ch.delivered + [msg])) && Newest(ch.(delivered := ch.delivered + [msg]), msg)
  {
    hide Subsequence, Newest;
    var d, b, h := ch.delivered, ch.buf, ch.history;
    SubsequenceTake(d + b, h[..|h| - 1], msg);
    assert h[..|h| - 1] + [msg] == h;
    assert d + b + [msg] == d + (b + [msg]);
    if b == [] {
      assert d + b == d;
      assert d + [msg] + b == d + [msg];
    }
    SentIsNewest(ch, msg);
  }

  lemma SentIsNewest(ch: Chan, msg: Msg)
    ensures Newest(ch.(buf := ch.buf + [msg]), msg)
    ensures ch.buf == [] ==> Newest(ch.(delivered := ch.delivered + [msg]), msg)
  {
  }

  /** Dropping the oldest message makes room and loses no order. */
  lemma DropOrdered(ch: Chan, msg: Msg, pc: WorkerPc)
    requires ChanOrdered(ch) && Owes(ch, msg, pc) && ch.buf != []
    ensures ChanOrdered(ch.(buf := ch.buf[1..])) && Owes(ch.(buf := ch.buf[1..]), msg, MadeRoom)
  {
    hide Subsequence;
    var d, b, h := ch.delivered, ch.buf, ch.history;
    assert d + b == d + [b[0]] + b[1..];
    SubsequenceOmit(d, b[0], b[1..], h);
    SubsequenceOmit(d, b[0], b[1..], h[..|h| - 1]);
  }

  lemma ReceiveOrdered(ch: Chan)
    requires ChanOrdered(ch) && ch.buf != []
    ensures var got := ch.(buf := ch.buf[1..], delivered := ch.delivered + [ch.buf[0]]);
            ChanOrdered(got) && forall msg, pc :: Served(ch, msg, pc) ==> Served(got, msg, pc)
  {
    hide Subsequence;
    assert ch.delivered + [ch.buf[0]] + ch.buf[1..] == ch.delivered + ch.buf;
  }

  /** A change confined to one worker of the running push and that worker's channel. */
  lemma WorkerStepIsOrdered(s: State, p: nat, w: nat, ch: Chan, pc: WorkerPc)
    requires Ordered(s) && p < |s.pushes| && s.pushes[p].active && w < |s.pushes[p].workers|
    requires PushOrdered(s, s.pushes[p])
    requires ChanOrdered(ch) && Served(ch, s.pushes[p].msg, pc)
    ensures Ordered(SetWorker(SetChan(s, s.pushes[p].workers[w].chan, ch), p, w, pc))
  {
    var c := s.pushes[p].workers[w].chan;
    var t := SetWorker(SetChan(s, c, ch), p, w, pc);
    forall q | 0 <= q < |t.pushes| && t.pushes[q].active ensures PushOrdered(t, t.pushes[q]) {
      assert q == p;
    }
  }

  /** A pushed message is owed to every pooled channel, and no order is lost. */
  lemma RecordedIsOwed(ch: Chan, msg: Msg)
    requires ChanOrdered(ch)
    ensures var ch' := ch.(history := ch.history + [msg]); ChanOrdered(ch') && Owes(ch', msg, Trying)
  {
    hide Subsequence;
    var h := ch.history;
    assert (h + [msg])[..|h|] == h;
    SubsequenceSkip(ch.delivered + ch.buf, h, msg);
  }

  lemma BeginPushIsOrdered(s: State, msg: Msg)
    requires Safe(s) && Ordered(s) && NoReader(s)
    ensures Ordered(Apply(s, BeginPush(msg)))
  {
    SinksOfSafe(s);
    hide Safe, ChanOrdered, Owes;
    var t, n := Apply(s, BeginPush(msg)), |s.pushes|;
    forall c | 0 <= c < |s.chans|
      ensures ChanOrdered(t.chans[c]) && (c in s.sinks ==> Owes(t.chans[c], msg, Trying))
    {
      RecordedIsOwed(s.chans[c], msg);
    }
    forall w | 0 <= w < |s.sinks| ensures s.sinks[w] < |s.chans| {
      assert s.sinks[w] in s.sinks;
      assert Pooled(s, s.sinks[w]);
    }
    assert PushOrdered(t, t.pushes[n]);
    assert forall p :: 0 <= p < n ==> t.pushes[p] == s.pushes[p];
  }

  lemma ReceiveIsOrdered(s: State, c: ChanId)
    requires Ordered(s) && Enabled(s, Receive(c))
    ensures Ordered(Apply(s, Receive(c)))
  {
    var t := Apply(s, Receive(c));
    assert ChanOrdered(s.chans[c]);
    ReceiveOrdered(s.chans[c]);
    forall p | 0 <= p < |t.pushes| && t.pushes[p].active ensures PushOrdered(t, t.pushes[p]) {
      assert PushOrdered(s, s.pushes[p]);
    }
  }

  /** Steps that leave the queues, the histories and the workers alone. */
  lemma FlagStepIsOrdered(s: State, t: State)
    requires Ordered(s) && |t.chans| >= |s.chans| && |t.pushes| == |s.pushes|
    requires forall c :: 0 <= c < |s.chans| ==>
               t.chans[c] == s.chans[c].(registered := t.chans[c].registered, closed := t.chans[c].closed)
    requires forall c :: |s.chans| <= c < |t.chans| ==> ChanOrdered(t.chans[c])
    requires forall p :: 0 <= p < |s.pushes| ==>
               t.pushes[p] == s.pushes[p] || t.pushes[p] == s.pushes[p].(active := false)
    requires t.sinks == s.sinks || NoReader(s)
    ensures Ordered(t)
  {
    forall c | 0 <= c < |t.chans| ensures ChanOrdered(t.chans[c]) {
      assert c < |s.chans| ==> ChanOrdered(s.chans[c]);
    }
    forall p | 0 <= p < |t.pushes| && t.pushes[p].active ensures PushOrdered(t, t.pushes[p]) {
      assert PushOrdered(s, s.pushes[p]);
    }
  }

  lemma WorkerStepKeepsOrder(s: State, step: Step)
    requires Safe(s) && Ordered(s) && Enabled(s, step)
    requires step.Send? || step.HandOff? || step.DropOldest? || step.Resend?
    ensures Ordered(Apply(s, step))
    ensures step.Resend? ==> |ChanOf(s, step.p, step.w).buf| < ChanOf(s, step.p, step.w).cap
  {
    var p, w := step.p, step.w;
    WorkerChanIsOpen(s, p, w);
    assert PushOrdered(s, s.pushes[p]);
    hide Safe, Subsequence;
    var c, ch, push := s.pushes[p].workers[w].chan, ChanOf(s, p, w), s.pushes[p];
    assert ChanOrdered(ch) && Owes(ch, push.msg, push.workers[w].pc);
    SendOrdered(ch, push.msg, push.workers[w].pc);
    if step.Send? || step.Resend? {
      WorkerStepIsOrdered(s, p, w, ch.(buf := ch.buf + [push.msg]), Sent);
    } else if step.HandOff? {
      WorkerStepIsOrdered(s, p, w, ch.(delivered := ch.delivered + [push.msg]), Sent);
    } else if ch.buf != [] {
      DropOrdered(ch, push.msg, push.workers[w].pc);
      WorkerStepIsOrdered(s, p, w, ch.(buf := ch.buf[1..]), MadeRoom);
    } else {
      WorkerStepIsOrdered(s, p, w, ch, GaveUp);
      assert SetChan(s, c, ch) == s;
    }
  }

  lemma StepIsOrdered(s: State, step: Step)
    requires Safe(s) && Ordered(s) && Enabled(s, step)
    requires step.BeginPush? ==> NoReader(s)
    ensures Ordered(Apply(s, step))
  {
    hide Safe, Ordered;
    var t := Apply(s, step);
    if step.Send? || step.HandOff? || step.DropOldest? || step.Resend? {
      WorkerStepKeepsOrder(s, step);
    } else if step.BeginPush? {
      BeginPushIsOrdered(s, step.msg);
    } else if step.Receive? {
      ReceiveIsOrdered(s, step.c);
    } else {
      FlagStepIsOrdered(s, t);
    }
  }

  /** A run in which a push starts only when no other is under way. */
  ghost predicate RunsOnePusher(s: State, steps: seq<Step>)
    decreases |steps|
  {
    steps != [] ==>
      && Enabled(s, steps[0])
      && (steps[0].BeginPush? ==> NoReader(s))
      && RunsOnePusher(Apply(s, steps[0]), steps[1..])
  }

  lemma {:induction false} OnePusherRuns(s: State, steps: seq<Step>)
    requires RunsOnePusher(s, steps)
    ensures Runs(s, steps)
    decreases |steps|
  {
    if steps != [] {
      OnePusherRuns(Apply(s, steps[0]), steps[1..]);
    }
  }

  /**
   With one pusher at a time, what a channel has delivered followed by what it
   still buffers is at every moment a subsequence, in push order, of the messages
   pushed while it was in the pool.
   */
  lemma {:induction false} DeliveryKeepsPushOrder(s: State, steps: seq<Step>, c: ChanId)
    requires Safe(s) && Ordered(s) && RunsOnePusher(s, steps)
    ensures Runs(s, steps)
    ensures Safe(Exec(s, steps)) && Ordered(Exec(s, steps))
    ensures c < |Exec(s, steps).chans| ==>
              var ch := Exec(s, steps).chans[c]; Subsequence(ch.delivered + ch.buf, ch.history) && |ch.buf| <= ch.cap
    decreases |steps|
  {
    OnePusherRuns(s, steps);
    if steps == [] {
      assert c < |s.chans| ==> ChanOrdered(s.chans[c]);
    } else {
      StepIsSafe(s, steps[0]);
      StepIsOrdered(s, steps[0]);
      DeliveryKeepsPushOrder(Apply(s, steps[0]), steps[1..], c);
    }
  }

  /**
   When a push ends, with one pusher at a time, every channel of the pool has the
   message as its newest one, except those whose worker gave up.
   */
  lemma {:induction false} PushReachesAll(s: State, steps: seq<Step>, p: nat, i: nat)
    requires Safe(s) && Ordered(s) && RunsOnePusher(s, steps)
    requires Runs(s, steps) && Enabled(Exec(s, steps), EndPush(p)) && i < |Exec(s, steps).sinks|
    ensures var t := Exec(s, steps);
            && i < |t.pushes[p].workers| && t.pushes[p].workers[i].chan == t.sinks[i] < |t.chans|
            && (Newest(t.chans[t.sinks[i]], t.pushes[p].msg) || t.pushes[p].workers[i].pc == GaveUp)
  {
    DeliveryKeepsPushOrder(s, steps, 0);
    var t := Exec(s, steps);
    assert PushOrdered(t, t.pushes[p]);
  }

  /** The end of the only push under way gives the pool back to On, Off and Destroy. */
  lemma EndPushReleases(s: State, p: nat)
    requires Ordered(s) && Enabled(s, EndPush(p))
    ensures NoReader(Apply(s, EndPush(p))) && Apply(s, EndPush(p)).sinks == s.sinks
  {
    hide ChanOrdered, PushOrdered;
    forall i | 0 <= i < |s.pushes| && i != p ensures !s.pushes[i].active {
      assert i < p || p < i;
    }
  }

  /** A worker gives up exactly when its time is over and it then finds nothing to take out of the channel. */
  lemma GivesUpExactly(s: State, step: Step)
    requires Safe(s) && Ordered(s) && Enabled(s, step)
    requires step.Send? || step.HandOff? || step.DropOldest? || step.Resend?
    ensures Apply(s, step).pushes[step.p].workers[step.w].pc == GaveUp <==>
            step.DropOldest? && ChanOf(s, step.p, step.w).buf == []
  {
    WorkerChanIsOpen(s, step.p, step.w);
    assert PushOrdered(s, s.pushes[step.p]);
  }

  /** A worker's time runs out only on a channel without room. */
  ghost predicate Patient(s: State, step: Step)
    requires Enabled(s, step)
  {
    step.DropOldest? ==> |ChanOf(s, step.p, step.w).buf| >= ChanOf(s, step.p, step.w).cap
  }

  ghost predicate PatientRun(s: State, steps: seq<Step>)
    requires Runs(s, steps)
    decreases |steps|
  {
    steps != [] ==> Patient(s, steps[0]) && PatientRun(Apply(s, steps[0]), steps[1..])
  }

  /** Only on a channel without a buffer has a worker given up. */
  ghost predicate GaveUpUnbuffered(s: State) {
    forall p, w :: 0 <= p < |s.pushes| && s.pushes[p].active && 0 <= w < |s.pushes[p].workers| ==>
      s.pushes[p].workers[w].pc == GaveUp ==>
        s.pushes[p].workers[w].chan < |s.chans| && s.chans[s.pushes[p].workers[w].chan].cap == 0
  }

  lemma PatientStep(s: State, step: Step)
    requires Safe(s) && Ordered(s) && Enabled(s, step) && Patient(s, step) && GaveUpUnbuffered(s)
    ensures GaveUpUnbuffered(Apply(s, step))
  {
    CapsStay(s, step);
    if step.Send? || step.HandOff? || step.DropOldest? || step.Resend? {
      hide Safe, Ordered, Apply;
      GivesUpExactly(s, step);
      WorkersStay(s, step);
    } else {
      hide Safe, Ordered, Apply;
      OtherWorkersStay(s, step);
    }
  }

  lemma OtherWorkersStay(s: State, step: Step)
    requires Enabled(s, step)
    requires !step.Send? && !step.HandOff? && !step.DropOldest? && !step.Resend?
    ensures var t := Apply(s, step);
            && |t.pushes| >= |s.pushes|
            && (forall p :: 0 <= p < |s.pushes| ==>
                  t.pushes[p].workers == s.pushes[p].workers && (t.pushes[p].active ==> s.pushes[p].active))
            && (forall p, w :: |s.pushes| <= p < |t.pushes| && 0 <= w < |t.pushes[p].workers| ==>
                  t.pushes[p].workers[w].pc == Trying)
  {
  }

  lemma CapsStay(s: State, step: Step)
    requires Enabled(s, step)
    ensures var t := Apply(s, step);
            |t.chans| >= |s.chans| && forall c :: 0 <= c < |s.chans| ==> t.chans[c].cap == s.chans[c].cap
  {
  }

  lemma WorkersStay(s: State, step: Step)
    requires Enabled(s, step)
    requires step.Send? || step.HandOff? || step.DropOldest? || step.Resend?
    ensures var t := Apply(s, step);
            && |t.pushes| == |s.pushes|
            && (forall p :: 0 <= p < |s.pushes| ==>
                  |t.pushes[p].workers| == |s.pushes[p].workers| && t.pushes[p].active == s.pushes[p].active)
            && (forall p, w :: 0 <= p < |s.pushes| && 0 <= w < |s.pushes[p].workers| ==>
                  && t.pushes[p].workers[w].chan == s.pushes[p].workers[w].chan
                  && ((p != step.p || w != step.w) ==> t.pushes[p].workers[w] == s.pushes[p].workers[w]))
  {
  }

  lemma {:induction false} PatientRuns(s: State, steps: seq<Step>)
    requires Safe(s) && Ordered(s) && RunsOnePusher(s, steps) && Runs(s, steps)
    requires PatientRun(s, steps) && GaveUpUnbuffered(s)
    ensures GaveUpUnbuffered(Exec(s, steps))
    decreases |steps|
  {
    hide Safe, Ordered, Enabled, Apply, GaveUpUnbuffered, Patient;
    if steps != [] {
      PatientStep(s, steps[0]);
      StepIsSafe(s, steps[0]);
      StepIsOrdered(s, steps[0]);
      PatientRuns(Apply(s, steps[0]), steps[1..]);
    }
  }

  /**
   Where workers run out of time only on full channels, a push that has ended has
   reached every buffered channel of the pool: the message is its newest one.
   */
  lemma {:induction false} PatientPushReachesAll(s: State, steps: seq<Step>, p: nat, i: nat)
    requires Safe(s) && Ordered(s) && RunsOnePusher(s, steps) && Runs(s, steps)
    requires PatientRun(s, steps) && GaveUpUnbuffered(s)
    requires Enabled(Exec(s, steps), EndPush(p)) && i < |Exec(s, steps).sinks|
    ensures var t := Exec(s, steps);
            t.sinks[i] < |t.chans| && (t.chans[t.sinks[i]].cap > 0 ==> Newest(t.chans[t.sinks[i]], t.pushes[p].msg))
  {
    hide Newest, Safe, Ordered;
    PatientRuns(s, steps);
    PushReachesAll(s, steps, p, i);
  }

  lemma EmptyPoolIsOrdered()
    ensures Safe(State([], [], [], false)) && Ordered(State([], [], [], false))
  {
  }
}
