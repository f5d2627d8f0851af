/**
 The usage counter of `Quota` in internal/ufs/fs_quota.go: the saturating
 compare-and-swap `Add`, the space test `CanFit`, and the linearizability of
 any number of concurrent `Add` calls.
 */
module QuotaCounter {
  import opened Int64

  /** The value `Add` tries to store after it has loaded `usage`. */
  function NextUsage(usage: int64, i: int64): (next: int64)
    ensures next == Clamp(usage + i) <==> usage >= 0 || i < 0 || (i > 0 && usage + i >= 0)
  {
    if i > 0 then
      if usage > MAX - i then MAX else usage + i
    else if i < 0 then
      if i == MIN then 0
      else if usage <= -i then 0
      else usage + i
    else usage
  }

  /** -1 forbids writing, 0 is unlimited, and an uncalculated usage (-1) lets everything pass. */
  predicate CanFit(limit: int64, usage: int64, size: int64)
    ensures CanFit(limit, usage, size) <==>
            limit == 0 || (limit != -1 && (usage == -1 || size <= 0 || usage + size <= limit))
  {
    if limit == -1 then false
    else if limit == 0 then true
    else if usage == -1 then true
    else if size <= 0 then true
    else if usage >= limit then false
    else size <= limit - usage
  }

  /**
   Of the values the counter takes one after the other, `k` is the first that is still
   there at the next look: no update lies between loading it and replacing it.
   */
  ghost predicate Undisturbed(seen: seq<int64>, k: nat) {
    && k < |seen|
    && (k + 1 < |seen| ==> seen[k + 1] == seen[k])
    && forall j :: 0 <= j < k ==> seen[j + 1] != seen[j]
  }

  /** There is exactly one such value, so the result of `Add` is determined. */
  lemma UndisturbedOnce(seen: seq<int64>, j: nat, k: nat)
    requires Undisturbed(seen, j) && Undisturbed(seen, k)
    ensures j == k
  {
  }

  class Quota {
    var limit: int64
    var usage: int64

    constructor (limit: int64)
      ensures this.limit == limit && usage == 0
    {
      this.limit, usage := limit, 0;
    }

    /**
     The retry loop. `rivals` are the values other goroutines store between this
     call's loads and its swaps, one per attempt, in the order it observes them.
     The swap that succeeds replaces exactly the value the sum was computed from, so
     no rival's update is lost.
     */
    method Add(i: int64, rivals: seq<int64>) returns (r: int64)
      modifies this`usage
      ensures i == 0 ==> r == usage == old(usage)
      ensures i != 0 ==> r == usage
      ensures i != 0 ==> exists k: nat :: Undisturbed([old(usage)] + rivals, k) && r == NextUsage(([old(usage)] + rivals)[k], i)
      ensures i != 0 && (forall j :: 0 <= j < |rivals| ==> rivals[j] != ([old(usage)] + rivals)[j]) ==>
                r == NextUsage(([old(usage)] + rivals)[|rivals|], i)
    {
      var attempts := 0;
      ghost var seen := [usage] + rivals;
      while true
        invariant 0 <= attempts <= |rivals|
        invariant usage == seen[attempts]
        invariant forall j :: 0 <= j < attempts ==> seen[j + 1] != seen[j]
        invariant i == 0 ==> attempts == 0
        decreases |rivals| - attempts
      {
        var loaded := usage;
        if i == 0 {
          return loaded;
        }
        var next := NextUsage(loaded, i);
        if attempts < |rivals| {
          usage := rivals[attempts];
          assert seen[attempts + 1] == usage;
          if usage == loaded {
            assert Undisturbed(seen, attempts);
            usage := next;
            return next;
          }
          attempts := attempts + 1;
        } else {
          assert Undisturbed(seen, attempts);
          usage := next;
          return next;
        }
      }
    }

    method Fits(size: int64) returns (b: bool)
      ensures b == CanFit(limit, usage, size)
    {
      if limit == -1 { return false; }
      if limit == 0 { return true; }
      if usage == -1 || size <= 0 { return true; }
      if usage >= limit { return false; }
      return size <= limit - usage;
    }
  }

  // ---------------------------------------------------------------------
  // Concurrent Add calls
  // ---------------------------------------------------------------------

  datatype AddPc = Looping | Loaded(seen: int64) | Returned(result: int64)

  datatype Call = Call(amount: int64, pc: AddPc)

  /** A linearization point: which call took effect, by how much, and what it returned. */
  datatype Commit = Commit(call: nat, amount: int64, result: int64)

  /** `log` is a history variable; no step reads it. */
  datatype World = World(usage: int64, calls: seq<Call>, log: seq<Commit>)

  datatype Step =
    | Invoke(amount: int64)
    | Load(k: nat)
    | Swap(k: nat)

  ghost predicate Enabled(w: World, s: Step) {
    match s
    case Invoke(_) => true
    case Load(k) => k < |w.calls| && w.calls[k].pc.Looping?
    case Swap(k) => k < |w.calls| && w.calls[k].pc.Loaded?
  }

  ghost function Apply(w: World, s: Step): World
    requires Enabled(w, s)
  {
    match s
    case Invoke(amount) => w.(calls := w.calls + [Call(amount, Looping)])
    case Load(k) =>
      if w.calls[k].amount == 0 then Return(w, k, w.usage)
      else w.(calls := w.calls[k := w.calls[k].(pc := Loaded(w.usage))])
    case Swap(k) =>
      var c := w.calls[k];
      if w.usage == c.pc.seen then Return(w, k, NextUsage(c.pc.seen, c.amount))
      else w.(calls := w.calls[k := c.(pc := Looping)])
  }

  ghost function Return(w: World, k: nat, r: int64): World
    requires k < |w.calls|
  {
    World(r, w.calls[k := w.calls[k].(pc := Returned(r))], w.log + [Commit(k, w.calls[k].amount, r)])
  }

  ghost predicate Runs(w: World, steps: seq<Step>)
    decreases |steps|
  {
    steps == [] || (Enabled(w, steps[0]) && Runs(Apply(w, steps[0]), steps[1..]))
  }

  ghost function Exec(w: World, steps: seq<Step>): World
    requires Runs(w, steps)
    decreases |steps|
  {
    if steps == [] then w else Exec(Apply(w, steps[0]), steps[1..])
  }

  /** The counter after a sequential history. */
  ghost function Final(start: int64, log: seq<Commit>): int64 {
    if log == [] then start else log[|log| - 1].result
  }

  /** A sequential history: each commit returns the clamped sum of its amount and what the one before left. */
  ghost predicate Sequential(start: int64, log: seq<Commit>) {
    log == [] ||
    (var before, last := log[..|log| - 1], log[|log| - 1];
     Sequential(start, before) && last.result == Clamp(Final(start, before) + last.amount))
  }

  /** The log is a sequential history that ends in the current usage, with one commit per returned call. */
  ghost predicate Linearized(start: int64, w: World) {
    && w.usage >= 0
    && w.usage == Final(start, w.log)
    && Sequential(start, w.log)
    && (forall i :: 0 <= i < |w.log| ==> Reports(w, w.log[i]))
    && (forall k :: 0 <= k < |w.calls| && w.calls[k].pc.Returned? ==> Committed(w.log, k))
    && (forall i, j :: 0 <= i < j < |w.log| ==> w.log[i].call != w.log[j].call)
  }

  ghost predicate Reports(w: World, c: Commit) {
    c.call < |w.calls| && w.calls[c.call] == Call(c.amount, Returned(c.result))
  }

  ghost predicate Committed(log: seq<Commit>, k: nat) {
    exists i :: 0 <= i < |log| && log[i].call == k
  }

  lemma {:induction false} SequentialExtends(start: int64, log: seq<Commit>, c: Commit)
    requires Sequential(start, log) && c.result == Clamp(Final(start, log) + c.amount)
    ensures Sequential(start, log + [c]) && Final(start, log + [c]) == c.result
  {
    assert (log + [c])[..|log|] == log;
  }

  lemma ReturnLinearizes(start: int64, w: World, k: nat, r: int64)
    requires Linearized(start, w)
    requires k < |w.calls| && !w.calls[k].pc.Returned?
    requires r == Clamp(w.usage + w.calls[k].amount)
    ensures Linearized(start, Return(w, k, r))
  {
    hide Sequential, Final;
    var w' := Return(w, k, r);
    var n := |w.log|;
    SequentialExtends(start, w.log, Commit(k, w.calls[k].amount, r));
    assert w'.log[n] == Commit(k, w.calls[k].amount, r);
    assert forall i :: 0 <= i < n ==> w'.log[i] == w.log[i] && Reports(w, w.log[i]);
    forall m | 0 <= m < |w'.calls| && w'.calls[m].pc.Returned? ensures Committed(w'.log, m) {
      if m != k {
        var i :| 0 <= i < n && w.log[i].call == m;
        assert w'.log[i].call == m;
      }
    }
  }

  /** Loading, failing to swap and being invoked are invisible. */
  lemma MoveLinearizes(start: int64, w: World, w': World)
    requires Linearized(start, w) && w'.log == w.log && w'.usage == w.usage
    requires |w.calls| <= |w'.calls|
    requires forall k :: 0 <= k < |w.calls| && w.calls[k].pc.Returned? ==> w'.calls[k] == w.calls[k]
    requires forall k :: 0 <= k < |w'.calls| && w'.calls[k].pc.Returned? ==> k < |w.calls| && w.calls[k].pc.Returned?
    ensures Linearized(start, w')
  {
    assert forall i :: 0 <= i < |w.log| ==> Reports(w, w.log[i]);
  }

  lemma UsageIsNonNegative(start: int64, w: World)
    requires Linearized(start, w)
    ensures w.usage >= 0
  {
  }

  lemma StepLinearizes(start: int64, w: World, s: Step)
    requires Linearized(start, w) && Enabled(w, s)
    ensures Linearized(start, Apply(w, s))
    ensures w.log <= Apply(w, s).log && |w.calls| <= |Apply(w, s).calls|
  {
    hide Linearized;
    UsageIsNonNegative(start, w);
    var w' := Apply(w, s);
    if w'.log != w.log {
      ReturnLinearizes(start, w, s.k, w'.usage);
    } else {
      MoveLinearizes(start, w, w');
    }
  }

  lemma UsageIsFinal(start: int64, w: World)
    requires Linearized(start, w)
    ensures w.usage == Final(start, w.log)
  {
  }

  /**
   Every interleaving of any number of concurrent `Add` calls is equivalent to
   running the committed calls one at a time, in log order, with clamped addition.
   */
  lemma {:induction false} ConcurrentAddsLinearize(start: int64, w: World, steps: seq<Step>)
    requires Linearized(start, w) && Runs(w, steps)
    ensures Linearized(start, Exec(w, steps))
    ensures w.log <= Exec(w, steps).log
    decreases |steps|
  {
    if steps != [] {
      StepLinearizes(start, w, steps[0]);
      ConcurrentAddsLinearize(start, Apply(w, steps[0]), steps[1..]);
    }
  }

  /** The order respects real time: a call that had returned before another was invoked commits first. */
  lemma {:induction false} RealTimeOrder(start: int64, w: World, steps: seq<Step>, i: nat, j: nat)
    requires Linearized(start, w) && Runs(w, steps)
    requires i < |Exec(w, steps).log| && j < |Exec(w, steps).log|
    requires Exec(w, steps).log[i].call < |w.calls|
    requires w.calls[Exec(w, steps).log[i].call].pc.Returned?
    requires Exec(w, steps).log[j].call >= |w.calls|
    ensures i < j
  {
    ConcurrentAddsLinearize(start, w, steps);
    var final := Exec(w, steps);
    var n :| 0 <= n < |w.log| && w.log[n].call == final.log[i].call;
    assert final.log[n] == w.log[n] && n == i;
    assert forall m :: 0 <= m < |w.log| ==> final.log[m] == w.log[m];
  }

  /** A swap that fails was overtaken by a commit: some call always makes progress. */
  lemma {:induction false} FailedSwapMeansProgress(start: int64, w: World, steps: seq<Step>, k: nat)
    requires Linearized(start, w)
    requires Enabled(w, Load(k)) && w.calls[k].amount != 0
    requires Runs(Apply(w, Load(k)), steps)
    requires Exec(Apply(w, Load(k)), steps).usage != w.usage
    ensures |Exec(Apply(w, Load(k)), steps).log| > |w.log|
  {
    hide Linearized;
    StepLinearizes(start, w, Load(k));
    ConcurrentAddsLinearize(start, Apply(w, Load(k)), steps);
    UsageIsFinal(start, w);
    UsageIsFinal(start, Exec(Apply(w, Load(k)), steps));
  }
}
