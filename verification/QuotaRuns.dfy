/**
 Disk-quota accounting over whole runs: any number of files, each with at most one
 `quotaFile` handle at a time, written, truncated and closed while any number of
 deletions remove them, open or not, with unlinks and Stats that may fail.
 One `Quota.Add` is one atomic step, as justified by
 `QuotaCounter.ConcurrentAddsLinearize`.
 */
module QuotaRuns {
  import opened Int64
  import opened QuotaCounter
  import opened QuotaFile

  type Size = x: int64 | x >= 0

  // ---------------------------------------------------------------------
  // One file
  // ---------------------------------------------------------------------

  /** Where the goroutine that holds the handle's own mutex is. */
  datatype Pc =
    | NoHandle
    | Idle
    | WaitingToReserve(off: Size, len: Size)
    | Checking(off: Size, len: Size)             // holds fs.mu, CanFit not evaluated yet
    | Approved(off: Size, len: Size)             // holds fs.mu, CanFit returned true
    | Writing(off: Size, len: Size)              // reservation made (or none needed), before the OS write
    | Refunding(amount: Size)                    // the unused part of the reservation, not yet returned
    | Statted(ok: bool)                          // Close, between Stat and adjustDisk

  /**
   `size` is the handle's tracked size and means nothing without a handle. Two
   history variables: `subtracted` is what deletions have taken from usage for this
   file, `residue` what closes with a failing Stat have left in usage for it.
   */
  datatype FileState = FileState(disk: Size, linked: bool, size: Size, pc: Pc, subtracted: nat, residue: nat)

  const NewFile := FileState(0, true, 0, NoHandle, 0, 0)

  datatype Move =
    | Open(kept: Size)                           // Touch: Stat finds the size, the open may truncate to `kept`
    | BeginWrite(off: Size, len: Size)
    | TakeLock
    | Check(fits: bool)
    | Reserve
    | OsWrite(n: Size)
    | Refund
    | Truncate(n: Size)
    | Stat(ok: bool)
    | CloseAdjust
    | Subtract(n: Size)                          // by a deletion
    | Unlink

  predicate Requesting(pc: Pc) {
    pc.WaitingToReserve? || pc.Checking? || pc.Approved?
  }

  function Growth(f: FileState): int
    requires Requesting(f.pc) || f.pc.Writing?
  {
    f.pc.off + f.pc.len - f.size
  }

  /** The file on disk never outgrows the tracked size, and no write end outgrows int64. */
  predicate GoodFile(f: FileState) {
    && (!f.pc.NoHandle? ==> f.disk <= f.size)
    && (Requesting(f.pc) ==> f.pc.off + f.pc.len <= MAX && Growth(f) > 0)
    && (f.pc.Writing? ==> f.pc.off + f.pc.len <= MAX)
  }

  predicate Can(f: FileState, m: Move) {
    match m
    case Open(kept) => f.pc.NoHandle? && f.linked && kept <= f.disk
    case BeginWrite(_, len) => f.pc.Idle? && len > 0
    case TakeLock => f.pc.WaitingToReserve?
    case Check(_) => f.pc.Checking?
    case Reserve => f.pc.Approved?
    case OsWrite(n) => f.pc.Writing? && n <= f.pc.len
    case Refund => f.pc.Refunding?
    case Truncate(n) => f.pc.Idle? && n <= f.disk
    case Stat(_) => f.pc.Idle?
    case CloseAdjust => f.pc.Statted?
    case Subtract(_) => true
    case Unlink => f.linked
  }

  /** What a write holds in usage beyond the tracked size. */
  function InFlight(f: FileState): nat {
    match f.pc
    case Writing(off, len) => Max(0, off + len - f.size)
    case Refunding(amount) => amount
    case _ => 0
  }

  /** The file after the OS accepted `n` bytes, with the refund it then owes. */
  function Written(f: FileState, n: Size): (r: FileState)
    requires GoodFile(f) && f.pc.Writing? && n <= f.pc.len
    ensures GoodFile(r) && r.size >= f.size && !r.pc.NoHandle?
    ensures r.linked == f.linked && r.subtracted == f.subtracted && r.residue == f.residue
    ensures r.size + InFlight(r) == f.size + InFlight(f)
    ensures r.disk == if n == 0 then f.disk else Max(f.disk, f.pc.off + n)
  {
    var size := if n == 0 then f.size else Max(f.size, f.pc.off + n);
    var disk := if n == 0 then f.disk else Max(f.disk, f.pc.off + n);
    var refund := Max(0, Growth(f)) - (if Growth(f) > 0 then size - f.size else 0);
    f.(size := size, disk := disk, pc := if refund > 0 then Refunding(refund) else Idle)
  }

  function Moved(f: FileState, m: Move): FileState
    requires GoodFile(f) && Can(f, m)
  {
    match m
    case Open(kept) => f.(size := f.disk, disk := kept, pc := Idle)
    case BeginWrite(off, len) =>
      if !WriteEnd(off, len).1 then f
      else if off + len - f.size > 0 then f.(pc := WaitingToReserve(off, len))
      else f.(pc := Writing(off, len))
    case TakeLock => f.(pc := Checking(f.pc.off, f.pc.len))
    case Check(fits) => f.(pc := if fits then Approved(f.pc.off, f.pc.len) else Idle)
    case Reserve => f.(pc := Writing(f.pc.off, f.pc.len))
    case OsWrite(n) => Written(f, n)
    case Refund => f.(pc := Idle)
    case Truncate(n) => f.(disk := n)
    case Stat(ok) => f.(pc := Statted(ok))
    case CloseAdjust => f.(pc := NoHandle, residue := f.residue + if f.pc.ok then 0 else f.size - f.disk)
    case Subtract(n) => f.(subtracted := f.subtracted + n)
    case Unlink => f.(linked := false)
  }

  /** What the move hands to `Quota.Add`. */
  function Amount(f: FileState, m: Move): (i: int64)
    requires GoodFile(f) && Can(f, m)
    ensures !m.Reserve? ==> i <= 0
  {
    match m
    case Reserve => Growth(f)
    case Refund => 0 - f.pc.amount
    case CloseAdjust => if f.pc.ok then f.disk - f.size else 0
    case Subtract(n) => 0 - n
    case _ => 0
  }

  /** What the operating system does to the file: opening and truncating may shorten it, a write that takes effect may lengthen it. */
  lemma DiskMoves(f: FileState, m: Move)
    requires GoodFile(f) && Can(f, m)
    ensures var g := Moved(f, m);
            && (m.Open? ==> g.disk == m.kept && g.size == f.disk)
            && (m.Truncate? ==> g.disk == m.n && g.size == f.size)
            && (m.OsWrite? && m.n > 0 ==> g.disk == Max(f.disk, f.pc.off + m.n))
            && (!m.Open? && !m.Truncate? && !(m.OsWrite? && m.n > 0) ==> g.disk == f.disk)
            && (g.linked <==> f.linked && !m.Unlink?)
  {
  }

  /** What usage holds for a file, as long as no addition was clamped. */
  function Credit(f: FileState): int {
    (if f.pc.NoHandle? then f.disk else f.size + InFlight(f)) + f.residue - f.subtracted
  }

  /** Every move changes a file's credit by exactly what it hands to `Add`. */
  lemma MoveCredits(f: FileState, m: Move)
    requires GoodFile(f) && Can(f, m)
    ensures GoodFile(Moved(f, m))
    ensures Credit(Moved(f, m)) == Credit(f) + Amount(f, m)
  {
    hide Written;
  }

  // ---------------------------------------------------------------------
  // The system
  // ---------------------------------------------------------------------

  datatype DeleterPc = Seen | Subtracted | Unlinked | Ended

  /**
   One deletion, after its Lstat found `seen` bytes. `Quota.unlinkat` subtracts and
   then unlinks; `Quota.Remove` unlinks first and subtracts if that succeeded.
   */
  datatype Deleter = Deleter(file: nat, seen: Size, unlinksFirst: bool, pc: DeleterPc)

  datatype State = State(limit: int64, usage: int64, mu: bool, files: seq<FileState>, deleters: seq<Deleter>)

  datatype Step =
    | Create
    | Handle(i: nat, m: Move)
    | BeginDelete(i: nat, unlinksFirst: bool)
    | DeleteSubtract(d: nat)
    | DeleteUnlink(d: nat, ok: bool)

  ghost predicate Good(s: State) {
    s.usage >= 0 && forall i :: 0 <= i < |s.files| ==> GoodFile(s.files[i])
  }

  predicate NeedsLock(f: FileState, m: Move)
    requires GoodFile(f) && Can(f, m)
  {
    m.TakeLock? || m.Refund? || (m.CloseAdjust? && Amount(f, m) != 0)
  }

  ghost predicate Enabled(s: State, step: Step)
    requires Good(s)
  {
    match step
    case Create => true
    case Handle(i, m) =>
      && i < |s.files| && Can(s.files[i], m) && !m.Subtract? && !m.Unlink?
      && (NeedsLock(s.files[i], m) ==> !s.mu)
      && (m.Check? ==> m.fits == CanFit(s.limit, s.usage, Growth(s.files[i])))
    case BeginDelete(i, _) => i < |s.files| && s.files[i].linked
    case DeleteSubtract(d) =>
      && d < |s.deleters| && s.deleters[d].file < |s.files|
      && s.deleters[d].pc == (if s.deleters[d].unlinksFirst then Unlinked else Seen)
    case DeleteUnlink(d, ok) =>
      && d < |s.deleters| && s.deleters[d].file < |s.files|
      && s.deleters[d].pc == (if s.deleters[d].unlinksFirst then Seen else Subtracted)
      && (ok ==> s.files[s.deleters[d].file].linked)
  }

  datatype Target = Nowhere | On(file: nat, move: Move)

  /** The one file a step touches, if any, and how. */
  ghost function TargetOf(s: State, step: Step): (t: Target)
    requires Good(s) && Enabled(s, step)
    ensures t.On? ==> t.file < |s.files| && Can(s.files[t.file], t.move)
    ensures t.On? ==> (t.move.Subtract? || t.move.Unlink? <==> !step.Handle?)
  {
    match step
    case Handle(i, m) => On(i, m)
    case DeleteSubtract(d) => On(s.deleters[d].file, Subtract(s.deleters[d].seen))
    case DeleteUnlink(d, ok) => if ok then On(s.deleters[d].file, Unlink) else Nowhere
    case _ => Nowhere
  }

  ghost function Change(s: State, step: Step): int64
    requires Good(s) && Enabled(s, step)
  {
    match TargetOf(s, step)
    case Nowhere => 0
    case On(i, m) => Amount(s.files[i], m)
  }

  ghost function FilesAfter(s: State, step: Step): seq<FileState>
    requires Good(s) && Enabled(s, step)
  {
    match TargetOf(s, step)
    case Nowhere => if step.Create? then s.files + [NewFile] else s.files
    case On(i, m) => s.files[i := Moved(s.files[i], m)]
  }

  ghost function DeletersAfter(s: State, step: Step): seq<Deleter>
    requires Good(s) && Enabled(s, step)
  {
    match step
    case BeginDelete(i, unlinksFirst) => s.deleters + [Deleter(i, s.files[i].disk, unlinksFirst, Seen)]
    case DeleteSubtract(d) =>
      s.deleters[d := s.deleters[d].(pc := if s.deleters[d].unlinksFirst then Ended else Subtracted)]
    case DeleteUnlink(d, ok) =>
      s.deleters[d := s.deleters[d].(pc := if s.deleters[d].unlinksFirst && ok then Unlinked else Ended)]
    case _ => s.deleters
  }

  ghost function LockAfter(s: State, step: Step): bool {
    if step.Handle? && step.m.TakeLock? then true
    else if step.Handle? && (step.m.Reserve? || (step.m.Check? && !step.m.fits)) then false
    else s.mu
  }

  ghost function Apply(s: State, step: Step): State
    requires Good(s) && Enabled(s, step)
  {
    State(s.limit, NextUsage(s.usage, Change(s, step)), LockAfter(s, step), FilesAfter(s, step), DeletersAfter(s, step))
  }

  lemma StepKeepsGood(s: State, step: Step)
    requires Good(s) && Enabled(s, step)
    ensures Good(Apply(s, step))
  {
    var t := TargetOf(s, step);
    if t.On? {
      MoveCredits(s.files[t.file], t.move);
    }
  }

  ghost predicate Runs(s: State, steps: seq<Step>)
    decreases |steps|
  {
    steps == [] || (Good(s) && Enabled(s, steps[0]) && Runs(Apply(s, steps[0]), steps[1..]))
  }

  ghost function Exec(s: State, steps: seq<Step>): State
    requires Runs(s, steps)
    decreases |steps|
  {
    if steps == [] then s else Exec(Apply(s, steps[0]), steps[1..])
  }

  /** Every enabled step extends every run: `Runs` excludes no schedule. */
  lemma {:induction false} RunsExtend(s: State, steps: seq<Step>, step: Step)
    requires Good(s) && Runs(s, steps)
    ensures Good(Exec(s, steps))
    ensures Enabled(Exec(s, steps), step) ==> Runs(s, steps + [step])
    decreases |steps|
  {
    hide Enabled, Apply, Good;
    if steps == [] {
      assert steps + [step] == [step];
      RunsOne(s, step);
    } else {
      StepKeepsGood(s, steps[0]);
      assert (steps + [step])[1..] == steps[1..] + [step];
      RunsExtend(Apply(s, steps[0]), steps[1..], step);
    }
  }

  lemma {:induction false} RunsOne(s: State, step: Step)
    requires Good(s)
    ensures Enabled(s, step) ==> Runs(s, [step]) && Exec(s, [step]) == Apply(s, step)
  {
    assert [step][1..] == [];
  }

  // ---------------------------------------------------------------------
  // Conservation
  // ---------------------------------------------------------------------

  function Sum(g: FileState -> int, fs: seq<FileState>): int {
    if fs == [] then 0 else g(fs[0]) + Sum(g, fs[1..])
  }

  lemma {:induction false} SumUpdate(g: FileState -> int, fs: seq<FileState>, i: nat, f: FileState)
    requires i < |fs|
    ensures Sum(g, fs[i := f]) == Sum(g, fs) - g(fs[i]) + g(f)
  {
    if i == 0 {
      assert fs[i := f][1..] == fs[1..];
    } else {
      assert fs[i := f][1..] == fs[1..][i - 1 := f];
      SumUpdate(g, fs[1..], i - 1, f);
    }
  }

  lemma {:induction false} SumAppend(g: FileState -> int, fs: seq<FileState>, f: FileState)
    ensures Sum(g, fs + [f]) == Sum(g, fs) + g(f)
  {
    if fs == [] {
      assert fs + [f] == [f];
    } else {
      assert (fs + [f])[1..] == fs[1..] + [f];
      SumAppend(g, fs[1..], f);
    }
  }

  lemma {:induction false} SumMonotone(g: FileState -> int, h: FileState -> int, fs: seq<FileState>)
    requires forall i :: 0 <= i < |fs| ==> g(fs[i]) <= h(fs[i])
    ensures Sum(g, fs) <= Sum(h, fs)
  {
    if fs != [] {
      SumMonotone(g, h, fs[1..]);
    }
  }

  lemma {:induction false} SumSplit(g: FileState -> int, h: FileState -> int, k: FileState -> int, fs: seq<FileState>)
    requires forall i :: 0 <= i < |fs| ==> g(fs[i]) == h(fs[i]) + k(fs[i])
    ensures Sum(g, fs) == Sum(h, fs) + Sum(k, fs)
  {
    if fs != [] {
      SumSplit(g, h, k, fs[1..]);
    }
  }

  /** The sum of everything handed to `Add`, as an unbounded integer. */
  ghost function Ledger(s: State): int {
    Sum(Credit, s.files)
  }

  lemma StepLedger(s: State, step: Step)
    requires Good(s) && Enabled(s, step)
    ensures Ledger(Apply(s, step)) == Ledger(s) + Change(s, step)
  {
    var t := TargetOf(s, step);
    if t.On? {
      MoveCredits(s.files[t.file], t.move);
      SumUpdate(Credit, s.files, t.file, Moved(s.files[t.file], t.move));
    } else if step.Create? {
      SumAppend(Credit, s.files, NewFile);
    }
  }

  /** The counter agrees with the ledger. */
  ghost predicate Exact(s: State) {
    Good(s) && s.usage == Ledger(s)
  }

  /** A step keeps the counter exact precisely when the ledger stays within what the counter can hold. */
  lemma StepConserves(s: State, step: Step)
    requires Exact(s) && Enabled(s, step)
    ensures Exact(Apply(s, step)) <==> 0 <= Ledger(Apply(s, step)) <= MAX
  {
    hide Enabled, Ledger, Change, FilesAfter, DeletersAfter;
    StepKeepsGood(s, step);
    StepLedger(s, step);
  }

  ghost predicate Representable(s: State, steps: seq<Step>)
    requires Runs(s, steps)
    decreases |steps|
  {
    0 <= Ledger(s) <= MAX && (steps != [] ==> Representable(Apply(s, steps[0]), steps[1..]))
  }

  ghost predicate AlwaysExact(s: State, steps: seq<Step>)
    requires Runs(s, steps)
    decreases |steps|
  {
    Exact(s) && (steps != [] ==> AlwaysExact(Apply(s, steps[0]), steps[1..]))
  }

  /**
   Conservation over every run, whatever the limit, whatever is deleted while open
   and whichever unlinks and Stats fail: usage is at every moment the sum of what
   was handed to `Add`, if and only if that sum always fits the counter.
   */
  lemma {:induction false} RunsConserve(s: State, steps: seq<Step>)
    requires Exact(s) && Runs(s, steps)
    ensures AlwaysExact(s, steps) <==> Representable(s, steps)
    ensures AlwaysExact(s, steps) ==> Exact(Exec(s, steps))
    decreases |steps|
  {
    if steps != [] {
      hide Enabled, Apply, Ledger, Good;
      StepConserves(s, steps[0]);
      if Exact(Apply(s, steps[0])) {
        RunsConserve(Apply(s, steps[0]), steps[1..]);
      } else {
        NotRepresentable(Apply(s, steps[0]), steps[1..]);
      }
    }
    ExactIsRepresentable(s);
  }

  lemma ExactIsRepresentable(s: State)
    requires Exact(s)
    ensures 0 <= Ledger(s) <= MAX
  {
  }

  lemma {:induction false} NotRepresentable(s: State, steps: seq<Step>)
    requires Runs(s, steps) && !(0 <= Ledger(s) <= MAX)
    ensures !Representable(s, steps)
  {
  }

  // ---------------------------------------------------------------------
  // The ledger and the disk
  // ---------------------------------------------------------------------

  /** The bytes of a file that are on disk: an unlinked file lives on while it is open. */
  function OnDisk(f: FileState): int {
    if f.linked || !f.pc.NoHandle? then f.disk else 0
  }

  ghost function Physical(s: State): int {
    Sum(OnDisk, s.files)
  }

  /**
   How far usage is off for a file at rest. A file that is still there is off by
   what failed Stats left over minus what deletions that failed took away. A file
   that is gone leaves, in addition, its last size: the bytes written after the
   deletion had looked at it.
   */
  function Deviation(f: FileState): int {
    f.residue - f.subtracted + if f.linked then 0 else f.disk
  }

  ghost predicate Closed(s: State) {
    forall i :: 0 <= i < |s.files| ==> s.files[i].pc.NoHandle?
  }

  /**
   After all closes, in every run: usage differs from the bytes on disk by exactly the
   deviations of the files, and so equals them if and only if those cancel out.
   */
  lemma {:induction false} ClosedUsage(s: State, steps: seq<Step>)
    requires Exact(s) && Runs(s, steps) && Representable(s, steps)
    requires Closed(Exec(s, steps))
    ensures var t := Exec(s, steps);
            && t.usage == Physical(t) + Sum(Deviation, t.files)
            && (t.usage == Physical(t) <==> Sum(Deviation, t.files) == 0)
  {
    RunsConserve(s, steps);
    SumSplit(Credit, OnDisk, Deviation, Exec(s, steps).files);
  }

  /** What deletions took for a file that is still there, or took too much for one that is gone. */
  function Missing(f: FileState): int {
    if f.linked || !f.pc.NoHandle? then f.subtracted else Max(0, f.subtracted - f.disk - f.residue)
  }

  /** At any moment of an exact run, the bytes on disk exceed usage by at most what is missing. */
  lemma DiskIsCounted(s: State)
    requires Exact(s)
    ensures Physical(s) <= s.usage + Sum(Missing, s.files)
  {
    var covered := (f: FileState) => Credit(f) + Missing(f);
    SumMonotone(OnDisk, covered, s.files);
    SumSplit(covered, Credit, Missing, s.files);
  }

  // ---------------------------------------------------------------------
  // The limit
  // ---------------------------------------------------------------------

  ghost predicate Critical(f: FileState) {
    f.pc.Checking? || f.pc.Approved?
  }

  /** The writers between check and reservation hold fs.mu, so there is at most one, and it still fits. */
  ghost predicate Reserving(limit: int64, usage: int64, mu: bool, files: seq<FileState>) {
    && (forall i :: 0 <= i < |files| && Critical(files[i]) ==> mu)
    && (forall i, j :: 0 <= i < j < |files| && Critical(files[i]) ==> !Critical(files[j]))
    && (forall i :: 0 <= i < |files| && files[i].pc.Approved? ==> usage + Growth(files[i]) <= limit)
  }

  ghost predicate WithinLimit(s: State) {
    Good(s) && 0 < s.limit && s.usage <= s.limit && Reserving(s.limit, s.usage, s.mu, s.files)
  }

  /** A file that is not critical afterwards, and a counter that does not rise, disturb nobody. */
  lemma QuietMove(limit: int64, usage: int64, usage': int64, mu: bool, mu': bool, files: seq<FileState>, i: nat, f: FileState)
    requires Reserving(limit, usage, mu, files) && i < |files|
    requires !Critical(f)
    requires mu' == mu || Critical(files[i])
    requires usage' <= usage || Critical(files[i])
    ensures Reserving(limit, usage', mu', files[i := f])
  {
    assert Critical(files[i]) ==> forall j :: 0 <= j < |files| && j != i ==> !Critical(files[j]);
  }

  /** A file becomes critical with the lock free, or stays critical; approval is checked against the counter. */
  lemma CriticalMove(limit: int64, usage: int64, mu: bool, files: seq<FileState>, i: nat, f: FileState)
    requires Reserving(limit, usage, mu, files) && i < |files|
    requires !mu || Critical(files[i])
    requires f.pc.Approved? ==> usage + Growth(f) <= limit
    ensures Reserving(limit, usage, true, files[i := f])
  {
    assert forall j :: 0 <= j < |files| && j != i ==> !Critical(files[j]);
  }

  /** A move under way does not change a file's place in the protocol unless it is its own. */
  lemma MoveShape(f: FileState, m: Move)
    requires GoodFile(f) && Can(f, m)
    ensures m.Subtract? || m.Unlink? ==> Moved(f, m).pc == f.pc && Moved(f, m).size == f.size
    ensures !m.TakeLock? && !m.Check? && !m.Subtract? && !m.Unlink? ==> !Critical(Moved(f, m))
    ensures m.Check? && m.fits ==> Moved(f, m).pc.Approved? && Growth(Moved(f, m)) == Growth(f)
    ensures m.Check? && !m.fits ==> Moved(f, m).pc.Idle?
    ensures m.TakeLock? ==> Moved(f, m).pc.Checking?
    ensures m.Check? || m.Reserve? <==> Critical(f) && !m.Subtract? && !m.Unlink?
  {
  }

  /** Changing nothing but what deletions change is harmless. */
  lemma DeletionMove(limit: int64, usage: int64, usage': int64, mu: bool, files: seq<FileState>, i: nat, f: FileState)
    requires Reserving(limit, usage, mu, files) && i < |files| && usage' <= usage
    requires f.pc == files[i].pc && f.size == files[i].size
    ensures Reserving(limit, usage', mu, files[i := f])
  {
    var files' := files[i := f];
    forall j | 0 <= j < |files'|
      ensures Critical(files'[j]) == Critical(files[j]) && files'[j].pc == files[j].pc && files'[j].size == files[j].size
    {
    }
  }

  lemma FileStepStaysWithinLimit(s: State, i: nat, m: Move)
    requires WithinLimit(s) && Enabled(s, Handle(i, m))
    ensures var t := Apply(s, Handle(i, m));
            t.usage <= s.limit && Reserving(s.limit, t.usage, t.mu, t.files)
  {
    hide Reserving, Moved;
    var f, t := s.files[i], Apply(s, Handle(i, m));
    var f' := Moved(f, m);
    MoveShape(f, m);
    assert t.files == s.files[i := f'];
    if m.TakeLock? || (m.Check? && m.fits) {
      CriticalMove(s.limit, s.usage, s.mu, s.files, i, f');
      if m.Check? {
        CriticalHoldsLock(s.limit, s.usage, s.mu, s.files, i);
      }
    } else {
      if m.Reserve? {
        ApprovedFits(s.limit, s.usage, s.mu, s.files, i);
      }
      QuietMove(s.limit, s.usage, t.usage, s.mu, t.mu, s.files, i, f');
    }
  }

  lemma CriticalHoldsLock(limit: int64, usage: int64, mu: bool, files: seq<FileState>, i: nat)
    requires Reserving(limit, usage, mu, files) && i < |files| && Critical(files[i])
    ensures mu
  {
  }

  lemma ApprovedFits(limit: int64, usage: int64, mu: bool, files: seq<FileState>, i: nat)
    requires Reserving(limit, usage, mu, files) && i < |files| && files[i].pc.Approved?
    ensures usage + Growth(files[i]) <= limit
  {
  }

  lemma CreateStaysReserving(limit: int64, usage: int64, mu: bool, files: seq<FileState>)
    requires Reserving(limit, usage, mu, files)
    ensures Reserving(limit, usage, mu, files + [NewFile])
  {
  }

  /** Check and reservation under fs.mu keep usage within the limit, whatever deletions do in between. */
  lemma StepStaysWithinLimit(s: State, step: Step)
    requires WithinLimit(s) && Enabled(s, step)
    ensures WithinLimit(Apply(s, step)) && Apply(s, step).limit == s.limit
  {
    hide Reserving, Moved;
    StepKeepsGood(s, step);
    var t := Apply(s, step);
    if step.Handle? {
      FileStepStaysWithinLimit(s, step.i, step.m);
    } else if step.Create? {
      CreateStaysReserving(s.limit, s.usage, s.mu, s.files);
    } else if TargetOf(s, step).On? {
      var i, m := TargetOf(s, step).file, TargetOf(s, step).move;
      MoveShape(s.files[i], m);
      DeletionMove(s.limit, s.usage, t.usage, s.mu, s.files, i, Moved(s.files[i], m));
    }
  }

  /**
   No interleaving of writes, truncations, closes and deletions, of open files and
   with failing unlinks included, ever takes usage above a positive limit.
   */
  lemma {:induction false} RunsStayWithinLimit(s: State, steps: seq<Step>)
    requires WithinLimit(s) && Runs(s, steps)
    ensures WithinLimit(Exec(s, steps)) && Exec(s, steps).limit == s.limit
    decreases |steps|
  {
    hide WithinLimit, Apply, Enabled;
    if steps != [] {
      StepStaysWithinLimit(s, steps[0]);
      RunsStayWithinLimit(Apply(s, steps[0]), steps[1..]);
    }
  }

  /** Under a positive limit only deletions can take the ledger out of range. */
  lemma LimitedLedger(s: State, step: Step)
    requires WithinLimit(s) && Exact(s) && Enabled(s, step)
    ensures Ledger(Apply(s, step)) <= s.limit
  {
    StepLedger(s, step);
    if Change(s, step) > 0 {
      ApprovedFits(s.limit, s.usage, s.mu, s.files, step.i);
    }
  }

  ghost predicate NeverOverdrawn(s: State, steps: seq<Step>)
    requires Runs(s, steps)
    decreases |steps|
  {
    0 <= Ledger(s) && (steps != [] ==> NeverOverdrawn(Apply(s, steps[0]), steps[1..]))
  }

  /**
   Under a positive limit no addition ever saturates: the counter stays exact over
   a run if and only if deletions never take more than the ledger holds.
   */
  lemma {:induction false} LimitedRunsConserve(s: State, steps: seq<Step>)
    requires WithinLimit(s) && Exact(s) && Runs(s, steps)
    ensures AlwaysExact(s, steps) <==> NeverOverdrawn(s, steps)
    ensures AlwaysExact(s, steps) ==> Exact(Exec(s, steps)) && Exec(s, steps).usage <= s.limit
    decreases |steps|
  {
    hide Enabled, Apply, Ledger, Good, Reserving;
    ExactIsRepresentable(s);
    if steps != [] {
      var t := Apply(s, steps[0]);
      StepStaysWithinLimit(s, steps[0]);
      LimitedLedger(s, steps[0]);
      StepConserves(s, steps[0]);
      if Exact(t) {
        LimitedRunsConserve(t, steps[1..]);
      }
    }
  }

  // ---------------------------------------------------------------------
  // Orderly runs
  // ---------------------------------------------------------------------

  ghost predicate Untouched(s: State, i: nat) {
    forall d :: 0 <= d < |s.deleters| ==> s.deleters[d].file != i
  }

  /** No Stat and no unlink fails; a file is deleted once, while it is not open, and not opened after that. */
  ghost predicate OrderlyStep(s: State, step: Step)
    requires Good(s) && Enabled(s, step)
  {
    match step
    case Create => true
    case Handle(i, m) => (m.Stat? ==> m.ok) && (m.Open? ==> Untouched(s, i))
    case BeginDelete(i, _) => s.files[i].pc.NoHandle? && Untouched(s, i)
    case DeleteSubtract(_) => true
    case DeleteUnlink(_, ok) => ok
  }

  ghost predicate OrderlyRun(s: State, steps: seq<Step>)
    requires Runs(s, steps)
    decreases |steps|
  {
    steps != [] ==> OrderlyStep(s, steps[0]) && OrderlyRun(Apply(s, steps[0]), steps[1..])
  }

  ghost predicate CleanFile(f: FileState) {
    f.linked && f.residue == 0 && f.subtracted == 0 && (f.pc.Statted? ==> f.pc.ok)
  }

  /** How far the one deletion of a file has come. */
  ghost predicate InDeletion(f: FileState, d: Deleter) {
    && f.pc.NoHandle? && f.residue == 0 && f.disk == d.seen
    && f.linked == (d.pc == Seen || d.pc == Subtracted)
    && f.subtracted == (if d.pc == Subtracted || d.pc == Ended then d.seen else 0)
  }

  ghost predicate Orderly(s: State) {
    && (forall i :: 0 <= i < |s.files| && Untouched(s, i) ==> CleanFile(s.files[i]))
    && (forall d :: 0 <= d < |s.deleters| ==>
          s.deleters[d].file < |s.files| && InDeletion(s.files[s.deleters[d].file], s.deleters[d]))
    && (forall d, e :: 0 <= d < e < |s.deleters| ==> s.deleters[d].file != s.deleters[e].file)
  }

  lemma CleanMove(f: FileState, m: Move)
    requires GoodFile(f) && Can(f, m) && CleanFile(f) && !m.Subtract? && !m.Unlink? && (m.Stat? ==> m.ok)
    ensures CleanFile(Moved(f, m))
  {
  }

  lemma HandleKeepsOrderly(s: State, i: nat, m: Move)
    requires Good(s) && Orderly(s) && Enabled(s, Handle(i, m)) && OrderlyStep(s, Handle(i, m))
    ensures Orderly(Apply(s, Handle(i, m)))
  {
    hide Moved;
    var t := Apply(s, Handle(i, m));
    assert forall d :: 0 <= d < |s.deleters| ==> InDeletion(s.files[s.deleters[d].file], s.deleters[d]);
    assert Untouched(s, i);
    CleanMove(s.files[i], m);
    forall j | 0 <= j < |t.files| && Untouched(t, j) ensures CleanFile(t.files[j]) {
      assert Untouched(s, j);
    }
  }

  /** One deletion and its file move on together. */
  lemma DeletionMovesOn(s: State, t: State, d: nat, f: FileState, del: Deleter)
    requires Orderly(s) && d < |s.deleters| && s.deleters[d].file < |s.files|
    requires t.files == s.files[s.deleters[d].file := f] && t.deleters == s.deleters[d := del]
    requires del.file == s.deleters[d].file && InDeletion(f, del)
    ensures Orderly(t)
  {
    hide CleanFile, InDeletion;
    var i := del.file;
    forall j | 0 <= j < |t.files| && Untouched(t, j) ensures CleanFile(t.files[j]) {
      assert t.deleters[d].file == i;
      forall e | 0 <= e < |s.deleters| ensures s.deleters[e].file != j {
        assert t.deleters[e].file == s.deleters[e].file;
      }
      assert Untouched(s, j);
    }
    forall e | 0 <= e < |t.deleters|
      ensures t.deleters[e].file < |t.files| && InDeletion(t.files[t.deleters[e].file], t.deleters[e])
    {
      assert e != d ==> s.deleters[e].file != i;
    }
  }

  lemma DeleterKeepsOrderly(s: State, step: Step)
    requires Good(s) && Orderly(s) && Enabled(s, step) && OrderlyStep(s, step)
    requires step.DeleteSubtract? || step.DeleteUnlink?
    ensures Orderly(Apply(s, step))
  {
    var d, t := step.d, Apply(s, step);
    var i := s.deleters[d].file;
    assert InDeletion(s.files[i], s.deleters[d]);
    hide Orderly;
    DeletionMovesOn(s, t, d, t.files[i], t.deleters[d]);
  }

  lemma BeginKeepsOrderly(s: State, step: Step)
    requires Good(s) && Orderly(s) && Enabled(s, step) && OrderlyStep(s, step)
    requires step.Create? || step.BeginDelete?
    ensures Orderly(Apply(s, step))
  {
    var t := Apply(s, step);
    forall j | 0 <= j < |t.files| && Untouched(t, j) ensures CleanFile(t.files[j]) {
      if j < |s.files| {
        forall d | 0 <= d < |s.deleters| ensures s.deleters[d].file != j {
          assert t.deleters[d] == s.deleters[d];
        }
        assert Untouched(s, j);
      }
    }
    if step.BeginDelete? {
      assert CleanFile(s.files[step.i]);
    }
  }

  lemma StepKeepsOrderly(s: State, step: Step)
    requires Good(s) && Orderly(s) && Enabled(s, step) && OrderlyStep(s, step)
    ensures Orderly(Apply(s, step))
  {
    hide Orderly, Apply;
    match step
    case Handle(i, m) => HandleKeepsOrderly(s, i, m);
    case Create => BeginKeepsOrderly(s, step);
    case BeginDelete(_, _) => BeginKeepsOrderly(s, step);
    case _ => DeleterKeepsOrderly(s, step);
  }

  function Zero(f: FileState): int {
    0
  }

  lemma {:induction false} SumZero(fs: seq<FileState>)
    ensures Sum(Zero, fs) == 0
  {
    if fs != [] {
      SumZero(fs[1..]);
    }
  }

  /** In an orderly state no file is overdrawn, and one whose deletion is through is counted right. */
  lemma OrderlyFile(s: State, i: nat)
    requires Orderly(s) && i < |s.files|
    ensures Credit(s.files[i]) >= 0
    ensures (forall d :: 0 <= d < |s.deleters| ==> s.deleters[d].pc == Ended) ==> Deviation(s.files[i]) == 0
  {
    if !Untouched(s, i) {
      var d :| 0 <= d < |s.deleters| && s.deleters[d].file == i;
      assert InDeletion(s.files[i], s.deleters[d]);
    }
  }

  lemma OrderlyLedger(s: State)
    requires Orderly(s)
    ensures Ledger(s) >= 0
    ensures (forall d :: 0 <= d < |s.deleters| ==> s.deleters[d].pc == Ended) ==> Sum(Deviation, s.files) == 0
  {
    hide Orderly, Credit, Deviation;
    forall i | 0 <= i < |s.files|
      ensures Credit(s.files[i]) >= 0
      ensures (forall d :: 0 <= d < |s.deleters| ==> s.deleters[d].pc == Ended) ==> Deviation(s.files[i]) == 0
    {
      OrderlyFile(s, i);
    }
    SumZero(s.files);
    SumMonotone(Zero, Credit, s.files);
    if forall d :: 0 <= d < |s.deleters| ==> s.deleters[d].pc == Ended {
      SumMonotone(Zero, Deviation, s.files);
      SumMonotone(Deviation, Zero, s.files);
    }
  }

  lemma {:induction false} OrderlyRunsStayOrderly(s: State, steps: seq<Step>)
    requires Good(s) && Orderly(s) && Runs(s, steps) && OrderlyRun(s, steps)
    ensures NeverOverdrawn(s, steps) && Orderly(Exec(s, steps))
    decreases |steps|
  {
    hide Orderly, Apply, Enabled, Good, Ledger, OrderlyStep;
    OrderlyLedger(s);
    if steps != [] {
      StepKeepsGood(s, steps[0]);
      StepKeepsOrderly(s, steps[0]);
      OrderlyRunsStayOrderly(Apply(s, steps[0]), steps[1..]);
    }
  }

  /** Everything is closed and every deletion is through. */
  ghost predicate Quiescent(s: State) {
    Closed(s) && forall d :: 0 <= d < |s.deleters| ==> s.deleters[d].pc == Ended
  }

  /** Under a positive limit orderly runs are exact throughout, and at rest usage is the real size of all files. */
  lemma {:induction false} OrderlyRunsAreReal(s: State, steps: seq<Step>)
    requires WithinLimit(s) && Exact(s) && Orderly(s) && Runs(s, steps) && OrderlyRun(s, steps)
    ensures AlwaysExact(s, steps)
    ensures Quiescent(Exec(s, steps)) ==> Exec(s, steps).usage == Physical(Exec(s, steps))
  {
    hide Orderly, Apply, Enabled, Ledger, OrderlyStep, OrderlyRun, Reserving;
    OrderlyRunsStayOrderly(s, steps);
    LimitedRunsConserve(s, steps);
    RunsConserve(s, steps);
    if Quiescent(Exec(s, steps)) {
      OrderlyLedger(Exec(s, steps));
      ClosedUsage(s, steps);
    }
  }

  // ---------------------------------------------------------------------
  // Rescans
  // ---------------------------------------------------------------------

  /** A file as a rescan counts it. */
  function Recounted(f: FileState): FileState {
    f.(residue := 0, subtracted := if f.linked then 0 else f.disk)
  }

  function RecountAll(fs: seq<FileState>): (r: seq<FileState>)
    ensures |r| == |fs|
    ensures forall i :: 0 <= i < |fs| ==> r[i] == Recounted(fs[i])
  {
    seq(|fs|, i requires 0 <= i < |fs| => Recounted(fs[i]))
  }

  lemma {:induction false} RecountedSums(fs: seq<FileState>)
    requires forall i :: 0 <= i < |fs| ==> fs[i].pc.NoHandle?
    ensures Sum(Credit, RecountAll(fs)) == Sum(OnDisk, fs) == Sum(OnDisk, RecountAll(fs))
    ensures Sum(Deviation, RecountAll(fs)) == 0
  {
    if fs != [] {
      RecountedSums(fs[1..]);
      assert RecountAll(fs)[1..] == RecountAll(fs[1..]);
    }
  }

  /** A rescan while everything is closed stores the bytes it finds, and that puts right every earlier deviation. */
  ghost function Rescanned(s: State): (r: State)
    requires Good(s) && Closed(s) && 0 <= Physical(s) <= MAX
    ensures Exact(r) && r.limit == s.limit
    ensures r.usage == Physical(s) == Physical(r) && Sum(Deviation, r.files) == 0
  {
    RecountedSums(s.files);
    s.(usage := Physical(s), files := RecountAll(s.files))
  }

  /** After a run a rescan changes the counter exactly when the deviations do not cancel out. */
  lemma {:induction false} RescanFindsTheSame(s: State, steps: seq<Step>)
    requires Exact(s) && Runs(s, steps) && Representable(s, steps)
    requires Closed(Exec(s, steps)) && 0 <= Physical(Exec(s, steps)) <= MAX
    ensures var t := Exec(s, steps);
            Good(t) && (Rescanned(t).usage == t.usage <==> Sum(Deviation, t.files) == 0)
  {
    RunsConserve(s, steps);
    ClosedUsage(s, steps);
  }

  // ---------------------------------------------------------------------
  // A file deleted while it is written
  // ---------------------------------------------------------------------

  ghost predicate StepsTo(s: State, step: Step, t: State) {
    Good(s) && Enabled(s, step) && Apply(s, step) == t
  }

  ghost predicate Chain(states: seq<State>, steps: seq<Step>) {
    && |states| == |steps| + 1
    && forall i :: 0 <= i < |steps| ==> StepsTo(states[i], steps[i], states[i + 1])
  }

  /** A run spelled out state by state. */
  lemma {:induction false} ChainRuns(states: seq<State>, steps: seq<Step>)
    requires Chain(states, steps)
    ensures Runs(states[0], steps) && Exec(states[0], steps) == states[|steps|]
    decreases |steps|
  {
    hide Good, Enabled, Apply;
    if steps != [] {
      assert StepsTo(states[0], steps[0], states[1]);
      forall i | 0 <= i < |steps| - 1 ensures StepsTo(states[1..][i], steps[1..][i], states[1..][i + 1]) {
        assert StepsTo(states[i + 1], steps[i + 1], states[i + 2]);
      }
      ChainRuns(states[1..], steps[1..]);
    }
  }

  /** A move of the handle in a system with one file. */
  lemma OneFileMove(s: State, f: FileState, m: Move, mu: bool)
    requires s.files == [f] && GoodFile(f) && s.usage >= 0 && Can(f, m) && !m.Subtract? && !m.Unlink?
    requires NeedsLock(f, m) ==> !s.mu
    requires m.Check? ==> m.fits == CanFit(s.limit, s.usage, Growth(f))
    requires mu == LockAfter(s, Handle(0, m))
    ensures StepsTo(s, Handle(0, m), State(s.limit, NextUsage(s.usage, Amount(f, m)), mu, [Moved(f, m)], s.deleters))
  {
    hide Moved, Amount, NextUsage, CanFit;
    assert [f][0 := Moved(f, m)] == [Moved(f, m)];
  }

  function WriteSteps(off: Size, len: Size): seq<Step> {
    [Handle(0, BeginWrite(off, len)), Handle(0, TakeLock), Handle(0, Check(true)), Handle(0, Reserve), Handle(0, OsWrite(len))]
  }

  /** The state after the first `k` steps of a write of `len` bytes at the end of an only file. */
  ghost function MidWrite(k: nat, s: State, f: FileState, len: Size): State
    requires f.size + len <= MAX && s.usage + len <= MAX && s.usage >= 0
  {
    var off := f.size;
    if k == 0 then s.(files := [f])
    else if k == 1 then s.(files := [f.(pc := WaitingToReserve(off, len))])
    else if k == 2 then s.(mu := true, files := [f.(pc := Checking(off, len))])
    else if k == 3 then s.(mu := true, files := [f.(pc := Approved(off, len))])
    else if k == 4 then s.(usage := s.usage + len, files := [f.(pc := Writing(off, len))])
    else s.(usage := s.usage + len, files := [f.(size := off + len, disk := off + len)])
  }

  /** A whole write at the end of the file, when it fits. */
  lemma WholeWrite(s: State, f: FileState, len: Size)
    requires s.files == [f] && f.pc.Idle? && f.disk == f.size && !s.mu
    requires len > 0 && f.size + len <= MAX && 0 <= s.usage && 0 < s.limit && s.usage + len <= s.limit
    ensures forall k :: 0 <= k < 5 ==>
              StepsTo(MidWrite(k, s, f, len), WriteSteps(f.size, len)[k], MidWrite(k + 1, s, f, len))
  {
    hide StepsTo;
    var off := f.size;
    OneFileMove(s, f, BeginWrite(off, len), false);
    OneFileMove(MidWrite(1, s, f, len), f.(pc := WaitingToReserve(off, len)), TakeLock, true);
    OneFileMove(MidWrite(2, s, f, len), f.(pc := Checking(off, len)), Check(true), true);
    OneFileMove(MidWrite(3, s, f, len), f.(pc := Approved(off, len)), Reserve, false);
    OneFileMove(MidWrite(4, s, f, len), f.(pc := Writing(off, len)), OsWrite(len), false);
    assert s.(files := [f]) == s;
  }

  lemma {:induction false} RunsAppend(s: State, a: seq<Step>, b: seq<Step>)
    requires Runs(s, a) && Runs(Exec(s, a), b)
    ensures Runs(s, a + b) && Exec(s, a + b) == Exec(Exec(s, a), b)
    decreases |a|
  {
    hide Good, Enabled, Apply;
    if a == [] {
      assert a + b == b;
    } else {
      assert (a + b)[1..] == a[1..] + b;
      RunsAppend(Apply(s, a[0]), a[1..], b);
    }
  }

  lemma {:induction false} WholeWriteRuns(s: State, f: FileState, len: Size)
    requires s.files == [f] && f.pc.Idle? && f.disk == f.size && !s.mu
    requires len > 0 && f.size + len <= MAX && 0 <= s.usage && 0 < s.limit && s.usage + len <= s.limit
    ensures Runs(s, WriteSteps(f.size, len))
    ensures Exec(s, WriteSteps(f.size, len)) ==
            s.(usage := s.usage + len, files := [f.(size := f.size + len, disk := f.size + len)])
  {
    hide StepsTo;
    WholeWrite(s, f, len);
    var states := seq(6, k requires 0 <= k < 6 => MidWrite(k, s, f, len));
    assert s.(files := [f]) == s;
    ChainRuns(states, WriteSteps(f.size, len));
  }

  /** Touch of a new file in an empty system. */
  lemma TouchRuns(limit: int64)
    ensures var s, steps := State(limit, 0, false, [], []), [Create, Handle(0, Open(0))];
            Runs(s, steps) && Exec(s, steps) == s.(files := [NewFile.(pc := Idle)])
  {
    var s0 := State(limit, 0, false, [], []);
    var s1 := s0.(files := [NewFile]);
    assert s0.files + [NewFile] == [NewFile];
    assert StepsTo(s0, Create, s1);
    OneFileMove(s1, NewFile, Open(0), false);
    ChainRuns([s0, s1, s0.(files := [NewFile.(pc := Idle)])], [Create, Handle(0, Open(0))]);
  }

  const DeleteSteps: seq<Step> := [BeginDelete(0, false), DeleteSubtract(0), DeleteUnlink(0, true)]

  lemma SubtractOne(s: State, f: FileState, n: Size)
    requires s.files == [f] && s.deleters == [Deleter(0, n, false, Seen)] && s.usage >= 0 && GoodFile(f)
    ensures StepsTo(s, DeleteSubtract(0),
                    State(s.limit, NextUsage(s.usage, 0 - n), s.mu, [f.(subtracted := f.subtracted + n)],
                          [Deleter(0, n, false, Subtracted)]))
  {
    hide NextUsage;
    assert s.files[0 := f.(subtracted := f.subtracted + n)] == [f.(subtracted := f.subtracted + n)];
  }

  lemma UnlinkOne(s: State, f: FileState, n: Size)
    requires s.files == [f] && s.deleters == [Deleter(0, n, false, Subtracted)] && s.usage >= 0 && GoodFile(f) && f.linked
    ensures StepsTo(s, DeleteUnlink(0, true), s.(files := [f.(linked := false)], deleters := [Deleter(0, n, false, Ended)]))
  {
    assert s.files[0 := f.(linked := false)] == [f.(linked := false)];
  }

  /** The deletion of an open file of `n` bytes that is all usage counts. */
  lemma {:induction false} DeleteRuns(s: State, n: Size)
    requires s.usage == n && s.deleters == [] && s.files == [FileState(n, true, n, Idle, 0, 0)]
    ensures Runs(s, DeleteSteps)
    ensures Exec(s, DeleteSteps) ==
            s.(usage := 0, files := [FileState(n, false, n, Idle, n, 0)], deleters := [Deleter(0, n, false, Ended)])
  {
    var f := s.files[0];
    var s1 := s.(deleters := [Deleter(0, n, false, Seen)]);
    var s2 := s.(usage := 0, files := [f.(subtracted := n)], deleters := [Deleter(0, n, false, Subtracted)]);
    var s3 := s2.(files := [f.(subtracted := n, linked := false)], deleters := [Deleter(0, n, false, Ended)]);
    assert StepsTo(s, DeleteSteps[0], s1);
    SubtractOne(s1, f, n);
    UnlinkOne(s2, f.(subtracted := n), n);
    hide StepsTo;
    ChainRuns([s, s1, s2, s3], DeleteSteps);
  }

  const CloseSteps: seq<Step> := [Handle(0, Stat(true)), Handle(0, CloseAdjust)]

  lemma {:induction false} CloseRuns(s: State, f: FileState)
    requires s.files == [f] && f.pc.Idle? && f.disk == f.size && s.usage >= 0
    ensures Runs(s, CloseSteps) && Exec(s, CloseSteps) == s.(files := [f.(pc := NoHandle)])
  {
    var s1 := s.(files := [f.(pc := Statted(true))]);
    OneFileMove(s, f, Stat(true), s.mu);
    OneFileMove(s1, f.(pc := Statted(true)), CloseAdjust, s.mu);
    ChainRuns([s, s1, s.(files := [f.(pc := NoHandle)])], CloseSteps);
  }

  /**
   A file of `a` bytes is deleted while it is open; `b` more bytes are written before
   it is closed. Nothing is left on disk, and usage keeps counting `b` bytes.
   */
  lemma WritingAfterDeletionLeaks(limit: int64, a: Size, b: Size) returns (steps: seq<Step>)
    requires 0 < a && 0 < b && a + b <= limit
    ensures var s := State(limit, 0, false, [], []);
            && Exact(s) && WithinLimit(s) && Runs(s, steps)
            && Quiescent(Exec(s, steps)) && Exec(s, steps).usage == b && Physical(Exec(s, steps)) == 0
  {
    hide Runs, Exec, Enabled, Apply;
    var s := State(limit, 0, false, [], []);
    TouchRuns(limit);
    var f0 := NewFile.(pc := Idle);
    var s1 := s.(files := [f0]);
    WholeWriteRuns(s1, f0, a);
    var s2 := s1.(usage := a, files := [f0.(size := a, disk := a)]);
    DeleteRuns(s2, a);
    var f1 := FileState(a, false, a, Idle, a, 0);
    var s3 := s2.(usage := 0, files := [f1], deleters := [Deleter(0, a, false, Ended)]);
    WholeWriteRuns(s3, f1, b);
    var f2 := f1.(size := a + b, disk := a + b);
    var s4 := s3.(usage := b, files := [f2]);
    CloseRuns(s4, f2);
    steps := [Create, Handle(0, Open(0))];
    RunsAppend(s, steps, WriteSteps(0, a));
    steps := steps + WriteSteps(0, a);
    RunsAppend(s, steps, DeleteSteps);
    steps := steps + DeleteSteps;
    RunsAppend(s, steps, WriteSteps(a, b));
    steps := steps + WriteSteps(a, b);
    RunsAppend(s, steps, CloseSteps);
    steps := steps + CloseSteps;
    var t := s4.(files := [f2.(pc := NoHandle)]);
    assert Exec(s, steps) == t;
    assert t.files[1..] == [] && Sum(OnDisk, t.files) == OnDisk(t.files[0]) + Sum(OnDisk, t.files[1..]);
  }

  // ---------------------------------------------------------------------
  // A write on its own
  // ---------------------------------------------------------------------

  /** A move of file `i`, whatever the other files are. */
  lemma MoveAt(s: State, files: seq<FileState>, i: nat, f: FileState, m: Move)
    requires i < |files| && s.files == files[i := f] && Good(s) && GoodFile(f) && Can(f, m) && !m.Subtract? && !m.Unlink?
    requires NeedsLock(f, m) ==> !s.mu
    requires m.Check? ==> m.fits == CanFit(s.limit, s.usage, Growth(f))
    ensures StepsTo(s, Handle(i, m),
                    State(s.limit, NextUsage(s.usage, Amount(f, m)), LockAfter(s, Handle(i, m)), files[i := Moved(f, m)], s.deleters))
    ensures Good(State(s.limit, NextUsage(s.usage, Amount(f, m)), LockAfter(s, Handle(i, m)), files[i := Moved(f, m)], s.deleters))
  {
    StepKeepsGood(s, Handle(i, m));
    hide Moved, Amount, NextUsage, CanFit;
    assert s.files[i := Moved(f, m)] == files[i := Moved(f, m)];
  }

  /** The steps of a write of `len` bytes at `off` of which the OS accepts `n`, with nothing in between. */
  function WriteAlone(s: State, i: nat, off: Size, len: Size, n: Size): seq<Step>
    requires i < |s.files| && n <= len && off + len <= MAX
  {
    var growth := off + len - s.files[i].size;
    if growth <= 0 then [Handle(i, BeginWrite(off, len)), Handle(i, OsWrite(n))]
    else if !CanFit(s.limit, s.usage, growth) then [Handle(i, BeginWrite(off, len)), Handle(i, TakeLock), Handle(i, Check(false))]
    else
      [Handle(i, BeginWrite(off, len)), Handle(i, TakeLock), Handle(i, Check(true)), Handle(i, Reserve), Handle(i, OsWrite(n))]
      + if Grown(s.files[i].size, off, n) < off + len then [Handle(i, Refund)] else []
  }

  /** A size after `n` bytes were written at `off`. */
  function Grown(size: Size, off: Size, n: Size): int {
    if n == 0 then size else Max(size, off + n)
  }

  lemma {:induction false} RefusedAlone(s: State, i: nat, off: Size, len: Size)
    requires Good(s) && i < |s.files| && s.files[i].pc.Idle? && !s.mu && len > 0 && off + len <= MAX
    requires off + len > s.files[i].size && !CanFit(s.limit, s.usage, off + len - s.files[i].size)
    ensures var steps := [Handle(i, BeginWrite(off, len)), Handle(i, TakeLock), Handle(i, Check(false))];
            Runs(s, steps) && Exec(s, steps) == s
  {
    hide StepsTo, CanFit, Good;
    GoodAt(s, i);
    var f := s.files[i];
    var f1, f2 := f.(pc := WaitingToReserve(off, len)), f.(pc := Checking(off, len));
    assert s.files[i := f] == s.files;
    MoveAt(s, s.files, i, f, BeginWrite(off, len));
    var s1 := s.(files := s.files[i := f1]);
    MoveAt(s1, s.files, i, f1, TakeLock);
    var s2 := s.(mu := true, files := s.files[i := f2]);
    MoveAt(s2, s.files, i, f2, Check(false));
    ChainRuns([s, s1, s2, s], [Handle(i, BeginWrite(off, len)), Handle(i, TakeLock), Handle(i, Check(false))]);
  }

  lemma {:induction false} ShrinkingAlone(s: State, i: nat, off: Size, len: Size, n: Size)
    requires Good(s) && i < |s.files| && s.files[i].pc.Idle? && len > 0 && n <= len && off + len <= s.files[i].size
    ensures var f := s.files[i];
            var steps := [Handle(i, BeginWrite(off, len)), Handle(i, OsWrite(n))];
            && Grown(f.disk, off, n) <= MAX
            && Runs(s, steps) && Exec(s, steps) == s.(files := s.files[i := f.(disk := Grown(f.disk, off, n))])
  {
    hide StepsTo;
    var f := s.files[i];
    var f1, f2 := f.(pc := Writing(off, len)), f.(disk := Grown(f.disk, off, n));
    assert s.files[i := f] == s.files;
    MoveAt(s, s.files, i, f, BeginWrite(off, len));
    var s1 := s.(files := s.files[i := f1]);
    assert Written(f1, n) == f2;
    MoveAt(s1, s.files, i, f1, OsWrite(n));
    ChainRuns([s, s1, s.(files := s.files[i := f2])], [Handle(i, BeginWrite(off, len)), Handle(i, OsWrite(n))]);
  }

  /** Up to the OS write, when the growth fits. */
  lemma ReservedAlone(s: State, i: nat, off: Size, len: Size)
    requires Good(s) && i < |s.files| && s.files[i].pc.Idle? && !s.mu && len > 0 && off + len <= MAX
    requires off + len > s.files[i].size && CanFit(s.limit, s.usage, off + len - s.files[i].size)
    ensures var f, growth := s.files[i], off + len - s.files[i].size;
            var steps := [Handle(i, BeginWrite(off, len)), Handle(i, TakeLock), Handle(i, Check(true)), Handle(i, Reserve)];
            var t := s.(usage := NextUsage(s.usage, growth), files := s.files[i := f.(pc := Writing(off, len))]);
            Runs(s, steps) && Exec(s, steps) == t && Good(t)
  {
    hide StepsTo, CanFit, Good, NextUsage;
    var f, growth := s.files[i], off + len - s.files[i].size;
    var f1, f2, f3 := f.(pc := WaitingToReserve(off, len)), f.(pc := Checking(off, len)), f.(pc := Approved(off, len));
    GoodAt(s, i);
    assert s.files[i := f] == s.files;
    UsageUnchanged(s.usage);
    MoveAt(s, s.files, i, f, BeginWrite(off, len));
    var s1 := s.(files := s.files[i := f1]);
    MoveAt(s1, s.files, i, f1, TakeLock);
    var s2 := s.(mu := true, files := s.files[i := f2]);
    MoveAt(s2, s.files, i, f2, Check(true));
    var s3 := s.(mu := true, files := s.files[i := f3]);
    MoveAt(s3, s.files, i, f3, Reserve);
    var s4 := s.(usage := NextUsage(s.usage, growth), files := s.files[i := f.(pc := Writing(off, len))]);
    ChainRuns([s, s1, s2, s3, s4],
              [Handle(i, BeginWrite(off, len)), Handle(i, TakeLock), Handle(i, Check(true)), Handle(i, Reserve)]);
  }

  lemma GoodAt(s: State, i: nat)
    requires Good(s) && i < |s.files|
    ensures GoodFile(s.files[i])
  {
  }

  lemma UsageUnchanged(u: int64)
    ensures NextUsage(u, 0) == u
  {
  }

  /** From the OS write to the refund of what was not written. */
  lemma {:induction false} WrittenAlone(s: State, files: seq<FileState>, i: nat, f: FileState, off: Size, len: Size, n: Size)
    requires i < |files| && s.files == files[i := f.(pc := Writing(off, len))] && Good(s) && !s.mu
    requires f.pc.Idle? && f.disk <= f.size && n <= len && f.size < off + len <= MAX
    ensures var size, disk := Grown(f.size, off, n), Grown(f.disk, off, n);
            var steps := [Handle(i, OsWrite(n))] + if size < off + len then [Handle(i, Refund)] else [];
            && 0 <= size <= off + len && 0 <= disk <= size
            && Runs(s, steps)
            && Exec(s, steps) == s.(usage := NextUsage(s.usage, size - (off + len)),
                                    files := files[i := f.(size := size, disk := disk)])
  {
    hide StepsTo, Good, NextUsage;
    var size, disk := Grown(f.size, off, n), Grown(f.disk, off, n);
    var f1, g := f.(pc := Writing(off, len)), f.(size := size, disk := disk);
    UsageUnchanged(s.usage);
    if size < off + len {
      var f2 := g.(pc := Refunding(off + len - size));
      assert Written(f1, n) == f2;
      MoveAt(s, files, i, f1, OsWrite(n));
      var s1 := s.(files := files[i := f2]);
      MoveAt(s1, files, i, f2, Refund);
      var s2 := s.(usage := NextUsage(s.usage, size - (off + len)), files := files[i := g]);
      ChainRuns([s, s1, s2], [Handle(i, OsWrite(n))] + [Handle(i, Refund)]);
    } else {
      assert Written(f1, n) == g;
      MoveAt(s, files, i, f1, OsWrite(n));
      assert [Handle(i, OsWrite(n))] + [] == [Handle(i, OsWrite(n))];
      ChainRuns([s, s.(files := files[i := g])], [Handle(i, OsWrite(n))]);
    }
  }

  /**
   A write with nothing in between does what `QuotaFile.File.WriteAtLocked` promises:
   the same refusals, and otherwise the same tracked size, file and usage, for every
   number of bytes the OS accepts.
   */
  lemma {:induction false} WriteAloneMatches(s: State, i: nat, off: Size, len: Size, n: Size)
    requires Good(s) && i < |s.files| && s.files[i].pc.Idle? && !s.mu && 0 < len && n <= len && off + len <= MAX
    ensures var f := s.files[i];
            var growth, reserved := off + len - f.size, Max(0, off + len - f.size);
            var size, disk := Grown(f.size, off, n), Grown(f.disk, off, n);
            && Runs(s, WriteAlone(s, i, off, len, n))
            && f.size <= size <= MAX && 0 <= disk <= MAX
            && Exec(s, WriteAlone(s, i, off, len, n)) ==
               if growth > 0 && !CanFit(s.limit, s.usage, growth) then s
               else s.(usage := NextUsage(NextUsage(s.usage, reserved), size - f.size - reserved),
                       files := s.files[i := f.(size := size, disk := disk)])
  {
    hide Runs, Exec, NextUsage, CanFit;
    var f := s.files[i];
    var growth := off + len - f.size;
    UsageUnchanged(s.usage);
    if growth <= 0 {
      ShrinkingAlone(s, i, off, len, n);
    } else if !CanFit(s.limit, s.usage, growth) {
      RefusedAlone(s, i, off, len);
    } else {
      var first := [Handle(i, BeginWrite(off, len)), Handle(i, TakeLock), Handle(i, Check(true)), Handle(i, Reserve)];
      ReservedAlone(s, i, off, len);
      var t := s.(usage := NextUsage(s.usage, growth), files := s.files[i := f.(pc := Writing(off, len))]);
      WrittenAlone(t, s.files, i, f, off, len, n);
      var second := [Handle(i, OsWrite(n))] + if Grown(f.size, off, n) < off + len then [Handle(i, Refund)] else [];
      RunsAppend(s, first, second);
      assert first + second == WriteAlone(s, i, off, len, n);
    }
  }

  /** A close with nothing in between does what `QuotaFile.File.Close` promises; a failing Stat leaves its residue. */
  lemma {:induction false} CloseAloneMatches(s: State, i: nat, ok: bool)
    requires Good(s) && i < |s.files| && s.files[i].pc.Idle? && !s.mu
    ensures var f := s.files[i];
            var steps := [Handle(i, Stat(ok)), Handle(i, CloseAdjust)];
            && Runs(s, steps)
            && Exec(s, steps) ==
               s.(usage := if ok then NextUsage(s.usage, f.disk - f.size) else s.usage,
                  files := s.files[i := f.(pc := NoHandle, residue := f.residue + if ok then 0 else f.size - f.disk)])
  {
    hide StepsTo, NextUsage;
    var f := s.files[i];
    var f1 := f.(pc := Statted(ok));
    assert s.files[i := f] == s.files;
    UsageUnchanged(s.usage);
    MoveAt(s, s.files, i, f, Stat(ok));
    var s1 := s.(files := s.files[i := f1]);
    MoveAt(s1, s.files, i, f1, CloseAdjust);
    ChainRuns([s, s1, State(s.limit, NextUsage(s.usage, Amount(f1, CloseAdjust)), s.mu, s.files[i := Moved(f1, CloseAdjust)], s.deleters)],
              [Handle(i, Stat(ok)), Handle(i, CloseAdjust)]);
  }
}
