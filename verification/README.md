# Feathers: a verified model of the daemon's stateful core

Feathers is a Windows-native port of the Wings game-server daemon. This project
models, in Dafny, those parts of it in which state, recursion or concurrency make
the behaviour hard to see from the code, and proves what they keep over every
input, every schedule or every run. `dafny verify dfyconfig.toml` checks all of it.

## What is modelled

- **Disk quota** (`Int64`, `QuotaCounter`, `QuotaFile`, `QuotaRuns`). `Quota.Add` is a
  saturating compare-and-swap loop; any number of concurrent calls linearize to clamped
  addition. Above it, any number of files are opened, written short, truncated, closed
  and deleted, open or not, interleaved step by step, with unlinks and Stats that may
  fail. Usage is exact precisely as long as the sum to be counted fits int64, never
  above a positive limit, and at rest off by exactly what each file's history says.
- **Recursive delete** (`RemoveAll`). The batched deletion runs over an abstract tree in
  which the operating system refuses any chosen set of entries. What is left is
  characterised without reference to the algorithm (`Kept`, `Pruned`), as is what the
  quota counter loses by it (`RefusedBytes`).
- **Walks** (`Walk`, `DirectoryContents`, `WalkSkips`). The recursive walk, with the registry tokens
  that stand in for descriptors on Windows, equals one pass over the flattened tree for
  every stateful callback, and visits exactly the paths of the tree. On top of it:
  directory sizes with hard links, and the selection of files for an archive.
- **Power protocol** (`Power`, `PowerStops`). Callers, kills that skip the lock, processes that fork
  and die on their own and late `wait` goroutines interleave freely. When at most one
  process tree is alive, and when `IsRunning` tells the truth, is characterised exactly;
  kills kill, and stops end only when the recorded process is gone.
- **Crash detection** (`Crash`). Which exits count as crashes, and how far apart
  automatic restarts are.
- **SFTP activity merge** (`SftpMerge`). The capped online group-by and the chunked
  deletion against an order-free description of groups and surviving rows.
- **Sink pool** (`SinkPool`). Fan-out to bounded channels behind a reader/writer lock.
- **Console path** (`ScanReader`, `Throttle`). Chunking of the console stream, the
  fixed-window limiter and the strike logic.
- **Startup command and paths** (`Tokenizer`, `Invocation`, `PathStrings`, `Paths`). The quote-aware
  tokenizer, placeholder substitution, the command built from both, and the lexical
  path jail.

Code that updates state is a class or a method with its loops; protocols whose point
is interleaving are step machines (`Enabled`, `Apply`, `Runs`, `Exec`) with an
invariant per step and theorems over runs. Clocks, the order of directory entries,
OS answers, rival goroutines and database failures are parameters or free choices.

## Where the code does less than one might expect

- `Quota.unlinkat` subtracts a file's size before it unlinks it and keeps the
  subtraction on failure. `RemoveAll.Disk.RemoveAll` says exactly when that makes a
  deletion's accounting wrong and, in trees of small directories, by how much;
  `QuotaRuns.ClosedUsage` says the same over whole runs. A directory with a full
  batch of 1024 entries is read again once some of them are gone, and a refused file in
  it subtracted again
  (`RemoveAll.RefusedFileIsSubtractedTwice`).
- A file deleted while it is open is subtracted at the size it has then; what is written
  to it afterwards stays in usage after it is closed and gone
  (`QuotaRuns.WritingAfterDeletionLeaks`).
- `Start` launches the process before it assigns it to the job. A child forked in between
  is in no job and outlives every kill, so that two process trees can be alive
  (`Power.TwoTreesAlive`); `Power.NewTreeIsAloneExactly` says exactly when they are.
- A `wait` that comes after the next start clears that process's record
  (`Power.LateWaitHidesLiveProcess`, and exactly when in `Power.RecordIsRightExactly`) and
  lets a deliberate stop reach the crash handler (`Crash.LateExitAfterRestart`).
- A sink-pool worker whose time runs out may find that the channel has been drained in the
  meantime; it then drops the message although there is room (`SinkPool.GivesUpExactly`).
- A directory whose first unlink fails with anything but EISDIR, EPERM or EACCES is
  returned on at once, so its contents stay although nothing refuses them (`Sealed`).
- With the base `/` the prefix test compares with `//`, so every path is rejected
  (`Paths.RootBaseRejectsAll`).
- Which groups an SFTP merge admits depends on the fetch order as soon as there are more
  keys than the cap (`SftpMerge.OrderFreeExactly`).
- `Rate` admits up to twice its limit within one duration (`Throttle.TwiceIsReached`),
  and with the largest uint64 limit it never refuses (`Throttle.LargestLimitNeverRefuses`).
- Substitution happens before tokenizing, so an empty value can remove an argument and a
  blank in a value split it; `Invocation.SubstitutionRespectsArguments` says exactly when
  neither happens.
- A console line equal to the stop command sets the server offline
  (server/listeners.go, line 194), where the comment above it speaks of a stopping state;
  the crash handler is therefore reached. The model follows the code (`StopEchoed`).
- On Windows the report of a failed directory read comes with the directory's own token
  together with its own name, which resolve to a path below it (`Walk.CallbacksResolve`).

## Model

| member | source | states |
|---|---|---|
| `QuotaCounter.NextUsage` | feathers/internal/ufs/fs_quota.go:72-92 | The value `Add` stores is the sum clamped to [0, MaxInt64], exactly when the usage is calculated, the amount is negative, or the sum is not negative. |
| `QuotaCounter.CanFit` | feathers/internal/ufs/fs_quota.go:102-130 | The space test in one formula without overflow: unlimited, or writable and either uncalculated, not growing, or fitting the limit. |
| `QuotaCounter.Quota.Add` | feathers/internal/ufs/fs_quota.go:70-98 | The retry loop replaces exactly the value its sum was computed from: the first of the values the counter takes that is still there at the next look. So no rival's update is lost, and where every look finds a change, the sum is of the last value. |
| `QuotaCounter.UndisturbedOnce` | feathers/internal/ufs/fs_quota.go:94-96 | That value is unique, so the result is determined. |
| `QuotaCounter.Quota.Fits` | feathers/internal/ufs/fs_quota.go:102-130 | The branching test agrees with `CanFit`. |
| `QuotaCounter.ReturnLinearizes` | feathers/internal/ufs/fs_quota.go:94-96 | A successful swap extends the sequential history by one clamped addition. |
| `QuotaCounter.StepLinearizes` | feathers/internal/ufs/fs_quota.go:70-98 | Every load, failed swap and successful swap of any call keeps the history sequential and only appends to it. |
| `QuotaCounter.ConcurrentAddsLinearize` | feathers/internal/ufs/fs_quota.go:70-98 | Every interleaving of any number of `Add` calls equals running the returned calls one at a time, each once, with clamped addition, ending in the current usage. |
| `QuotaCounter.RealTimeOrder` | feathers/internal/ufs/fs_quota.go:70-98 | The linearization respects real time: a call that returned before another was invoked comes first. |
| `QuotaCounter.FailedSwapMeansProgress` | feathers/internal/ufs/fs_quota.go:94-98 | If the counter differs from what a call loaded, some call committed in between: the loop is lock-free. |
| `QuotaFile.WriteEnd` | feathers/server/filesystem/quota_file.go:88-93 | Succeeds exactly when the end of the write is an int64, and then gives it. |
| `QuotaFile.Filesystem.ReserveDisk` | feathers/server/filesystem/disk_space.go:170-190 | Refuses exactly when a positive size does not fit; adds the size exactly when it does. |
| `QuotaFile.Filesystem.AdjustDisk` | feathers/server/filesystem/disk_space.go:192-201 | Applies a correction of either sign and returns the usage it leaves. |
| `QuotaFile.File.WriteAtLocked` | feathers/server/filesystem/quota_file.go:54-86 | Refusal is characterised exactly and changes nothing; otherwise usage is charged the growth asked for and refunded what was not written, with the clamping of both additions; where nothing is clamped it moves by exactly as much as the tracked size, however short the write. |
| `QuotaFile.File.Close` | feathers/server/filesystem/quota_file.go:99-112 | Closing replaces the tracked size in usage by the size on disk, with the clamping of the one addition, unless Stat fails. |
| `QuotaRuns.Written` | feathers/server/filesystem/quota_file.go:66-83 | For every number of accepted bytes, tracked size plus what is still owed as refund is what was reserved. |
| `QuotaRuns.MoveCredits` | feathers/server/filesystem/quota_file.go:54-112 | Every move of a handle or a deletion changes what usage holds for its file by exactly what it hands to `Add`, and keeps the file on disk within its tracked size and every write end within int64. |
| `QuotaRuns.DiskMoves` | feathers/server/filesystem/quota_file.go:66-72 | The file on disk is shortened only by opening and truncating and lengthened only by a write that takes effect; it is unlinked only by an unlink. |
| `QuotaRuns.StepKeepsGood` | feathers/server/filesystem/quota_file.go:54-112 | No step of any handle or deletion breaks these bounds for any file. |
| `QuotaRuns.RunsExtend` | feathers/server/filesystem/quota_file.go:54-112 | Every enabled step can be appended to every run, so the run theorems exclude no schedule. |
| `QuotaRuns.StepLedger` | feathers/server/filesystem/quota_file.go:54-112 | The sum over all files of what usage holds for them changes exactly by the amount the step hands to `Add`. |
| `QuotaRuns.StepConserves` | feathers/server/filesystem/quota_file.go:54-112 | A step keeps usage equal to that sum if and only if the sum stays within [0, MaxInt64]. |
| `QuotaRuns.RunsConserve` | feathers/server/filesystem/quota_file.go:54-112 | Over every run, with files deleted while open and failing unlinks and Stats included, and for every limit: usage is exact at every moment if and only if the sum always fits the counter. |
| `QuotaRuns.ClosedUsage` | feathers/server/filesystem/quota_file.go:99-112 | After all closes usage differs from the bytes on disk by exactly the deviations of the files: what failed Stats left, minus what failed deletions took, plus what was written to a deleted file after the deletion had looked at it. It is right if and only if these cancel out. |
| `QuotaRuns.DiskIsCounted` | feathers/internal/ufs/fs_quota.go:182-190 | At any moment of an exact run the bytes on disk exceed usage by at most what deletions took for files still there, or took too much for files gone. |
| `QuotaRuns.FileStepStaysWithinLimit` | feathers/server/filesystem/quota_file.go:54-112 | No move of a handle takes usage above a positive limit or disturbs another writer's checked reservation. |
| `QuotaRuns.StepStaysWithinLimit` | feathers/server/filesystem/disk_space.go:177-201 | Check and reservation under `fs.mu` keep usage within a positive limit, whatever lock-free deletions do in between. |
| `QuotaRuns.RunsStayWithinLimit` | feathers/server/filesystem/disk_space.go:177-201 | No interleaving of writes, truncations, closes and deletions, of open files and with failing unlinks included, takes usage above a positive limit. |
| `QuotaRuns.LimitedRunsConserve` | feathers/server/filesystem/disk_space.go:177-201 | Under a positive limit no addition saturates: usage stays exact over a run if and only if deletions never take more than the sum holds. |
| `QuotaRuns.StepKeepsOrderly` | feathers/internal/ufs/fs_quota.go:135-190 | While no unlink or Stat fails and files are deleted once, closed and for good, every deletion leaves its file counted right. |
| `QuotaRuns.OrderlyRunsAreReal` | feathers/server/filesystem/quota_file.go:54-112 | Under a positive limit such runs are exact throughout, and at rest usage is the real size of all files. |
| `QuotaRuns.Rescanned` | feathers/server/filesystem/disk_space.go:136-163 | A rescan with everything closed stores the bytes on disk and puts right every earlier deviation. |
| `QuotaRuns.RescanFindsTheSame` | feathers/server/filesystem/disk_space.go:136-163 | After a run a rescan changes the counter exactly when the deviations do not cancel out. |
| `QuotaRuns.WritingAfterDeletionLeaks` | feathers/internal/ufs/fs_quota.go:182-190 | For all sizes within the limit, a run in which a file is deleted while open, written to and closed: nothing is left on disk and usage keeps counting what was written after the deletion. |
| `QuotaRuns.WriteAloneMatches` | feathers/server/filesystem/quota_file.go:54-86 | A write with no other step in between has in the step machine the refusals, tracked size, file and usage that the code promises, for every number of bytes the OS accepts. |
| `QuotaRuns.CloseAloneMatches` | feathers/server/filesystem/quota_file.go:99-112 | The same for a close, with and without a failing Stat. |
| `RemoveAll.Disk.Unlinkat` | feathers/internal/ufs/fs_quota.go:182-190 | A regular file is subtracted before the unlink and stays subtracted when that fails. |
| `RemoveAll.Disk.Remove` | feathers/internal/ufs/fs_quota.go:135-151 | One unlink or rmdir, subtracted only after it succeeded. |
| `RemoveAll.Disk.OpenDir` | feathers/internal/ufs/removeall_unix.go:123-136 | A reading of a directory: every entry once, in an arbitrary order. |
| `RemoveAll.Disk.RemoveAllFrom` | feathers/internal/ufs/removeall_unix.go:183-235 | For every tree and every set of refused entries: leaves exactly what must stay (`Pruned`), returns nil exactly when the entry is gone, terminates. What it debits beyond the bytes gone is at least the refused regular files it reaches, exactly those where every directory has fewer than 1024 entries, and at least twice those in a directory of exactly 1024 of which some go. |
| `RemoveAll.Disk.RemoveContentsFrom` | feathers/internal/ufs/removeall_unix.go:115-181 | The batched loop over a directory of any size ends with every remaining child being one that must stay, although directories are reopened and whole batches may be refused; what it debits is as for `RemoveAllFrom`. |
| `RemoveAll.Disk.RemovePass` | feathers/internal/ufs/removeall_unix.go:133-177 | A pass that meets a full last batch has removed a child; one that ends short has tried every remaining child; a pass over at most one batch debits every refused file. |
| `RemoveAll.Disk.RemoveBatch` | feathers/internal/ufs/removeall_unix.go:146-159 | Every name of a batch is tried and billed; children shrink unless every one was refused. |
| `RemoveAll.Disk.RemoveAll` | feathers/internal/ufs/fs_quota.go:160-180 | Leaves exactly the refused entries, their ancestors and the contents of sealed directories, touches nothing outside, returns nil exactly when the path is gone; usage drops by exactly the removed bytes if and only if no refused regular file was reached or the counter was emptied anyway, and in trees of small directories by exactly those plus the refused files; with nothing refused, by the regular files of the subtree, each once. |
| `RemoveAll.KeptStable` | feathers/internal/ufs/removeall_unix.go:115-181 | Removing what can go never changes what must stay. |
| `RemoveAll.AllBranchesDone` | feathers/internal/ufs/removeall_unix.go:115-235 | When every child is settled, the directory itself must stay exactly when it is refused or not empty. |
| `RemoveAll.RmdirDecides` | feathers/internal/ufs/removeall_unix.go:222-234 | The final rmdir succeeds exactly when the directory must go. |
| `RemoveAll.AllGone` | feathers/internal/ufs/fs_quota.go:160-180 | With nothing refused the whole subtree goes, and the bytes gone are those of its regular files. |
| `RemoveAll.RemovedAtOnce` | feathers/internal/ufs/removeall_unix.go:44-48 | When the first simple removal succeeds or finds nothing, it already was the whole deletion. |
| `RemoveAll.TotalSplit` | feathers/internal/ufs/fs_quota.go:182-190 | Bytes are additive over any split of a tree. |
| `RemoveAll.PrunedTotal` | feathers/internal/ufs/removeall_unix.go:31-74 | Deletion never adds bytes. |
| `RemoveAll.PrunedTwice` | feathers/internal/ufs/removeall_unix.go:31-74 | Deleting again removes nothing more. |
| `RemoveAll.RefusedStable` | feathers/internal/ufs/fs_quota.go:182-190 | Removing what can go does not change what is refused and reached. |
| `RemoveAll.RefusedInLeft` | feathers/internal/ufs/removeall_unix.go:115-181 | The branches that are left hold all refused files that are reached. |
| `RemoveAll.RefusedInAdd` | feathers/internal/ufs/fs_quota.go:182-190 | What is refused in disjoint sets of branches adds up. |
| `RemoveAll.DebitIsExact` | feathers/internal/ufs/fs_quota.go:82-90 | Too large a subtraction goes unnoticed exactly when the counter is emptied anyway. |
| `RemoveAll.RefusedFileIsSubtracted` | feathers/internal/ufs/fs_quota.go:182-190 | A concrete tree whose refused file stays on disk and is subtracted. |
| `RemoveAll.RefusedFileIsSubtractedTwice` | feathers/internal/ufs/removeall_unix.go:119-178 | A directory of 1024 files of five bytes with one of them refused: the deletion debits at least ten bytes for the file that stays. |
| `Power.StepKeepsLockInv` | feathers/server/power.go:66-121 | In every step of any number of callers the lock is held by at most one, and every start, stop or restart in its section holds it. |
| `Power.MutualExclusion` | feathers/server/power.go:85-121 | At most one start, stop or restart is in its critical section. |
| `Power.HolderKeepsLock` | feathers/server/power.go:69-121 | Over any run, until the caller that acquired the lock leaves, nobody frees it; in particular not a kill that failed to acquire it. |
| `Power.StepOfOthers` | feathers/system/locker.go:34-71 | No step of another caller takes the lock from its holder. |
| `Power.OneStarter` | feathers/server/power.go:124-161 | Starts are serialized from the moment the old process counts as stopped. |
| `Power.DetachKeepsProcInv` | feathers/environment/winproc/environment.go:251-255 | Taking the job out of the environment keeps track of every living process in it. |
| `Power.CloseKills` | feathers/environment/winproc/environment.go:257-261 | Closing the old job leaves alive exactly the processes that were forked before their root was assigned to a job. |
| `Power.SpawnKeepsProcInv` | feathers/environment/winproc/power.go:159-163 | The new root is the newest tree, and every process alive beside it was forked early. |
| `Power.AssignKeepsProcInv` | feathers/environment/winproc/power.go:169-182 | The assignment puts the new root into the current job and changes no other process. |
| `Power.ForkKeepsProcInv` | feathers/environment/winproc/power.go:134-182 | A fork inherits its parent's job, or none before the assignment. |
| `Power.DeathsKeepProcInv` | feathers/environment/winproc/power.go:337-360 | Processes that die, one by one or as a job, only shrink the set of living processes. |
| `Power.StepKeepsProcInv` | feathers/environment/winproc/power.go:63-245 | Every step keeps each living process in the current job, in the job being closed, as the root being started, or known as forked early. |
| `Power.InitialIsSafe` | feathers/environment/winproc/environment.go:109-120 | The theorems apply from a fresh environment on. |
| `Power.RunsStaySafe` | feathers/environment/winproc/power.go:63-245 | All of this holds over every run, with any number of callers, kills that skip the lock, and processes that fork and die on their own. |
| `Power.NewTreeIsAloneExactly` | feathers/environment/winproc/power.go:83-163 | A newly spawned tree is the only one alive if and only if no process forked before its root's assignment survives. |
| `Power.SecondTreeIsEarly` | feathers/environment/winproc/power.go:63-245 | At any moment of any run, of two living processes of different trees the one of the older tree was forked before its root's assignment. |
| `Power.RunsKeepOneTree` | feathers/environment/winproc/power.go:63-245 | In every run in which processes fork only once they are in a job, at most one process tree is alive. |
| `Power.TwoTreesAlive` | feathers/environment/winproc/power.go:134-182 | A run with an early fork that ends with two trees alive. |
| `Power.StepKeepsRecord` | feathers/environment/winproc/power.go:186-192 | Every step but `wait`'s keeps `IsRunning` telling whether a published root is alive. |
| `Power.ReapKeepsRecordExactly` | feathers/environment/winproc/power.go:223-232 | `wait` keeps it so exactly when the record is empty, its own process, or a dead one. |
| `Power.GuardedReapKeepsRecord` | feathers/environment/winproc/power.go:223-232 | A `wait` that cleared only its own record would always keep it so. |
| `Power.RecordIsRightExactly` | feathers/environment/winproc/power.go:210-270 | Over a whole run `IsRunning` always tells the truth if and only if every `wait` is timely in that sense. |
| `Power.LateWaitHidesLiveProcess` | feathers/environment/winproc/power.go:223-232 | A run from a fresh environment, through a restart, after which a late `wait` makes `IsRunning` deny the living process. |
| `PowerStops.TerminateKillsExactly` | feathers/environment/winproc/power.go:353-359 | After a termination a process is alive exactly if it was alive before and is not in the job that the caller had read. |
| `PowerStops.TerminateLeavesTheJobless` | feathers/environment/winproc/power.go:337-360 | In every run, where that job is still the current one, only processes forked early and the root being started survive. |
| `PowerStops.KillGetsThrough` | feathers/server/power.go:108-121 | A kill is never refused: with the lock if it is free, without it if not, it goes on at once. |
| `PowerStops.KillTakesEffect` | feathers/environment/winproc/power.go:337-360 | A kill of a running server leaves every process in its job dead and all others as they were. |
| `PowerStops.RunningIsLeftAlone` | feathers/environment/winproc/power.go:74-78 | A start that finds the recorded process running can only leave, and touches no process and no job. |
| `PowerStops.StepKeepsRoles` | feathers/server/power.go:123-164 | Only starts and restarts boot, only stops and restarts wait, and a caller with the lock terminates the current job. |
| `PowerStops.OnlyStartersSpawn` | feathers/server/power.go:123-164 | In every run processes are spawned by starts and restarts only. |
| `PowerStops.WaysPastWaiting` | feathers/environment/winproc/power.go:302-332 | A stop or restart gets past its waiting by an error, or by considering the process stopped; a stop then ends and a restart boots. |
| `PowerStops.StopMeansStopped` | feathers/environment/winproc/power.go:302-360 | In every run, whenever a stop or restart considers the process stopped, no recorded process is running. |
| `Crash.Server.HandleServerCrash` | feathers/server/crash.go:47-91 | A restart is recorded and stamped exactly when the server is offline, detection is enabled, the exit was not clean (unless those count), and the timeout is zero, there was no crash, or the last one is at least the timeout ago; otherwise nothing but the call count changes. |
| `Crash.Server.OnStateChange` | feathers/server/server.go:322-364 | Afterwards the tracked state is the current one; the handler ran, once, exactly on the way from online to offline, and restarted exactly when that was due. |
| `Crash.Server.SetState` | feathers/environment/winproc/environment.go:291-303 | Setting the current state again is not noticed; any other state becomes the current and the tracked one, with the handler run exactly on the way from online to offline. |
| `Crash.Server.PassThroughStopping` | feathers/environment/winproc/power.go:65-72 | Going offline by way of stopping never reaches the handler from a settled state. |
| `Crash.Server.Perform` | feathers/environment/winproc/power.go:63-360 | An operation's state changes, with the exit code recorded before the change to offline, have the effect on the server that the run lemmas are about. |
| `Crash.Drive` | feathers/server/server.go:322-364 | A server taken through any operations is in the state the events say, has run its handler exactly once per undisturbed exit or echo, and was restarted exactly when detection is enabled, the latest exit code is nonzero (or clean exits count) and the timeout is zero or the previous restart that long ago; with a nonzero timeout and a monotone clock its restarts are at least the timeout apart. |
| `Crash.EventEffect` | feathers/environment/winproc/power.go:63-360 | From a settled state one operation leaves the server online exactly when it is a start (or the completion line of one), and reaches the handler exactly when the process exits, or echoes the stop command, while online. |
| `Crash.HandlerReachedExactly` | feathers/server/server.go:322-364 | Over every run the handler is called exactly once per exit (or stop-command echo) that no stop, termination, destruction, failed start or exit precedes since the last start. |
| `Crash.StoppedRunsAreQuiet` | feathers/environment/winproc/power.go:276-360 | After a deliberate stop, termination, destruction or failed start, nothing reaches the handler until the next start. |
| `Crash.LateExitAfterRestart` | feathers/environment/winproc/power.go:223-244 | Where the old process is reaped only after a restart has announced itself, the deliberate stop does reach the handler. |
| `Crash.OneRestartAtMost` | feathers/server/server.go:350-363 | One operation restarts at most once, and only when the last restart is long enough ago. |
| `Crash.RestartKeepsSpacing` | feathers/server/crash.go:76-88 | The timeout test and the stamp keep restarts apart. |
| `Crash.EventRestarts` | feathers/server/crash.go:47-91 | One event restarts the server exactly when that is due. |
| `Crash.RecordIsHistory` | feathers/server/server.go:322-364 | Over every run the state, the latest exit code, the automatic restarts and the time of the last are what the sequence of events says. |
| `Crash.RestartsAreSpaced` | feathers/server/crash.go:76-90 | With a nonzero timeout and a clock that never goes back, any two automatic restarts are at least the timeout apart over every run. |
| `SftpMerge.Admitted` | feathers/internal/cron/sftp_cron.go:184-186 | Never more groups than the cap. |
| `SftpMerge.EventMap.ForActivity` | feathers/internal/cron/sftp_cron.go:170-195 | Finds the group or opens one while there is room. |
| `SftpMerge.EventMap.Push` | feathers/internal/cron/sftp_cron.go:130-158 | After a push the map holds, for one record more, exactly the admitted groups with first record, earliest time and concatenated files, and the ids of exactly their records. |
| `SftpMerge.AdmittedStep` | feathers/internal/cron/sftp_cron.go:179-186 | A key that arrives at a full map never gets in; one that got in stays. |
| `SftpMerge.PushPage` | feathers/internal/cron/sftp_cron.go:64-67 | When a page adds no id, every row of it belongs to a group that was left out. |
| `SftpMerge.Collect` | feathers/internal/cron/sftp_cron.go:47-79 | The paging loop represents a prefix of the rows and stops only at their end, after a page of rows that were all left out, or at a failing fetch. |
| `SftpMerge.DeleteChunks` | feathers/internal/cron/sftp_cron.go:91-105 | Chunks of 32000, only the last one shorter, that put together are the ids in order (a prefix of them on failure); exactly those rows are gone. |
| `SftpMerge.Run` | feathers/internal/cron/sftp_cron.go:41-108 | What is sent is the partition of the fetched rows into groups that belong together; rows are deleted only after a successful send, and after success exactly the grouped ones; a failing fetch or send leaves the database alone. |
| `SftpMerge.MergedExactly` | feathers/internal/cron/sftp_cron.go:135-138 | An id is merged exactly when a fetched record with it has an admitted key. |
| `SftpMerge.MergedOnce` | feathers/internal/cron/sftp_cron.go:91-105 | Every merged id is listed for deletion once. |
| `SftpMerge.RowSurvives` | feathers/internal/cron/sftp_cron.go:41-108 | A row survives a successful run exactly when it was not fetched or its group was left out. |
| `SftpMerge.SameKeyIsTogether` | feathers/internal/cron/sftp_cron.go:171-178 | Two records have the same key exactly when user, server, address and event are equal and their times lie in the same minute. |
| `SftpMerge.GroupsAreExact` | feathers/internal/cron/sftp_cron.go:130-195 | The final map in terms of the records alone: every group is made of all records that belong together, no two groups do, the ids are those of the grouped records in fetch order, and a record is left out only when the cap is reached. |
| `SftpMerge.SameGroupExactly` | feathers/internal/cron/sftp_cron.go:170-195 | Two grouped records are in the same group exactly when they belong together. |
| `SftpMerge.FilesAreComplete` | feathers/internal/cron/sftp_cron.go:144-157 | A group lists every file as often as its records do together. |
| `SftpMerge.Page` | feathers/internal/cron/sftp_cron.go:115-126 | A page is at most the limit long, and shorter only at the end. |
| `SftpMerge.EarliestIsMinimum` | feathers/internal/cron/sftp_cron.go:139-143 | A group's time is the minimum over its records. |
| `SftpMerge.MembersCount` | feathers/internal/cron/sftp_cron.go:170-181 | The groups partition the records: each record is in its own group as often as it was fetched, and in no other. |
| `SftpMerge.SameRowsSameKeys` | feathers/internal/cron/sftp_cron.go:170-195 | The same rows in another order have the same keys, as many, with the same members. |
| `SftpMerge.OrderFree` | feathers/internal/cron/sftp_cron.go:130-195 | When all keys fit, groups, members and times do not depend on the fetch order. |
| `SftpMerge.LeftOutGroupGetsIn` | feathers/internal/cron/sftp_cron.go:184-186 | Beyond the cap there is always another order that admits a group left out. |
| `SftpMerge.OrderFreeExactly` | feathers/internal/cron/sftp_cron.go:130-195 | Which groups are merged is independent of the fetch order if and only if all keys fit under the cap or nothing is admitted at all. |
| `Walk.Registry.Add` | feathers/internal/ufs/fs_windows.go:89-103 | A fresh non-zero token: no live token is handed out twice. |
| `Walk.Registry.Release` | feathers/internal/ufs/fs_windows.go:112-116 | Forgets exactly that token. |
| `Walk.WalkDir` | feathers/internal/ufs/fs_windows.go:676-726 | On every way out the registry holds exactly the tokens it held before, and the callbacks are those of the recursive walk. |
| `Walk.WalkOpened` | feathers/internal/ufs/fs_windows.go:690-725 | The loop over a directory's entries: SkipDir from a file ends it, a failed Lstat is reported and skipped. |
| `Walk.WalkDirat` | feathers/internal/ufs/fs_windows.go:663-674 | The whole walk makes exactly the callbacks of one pass over the flattened tree, for every stateful callback; SkipDir and SkipAll end in success; no token leaks. |
| `Walk.WalkNodeIsScan` | feathers/internal/ufs/walk_unix.go:37-90 | The recursive walk of a node equals reading its pre-order list, SkipDir on a directory dropping its contents. |
| `Walk.WalkBelowIsScan` | feathers/internal/ufs/walk_unix.go:46-89 | The same for the contents of a directory, with failing open and read. |
| `Walk.WalkEntriesIsScan` | feathers/internal/ufs/walk_unix.go:66-89 | The same for a list of entries, SkipDir on a file dropping its remaining siblings. |
| `Walk.FlattenResolves` | feathers/internal/ufs/fs_windows.go:199-214 | Every entry of the pre-order list carries a directory and name that resolve to its own path; the report of a read error to the directory's name below the directory. |
| `Walk.CallbacksResolve` | feathers/internal/ufs/fs_windows.go:663-726 | Every callback that is not the report of a read error gets a live token that with its name resolves to the visited entry; that report resolves to the directory itself only for a root called `.`. |
| `WalkSkips.NodeTraceHolds` | feathers/internal/ufs/walk_unix.go:37-64 | Walking a node visits it first and then only what lies below it, and no visit follows one whose answer excludes it. |
| `WalkSkips.EntriesTraceHolds` | feathers/internal/ufs/walk_unix.go:66-89 | The same for the entries of a directory. |
| `WalkSkips.NodeCovers` | feathers/internal/ufs/walk_unix.go:37-90 | Everything in a node is visited or excluded by an answer, unless the walk ended altogether. |
| `WalkSkips.WalkSkipsExactly` | feathers/internal/ufs/fs_windows.go:663-726 | For every callback: SkipDir on a directory excludes all of it, on a file the rest of its directory, SkipAll and errors everything; nothing excluded is visited, and everything else is, unless a directory that cannot be opened ends the walk. |
| `PathStrings.SlashedPrefix` | feathers/internal/ufs/fs_unix.go:894-899 | With a slash after every component the string prefix test is the component-wise one. |
| `PathStrings.SlashedPrefixSpells` | feathers/server/filesystem/archive.go:247-249 | Any string that passes the prefix test spells the first components of the path, some number of them. |
| `Paths.InsideIsPrefix` | feathers/internal/ufs/fs_unix.go:894-899 | The test is the component-wise prefix on clean paths, except that the base `/` contains nothing. |
| `Paths.CleanTwice` | feathers/internal/ufs/fs_unix.go:864-864 | Cleaning twice is cleaning once. |
| `Paths.JoinFollows` | feathers/internal/ufs/fs_unix.go:864-864 | Joining and cleaning means following the pieces of the path from the base. |
| `Paths.UnsafePathMeaning` | feathers/internal/ufs/fs_unix.go:856-886 | For every clean base but `/` and every input, the call succeeds exactly when following the input from the base ends inside it, and returns the components below. |
| `Paths.AcceptedPathsAreSafe` | feathers/internal/ufs/fs_unix.go:856-886 | An accepted path is relative, clean and without parent components; joined to the base it is the cleaned joined path, and resolving it again changes nothing. |
| `Paths.ResolveRelative` | feathers/internal/ufs/fs_unix.go:856-886 | A relative clean path resolves to itself. |
| `Paths.ResolveAbsolute` | feathers/internal/ufs/fs_unix.go:864-872 | An absolute path below the base resolves to its part below the base. |
| `Paths.RootBaseRejectsAll` | feathers/internal/ufs/fs_unix.go:894-899 | With base `/` every path is rejected. |
| `Paths.FollowClimbs` | feathers/internal/ufs/fs_unix.go:864-864 | Following a path means climbing by the largest excess of `..` over plain pieces at any point, then descending the plain pieces that no later `..` takes back. |
| `Paths.ClimbIsLargest` | feathers/internal/ufs/fs_unix.go:864-864 | No prefix of the pieces has a larger excess than the climb. |
| `Paths.JailExactly` | feathers/internal/ufs/fs_unix.go:856-886 | Acceptance and result from the input alone: the path is accepted exactly if the pieces that stand lead back through the components it climbed out of. |
| `Paths.EscapeIsRejected` | feathers/internal/ufs/fs_unix.go:856-886 | A path with more `..` than plain pieces at some point that does not enter the base again is rejected. |
| `DirectoryContents.ScanEverything` | feathers/internal/ufs/walk_unix.go:37-90 | A callback that stops on errors sees the whole of a tree without errors, and fails on every other. |
| `DirectoryContents.NextInode` | feathers/server/filesystem/disk_space_unix.go:42-53 | With correct link counts the list of hard links tells exactly which inodes were seen. |
| `DirectoryContents.AddUp` | feathers/server/filesystem/disk_space_unix.go:24-55 | The accumulated size is the sum over distinct inodes, for any hard-link layout with correct link counts. |
| `DirectoryContents.CollectRegular` | feathers/server/filesystem/disk_space_unix.go:32-40 | Only regular files are looked at, in the order of the walk. |
| `DirectoryContents.DirectorySize` | feathers/server/filesystem/disk_space_unix.go:17-57 | The size of a tree is the sum over the distinct inodes of its regular files; it fails exactly on trees with errors. |
| `DirectoryContents.MatchesIsPrefix` | feathers/server/filesystem/archive.go:247-249 | On clean paths the string test is the component-wise prefix test. |
| `DirectoryContents.MatchesExactly` | feathers/server/filesystem/archive.go:247-249 | For any item whatsoever the test means that the item, up to one slash at its end, spells the path or a directory above it. |
| `DirectoryContents.WantedIsPrefix` | feathers/server/filesystem/archive.go:242-258 | For clean listed paths: one of them is a component-wise prefix. |
| `DirectoryContents.IsSelected` | feathers/server/filesystem/archive.go:240-260 | Without a list everything is wanted, with one what an item of it spells, or a directory above it. |
| `DirectoryContents.Select` | feathers/server/filesystem/archive.go:197-260 | The callback archives exactly the wanted non-directories, in order, for any list of strings. |
| `DirectoryContents.SelectionExactly` | feathers/server/filesystem/archive.go:206-258 | A path is selected exactly when it is visited as a non-directory and wanted. |
| `DirectoryContents.NodePathsDistinct` | feathers/internal/ufs/walk_unix.go:37-90 | No path is visited twice. |
| `DirectoryContents.VisitsAreTheTree` | feathers/internal/ufs/walk_unix.go:37-90 | A walk visits exactly the paths that looking up finds in the tree, each with the node that is there. |
| `DirectoryContents.CountedExactly` | feathers/server/filesystem/disk_space_unix.go:32-53 | The regular files whose sizes are added up are exactly those found at some path of the tree. |
| `DirectoryContents.ArchivedExactlyOnce` | feathers/server/filesystem/archive.go:182-260 | A path is archived, and then once, exactly when looking it up in the tree finds a file and it is wanted. |
| `DirectoryContents.Archive` | feathers/server/filesystem/archive.go:156-193 | The archive walk succeeds exactly on trees without errors, archives their selection and leaks no token. |
| `SinkPool.Pool.On` | feathers/system/sink_pool.go:32-36 | Appends the channel. |
| `SinkPool.Pool.Off` | feathers/system/sink_pool.go:40-65 | Removes the first occurrence, keeps the others in order, closes the channel if it was there and is not nil. |
| `SinkPool.Pool.Destroy` | feathers/system/sink_pool.go:69-78 | Closes every channel that is not nil, in order, and empties the pool. |
| `SinkPool.StepIsSafe` | feathers/system/sink_pool.go:32-127 | Pooled channels are open and listed once, and running pushes work only on pooled channels, in every step. |
| `SinkPool.RunsNeverPanic` | feathers/system/sink_pool.go:32-127 | Under any interleaving of On, Off, Destroy and Push nothing is sent on a closed channel and none is closed twice. |
| `SinkPool.ClosedExactlyWhenOut` | feathers/system/sink_pool.go:40-78 | In every run a channel that was ever pooled is closed exactly when it is not in the pool. |
| `SinkPool.LeavesExactly` | feathers/system/sink_pool.go:40-78 | Off takes out that channel alone, Destroy all of them. |
| `SinkPool.DropOrdered` | feathers/system/sink_pool.go:107-116 | Dropping the oldest message makes room and keeps push order. |
| `SinkPool.WorkerStepKeepsOrder` | feathers/system/sink_pool.go:103-124 | Every outcome of the select keeps push order; after a drop the second send always finds room. |
| `SinkPool.StepIsOrdered` | feathers/system/sink_pool.go:32-127 | Every step keeps push order while one push runs at a time. |
| `SinkPool.DeliveryKeepsPushOrder` | feathers/system/sink_pool.go:96-127 | With one pusher at a time, delivered followed by buffered messages are always a subsequence of the pushed ones, in push order. |
| `SinkPool.PushReachesAll` | feathers/system/sink_pool.go:96-127 | When a push ends, every channel of the pool has the message as its newest one, except those whose worker gave up. |
| `SinkPool.GivesUpExactly` | feathers/system/sink_pool.go:107-123 | A worker gives up exactly when its time is over and it then finds nothing to take out of the channel. |
| `SinkPool.PatientPushReachesAll` | feathers/system/sink_pool.go:96-127 | Where workers run out of time only on full channels, a push that has ended has reached every buffered channel of the pool. |
| `SinkPool.EndPushReleases` | feathers/system/sink_pool.go:97-98 | The end of the only push under way gives the pool back to On, Off and Destroy. |
| `SinkPool.SubsequenceOmit` | feathers/system/sink_pool.go:107-116 | Leaving out a message anywhere keeps a subsequence one. |
| `SinkPool.EmptyPoolIsOrdered` | feathers/system/sink_pool.go:27-30 | The theorems apply from a new pool on. |
| `Throttle.Rate.Try` | feathers/system/rate.go:27-42 | A window older than the duration is over; the call passes exactly when the window in force has seen fewer calls than the limit (or its count wraps), and only then is counted. |
| `Throttle.Rate.Reset` | feathers/system/rate.go:45-50 | Starts a new window. |
| `Throttle.AtMostTwiceTheLimit` | feathers/system/rate.go:27-42 | For every run of calls at non-decreasing times, any closed interval one duration long contains at most twice the limit of successes. |
| `Throttle.Serve` | feathers/system/rate.go:17-42 | A fresh limiter called at any non-decreasing times never lets more than twice its limit through within one duration. |
| `Throttle.TwiceIsReached` | feathers/system/rate.go:27-42 | The bound is tight for every limit and every duration. |
| `Throttle.WindowIsUsedUp` | feathers/system/rate.go:36-41 | Within one window exactly the first calls get through, as many as are left of the limit. |
| `Throttle.NewWindowOpens` | feathers/system/rate.go:32-35 | The first call after a window has run out gets through. |
| `Throttle.LargestLimitNeverRefuses` | feathers/system/rate.go:36-36 | With the largest uint64 limit the sum wraps and no call is refused. |
| `Throttle.Locker.Acquire` | feathers/system/locker.go:34-43 | Succeeds exactly when not locked; locked afterwards. |
| `Throttle.Locker.Release` | feathers/system/locker.go:64-71 | Not locked afterwards, whatever it was. |
| `Throttle.ConsoleThrottle.Allow` | feathers/server/console.go:66-77 | The strike callback has run exactly once per maximal run of refused calls. |
| `Throttle.ConsoleThrottle.Reset` | feathers/server/console.go:80-82 | Resetting forgets neither strikes nor an ongoing run of refusals. |
| `Tokenizer.Tokenize` | feathers/environment/winproc/invocation.go:47-80 | The loop computes `Tokens`, the meaning the following lemmas are about. |
| `Tokenizer.TokensOfQuoted` | feathers/environment/winproc/invocation.go:47-80 | However arguments are cut into quoted segments and spaced, tokenizing gives back their texts. |
| `Tokenizer.Quote` | feathers/environment/winproc/invocation.go:56-64 | Every string, whatever quotes and blanks are in it, can be written in quoted segments. |
| `Tokenizer.TokenizeUndoesQuoting` | feathers/environment/winproc/invocation.go:47-80 | For every list of strings, empty ones included, there is a quoted command line that tokenizes back to it. |
| `Tokenizer.TokensOfLine` | feathers/environment/winproc/invocation.go:47-80 | A line of blanks, arguments made of quoted and bare segments, and an end that may leave a quote open tokenizes to its arguments. |
| `Tokenizer.EveryStringIsLine` | feathers/environment/winproc/invocation.go:47-80 | Every string is such a line, so what every string tokenizes to is said. |
| `Invocation.TokensAreWords` | feathers/environment/winproc/invocation.go:65-74 | Without quotes, tokenizing is splitting at white space. |
| `Invocation.PlaceholderPrefix` | feathers/environment/winproc/invocation.go:14-14 | A prefix of a text shows the same placeholder exactly when it contains all of it. |
| `Invocation.WrittenIsFound` | feathers/environment/winproc/invocation.go:14-14 | A placeholder written at the start of a text is found, at its full length and with its own name. |
| `Invocation.FoundIsWritten` | feathers/environment/winproc/invocation.go:14-14 | What is found is a name between double braces with white space around it. |
| `Invocation.SubstituteFillsIn` | feathers/environment/winproc/invocation.go:31-39 | However a text is cut into plain stretches in which no placeholder begins and placeholders, substitution leaves the stretches and replaces each placeholder by its variable's value, or by nothing if it is unset. |
| `Invocation.EveryTextIsCut` | feathers/environment/winproc/invocation.go:31-39 | Every text can be cut so. |
| `Invocation.SubstituteSplits` | feathers/environment/winproc/invocation.go:31-39 | With placeholders written without blanks, substitution works word by word. |
| `Invocation.WordsOfSubstituted` | feathers/environment/winproc/invocation.go:31-39 | The words of a substituted text are the words of its substituted words, one after the other. |
| `Invocation.WordsAreSolid` | feathers/environment/winproc/invocation.go:65-74 | The tokenizer never produces an empty or blank-containing argument from unquoted text. |
| `Invocation.SubstitutionRespectsArguments` | feathers/environment/winproc/invocation.go:31-80 | With a quote-free template, placeholders written without blanks and values without quotes, substituting before tokenizing equals tokenizing and substituting in each argument if and only if every word is still one afterwards: not empty and without blanks. |
| `Invocation.EnvMap` | feathers/environment/winproc/invocation.go:18-26 | Each variable has the value of its last assignment, split at the first equals sign. |
| `Invocation.BuildCommand` | feathers/environment/winproc/invocation.go:89-102 | STARTUP as assigned last, cut in any valid way, with each placeholder filled in from the variables as assigned last, tokenized; fails on a blank STARTUP or when nothing is left of it. |
| `Invocation.TameCommand` | feathers/environment/winproc/invocation.go:89-102 | For such a STARTUP that is not blank, each of its words becomes one argument if and only if every word is still one after substitution. |
| `ScanReader.FragmentsMakeLine` | feathers/system/utils.go:65-67 | The fragments of a line put together are the line: no byte is lost and no CRLF split. |
| `ScanReader.RewriteIsRewritten` | feathers/system/utils.go:69-73 | The rewrite changes nothing but a space and carriage return into a line break, of the same length. |
| `ScanReader.RewriteExactly` | feathers/system/utils.go:73-73 | Every space followed by a carriage return reads carriage return and line feed afterwards, and every other byte as before. |
| `ScanReader.ReadAdvances` | feathers/system/utils.go:65-101 | One read advances the stream by one fragment of its line. |
| `ScanReader.ScanEvent` | feathers/system/utils.go:59-101 | The inner loop consumes input until an event is complete or the stream ends, and loses nothing the specification does not. |
| `ScanReader.Scan` | feathers/system/utils.go:46-121 | The outer loop terminates and its events are those of the stream. |
| `ScanReader.EventsAreBounded` | feathers/system/utils.go:76-112 | Every event is non-empty and at most 65536 bytes long. |
| `ScanReader.ShortLineIsWhole` | feathers/system/utils.go:59-112 | A line of at most 65536 bytes is one event, byte for byte up to the rewrite (exactly rewritten if it fits the reader's buffer), before all that follows; an empty line none. |
| `ScanReader.ShortLinesInOrder` | feathers/system/utils.go:59-119 | A stream of such lines gives one event per non-empty line, in order. |
| `ScanReader.LinesOfWritten` | feathers/system/utils.go:65-67 | The lines read are the lines written, with either line ending, up to empty ones. |
| `ScanReader.EmitInterleaves` | feathers/system/utils.go:76-90 | The fragments of a line are its events with such gaps. |
| `ScanReader.LongLineLoss` | feathers/system/utils.go:76-90 | A line of any length: its events, with the dropped stretches put back, are the line byte for byte up to the rewrite; a stretch of at most 256 bytes is dropped after an event of 65536 bytes, and nothing elsewhere. |

## Left out

- Docker, the Panel client, S3, websockets, HTTP routing, configuration parsers and Win32 calls: library and OS plumbing. Of Job Objects only "a child is born into its parent's job" and "closing or terminating a job kills its members" are kept.
- Symlink resolution, `openat2` and file descriptors on Unix: kernel behaviour; paths are handled lexically.
- `Filesystem.Write`, `Copy` and decompression check space and then add without a lock, so the limit theorem does not hold for them and they are not in the step machine.
- The timing of background rescans: a rescan is modelled only while everything is closed.
- A `Truncate` that makes an open file longer, which the code does not reserve for, and two handles on one file at a time.
- Names that are used again, by a rename or a new file, while a deletion of the old file is under way.
- Directories that cannot be opened or read during a deletion, entries created by others meanwhile, and a path that leads through a file.
- The Windows `removeAll` and the case-insensitive Windows form of the path test; an archive base directory, ignore lines, trimming of absolute paths in the list, and what `addToArchive` does with sockets, symlinks and read errors.
- Wrap-around of the token counter and of the directory size sum, which are unbounded integers here.
- `Locker.Destroy`, `Environment.Destroy` as a step of the power protocol, and failures to open the new process or assign it to its job.
- Concurrent crash handlers: each state change is handled before the next one, where the daemon runs a goroutine per event.
- The flag that keeps two merge runs apart, the filter of the query (the rows are those of SFTP events), and rows added to the database during a run; minutes are whole minutes of one time zone.
- SftpMerge.Collect: pages are slices of one fixed sequence, while the query orders by a column that is not unique, so a database may order rows of one event differently from page to page.
- SftpMerge.Run: rests on the same fixed sequence.
- Nil channels and channels registered twice in the sink-pool step machine (`SinkPool.Pool` has nil channels).
- Errors other than EOF while reading the console.
- Resource limits, environment merging, allocations, the console ring, token stores and the downloader index: they would only add easy members.
- RemoveAll.Disk.RemoveAllFrom: for directories of 1024 entries or more the debit for refused files is bounded from below only, since it depends on the order in which entries are read.
- Throttle.AtMostTwiceTheLimit: leaves out the largest uint64 limit, for which it is false (Throttle.LargestLimitNeverRefuses).
- Invocation.SubstitutionRespectsArguments: is about templates without quotes and placeholders written without blanks; a quote in either changes how the text around it is cut.
