# Process statistics and the io-channel self-test, in Dafny

This project models two parts of a microkernel operating system and proves
properties of both.

**The kernel's process-statistics registry** (`src/bin/kernel/src/stats.rs`).
Every process has a `KProcessStats` record with:

- thread and child counters;
- an `active` flag;
- a user page counter and a kernel page counter (`MemStats`);
- per-CPU time entries;
- a `children` map of weak references.

The records form a tree through their parent links and `children` maps. The
system record (`PID_SYSTEM`) has no parent. Its one `children` map holds the
kernel record, its direct child, and also every user process, whatever that
process's parent. A charge to any other record's page counter is mirrored into
the system record's user or kernel total.

Here the records form one table `map<Pid, Record>` held by the class
`KernelStats.Registry`. Its methods update the table in place, and each is
proved against a function of `ProcessTable`. The invariant has two parts.
`ProcessTable.WellFormed` says that:

- every parent link is matched by an entry in the parent's map;
- every map entry names an existing record;
- every user process is in the system map.

`ProcessTable.CountersApart` says that the system record's two page counters
are distinct objects, and that no other record shares either of them.

`ProcessTable.Balanced` is the thread-count invariant: the system active-thread
count is the sum of all other records' counts, modulo 2^64.

**The payload protocol of the io-channel self-test**
(`src/bin/systest/src/channel_test.rs`):

- the client packs the iteration and a block count into each entry id;
- it fills the entry's buffer with the block count;
- the server checks every byte and rewrites it to the block count's complement;
- the client checks the rewritten bytes;
- finally the client compares the sum of the ids it sent with the sum of the
  ids it received.

The channel is an abstract carrier. Its answers to `complete_sqe` are an input
sequence of `Reply` values.

Files:

- `machine.dfy`: `u64` / `u16` / `u8` words, wrap-around `fetch_add` / `fetch_sub`.
- `mem_stats.dfy`: the `MemStats` class.
- `process_table.dfy`: records, the table transitions and their lemmas.
- `kernel_stats.dfy`: the `Registry` class and its methods.
- `channel_test.dfy`: the self-test's buffers, retry loop and sums.

Two points of the code that are easy to misread:

- The server takes the block count from the entry id (`id & 0xFFFF`), not
  from the buffer. An entry with id 7 must therefore carry 7 blocks, of
  7 × 512 bytes.
- In `into_v1`, a parent pid of 0 does not mean "no parent". The kernel
  record's parent is the system record, whose pid is 0.
  `KernelStats.Registry.IntoV1` states the exact condition.

## Model

| member | source | states |
|---|---|---|
| Machine.WrapAdd | src/bin/kernel/src/stats.rs:70-72 | `fetch_add` on a `u64`: the sum below 2^64, otherwise the sum less 2^64 |
| Machine.WrapSub | src/bin/kernel/src/stats.rs:87-89 | `fetch_sub` on a `u64`: the difference when no borrow, otherwise the difference plus 2^64 |
| Machine.SubUndoesAdd | src/bin/kernel/src/stats.rs:57-89 | subtracting what was added restores a counter, wrap-around included |
| Machine.AddUndoesSub | src/bin/kernel/src/stats.rs:57-89 | adding what was subtracted restores a counter, wrap-around included |
| MemStatsModel.MemStats.New | src/bin/kernel/src/stats.rs:38-51 | a new counter is of the requested kind and uses no pages and no bytes |
| MemStatsModel.MemStats.Total | src/bin/kernel/src/stats.rs:53-55 | bytes in use are pages × 4096 modulo 2^64, always a multiple of the page size |
| MemStatsModel.MemStats.Add | src/bin/kernel/src/stats.rs:57-72 | the counter grows by `n`; so does the user total for a user counter, or the kernel total for a kernel counter once the system record exists; the other total is unchanged |
| MemStatsModel.MemStats.Sub | src/bin/kernel/src/stats.rs:74-89 | the same on the same counters, shrinking by `n` |
| MemStatsModel.AddThenSub | src/bin/kernel/src/stats.rs:57-89 | `add(n)` then `sub(n)` leaves the counter and both system totals as they were |
| ProcessTable.LinkedCountersApart | src/bin/kernel/src/stats.rs:193-242 | creating a record whose page counters are not the system record's keeps the system counters private to the system record |
| ProcessTable.CreateFaultCases | src/bin/kernel/src/stats.rs:217-239 | on a well-formed table `new_impl` faults exactly for a parentless record other than the system record, and for a user process created directly under the system record; the insert into the parent's map never finds the pid |
| ProcessTable.LinkedEntries | src/bin/kernel/src/stats.rs:217-241 | creation adds exactly the new record; the parent, and for a user pid the system record, gain the pid in their map and one total and one active child; every other record is unchanged |
| ProcessTable.LinkedWellFormed | src/bin/kernel/src/stats.rs:193-242 | a successful creation keeps the table well formed, puts the pid in its parent's map, and puts it in the system map exactly when it is a user process or a direct child of the system record |
| ProcessTable.ThreadAddedThenExited | src/bin/kernel/src/stats.rs:280-290 | a thread added and exited leaves every active count as it was; the record's and the system's total counts keep the addition; nothing else changes |
| ProcessTable.ThreadAddedBalanced | src/bin/kernel/src/stats.rs:280-285 | `on_thread_added` on a non-system record keeps the system active count equal to the sum of the others |
| ProcessTable.ThreadExitedBalanced | src/bin/kernel/src/stats.rs:287-290 | the same for `on_thread_exited` |
| ProcessTable.LinkedBalanced | src/bin/kernel/src/stats.rs:193-242 | creating a record, which has no threads, keeps the thread balance |
| ProcessTable.BootTableBalanced | src/bin/kernel/src/stats.rs:408-440 | the table `init` builds (system record with the kernel as its one child, equal thread counts) is well formed and balanced |
| ProcessTable.LinkedThenDropped | src/bin/kernel/src/stats.rs:244-257 | creating a user process and dropping it leaves the parent's and the system's active-child counts as they were, each total-child count one higher, and the record inactive |
| ProcessTable.DroppedBalanced | src/bin/kernel/src/stats.rs:244-257 | dropping a process keeps the thread balance |
| ProcessTable.ReleasedWellFormed | src/bin/kernel/src/stats.rs:146-149 | releasing the last strong reference to a record that no child record points to keeps the table well formed |
| ProcessTable.ReleasedBalanced | src/bin/kernel/src/stats.rs:146-149 | releasing a record keeps the thread balance |
| ProcessTable.DestroyFaultCases | src/bin/kernel/src/stats.rs:159-172 | on a well-formed table `Drop` succeeds exactly for user processes (`pid > PID_KERNEL`); its removal from the parent's map always finds the pid |
| ProcessTable.UnlinkedEntries | src/bin/kernel/src/stats.rs:159-172 | destruction removes exactly the record, and the pid from its parent's map and from the system map; every other record is unchanged |
| ProcessTable.UnlinkedWellFormed | src/bin/kernel/src/stats.rs:159-172 | destroying a released user process keeps the table well formed and leaves its pid in no map |
| ProcessTable.UnlinkedBalanced | src/bin/kernel/src/stats.rs:159-172 | destroying a record whose threads have exited keeps the thread balance |
| ProcessTable.LinkedThenUnlinked | src/bin/kernel/src/stats.rs:159-242 | creating, releasing and destroying a user process restores the pid set and every map; every other record is unchanged, and the parent and the system record differ only by the child counters creation raised |
| ProcessTable.AscendingSpec | src/bin/kernel/src/stats.rs:341-348 | a `BTreeMap` is walked in strictly increasing pid order, listing exactly its keys |
| ProcessTable.LiveOnlySpec | src/bin/kernel/src/stats.rs:343-347 | the records whose weak reference upgrades are exactly the live ones among the keys, in the same order |
| ProcessTable.VisitSpec | src/bin/kernel/src/stats.rs:331-370 | the callback sees a prefix of the candidates: the first one, every one while it answers `true`, and none after its first `false` |
| ProcessTable.WalkIsVisit | src/bin/kernel/src/stats.rs:342-348 | the loop that skips dead records and stops at `false` visits what filtering and then visiting would |
| ProcessTable.IterCandidates | src/bin/kernel/src/stats.rs:331-370 | flat mode: the system record first exactly when `start` is `PID_SYSTEM`, then exactly the live entries of the system map from `PID_KERNEL` up, in increasing order; tree mode: exactly the live children of `start`, and nothing if `start` is not in the system map or not alive |
| ProcessTable.CpuTotalFresh | src/bin/kernel/src/stats.rs:102-127 | a fresh per-CPU table has used no CPU time |
| ProcessTable.TruncatedName | src/bin/kernel/src/stats.rs:310-314 | the copied name is the first `min(len, 32)` bytes of the debug name |
| ProcessTable.CopyPrefix | src/bin/kernel/src/stats.rs:315-321 | the copy writes the name over the front of the destination and leaves the rest as it was |
| KernelStats.NewPerCpuStats | src/bin/kernel/src/stats.rs:117-127 | one zeroed entry per CPU, with zero CPU time in total |
| KernelStats.KeysInOrder | src/bin/kernel/src/stats.rs:361-367 | the keys of a map in `BTreeMap` order |
| KernelStats.Registry.constructor | src/bin/kernel/src/stats.rs:405-406 | before `init` no record exists |
| KernelStats.Registry.Charge | src/bin/kernel/src/stats.rs:57-72 | `add(n)` on a record's user or kernel counter: that counter and the system total of its kind grow by `n` modulo 2^64, the other system total is unchanged, and the table stays valid |
| KernelStats.Registry.Uncharge | src/bin/kernel/src/stats.rs:74-89 | `sub(n)` on the same counters: both shrink by `n` modulo 2^64, the other system total is unchanged, and the table stays valid |
| KernelStats.Registry.NewImpl | src/bin/kernel/src/stats.rs:193-242 | the outcome is the fault `CreateFault` predicts; on success the table is `Linked(old, r)` and stays valid, and the new record answers a zeroed per-CPU entry for every CPU below `num_cpus` and none beyond; a panic leaves the table as the steps before it left it |
| KernelStats.Registry.New | src/bin/kernel/src/stats.rs:175-191 | creation under a parent succeeds exactly unless a user pid is created directly under the system record |
| KernelStats.Registry.CreateBootRecords | src/bin/kernel/src/stats.rs:409-426 | the two `new_impl` calls of `init` yield the system record with the kernel record as its one child |
| KernelStats.Registry.Init | src/bin/kernel/src/stats.rs:408-450 | after `init` exactly the system and kernel records exist, fresh except for the child link; each has one per-CPU entry for each of `arch::num_cpus()` CPUs and `config::num_cpus()` threads; the table is well formed and balanced; the kernel's early pages are charged to the system kernel total |
| KernelStats.Registry.OnThreadAdded | src/bin/kernel/src/stats.rs:280-285 | the new table is `ThreadAdded(old)`, well formed, balanced if it was |
| KernelStats.Registry.OnThreadExited | src/bin/kernel/src/stats.rs:287-290 | the new table is `ThreadExited(old)`, well formed, balanced if it was |
| KernelStats.Registry.ProcessDropped | src/bin/kernel/src/stats.rs:244-266 | without a parent: the `impossible` panic, nothing changed; otherwise the table is `Dropped(old)`, well formed and balanced if it was, and the kill requests go to exactly the pids of its map in increasing order |
| KernelStats.Registry.ReleaseLastRef | src/bin/kernel/src/stats.rs:146-149 | the record stops upgrading; the table stays well formed and balanced |
| KernelStats.Registry.Destroy | src/bin/kernel/src/stats.rs:159-172 | succeeds exactly for user processes, leaving `Unlinked(old)` well formed; each panic leaves the table as the steps before it left it |
| KernelStats.Registry.CpuUsage | src/bin/kernel/src/stats.rs:372-380 | user plus kernel time over all CPUs, modulo 2^64 |
| KernelStats.Registry.GetPerCpuStatsEntry | src/bin/kernel/src/stats.rs:382-384 | the entry of `cpu` if the index is in range, a panic otherwise; `NewImpl` states what it answers for a new record |
| KernelStats.Registry.StatsFromPid | src/bin/kernel/src/stats.rs:460-466 | a record is found exactly when the system map holds the pid and the record is alive |
| KernelStats.Registry.IntoV1 | src/bin/kernel/src/stats.rs:292-329 | every counter copied; parent pid 0 exactly for no parent or the system parent; system process 1 exactly for a live owner with `CAP_SYS`; active 1 exactly when set; CPU usage as `cpu_usage`; name length `min(len, 32)` with that prefix copied and the rest of the buffer untouched |
| KernelStats.Registry.VisitLive | src/bin/kernel/src/stats.rs:341-348 | the loop hands the live records among the keys to the callback until it answers `false` |
| KernelStats.Registry.Iterate | src/bin/kernel/src/stats.rs:331-370 | the callback sees exactly `Visit(IterCandidates(...))`, the promised order and early stop |
| KernelStats.StatsFromPidMatchesIterate | src/bin/kernel/src/stats.rs:460-466 | looking a pid up succeeds exactly for the records a flat iteration visits after the system record |
| ChannelTest.PackId | src/bin/systest/src/channel_test.rs:54 | the packed id holds the iteration's low 32 bits above bit 32 and the block count below |
| ChannelTest.BlocksOf | src/bin/systest/src/channel_test.rs:108 | `(id & 0xFFFF) as u8` is the low byte of the id |
| ChannelTest.BlocksOfPackId | src/bin/systest/src/channel_test.rs:54 | a packed id decodes to its block count (1 to 10) for every iteration |
| ChannelTest.PackIdInjective | src/bin/systest/src/channel_test.rs:54 | distinct (iteration, block count) pairs with the iteration below 2^32 give distinct ids |
| ChannelTest.Complement | src/bin/systest/src/channel_test.rs:112 | the rewritten byte differs from the block count, and the two add up to `0xFF` |
| ChannelTest.ComplementIsXor | src/bin/systest/src/channel_test.rs:112 | the complement is the bitwise `^ 0xFF` of the byte |
| ChannelTest.Fill | src/bin/systest/src/channel_test.rs:55-58 | every byte of the buffer is `num_blocks as u8` |
| ChannelTest.ServerPassSpec | src/bin/systest/src/channel_test.rs:106-113 | the server's pass succeeds exactly on buffers of `num_blocks * 512` bytes all equal to the block count, keeps the length, and then leaves every byte complemented; a failed byte check names a byte that differs |
| ChannelTest.ServeBuffer | src/bin/systest/src/channel_test.rs:106-113 | the in-place loop yields the result and the buffer of `ServerPass`, including the partly rewritten buffer of a failed check |
| ChannelTest.VerifyCompletion | src/bin/systest/src/channel_test.rs:21-25 | the client's check passes exactly when every byte is the complement of the block count |
| ChannelTest.ClientAcceptsServerImages | src/bin/systest/src/channel_test.rs:22-25 | on a buffer of the right length the client's check passes exactly when the buffer is what the server makes of a buffer it accepts |
| ChannelTest.RoundTrip | src/bin/systest/src/channel_test.rs:53-60 | fill, server pass and client check of one entry always succeed |
| ChannelTest.HandleAsWrittenPanicsOnRetry | src/bin/systest/src/channel_test.rs:105-131 | a full completion queue followed by a good wait makes the server as written panic on a buffer it served, while the corrected step completes it |
| ChannelTest.HandleSpec | src/bin/systest/src/channel_test.rs:105-133 | every completion carries status `Ok` and the dequeued id and buffer; a rejected buffer panics, an accepted one only on an unexpected channel error; the entry completes once the channel takes it after any number of full-queue retries |
| ChannelTest.HandleAsWrittenRetryPanics | src/bin/systest/src/channel_test.rs:105-131 | on a buffer the server accepts, a full queue (`NotReady`) and a good wait make the step as written panic whenever the id asks for at least one block; with zero blocks the retry is harmless |
| ChannelTest.RetryCompleteSpec | src/bin/systest/src/channel_test.rs:117-132 | the corrected retry completes the entry unchanged once the channel takes it, provided every wait before that succeeds, and panics only on an unexpected channel error |
| ChannelTest.HandleEntry | src/bin/systest/src/channel_test.rs:105-133 | the corrected server step in place equals `Handle` and leaves the buffer as the one server pass |
| ChannelTest.SendAll | src/bin/systest/src/channel_test.rs:35-60 | the ids submitted are the packed ids in loop order, and `values_sent` is their sum with no overflow on the way |
| ChannelTest.SentIdsBounded | src/bin/systest/src/channel_test.rs:35-60 | every running sum of the 10000 submitted ids stays below 2^64 |
| ChannelTest.ReceiveAll | src/bin/systest/src/channel_test.rs:17-20 | `values_received` is the sum of the completed ids modulo 2^64 |
| ChannelTest.SumIdsPermutation | src/bin/systest/src/channel_test.rs:94-96 | the sum of ids does not depend on their order |
| ChannelTest.SumsAgree | src/bin/systest/src/channel_test.rs:94-96 | when the completed ids are a permutation of the submitted ones, `values_received == values_sent` and the final check passes |

## Left out

- The io-channel `Client` and `Server` (rings, buffer pool, `connect`, `create`, `accept`) are not part of this model. Their answers are inputs: the buffer handed to the server, and the `Reply` sequence of `complete_sqe`.
- `SysCpu::wait`, the spawned threads and the `AtomicBool` handshake are left out, because they are kernel calls and concurrency. A wait is one boolean in `Reply`, and the server's outer loop waiting on an empty submission queue is not modelled.
- The throughput and latency benchmarks are left out, because they measure time with floating-point arithmetic and use the async executor.
- `src/bin/sys-io/src/main.rs` is not part of this model, because it is process bootstrap.
- `sched::start_cpu_usage` / `stop_cpu_usage` and `CpuUsageScope` are left out, because they are calls into the scheduler, which is not shown.
- The `log::error!` in `MemStats::drop` is left out, because it is logging only.
- Memory orderings and `SpinLock` are left out: the code is treated as sequential, one operation at a time.
- `post_kill_by_pid` is modelled only as the list of pids `ProcessDropped` returns.
- `Weak::upgrade` is modelled by a liveness bit on each record. The release of the last `Arc` is the explicit step `ReleaseLastRef`, and `Drop` the explicit step `Destroy`. The cascade by which a child's `Drop` releases its parent's `Arc` is not modelled; `ReleaseLastRef` therefore requires that no child record remains.
- `capabilities() & CAP_SYS` is an input bit (`Owner.Alive(capSys)`).
- The code reads two CPU counts, and both are parameters here. `crate::arch::num_cpus()` sizes every per-CPU table (stats.rs:8, 120-121); it is `numCpus` of `NewImpl` and `archCpus` of `Init`. `crate::config::num_cpus()` sets the boot thread counts in `init` (stats.rs:428); it is `configCpus` of `Init`. The model does not assume the two are equal.
- `moto_sys` is not part of this model, so three of its values are assumed: `PID_SYSTEM = 0`, `PID_KERNEL = 1` and the 32-byte name buffer.
- `crate::mm` is not part of this model, so `PAGE_SIZE_SMALL_LOG2 = 12` (stats.rs:10) is assumed, and `kernel_mem_stats()` is a parameter of `Init`.
- `ErrorCode::Ok` is a `Status` value, because its numeric code is not shown.
- Buffer tokens are opaque handles.
- KernelStats.Registry.NewImpl: requires a pid with no record yet and a live parent. The caller guarantees both (the process table allocates unique pids, and the caller holds the parent). It also requires the new record's page counters not to be the system record's. `new_impl` and `KProcessStats::new` allocate no counters: they store the two `Arc<MemStats>` their caller passes (stats.rs:175-215). `init` creates the system record's two counters fresh (stats.rs:414-415), and nothing in `stats.rs` hands them out again. It gives the kernel a fresh user counter and `kernel_mem_stats()` (stats.rs:423-424), so `Init` meets the requirement. The callers that create user processes are not part of this model, and the model assumes that they never pass the system record's counters. It does not check either of the first two requirements.
- KernelStats.Registry.ProcessDropped: the `debug_assert_eq!` on `active_threads` (stats.rs:245-248) is left out, as in a release build. A process dropped with threads still counted proceeds, and `Dropped` leaves those counts as they are.
- KernelStats.Registry.Charge: not offered for the system record, whose two counters are the totals a charge is mirrored into. KernelStats.Registry.Uncharge is the same.
- MemStatsModel.MemStats.Add: requires the system totals to exist for a user counter. The code reaches `SYSTEM_STATS.mem_stats_user` without the `is_set()` test it makes for kernel counters, so a user charge before `init` is not modelled. It also requires the counter to be neither system total; `KernelStats.Registry.Charge` meets this from `CountersApart`. MemStatsModel.MemStats.Sub is the same.
- KernelStats.Registry.CpuUsage: the additions wrap modulo 2^64, as in a release build. A debug build would panic on overflow instead.
- ChannelTest.ReceiveAll: the additions wrap modulo 2^64. `SumsAgree` shows that in the test's scenario they never reach 2^64.
- ChannelTest.HandleSpec: states the corrected retry. The code as written is `HandleAsWritten`; see Findings.
- ChannelTest.RetryCompleteSpec: proved of the corrected retry `RetryComplete`. The code as written `continue`s into the buffer check again (channel_test.rs:131), which `HandleAsWrittenRetryPanics` shows panics; see Findings.

## Findings

| source | as written | input that shows it | evidently intended | confidence | as-written member | corrected member |
|---|---|---|---|---|---|---|
| src/bin/systest/src/channel_test.rs:105-131 | after `complete_sqe` returns `NotReady` and the wait succeeds, `continue` restarts the inner `loop`, which checks the buffer again and rewrites it again | entry id 1 (iteration 0, 1 block), 512 bytes of `1`, `complete_sqe` answers `NotReady` then `Ok`: the second check finds `0xFE` where it expects `1` and `assert_eq!` fails | check and rewrite the buffer once, then retry only `complete_sqe` with the same entry until it is taken or a wait fails | high, not executed | ChannelTest.HandleAsWritten, ChannelTest.HandleAsWrittenPanicsOnRetry, ChannelTest.HandleAsWrittenRetryPanics | ChannelTest.Handle, ChannelTest.HandleSpec, ChannelTest.HandleEntry, ChannelTest.RetryComplete, ChannelTest.RetryCompleteSpec |
