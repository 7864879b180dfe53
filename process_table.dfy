/** The kernel's process-statistics tree as a value.

    Every `KProcessStats` record the kernel holds is an entry of a `Table`,
    keyed by its process id. A record's `children` is the key set of its
    `BTreeMap<ProcessId, Weak<KProcessStats>>`; the weak reference to a
    child upgrades while that child is `alive` (its `Arc` strong count is
    not zero). The system record (`SYSTEM_STATS`, pid `PID_SYSTEM`) is the
    root, and its map additionally holds every user process.

    Each state change of the source is a function from the old table to the
    new one; the class `KernelStats.Registry` performs them in place. */
module ProcessTable {
  import opened Machine
  import opened MemStatsModel

  type Pid = u64

  /** `moto_sys::stats::PID_SYSTEM` and `PID_KERNEL`. */
  const PID_SYSTEM: Pid := 0
  const PID_KERNEL: Pid := 1

  /** Capacity of `ProcessStatsV1::debug_name_bytes`. */
  const MAX_DEBUG_NAME_LEN: nat := 32

  /** CPU time of one process on one CPU, as TSC ticks. */
  datatype PerCpuStatsEntry = PerCpuStatsEntry(cpuUspace: u64, cpuKernel: u64, cpuStarted: u64)

  /** `PerCpuStatsEntry::new`. */
  const ZERO_ENTRY: PerCpuStatsEntry := PerCpuStatsEntry(0, 0, 0)

  /** The `Weak<Process>` owner: gone, or alive with or without `CAP_SYS`. */
  datatype Owner = Gone | Alive(capSys: bool)

  datatype Record = Record(
    pid: Pid,
    debugName: seq<byte>,
    totalThreads: u64,
    activeThreads: u64,
    parent: Option<Pid>,
    totalChildren: u64,
    activeChildren: u64,
    children: set<Pid>,
    active: bool,
    alive: bool,
    memUser: MemStats,
    memKernel: MemStats,
    owner: Owner,
    perCpu: seq<PerCpuStatsEntry>)

  type Table = map<Pid, Record>

  /** The kernel assertions and panics of the statistics code. */
  datatype Fault =
    | ParentlessNotSystem  // `assert_eq!(pid, PID_SYSTEM)` for a record without parent
    | AlreadyInSystemMap   // inserting into the system map found the pid there
    | NoParent             // `panic!("impossible")`: the system record has no parent
    | NotInSystemMap       // removing from the system map found no entry

  datatype Outcome = Done | Panic(fault: Fault)

  /** The record `new_impl` allocates: no threads, no children, active, and
      one zeroed per-CPU entry for each CPU. */
  function NewRecord(pid: Pid, debugName: seq<byte>, parent: Option<Pid>, memUser: MemStats,
                     memKernel: MemStats, owner: Owner, numCpus: nat): Record
  {
    Record(pid, debugName, 0, 0, parent, 0, 0, {}, true, true, memUser, memKernel, owner,
           seq(numCpus, _ => ZERO_ENTRY))
  }

  /** A record is fresh when it is shaped as `new_impl` allocates it. */
  predicate Fresh(r: Record) {
    r.totalThreads == 0 && r.activeThreads == 0 && r.totalChildren == 0 && r.activeChildren == 0 &&
    r.children == {} && r.active && r.alive
  }

  /** The structure `new_impl` and `Drop` maintain: the system record is
      present once any record is, and every entry is consistent. An entry's
      consistency is unfolded only where a proof names it (`EntryOk(m, c)`),
      so that parent chains are not followed without end. */
  ghost predicate WellFormed(m: Table) {
    && (m.Keys != {} ==> PID_SYSTEM in m)
    && (forall c {:trigger EntryOk(m, c)} | c in m :: EntryOk(m, c))
  }

  ghost predicate EntryOk(m: Table, c: Pid)
    requires c in m
  {
    && m[c].pid == c
    && (m[c].parent.None? <==> c == PID_SYSTEM)
    // a record is entered in its parent's map, and holds the parent alive
    && (m[c].parent.Some? ==>
          var p := m[c].parent.value; p in m && c in m[p].children && m[p].alive)
    // a map holds the record's own children, and the system map also the user processes
    && (forall k | k in m[c].children ::
          k in m && (m[k].parent == Some(c) || (c == PID_SYSTEM && k > PID_KERNEL)))
    && (c > PID_KERNEL ==> PID_SYSTEM in m && c in m[PID_SYSTEM].children)
    // a user process is never a direct child of the system record
    && (m[c].parent == Some(PID_SYSTEM) ==> c <= PID_KERNEL)
  }

  /** `r`'s page counters are not the system record `s`'s. */
  predicate Apart(r: Record, s: Record) {
    r.memUser != s.memUser && r.memUser != s.memKernel && r.memKernel != s.memUser && r.memKernel != s.memKernel
  }

  /** The system record's two page counters are private to it: `init` creates
      them for it alone, so they differ from each other and from the counters
      of every other record. */
  predicate CountersApart(m: Table) {
    PID_SYSTEM in m ==>
      && m[PID_SYSTEM].memUser != m[PID_SYSTEM].memKernel
      && forall q | q in m && q != PID_SYSTEM :: Apart(m[q], m[PID_SYSTEM])
  }

  /** Every record of `m'` has the page counters it had in `m`. */
  predicate SameCounters(m: Table, m': Table) {
    m'.Keys <= m.Keys &&
    forall q | q in m' :: m'[q].memUser == m[q].memUser && m'[q].memKernel == m[q].memKernel
  }

  /** Keeping every record's counters, and dropping records, keeps the
      system counters private. */
  lemma CountersKept(m: Table, m': Table)
    requires CountersApart(m) && SameCounters(m, m')
    ensures CountersApart(m')
  {
  }

  /** `b` has the place in the tree `a` had. */
  predicate SamePlace(a: Record, b: Record) {
    a.pid == b.pid && a.parent == b.parent && a.alive == b.alive
  }

  /** An update that leaves every record's place in the tree and every map
      as they were keeps the table well formed. */
  ghost predicate SameTree(m: Table, m': Table) {
    m'.Keys == m.Keys && forall q | q in m :: SamePlace(m[q], m'[q]) && m'[q].children == m[q].children
  }

  lemma SameTreeWellFormed(m: Table, m': Table)
    requires WellFormed(m) && SameTree(m, m')
    ensures WellFormed(m')
  {
    forall c | c in m'
      ensures EntryOk(m', c)
    {
      assert EntryOk(m, c);
      assert SamePlace(m[c], m'[c]);
      if m[c].parent.Some? {
        assert SamePlace(m[m[c].parent.value], m'[m[c].parent.value]);
      }
      forall k | k in m'[c].children
        ensures k in m' && (m'[k].parent == Some(c) || (c == PID_SYSTEM && k > PID_KERNEL))
      {
        assert SamePlace(m[k], m'[k]);
      }
    }
  }

  /** In a well-formed table every map names records of the table. */
  lemma ChildrenInTable(m: Table, p: Pid)
    requires WellFormed(m) && p in m
    ensures m[p].children <= m.Keys
  {
    assert EntryOk(m, p);
  }

  /** A pid that has no record is in no map. */
  lemma UnknownPidInNoMap(m: Table, pid: Pid)
    requires WellFormed(m) && pid !in m
    ensures forall q | q in m :: pid !in m[q].children
  {
    forall q | q in m
      ensures pid !in m[q].children
    {
      ChildrenInTable(m, q);
    }
  }

  // ---------------------------------------------------------------------
  // new_impl
  // ---------------------------------------------------------------------

  /** Entering `c` in a map: insert the key, count one more child, one more active. */
  function WithChild(p: Record, c: Pid): Record {
    p.(children := p.children + {c},
       totalChildren := WrapAdd(p.totalChildren, 1),
       activeChildren := WrapAdd(p.activeChildren, 1))
  }

  /** The first step of `new_impl`: `r` enters its parent's map and the
      parent counts one more child. */
  function EnterParent(m: Table, r: Record): Table
    requires r.parent.Some? ==> r.parent.value in m
  {
    if r.parent.Some? then m[r.parent.value := WithChild(m[r.parent.value], r.pid)] else m
  }

  /** The second step of `new_impl` for a user process: it enters the system
      map as well. */
  function EnterSystem(m: Table, pid: Pid): Table
    requires PID_SYSTEM in m
  {
    m[PID_SYSTEM := WithChild(m[PID_SYSTEM], pid)]
  }

  /** The assertion of `new_impl` that fails on `r`, if one does. */
  function CreateFault(m: Table, r: Record): Option<Fault>
    requires r.parent.Some? ==> r.parent.value in m
    requires r.parent.Some? && r.pid > PID_KERNEL ==> PID_SYSTEM in m
  {
    if r.parent.None? && r.pid != PID_SYSTEM then Some(ParentlessNotSystem)
    else if r.pid > PID_KERNEL && r.pid in EnterParent(m, r)[PID_SYSTEM].children then Some(AlreadyInSystemMap)
    else None
  }

  /** `new_impl`: both steps, then the record itself exists. */
  function Linked(m: Table, r: Record): Table
    requires r.pid !in m
    requires r.parent.Some? ==> r.parent.value in m
    requires r.pid > PID_KERNEL ==> PID_SYSTEM in m
  {
    var withParent := EnterParent(m, r);
    var withSystem := if r.pid > PID_KERNEL then EnterSystem(withParent, r.pid) else withParent;
    withSystem[r.pid := r]
  }

  /** `new_impl` keeps the system counters private when the new record's
      counters are not the system record's. */
  lemma LinkedCountersApart(m: Table, r: Record)
    requires CountersApart(m) && r.pid !in m
    requires r.parent.Some? ==> r.parent.value in m
    requires r.pid > PID_KERNEL ==> PID_SYSTEM in m
    requires PID_SYSTEM in m ==> Apart(r, m[PID_SYSTEM])
    requires r.pid == PID_SYSTEM ==> m == map[] && r.memUser != r.memKernel
    ensures CountersApart(Linked(m, r))
  {
    var m' := Linked(m, r);
    if PID_SYSTEM in m {
      assert m'[PID_SYSTEM].memUser == m[PID_SYSTEM].memUser && m'[PID_SYSTEM].memKernel == m[PID_SYSTEM].memKernel;
      forall q | q in m' && q != PID_SYSTEM
        ensures Apart(m'[q], m'[PID_SYSTEM])
      {
        if q != r.pid {
          assert m'[q].memUser == m[q].memUser && m'[q].memKernel == m[q].memKernel;
        }
      }
    } else if r.pid == PID_SYSTEM {
      assert m' == map[PID_SYSTEM := r];
    }
  }

  /** The faults `new_impl` can reach: a parentless record other than the
      system record, and a user process created directly under the system
      record (the parent insert already put its pid in the system map). The
      assertion on the parent's map never fails. */
  lemma CreateFaultCases(m: Table, r: Record)
    requires WellFormed(m) && r.pid !in m
    requires r.parent.Some? ==> r.parent.value in m
    ensures CreateFault(m, r).None? <==>
              (r.parent.Some? || r.pid == PID_SYSTEM) && !(r.parent == Some(PID_SYSTEM) && r.pid > PID_KERNEL)
    ensures r.parent.Some? ==> r.pid !in m[r.parent.value].children
  {
    if r.parent.Some? {
      ChildrenInTable(m, r.parent.value);
    }
    if r.parent.Some? && r.pid > PID_KERNEL {
      ChildrenInTable(m, PID_SYSTEM);
    }
  }

  /** Every entry of `Linked(m, r)`, when `new_impl` does not panic. */
  lemma LinkedEntries(m: Table, r: Record)
    requires r.pid !in m && r.parent.Some? && r.parent.value in m
    requires r.pid > PID_KERNEL ==> PID_SYSTEM in m
    requires r.parent == Some(PID_SYSTEM) ==> r.pid <= PID_KERNEL
    ensures Linked(m, r).Keys == m.Keys + {r.pid}
    ensures Linked(m, r)[r.pid] == r
    ensures forall q | q in m :: Linked(m, r)[q] ==
              if q == r.parent.value || (q == PID_SYSTEM && r.pid > PID_KERNEL) then WithChild(m[q], r.pid) else m[q]
  {
  }

  /** `new_impl` keeps the tree well formed: the new record is the child of
      its parent, is in the system map exactly when it is a user process or
      the kernel process, and no existing entry changes except for that
      insertion. */
  lemma LinkedWellFormed(m: Table, r: Record)
    requires WellFormed(m) && r.pid !in m && Fresh(r)
    requires r.parent.Some? ==> r.parent.value in m && m[r.parent.value].alive
    requires r.pid > PID_KERNEL ==> PID_SYSTEM in m
    requires CreateFault(m, r).None?
    ensures WellFormed(Linked(m, r))
    ensures Linked(m, r).Keys == m.Keys + {r.pid}
    ensures r.parent.Some? ==> r.pid in Linked(m, r)[r.parent.value].children
    ensures PID_SYSTEM in Linked(m, r)
    ensures r.pid in Linked(m, r)[PID_SYSTEM].children <==> r.parent == Some(PID_SYSTEM) || r.pid > PID_KERNEL
  {
    if r.parent.None? {
      assert m.Keys == {};
      assert Linked(m, r) == map[PID_SYSTEM := r];
      assert EntryOk(Linked(m, r), PID_SYSTEM);
    } else {
      assert PID_SYSTEM in m;
      LinkedEntries(m, r);
      InsertedWellFormed(m, Linked(m, r), r);
      ChildrenInTable(m, PID_SYSTEM);
    }
  }

  lemma InsertedWellFormed(m: Table, m': Table, r: Record)
    requires WellFormed(m) && r.pid !in m && Fresh(r)
    requires r.parent.Some? && r.parent.value in m && m[r.parent.value].alive && PID_SYSTEM in m
    requires r.parent == Some(PID_SYSTEM) ==> r.pid <= PID_KERNEL
    requires m'.Keys == m.Keys + {r.pid} && m'[r.pid] == r
    requires forall q | q in m :: SamePlace(m[q], m'[q])
    requires forall q | q in m :: m'[q].children ==
               if q == r.parent.value || (q == PID_SYSTEM && r.pid > PID_KERNEL) then m[q].children + {r.pid} else m[q].children
    ensures WellFormed(m')
  {
    forall c | c in m'
      ensures EntryOk(m', c)
    {
      if c != r.pid {
        InsertedEntryOk(m, m', r, c);
      }
    }
  }

  lemma InsertedEntryOk(m: Table, m': Table, r: Record, c: Pid)
    requires WellFormed(m) && r.pid !in m && Fresh(r) && c in m
    requires r.parent.Some? && r.parent.value in m && PID_SYSTEM in m
    requires r.parent == Some(PID_SYSTEM) ==> r.pid <= PID_KERNEL
    requires m'.Keys == m.Keys + {r.pid} && m'[r.pid] == r
    requires forall q | q in m :: SamePlace(m[q], m'[q])
    requires forall q | q in m :: m'[q].children ==
               if q == r.parent.value || (q == PID_SYSTEM && r.pid > PID_KERNEL) then m[q].children + {r.pid} else m[q].children
    ensures EntryOk(m', c)
  {
    assert EntryOk(m, c);
    assert SamePlace(m[c], m'[c]);
    forall k | k in m'[c].children
      ensures k in m' && (m'[k].parent == Some(c) || (c == PID_SYSTEM && k > PID_KERNEL))
    {
      if k != r.pid {
        assert k in m[c].children;
        assert SamePlace(m[k], m'[k]);
      }
    }
    if m[c].parent.Some? {
      assert SamePlace(m[m[c].parent.value], m'[m[c].parent.value]);
    }
  }

  // ---------------------------------------------------------------------
  // on_thread_added, on_thread_exited
  // ---------------------------------------------------------------------

  /** `on_thread_added`: one more active and total thread on the record, then
      the same on the system record. */
  function ThreadAdded(m: Table, pid: Pid): Table
    requires pid in m && PID_SYSTEM in m
  {
    var r := m[pid];
    var m1 := m[pid := r.(activeThreads := WrapAdd(r.activeThreads, 1), totalThreads := WrapAdd(r.totalThreads, 1))];
    var s := m1[PID_SYSTEM];
    m1[PID_SYSTEM := s.(activeThreads := WrapAdd(s.activeThreads, 1), totalThreads := WrapAdd(s.totalThreads, 1))]
  }

  /** `on_thread_exited`: one fewer active thread on the record and on the
      system record; total counts stay. */
  function ThreadExited(m: Table, pid: Pid): Table
    requires pid in m && PID_SYSTEM in m
  {
    var r := m[pid];
    var m1 := m[pid := r.(activeThreads := WrapSub(r.activeThreads, 1))];
    var s := m1[PID_SYSTEM];
    m1[PID_SYSTEM := s.(activeThreads := WrapSub(s.activeThreads, 1))]
  }

  /** Thread counts are not part of the tree. */
  lemma ThreadsSameTree(m: Table, pid: Pid)
    requires pid in m && PID_SYSTEM in m
    ensures SameTree(m, ThreadAdded(m, pid)) && SameTree(m, ThreadExited(m, pid))
  {
  }

  /** Nor are the page counters touched by a thread count. */
  lemma ThreadsSameCounters(m: Table, pid: Pid)
    requires pid in m && PID_SYSTEM in m
    ensures SameCounters(m, ThreadAdded(m, pid)) && SameCounters(m, ThreadExited(m, pid))
  {
  }

  /** A thread that is added and then exits leaves every active count as it
      was, while the total counts of the record and the system keep the
      addition; nothing else changes. */
  lemma ThreadAddedThenExited(m: Table, pid: Pid)
    requires pid in m && PID_SYSTEM in m && pid != PID_SYSTEM
    ensures var m' := ThreadExited(ThreadAdded(m, pid), pid);
      && m'.Keys == m.Keys
      && (forall q | q in m :: m'[q].activeThreads == m[q].activeThreads)
      && m'[pid] == m[pid].(totalThreads := WrapAdd(m[pid].totalThreads, 1))
      && m'[PID_SYSTEM] == m[PID_SYSTEM].(totalThreads := WrapAdd(m[PID_SYSTEM].totalThreads, 1))
      && (forall q | q in m && q != pid && q != PID_SYSTEM :: m'[q] == m[q])
  {
    SubUndoesAdd(m[pid].activeThreads, 1);
    SubUndoesAdd(m[PID_SYSTEM].activeThreads, 1);
  }

  // ---------------------------------------------------------------------
  // process_dropped
  // ---------------------------------------------------------------------

  /** `process_dropped`: the parent and the system record count one fewer
      active child, and the record is no longer active. The maps and the
      total counts stay. */
  function Dropped(m: Table, pid: Pid): Table
    requires pid in m && m[pid].parent.Some? && m[pid].parent.value in m && PID_SYSTEM in m
  {
    var p := m[pid].parent.value;
    var m1 := m[p := m[p].(activeChildren := WrapSub(m[p].activeChildren, 1))];
    var m2 := m1[PID_SYSTEM := m1[PID_SYSTEM].(activeChildren := WrapSub(m1[PID_SYSTEM].activeChildren, 1))];
    m2[pid := m2[pid].(active := false)]
  }

  /** Dropping changes counters and the active flag only. */
  lemma DroppedSameTree(m: Table, pid: Pid)
    requires pid in m && m[pid].parent.Some? && m[pid].parent.value in m && PID_SYSTEM in m
    ensures SameTree(m, Dropped(m, pid))
  {
  }

  /** Dropping a process leaves every page counter where it was. */
  lemma DroppedSameCounters(m: Table, pid: Pid)
    requires pid in m && m[pid].parent.Some? && m[pid].parent.value in m && PID_SYSTEM in m
    ensures SameCounters(m, Dropped(m, pid))
  {
  }

  /** Creating a user process and later dropping it leaves the active-child
      counts of its parent and of the system record as they were, and each
      of the two total-child counts one higher. */
  lemma LinkedThenDropped(m: Table, r: Record)
    requires WellFormed(m) && r.pid !in m && Fresh(r)
    requires r.parent.Some? && r.parent.value in m && m[r.parent.value].alive
    requires r.parent.value != PID_SYSTEM && r.pid > PID_KERNEL
    ensures PID_SYSTEM in m
    ensures var p := r.parent.value;
      var m' := Dropped(Linked(m, r), r.pid);
      && m'[p].activeChildren == m[p].activeChildren
      && m'[PID_SYSTEM].activeChildren == m[PID_SYSTEM].activeChildren
      && m'[p].totalChildren == WrapAdd(m[p].totalChildren, 1)
      && m'[PID_SYSTEM].totalChildren == WrapAdd(m[PID_SYSTEM].totalChildren, 1)
      && !m'[r.pid].active
  {
    assert PID_SYSTEM in m;
    SubUndoesAdd(m[r.parent.value].activeChildren, 1);
    SubUndoesAdd(m[PID_SYSTEM].activeChildren, 1);
  }

  // ---------------------------------------------------------------------
  // Arc release and Drop
  // ---------------------------------------------------------------------

  /** The last `Arc` of a record goes away: weak references to it no longer
      upgrade. */
  function Released(m: Table, pid: Pid): Table
    requires pid in m
  {
    m[pid := m[pid].(alive := false)]
  }

  /** No child record holds `pid` as its parent. */
  ghost predicate NoChildRecords(m: Table, pid: Pid) {
    forall c | c in m :: m[c].parent != Some(pid)
  }

  lemma ReleasedWellFormed(m: Table, pid: Pid)
    requires WellFormed(m) && pid in m && NoChildRecords(m, pid)
    ensures WellFormed(Released(m, pid))
  {
    ReleasedCore(m, Released(m, pid), pid);
  }

  lemma ReleasedCore(m: Table, m': Table, pid: Pid)
    requires WellFormed(m) && pid in m && NoChildRecords(m, pid)
    requires m'.Keys == m.Keys && m'[pid] == m[pid].(alive := false)
    requires forall q | q in m && q != pid :: m'[q] == m[q]
    ensures WellFormed(m')
  {
    forall c | c in m'
      ensures EntryOk(m', c)
    {
      assert EntryOk(m, c);
      assert m[c].parent != Some(pid);
    }
  }

  /** The first step of `Drop`: the pid leaves its parent's map. */
  function LeaveParent(m: Table, pid: Pid): Table
    requires pid in m && m[pid].parent.Some? && m[pid].parent.value in m
  {
    var p := m[pid].parent.value;
    m[p := m[p].(children := m[p].children - {pid})]
  }

  /** The second step of `Drop`: the pid leaves the system map. */
  function LeaveSystem(m: Table, pid: Pid): Table
    requires PID_SYSTEM in m
  {
    m[PID_SYSTEM := m[PID_SYSTEM].(children := m[PID_SYSTEM].children - {pid})]
  }

  /** The assertion of `Drop for KProcessStats` that fails, if one does. */
  function DestroyFault(m: Table, pid: Pid): Option<Fault>
    requires WellFormed(m) && pid in m
  {
    assert EntryOk(m, pid);
    if m[pid].parent.None? then Some(NoParent)
    else if pid !in LeaveParent(m, pid)[PID_SYSTEM].children then Some(NotInSystemMap)
    else None
  }

  /** `Drop for KProcessStats`: both steps, then the record is gone. */
  function Unlinked(m: Table, pid: Pid): Table
    requires pid in m && m[pid].parent.Some? && m[pid].parent.value in m && PID_SYSTEM in m
  {
    LeaveSystem(LeaveParent(m, pid), pid) - {pid}
  }

  /** Which records `Drop` can destroy: in a well-formed tree the removal from
      the parent's map always finds the pid, and the removal from the system
      map finds it exactly for a user process. So the system record and the
      kernel record cannot be destroyed. */
  lemma DestroyFaultCases(m: Table, pid: Pid)
    requires WellFormed(m) && pid in m
    ensures PID_SYSTEM in m
    ensures m[pid].parent.Some? ==> m[pid].parent.value in m && pid in m[m[pid].parent.value].children
    ensures DestroyFault(m, pid).None? <==> pid > PID_KERNEL
  {
    assert EntryOk(m, pid) && EntryOk(m, PID_SYSTEM);
    if pid > PID_KERNEL {
      assert m[pid].parent != Some(PID_SYSTEM);
    } else if m[pid].parent.Some? && m[pid].parent != Some(PID_SYSTEM) {
      assert pid !in m[PID_SYSTEM].children;
    }
  }

  /** Every entry of `Unlinked(m, pid)`, when `Drop` does not panic. */
  lemma UnlinkedEntries(m: Table, pid: Pid)
    requires pid in m && m[pid].parent.Some? && m[pid].parent.value in m && PID_SYSTEM in m
    requires m[pid].parent != Some(PID_SYSTEM)
    ensures Unlinked(m, pid).Keys == m.Keys - {pid}
    ensures forall q | q in m && q != pid :: Unlinked(m, pid)[q] ==
              if q == m[pid].parent.value || q == PID_SYSTEM then m[q].(children := m[q].children - {pid}) else m[q]
  {
  }

  /** `Drop` keeps the tree well formed and removes the pid from every map. */
  lemma UnlinkedWellFormed(m: Table, pid: Pid)
    requires WellFormed(m) && pid in m && !m[pid].alive
    requires PID_SYSTEM in m && DestroyFault(m, pid).None?
    ensures m[pid].parent.Some? && m[pid].parent.value in m
    ensures WellFormed(Unlinked(m, pid))
    ensures Unlinked(m, pid).Keys == m.Keys - {pid}
    ensures forall q | q in Unlinked(m, pid) :: pid !in Unlinked(m, pid)[q].children
    ensures SameCounters(m, Unlinked(m, pid))
  {
    assert EntryOk(m, pid);
    UnlinkedEntries(m, pid);
    var m' := Unlinked(m, pid);
    assert forall q | q in m' :: SamePlace(m[q], m'[q]);
    RemovedCore(m, m', pid);
  }

  lemma RemovedCore(m: Table, m': Table, pid: Pid)
    requires WellFormed(m) && pid in m && !m[pid].alive && PID_SYSTEM in m
    requires m[pid].parent.Some? && m[pid].parent != Some(PID_SYSTEM) && m[pid].parent.value in m
    requires m'.Keys == m.Keys - {pid}
    requires forall q | q in m' :: SamePlace(m[q], m'[q])
    requires forall q | q in m' :: m'[q].children ==
               if q == m[pid].parent.value || q == PID_SYSTEM then m[q].children - {pid} else m[q].children
    ensures WellFormed(m')
    ensures forall q | q in m' :: pid !in m'[q].children
  {
    assert EntryOk(m, pid);
    forall c | c in m'
      ensures EntryOk(m', c) && pid !in m'[c].children
    {
      RemovedEntryOk(m, m', pid, c);
    }
  }

  lemma RemovedEntryOk(m: Table, m': Table, pid: Pid, c: Pid)
    requires WellFormed(m) && pid in m && !m[pid].alive && PID_SYSTEM in m
    requires m[pid].parent.Some? && m[pid].parent != Some(PID_SYSTEM) && m[pid].parent.value in m
    requires m'.Keys == m.Keys - {pid} && c in m'
    requires forall q | q in m' :: SamePlace(m[q], m'[q])
    requires forall q | q in m' :: m'[q].children ==
               if q == m[pid].parent.value || q == PID_SYSTEM then m[q].children - {pid} else m[q].children
    ensures EntryOk(m', c) && pid !in m'[c].children
  {
    assert EntryOk(m, c);
    assert EntryOk(m, pid);
    assert SamePlace(m[c], m'[c]);
    if m[c].parent.Some? {
      var q := m[c].parent.value;
      assert q != pid;
      assert SamePlace(m[q], m'[q]);
    }
    forall k | k in m'[c].children
      ensures k in m' && (m'[k].parent == Some(c) || (c == PID_SYSTEM && k > PID_KERNEL))
    {
      assert k in m[c].children;
      assert SamePlace(m[k], m'[k]);
    }
  }

  /** Creating a user process and destroying it after its last reference is
      gone gives back the same records with the same maps: only counters of
      the parent and of the system record differ. */
  lemma LinkedThenUnlinked(m: Table, r: Record)
    requires WellFormed(m) && r.pid !in m && Fresh(r)
    requires r.parent.Some? && r.parent.value in m && m[r.parent.value].alive
    requires r.parent.value != PID_SYSTEM && r.pid > PID_KERNEL
    ensures PID_SYSTEM in m
    ensures var m' := Unlinked(Released(Linked(m, r), r.pid), r.pid);
      && m'.Keys == m.Keys
      && (forall q | q in m :: m'[q].children == m[q].children)
      && (forall q | q in m && q != r.parent.value && q != PID_SYSTEM :: m'[q] == m[q])
      && m'[r.parent.value] == WithChild(m[r.parent.value], r.pid).(children := m[r.parent.value].children)
      && m'[PID_SYSTEM] == WithChild(m[PID_SYSTEM], r.pid).(children := m[PID_SYSTEM].children)
  {
    assert PID_SYSTEM in m;
    UnknownPidInNoMap(m, r.pid);
    RecycledCore(m, r);
  }

  lemma RecycledCore(m: Table, r: Record)
    requires r.pid !in m && (forall q | q in m :: r.pid !in m[q].children)
    requires r.parent.Some? && r.parent.value in m && r.parent.value != PID_SYSTEM
    requires r.pid > PID_KERNEL && PID_SYSTEM in m
    ensures var m' := Unlinked(Released(Linked(m, r), r.pid), r.pid);
      && m'.Keys == m.Keys
      && (forall q | q in m :: m'[q].children == m[q].children)
      && (forall q | q in m && q != r.parent.value && q != PID_SYSTEM :: m'[q] == m[q])
      && m'[r.parent.value] == WithChild(m[r.parent.value], r.pid).(children := m[r.parent.value].children)
      && m'[PID_SYSTEM] == WithChild(m[PID_SYSTEM], r.pid).(children := m[PID_SYSTEM].children)
  {
    LinkedThenReleased(m, r);
    var m2 := Released(Linked(m, r), r.pid);
    UnlinkedEntries(m2, r.pid);
    RoundTripCore(m, m2, Unlinked(m2, r.pid), r);
  }

  lemma LinkedThenReleased(m: Table, r: Record)
    requires r.pid !in m && r.parent.Some? && r.parent.value in m && r.parent.value != PID_SYSTEM
    requires r.pid > PID_KERNEL && PID_SYSTEM in m
    ensures var m2 := Released(Linked(m, r), r.pid);
      && m2.Keys == m.Keys + {r.pid} && m2[r.pid].parent == r.parent
      && forall q | q in m :: m2[q] ==
           if q == r.parent.value || q == PID_SYSTEM then WithChild(m[q], r.pid) else m[q]
  {
    LinkedEntries(m, r);
  }

  lemma RoundTripCore(m: Table, m2: Table, m': Table, r: Record)
    requires r.parent.Some? && r.parent.value in m && r.parent.value != PID_SYSTEM && PID_SYSTEM in m
    requires forall q | q in m :: r.pid !in m[q].children
    requires m.Keys <= m2.Keys
    requires forall q | q in m :: m2[q] ==
               if q == r.parent.value || q == PID_SYSTEM then WithChild(m[q], r.pid) else m[q]
    requires m'.Keys == m.Keys
    requires forall q | q in m :: m'[q] ==
               if q == r.parent.value || q == PID_SYSTEM then m2[q].(children := m2[q].children - {r.pid}) else m2[q]
    ensures forall q | q in m :: m'[q].children == m[q].children
    ensures forall q | q in m && q != r.parent.value && q != PID_SYSTEM :: m'[q] == m[q]
    ensures m'[r.parent.value] == WithChild(m[r.parent.value], r.pid).(children := m[r.parent.value].children)
    ensures m'[PID_SYSTEM] == WithChild(m[PID_SYSTEM], r.pid).(children := m[PID_SYSTEM].children)
  {
  }

  // ---------------------------------------------------------------------
  // Thread conservation
  // ---------------------------------------------------------------------

  /** The smallest element of a non-empty set of pids. */
  ghost function MinOf(s: set<Pid>): (k: Pid)
    requires s != {}
    ensures k in s && forall x | x in s :: k <= x
    decreases s
  {
    var y :| y in s;
    if s == {y} then y
    else
      var k := MinOf(s - {y});
      assert forall x | x in s :: x == y || x in s - {y};
      if y < k then y else k
  }

  /** The active threads of the records named in `keys`. */
  ghost function SumActive(m: Table, keys: set<Pid>): int
    requires keys <= m.Keys
    decreases keys
  {
    if keys == {} then 0
    else var k := MinOf(keys); m[k].activeThreads + SumActive(m, keys - {k})
  }

  lemma {:induction false} SumActiveRemove(m: Table, keys: set<Pid>, x: Pid)
    requires keys <= m.Keys && x in keys
    ensures SumActive(m, keys) == m[x].activeThreads + SumActive(m, keys - {x})
    decreases keys
  {
    var k := MinOf(keys);
    if k != x {
      SumActiveRemove(m, keys - {k}, x);
      SumActiveRemove(m, keys - {x}, k);
      assert keys - {k} - {x} == keys - {x} - {k};
    }
  }

  lemma {:induction false} SumActiveFrame(m: Table, m': Table, keys: set<Pid>)
    requires keys <= m.Keys && keys <= m'.Keys
    requires forall q | q in keys :: m[q].activeThreads == m'[q].activeThreads
    ensures SumActive(m, keys) == SumActive(m', keys)
    decreases keys
  {
    if keys != {} {
      SumActiveFrame(m, m', keys - {MinOf(keys)});
    }
  }

  /** Conservation of threads: the system record's active-thread count is the
      sum of all other records' counts, modulo 2^64 as the counters wrap. */
  ghost predicate Balanced(m: Table) {
    PID_SYSTEM in m &&
    m[PID_SYSTEM].activeThreads == SumActive(m, m.Keys - {PID_SYSTEM}) % U64_MODULUS
  }

  /** Moving one record's active count by `d` modulo 2^64 moves the sum by `d`. */
  lemma SumActiveShift(m: Table, m': Table, pid: Pid, d: int)
    requires pid in m && pid != PID_SYSTEM && m'.Keys == m.Keys
    requires forall q | q in m && q != pid && q != PID_SYSTEM :: m'[q].activeThreads == m[q].activeThreads
    requires m'[pid].activeThreads == (m[pid].activeThreads + d) % U64_MODULUS
    ensures SumActive(m', m.Keys - {PID_SYSTEM}) % U64_MODULUS ==
            (SumActive(m, m.Keys - {PID_SYSTEM}) + d) % U64_MODULUS
  {
    var keys := m.Keys - {PID_SYSTEM};
    SumActiveRemove(m, keys, pid);
    SumActiveRemove(m', keys, pid);
    SumActiveFrame(m, m', keys - {pid});
    var rest := SumActive(m, keys - {pid});
    var a := m[pid].activeThreads;
    ModAddLeft(a + d, rest);
    assert SumActive(m', keys) == (a + d) % U64_MODULUS + rest;
  }

  lemma ThreadAddedBalanced(m: Table, pid: Pid)
    requires Balanced(m) && pid in m && pid != PID_SYSTEM
    ensures Balanced(ThreadAdded(m, pid))
  {
    var m' := ThreadAdded(m, pid);
    SumActiveShift(m, m', pid, 1);
    ModAddLeft(SumActive(m, m.Keys - {PID_SYSTEM}), 1);
  }

  lemma ThreadExitedBalanced(m: Table, pid: Pid)
    requires Balanced(m) && pid in m && pid != PID_SYSTEM
    ensures Balanced(ThreadExited(m, pid))
  {
    var m' := ThreadExited(m, pid);
    SumActiveShift(m, m', pid, -1);
    ModAddLeft(SumActive(m, m.Keys - {PID_SYSTEM}), -1);
  }

  /** A new record brings no threads, so creation keeps the balance. */
  lemma LinkedBalanced(m: Table, r: Record)
    requires Balanced(m) && r.pid !in m && r.activeThreads == 0
    requires r.parent.Some? ==> r.parent.value in m
    ensures Balanced(Linked(m, r))
  {
    var m' := Linked(m, r);
    var keys := m.Keys - {PID_SYSTEM};
    assert m'.Keys - {PID_SYSTEM} == keys + {r.pid};
    SumActiveRemove(m', keys + {r.pid}, r.pid);
    assert keys + {r.pid} - {r.pid} == keys;
    SumActiveFrame(m, m', keys);
  }

  /** The table `init` builds: the system record with the kernel record as
      its only child, both running the same threads, is well formed and
      balanced. */
  lemma BootTableBalanced(sys: Record, kernel: Record)
    requires sys.pid == PID_SYSTEM && sys.parent.None? && sys.children == {PID_KERNEL} && sys.alive
    requires kernel.pid == PID_KERNEL && kernel.parent == Some(PID_SYSTEM) && kernel.children == {}
    requires sys.activeThreads == kernel.activeThreads
    ensures WellFormed(map[PID_SYSTEM := sys, PID_KERNEL := kernel])
    ensures Balanced(map[PID_SYSTEM := sys, PID_KERNEL := kernel])
  {
    var m := map[PID_SYSTEM := sys, PID_KERNEL := kernel];
    assert EntryOk(m, PID_SYSTEM) && EntryOk(m, PID_KERNEL);
    assert m.Keys - {PID_SYSTEM} == {PID_KERNEL};
    assert MinOf({PID_KERNEL}) == PID_KERNEL;
    assert SumActive(m, {PID_KERNEL}) == kernel.activeThreads;
  }

  /** A record running `n` threads, as `init` leaves the two kernel records. */
  function Running(r: Record, n: u64): (r': Record)
    ensures r'.activeThreads == r'.totalThreads == n
  {
    r.(activeThreads := n, totalThreads := n)
  }

  /** `init`'s two creations: the system record alone, then the kernel
      record under it; neither reaches a fault. */
  lemma BootLinked(sys: Record, kernel: Record)
    requires sys.pid == PID_SYSTEM && sys.parent.None?
    requires kernel.pid == PID_KERNEL && kernel.parent == Some(PID_SYSTEM)
    ensures CreateFault(map[], sys) == None && Linked(map[], sys) == map[PID_SYSTEM := sys]
    ensures CreateFault(map[PID_SYSTEM := sys], kernel) == None
    ensures Linked(map[PID_SYSTEM := sys], kernel) == map[PID_SYSTEM := WithChild(sys, PID_KERNEL), PID_KERNEL := kernel]
  {
  }

  /** Dropping a process touches no thread count. */
  lemma DroppedBalanced(m: Table, pid: Pid)
    requires Balanced(m) && pid in m && m[pid].parent.Some? && m[pid].parent.value in m
    ensures Balanced(Dropped(m, pid))
  {
    assert Dropped(m, pid).Keys == m.Keys;
    SumActiveFrame(m, Dropped(m, pid), m.Keys - {PID_SYSTEM});
  }

  lemma ReleasedBalanced(m: Table, pid: Pid)
    requires Balanced(m) && pid in m
    ensures Balanced(Released(m, pid))
  {
    assert Released(m, pid).Keys == m.Keys;
    SumActiveFrame(m, Released(m, pid), m.Keys - {PID_SYSTEM});
  }

  /** Destroying a record whose threads have all exited keeps the balance. */
  lemma UnlinkedBalanced(m: Table, pid: Pid)
    requires Balanced(m) && pid in m && pid != PID_SYSTEM && m[pid].activeThreads == 0
    requires m[pid].parent.Some? && m[pid].parent.value in m
    ensures Balanced(Unlinked(m, pid))
  {
    var m' := Unlinked(m, pid);
    var keys := m.Keys - {PID_SYSTEM};
    SumActiveRemove(m, keys, pid);
    assert m'.Keys - {PID_SYSTEM} == keys - {pid};
    SumActiveFrame(m, m', keys - {pid});
  }

  // ---------------------------------------------------------------------
  // iterate
  // ---------------------------------------------------------------------

  predicate Increasing(s: seq<Pid>) {
    forall i, j | 0 <= i < j < |s| :: s[i] < s[j]
  }

  /** A smaller head keeps a sequence increasing. */
  lemma IncreasingCons(a: Pid, t: seq<Pid>)
    ensures Increasing(t) && (forall x | x in t :: a < x) ==> Increasing([a] + t)
  {
    if Increasing(t) && (forall x | x in t :: a < x) {
      forall i, j | 0 <= i < j < |[a] + t|
        ensures ([a] + t)[i] < ([a] + t)[j]
      {
        assert ([a] + t)[j] == t[j - 1] && t[j - 1] in t;
        if i > 0 {
          assert ([a] + t)[i] == t[i - 1];
        }
      }
    }
  }

  lemma IncreasingTail(s: seq<Pid>)
    requires s != []
    ensures Increasing(s) ==> Increasing(s[1..]) && forall x | x in s[1..] :: s[0] < x
  {
    if Increasing(s) {
      forall x | x in s[1..]
        ensures s[0] < x
      {
        var i :| 0 <= i < |s[1..]| && s[1..][i] == x;
        assert s[i + 1] == x;
      }
    }
  }

  /** The keys of a `BTreeMap` in iteration order. */
  ghost function Ascending(s: set<Pid>): (r: seq<Pid>)
    ensures |r| == |s|
    decreases s
  {
    if s == {} then []
    else var k := MinOf(s); [k] + Ascending(s - {k})
  }

  /** Iteration order lists every key once, smallest first. */
  lemma AscendingSpec(s: set<Pid>)
    ensures Increasing(Ascending(s))
    ensures forall x :: x in Ascending(s) <==> x in s
  {
    AscendingMembers(s);
    AscendingIncreasing(s);
  }

  lemma {:induction false} AscendingMembers(s: set<Pid>)
    ensures forall x :: x in Ascending(s) <==> x in s
    decreases s
  {
    if s != {} {
      var k := MinOf(s);
      AscendingMembers(s - {k});
      assert Ascending(s) == [k] + Ascending(s - {k});
    }
  }

  lemma {:induction false} AscendingIncreasing(s: set<Pid>)
    ensures Increasing(Ascending(s))
    decreases s
  {
    if s != {} {
      var k := MinOf(s);
      AscendingIncreasing(s - {k});
      AscendingMembers(s - {k});
      IncreasingCons(k, Ascending(s - {k}));
    }
  }

  /** Every pid of `s` has a record. */
  predicate InTable(m: Table, s: seq<Pid>) {
    forall i | 0 <= i < |s| :: s[i] in m
  }

  /** The entries whose weak reference upgrades, in the same order. */
  function LiveOnly(m: Table, s: seq<Pid>): (r: seq<Pid>)
    requires InTable(m, s)
    ensures |r| <= |s|
  {
    if s == [] then []
    else (if m[s[0]].alive then [s[0]] else []) + LiveOnly(m, s[1..])
  }

  /** Filtering keeps exactly the live entries, in their order. */
  lemma {:induction false} LiveOnlySpec(m: Table, s: seq<Pid>)
    requires InTable(m, s)
    ensures forall x :: x in LiveOnly(m, s) <==> x in s && m[x].alive
    ensures Increasing(s) ==> Increasing(LiveOnly(m, s))
  {
    if s != [] {
      LiveOnlySpec(m, s[1..]);
      IncreasingTail(s);
      IncreasingCons(s[0], LiveOnly(m, s[1..]));
    }
  }

  /** What a callback sees when it answers `cont(i, pid)` for its i-th
      record (counting from `calls`): every record up to and including the
      first that gets `false`. */
  function Visit(c: seq<Pid>, cont: (nat, Pid) -> bool, calls: nat): (v: seq<Pid>)
    ensures |v| <= |c|
    decreases |c|
  {
    if c == [] then []
    else if cont(calls, c[0]) then [c[0]] + Visit(c[1..], cont, calls + 1)
    else [c[0]]
  }

  /** The callback sees a prefix of the records: at least the first one,
      every record while it answers `true`, and no record after its first
      `false`. */
  lemma {:induction false} VisitSpec(c: seq<Pid>, cont: (nat, Pid) -> bool, calls: nat)
    ensures var v := Visit(c, cont, calls);
      && v == c[..|v|]
      && (c != [] ==> |v| >= 1)
      && (forall i | 0 <= i < |v| - 1 :: cont(calls + i, v[i]))
      && (|v| < |c| ==> !cont(calls + |v| - 1, v[|v| - 1]))
    decreases |c|
  {
    if c != [] && cont(calls, c[0]) {
      VisitSpec(c[1..], cont, calls + 1);
      var v := Visit(c, cont, calls);
      var w := Visit(c[1..], cont, calls + 1);
      assert v == [c[0]] + w;
      forall i | 0 <= i < |v| - 1
        ensures cont(calls + i, v[i])
      {
        if i > 0 {
          assert v[i] == w[i - 1];
        }
      }
    }
  }

  /** The records `iterate` passes to a callback that never stops it. Flat: the
      system record iff `start` is the system pid, then the live entries of
      the system map from `PID_KERNEL` up, in pid order. Tree: the live
      children of `start`, in pid order, provided `start` is in the system map
      and alive; nothing otherwise. */
  ghost function IterCandidates(m: Table, start: Pid, flat: bool): (c: seq<Pid>)
    requires WellFormed(m) && PID_SYSTEM in m
    ensures var off := if flat && start == PID_SYSTEM then 1 else 0;
      && |c| >= off && (off == 1 ==> c[0] == PID_SYSTEM)
      && Increasing(c[off..])
      && (flat ==> forall x :: x in c[off..] <==>
                     x in m[PID_SYSTEM].children && x >= PID_KERNEL && x in m && m[x].alive)
      && (!flat ==> forall x :: x in c <==>
                      start in m[PID_SYSTEM].children && start in m && m[start].alive && x in m[start].children && x in m && m[x].alive)
  {
    ChildrenInTable(m, PID_SYSTEM);
    if flat then
      var keys := set k | k in m[PID_SYSTEM].children && k >= PID_KERNEL;
      AscendingSpec(keys);
      AscendingInTable(m, keys);
      var head := if start == PID_SYSTEM then [PID_SYSTEM] else [];
      var live := LiveOnly(m, Ascending(keys));
      LiveOnlySpec(m, Ascending(keys));
      assert (head + live)[|head|..] == live;
      head + live
    else if start in m[PID_SYSTEM].children && m[start].alive then
      ChildrenInTable(m, start);
      AscendingSpec(m[start].children);
      AscendingInTable(m, m[start].children);
      LiveOnlySpec(m, Ascending(m[start].children));
      LiveOnly(m, Ascending(m[start].children))
    else []
  }

  /** The keys a flat iteration walks: the system map from `PID_KERNEL` up. */
  function FlatKeys(m: Table): set<Pid>
    requires PID_SYSTEM in m
  {
    set k | k in m[PID_SYSTEM].children && k >= PID_KERNEL
  }

  /** The keys of a map of existing records, in order, all have records. */
  lemma AscendingInTable(m: Table, s: set<Pid>)
    requires forall x | x in s :: x in m
    ensures InTable(m, Ascending(s))
  {
    AscendingMembers(s);
    forall i | 0 <= i < |Ascending(s)|
      ensures Ascending(s)[i] in m
    {
      assert Ascending(s)[i] in Ascending(s);
    }
  }

  lemma FlatCandidates(m: Table, start: Pid)
    requires WellFormed(m) && PID_SYSTEM in m
    ensures InTable(m, Ascending(FlatKeys(m)))
    ensures IterCandidates(m, start, true) ==
              (if start == PID_SYSTEM then [PID_SYSTEM] else []) + LiveOnly(m, Ascending(FlatKeys(m)))
  {
    ChildrenInTable(m, PID_SYSTEM);
    AscendingInTable(m, FlatKeys(m));
  }

  lemma TreeCandidates(m: Table, start: Pid)
    requires WellFormed(m) && PID_SYSTEM in m
    requires start in m[PID_SYSTEM].children && start in m && m[start].alive
    ensures InTable(m, Ascending(m[start].children))
    ensures IterCandidates(m, start, false) == LiveOnly(m, Ascending(m[start].children))
  {
    ChildrenInTable(m, start);
    AscendingInTable(m, m[start].children);
  }

  /** The loop of `iterate` over `keys`: dead records are skipped, live ones
      go to `cont` until it answers `false`. */
  function Walk(m: Table, keys: seq<Pid>, cont: (nat, Pid) -> bool, calls: nat): (v: seq<Pid>)
    requires InTable(m, keys)
    ensures |v| <= |keys|
    decreases |keys|
  {
    if keys == [] then []
    else if !m[keys[0]].alive then Walk(m, keys[1..], cont, calls)
    else if cont(calls, keys[0]) then [keys[0]] + Walk(m, keys[1..], cont, calls + 1)
    else [keys[0]]
  }

  /** The loop visits exactly what filtering first and visiting second
      would. */
  lemma {:induction false} WalkIsVisit(m: Table, keys: seq<Pid>, cont: (nat, Pid) -> bool, calls: nat)
    requires InTable(m, keys)
    ensures Walk(m, keys, cont, calls) == Visit(LiveOnly(m, keys), cont, calls)
    decreases |keys|
  {
    if keys != [] {
      var k := keys[0];
      var later := LiveOnly(m, keys[1..]);
      WalkIsVisit(m, keys[1..], cont, calls + 1);
      WalkIsVisit(m, keys[1..], cont, calls);
      if m[k].alive {
        assert LiveOnly(m, keys) == [k] + later;
        var c := [k] + later;
        assert c[0] == k && c[1..] == later;
      } else {
        assert LiveOnly(m, keys) == later;
      }
    }
  }

  /** The first answer decides whether the callback sees more. */
  lemma VisitFirst(h: Pid, rest: seq<Pid>, cont: (nat, Pid) -> bool)
    ensures Visit([h] + rest, cont, 0) == if cont(0, h) then [h] + Visit(rest, cont, 1) else [h]
  {
    assert ([h] + rest)[1..] == rest;
  }

  // ---------------------------------------------------------------------
  // cpu_usage, into_v1
  // ---------------------------------------------------------------------

  /** User plus kernel time over all CPUs, without wrap-around. */
  function CpuTotal(entries: seq<PerCpuStatsEntry>): (t: int)
    ensures t >= 0
  {
    if entries == [] then 0
    else CpuTotal(entries[..|entries| - 1]) + entries[|entries| - 1].cpuUspace + entries[|entries| - 1].cpuKernel
  }

  /** A fresh per-CPU table has used no CPU time. */
  lemma {:induction false} CpuTotalFresh(entries: seq<PerCpuStatsEntry>)
    requires forall i | 0 <= i < |entries| :: entries[i] == ZERO_ENTRY
    ensures CpuTotal(entries) == 0
  {
    if entries != [] {
      CpuTotalFresh(entries[..|entries| - 1]);
    }
  }

  /** The `ProcessStatsV1` record handed to user space. */
  datatype ProcessStatsV1 = ProcessStatsV1(
    pid: u64,
    parentPid: u64,
    totalThreads: u64,
    totalChildren: u64,
    activeThreads: u64,
    activeChildren: u64,
    pagesUser: u64,
    pagesKernel: u64,
    cpuUsage: u64,
    systemProcess: u8,
    debugNameLen: u8,
    debugNameBytes: seq<byte>,
    active: u8)

  /** The name bytes `into_v1` copies: at most the first 32. */
  function TruncatedName(name: seq<byte>): (r: seq<byte>)
    ensures |r| == if |name| < MAX_DEBUG_NAME_LEN then |name| else MAX_DEBUG_NAME_LEN
    ensures r == name[..|r|]
  {
    if |name| > MAX_DEBUG_NAME_LEN then name[..MAX_DEBUG_NAME_LEN] else name
  }

  /** `copy_nonoverlapping` of `name` over the front of `dest`. */
  function CopyPrefix(dest: seq<byte>, name: seq<byte>): (r: seq<byte>)
    requires |name| <= |dest|
    ensures |r| == |dest| && r[..|name|] == name && r[|name|..] == dest[|name|..]
  {
    name + dest[|name|..]
  }
}
