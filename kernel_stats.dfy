/** The kernel's registry of process statistics. The records live in one
    table that the operations below update in place; each operation is
    proved against its function in `ProcessTable`. `SYSTEM_STATS` is the
    record with pid `PID_SYSTEM`, `KERNEL_STATS` the one with `PID_KERNEL`. */
module KernelStats {
  import opened Machine
  import opened MemStatsModel
  import opened ProcessTable

  /** The debug names `init` gives the two kernel records. */
  const SYSTEM_NAME: seq<byte> := [0x28, 0x74, 0x6f, 0x74, 0x61, 0x6c, 0x29]  // "(total)"
  const KERNEL_NAME: seq<byte> := [0x6b, 0x65, 0x72, 0x6e, 0x65, 0x6c]        // "kernel"

  /** `PerCpuStats::new`: one zeroed entry per CPU. */
  method NewPerCpuStats(numCpus: nat) returns (entries: seq<PerCpuStatsEntry>)
    ensures entries == seq(numCpus, _ => ZERO_ENTRY)
    ensures CpuTotal(entries) == 0
  {
    entries := [];
    var i := 0;
    while i < numCpus
      invariant 0 <= i <= numCpus
      invariant entries == seq(i, _ => ZERO_ENTRY)
    {
      entries := entries + [ZERO_ENTRY];
      i := i + 1;
    }
    CpuTotalFresh(entries);
  }

  /** The keys of a `BTreeMap`, visited in ascending order. */
  method KeysInOrder(s: set<Pid>) returns (keys: seq<Pid>)
    ensures keys == Ascending(s)
  {
    keys := [];
    var rest := s;
    while rest != {}
      invariant keys + Ascending(rest) == Ascending(s)
      decreases rest
    {
      ghost var least := MinOf(rest);
      var k :| k in rest && forall x | x in rest :: k <= x;
      assert k == least;
      assert Ascending(rest) == [k] + Ascending(rest - {k});
      assert keys + Ascending(rest) == (keys + [k]) + Ascending(rest - {k});
      keys := keys + [k];
      rest := rest - {k};
    }
  }

  class Registry {
    /** Every statistics record that exists, keyed by pid. */
    var records: Table

    /** The tree is well formed, and the system record's page counters are
        its own. */
    ghost predicate Valid()
      reads this
    {
      WellFormed(records) && CountersApart(records)
    }

    /** An empty registry, before `init`. */
    constructor ()
      ensures records == map[] && Valid()
    {
      records := map[];
    }

    /** The two page totals of the system record that every `MemStats`
        charge is mirrored into, once `init` has run. */
    function Totals(): (t: SystemTotals)
      reads this
      ensures t.Set? <==> PID_SYSTEM in records
      ensures t.Set? ==> t.user == records[PID_SYSTEM].memUser && t.kernel == records[PID_SYSTEM].memKernel
    {
      if PID_SYSTEM in records then Set(records[PID_SYSTEM].memUser, records[PID_SYSTEM].memKernel) else Unset
    }

    /** The counter the memory manager charges for `pid`'s kernel pages
        (`kernel`) or user pages. */
    function Counter(pid: Pid, kernel: bool): MemStats
      reads this
      requires pid in records
    {
      if kernel then records[pid].memKernel else records[pid].memUser
    }

    /** `MemStats::add` on one of `pid`'s counters, with the system totals
        `Totals()` as its mirror: the counter and the system total of its kind
        grow by `numPages`, and the other total is unchanged. The system
        record's own counters are the totals and are not charged this way. */
    method Charge(pid: Pid, kernel: bool, numPages: u64)
      requires Valid() && pid in records && pid != PID_SYSTEM
      modifies Counter(pid, kernel), records[PID_SYSTEM].memUser, records[PID_SYSTEM].memKernel
      ensures var c := Counter(pid, kernel); var sys := records[PID_SYSTEM];
        && c.pagesUsed == WrapAdd(old(c.pagesUsed), numPages)
        && (c.userStats ==> sys.memUser.pagesUsed == WrapAdd(old(sys.memUser.pagesUsed), numPages)
                            && sys.memKernel.pagesUsed == old(sys.memKernel.pagesUsed))
        && (!c.userStats ==> sys.memKernel.pagesUsed == WrapAdd(old(sys.memKernel.pagesUsed), numPages)
                             && sys.memUser.pagesUsed == old(sys.memUser.pagesUsed))
      ensures records == old(records) && Valid()
    {
      assert PID_SYSTEM in records && Apart(records[pid], records[PID_SYSTEM]);
      Counter(pid, kernel).Add(numPages, Totals());
    }

    /** `MemStats::sub` on one of `pid`'s counters: the same two counters
        shrink by `numPages`. */
    method Uncharge(pid: Pid, kernel: bool, numPages: u64)
      requires Valid() && pid in records && pid != PID_SYSTEM
      modifies Counter(pid, kernel), records[PID_SYSTEM].memUser, records[PID_SYSTEM].memKernel
      ensures var c := Counter(pid, kernel); var sys := records[PID_SYSTEM];
        && c.pagesUsed == WrapSub(old(c.pagesUsed), numPages)
        && (c.userStats ==> sys.memUser.pagesUsed == WrapSub(old(sys.memUser.pagesUsed), numPages)
                            && sys.memKernel.pagesUsed == old(sys.memKernel.pagesUsed))
        && (!c.userStats ==> sys.memKernel.pagesUsed == WrapSub(old(sys.memKernel.pagesUsed), numPages)
                             && sys.memUser.pagesUsed == old(sys.memUser.pagesUsed))
      ensures records == old(records) && Valid()
    {
      assert PID_SYSTEM in records && Apart(records[pid], records[PID_SYSTEM]);
      Counter(pid, kernel).Sub(numPages, Totals());
    }

    /** `new_impl`. Process ids are unique, so `pid` has no record yet, and the
        caller holds the parent, so the parent is alive; the system record's
        page counters are private to it, so the new record's are others. The
        outcome is the assertion that fails, if any; a kernel panic leaves the
        table as the steps before it left it. The new record has one zeroed
        per-CPU entry for each CPU (`PerCpuStats::new`). */
    method NewImpl(parent: Option<Pid>, pid: Pid, debugName: seq<byte>, memUser: MemStats,
                   memKernel: MemStats, owner: Owner, numCpus: nat) returns (outcome: Outcome)
      requires Valid() && pid !in records
      requires parent.Some? ==> parent.value in records && records[parent.value].alive
      requires PID_SYSTEM in records ==> Apart(NewRecord(pid, debugName, parent, memUser, memKernel, owner, numCpus),
                                               records[PID_SYSTEM])
      requires pid == PID_SYSTEM ==> memUser != memKernel
      modifies this
      ensures var r := NewRecord(pid, debugName, parent, memUser, memKernel, owner, numCpus);
        && CreateFault(old(records), r) == (if outcome.Panic? then Some(outcome.fault) else None)
        && (outcome.Done? ==> records == Linked(old(records), r) && Valid())
        && (outcome == Panic(ParentlessNotSystem) ==> records == old(records))
        && (outcome == Panic(AlreadyInSystemMap) ==> records == EnterParent(old(records), r))
      ensures outcome.Done? ==> pid in records && forall cpu: nat ::
        GetPerCpuStatsEntry(pid, cpu) == if cpu < numCpus then Some(ZERO_ENTRY) else None
    {
      var perCpu := NewPerCpuStats(numCpus);
      var r := Record(pid, debugName, 0, 0, parent, 0, 0, {}, true, true, memUser, memKernel, owner, perCpu);
      assert r == NewRecord(pid, debugName, parent, memUser, memKernel, owner, numCpus);
      ghost var m0 := records;
      CreateFaultCases(m0, r);
      if parent.Some? {
        var p := parent.value;
        // the insertion into the parent's map always finds the pid absent
        assert pid !in records[p].children;
        records := records[p := WithChild(records[p], pid)];
      } else if pid != PID_SYSTEM {
        return Panic(ParentlessNotSystem);
      }
      if pid > PID_KERNEL {
        if pid in records[PID_SYSTEM].children {
          return Panic(AlreadyInSystemMap);
        }
        records := records[PID_SYSTEM := WithChild(records[PID_SYSTEM], pid)];
      }
      records := records[pid := r];
      LinkedWellFormed(m0, r);
      if pid == PID_SYSTEM {
        assert m0 == map[];
      }
      LinkedCountersApart(m0, r);
      outcome := Done;
    }

    /** `KProcessStats::new`: a record with a parent. */
    method New(parent: Pid, pid: Pid, debugName: seq<byte>, memUser: MemStats,
               memKernel: MemStats, owner: Owner, numCpus: nat) returns (outcome: Outcome)
      requires Valid() && pid !in records
      requires parent in records && records[parent].alive
      requires PID_SYSTEM in records ==> Apart(NewRecord(pid, debugName, Some(parent), memUser, memKernel, owner, numCpus),
                                               records[PID_SYSTEM])
      modifies this
      ensures var r := NewRecord(pid, debugName, Some(parent), memUser, memKernel, owner, numCpus);
        && (outcome.Done? <==> !(parent == PID_SYSTEM && pid > PID_KERNEL))
        && (outcome.Done? ==> records == Linked(old(records), r) && Valid())
        && (outcome.Panic? ==> outcome.fault == AlreadyInSystemMap && records == EnterParent(old(records), r))
    {
      ghost var r := NewRecord(pid, debugName, Some(parent), memUser, memKernel, owner, numCpus);
      CreateFaultCases(records, r);
      outcome := NewImpl(Some(parent), pid, debugName, memUser, memKernel, owner, numCpus);
    }

    /** The first half of `init`: `new_impl` for the system record, then for
        the kernel record under it. */
    method CreateBootRecords(sysUser: MemStats, sysKernel: MemStats, kernelUser: MemStats,
                             kernelMem: MemStats, numCpus: nat)
      requires records == map[]
      requires sysUser != sysKernel
      requires kernelUser !in {sysUser, sysKernel} && kernelMem !in {sysUser, sysKernel}
      modifies this
      ensures Valid()
      ensures records == map[
        PID_SYSTEM := WithChild(NewRecord(PID_SYSTEM, SYSTEM_NAME, None, sysUser, sysKernel, Gone, numCpus), PID_KERNEL),
        PID_KERNEL := NewRecord(PID_KERNEL, KERNEL_NAME, Some(PID_SYSTEM), kernelUser, kernelMem, Gone, numCpus)]
    {
      ghost var sys := NewRecord(PID_SYSTEM, SYSTEM_NAME, None, sysUser, sysKernel, Gone, numCpus);
      ghost var kernel := NewRecord(PID_KERNEL, KERNEL_NAME, Some(PID_SYSTEM), kernelUser, kernelMem, Gone, numCpus);
      BootLinked(sys, kernel);
      var outcome := NewImpl(None, PID_SYSTEM, SYSTEM_NAME, sysUser, sysKernel, Gone, numCpus);
      assert records == map[PID_SYSTEM := sys];
      outcome := NewImpl(Some(PID_SYSTEM), PID_KERNEL, KERNEL_NAME, kernelUser, kernelMem, Gone, numCpus);
    }

    /** `init`: the system record, then the kernel record under it, both
        running one thread per configured CPU; the pages the kernel allocated
        before are charged to the system's kernel total. `archCpus` is
        `arch::num_cpus()`, which sizes the per-CPU tables, and `configCpus`
        is `config::num_cpus()`, which sets the thread counts. `kernelMem` is
        the kernel's own counter (`kernel_mem_stats`). */
    method Init(archCpus: nat, configCpus: u64, kernelMem: MemStats)
      requires records == map[]
      modifies this
      ensures Valid() && Balanced(records)
      ensures records.Keys == {PID_SYSTEM, PID_KERNEL}
      ensures var sys := records[PID_SYSTEM];
        && sys == Running(WithChild(NewRecord(PID_SYSTEM, SYSTEM_NAME, None, sys.memUser, sys.memKernel, Gone, archCpus),
                                    PID_KERNEL), configCpus)
        && fresh(sys.memUser) && fresh(sys.memKernel) && sys.memUser.userStats && !sys.memKernel.userStats
        && sys.memUser.pagesUsed == 0 && sys.memKernel.pagesUsed == kernelMem.pagesUsed
      ensures var k := records[PID_KERNEL];
        && k == Running(NewRecord(PID_KERNEL, KERNEL_NAME, Some(PID_SYSTEM), k.memUser, kernelMem, Gone, archCpus),
                        configCpus)
        && fresh(k.memUser) && k.memUser.userStats && k.memUser.pagesUsed == 0
    {
      var sysUser := new MemStats.New(true);
      var sysKernel := new MemStats.New(false);
      var kernelUser := new MemStats.New(true);
      CreateBootRecords(sysUser, sysKernel, kernelUser, kernelMem, archCpus);
      var numCpus := configCpus;
      ghost var sys := records[PID_SYSTEM];
      ghost var kernel := records[PID_KERNEL];
      var k := records[PID_KERNEL];
      records := records[PID_KERNEL := k.(activeThreads := numCpus, totalThreads := numCpus)];
      var s := records[PID_SYSTEM];
      records := records[PID_SYSTEM := s.(activeThreads := numCpus, totalThreads := numCpus)];
      assert records == map[PID_SYSTEM := Running(sys, numCpus), PID_KERNEL := Running(kernel, numCpus)];
      BootTableBalanced(Running(sys, numCpus), Running(kernel, numCpus));
      sysKernel.pagesUsed := WrapAdd(sysKernel.pagesUsed, kernelMem.pagesUsed);
    }

    /** `on_thread_added`: one more active and total thread on the record,
        then on the system record. The system record runs no threads of its own, so for every
        other record the system count stays the sum of all counts. */
    method OnThreadAdded(pid: Pid)
      requires Valid() && pid in records
      modifies this
      ensures PID_SYSTEM in old(records) && records == ThreadAdded(old(records), pid) && Valid()
      ensures pid != PID_SYSTEM && Balanced(old(records)) ==> Balanced(records)
    {
      var r := records[pid];
      records := records[pid := r.(activeThreads := WrapAdd(r.activeThreads, 1), totalThreads := WrapAdd(r.totalThreads, 1))];
      var s := records[PID_SYSTEM];
      records := records[PID_SYSTEM := s.(activeThreads := WrapAdd(s.activeThreads, 1), totalThreads := WrapAdd(s.totalThreads, 1))];
      ThreadsSameTree(old(records), pid);
      ThreadsSameCounters(old(records), pid);
      CountersKept(old(records), records);
      SameTreeWellFormed(old(records), records);
      if pid != PID_SYSTEM && Balanced(old(records)) {
        ThreadAddedBalanced(old(records), pid);
      }
    }

    /** `on_thread_exited`: two `fetch_sub`s; total counts stay. */
    method OnThreadExited(pid: Pid)
      requires Valid() && pid in records
      modifies this
      ensures PID_SYSTEM in old(records) && records == ThreadExited(old(records), pid) && Valid()
      ensures pid != PID_SYSTEM && Balanced(old(records)) ==> Balanced(records)
    {
      var r := records[pid];
      records := records[pid := r.(activeThreads := WrapSub(r.activeThreads, 1))];
      var s := records[PID_SYSTEM];
      records := records[PID_SYSTEM := s.(activeThreads := WrapSub(s.activeThreads, 1))];
      assert records == ThreadExited(old(records), pid);
      ThreadsSameTree(old(records), pid);
      ThreadsSameCounters(old(records), pid);
      CountersKept(old(records), records);
      SameTreeWellFormed(old(records), records);
      if pid != PID_SYSTEM && Balanced(old(records)) {
        ThreadExitedBalanced(old(records), pid);
      }
    }

    /** `process_dropped`: the owning process is gone. Its debug assertion
        that no thread is left is not checked by a release build, which goes
        on either way. A record without a parent is the system record, which
        is never dropped (`impossible`). Otherwise the
        active-child counts go down, the record becomes inactive, and every
        child in its map is sent a kill request, in pid order; `killed` lists
        those requests. */
    method ProcessDropped(pid: Pid) returns (outcome: Outcome, killed: seq<Pid>)
      requires Valid() && pid in records
      modifies this
      ensures old(records)[pid].parent.None? ==>
        outcome == Panic(NoParent) && records == old(records) && killed == []
      ensures old(records)[pid].parent.Some? ==>
        && outcome == Done && old(records)[pid].parent.value in old(records) && PID_SYSTEM in old(records)
        && records == Dropped(old(records), pid) && Valid()
        && killed == Ascending(old(records)[pid].children)
      ensures outcome.Done? && Balanced(old(records)) ==> Balanced(records)
    {
      assert EntryOk(records, pid);
      if records[pid].parent.None? {
        return Panic(NoParent), [];
      }
      var p := records[pid].parent.value;
      var q := records[p];
      records := records[p := q.(activeChildren := WrapSub(q.activeChildren, 1))];
      var s := records[PID_SYSTEM];
      records := records[PID_SYSTEM := s.(activeChildren := WrapSub(s.activeChildren, 1))];
      var r := records[pid];
      records := records[pid := r.(active := false)];
      assert records == Dropped(old(records), pid);
      DroppedSameTree(old(records), pid);
      DroppedSameCounters(old(records), pid);
      CountersKept(old(records), records);
      SameTreeWellFormed(old(records), records);
      killed := KeysInOrder(records[pid].children);
      outcome := Done;
      if Balanced(old(records)) {
        DroppedBalanced(old(records), pid);
      }
    }

    /** The last `Arc` of a record is dropped. Every child record holds an
        `Arc` of its parent, so none exists. */
    method ReleaseLastRef(pid: Pid)
      requires Valid() && pid in records && records[pid].alive && NoChildRecords(records, pid)
      modifies this
      ensures records == Released(old(records), pid) && Valid()
      ensures Balanced(old(records)) ==> Balanced(records)
    {
      records := records[pid := records[pid].(alive := false)];
      ReleasedWellFormed(old(records), pid);
      if Balanced(old(records)) {
        ReleasedBalanced(old(records), pid);
      }
    }

    /** `Drop for KProcessStats`, on a record whose last `Arc` is gone. It
        succeeds exactly for user processes; on the system and the kernel
        record an assertion fails. */
    method Destroy(pid: Pid) returns (outcome: Outcome)
      requires Valid() && pid in records && !records[pid].alive
      modifies this
      ensures PID_SYSTEM in old(records)
      ensures DestroyFault(old(records), pid) == (if outcome.Panic? then Some(outcome.fault) else None)
      ensures outcome.Done? <==> pid > PID_KERNEL
      ensures old(records)[pid].parent.Some? ==> old(records)[pid].parent.value in old(records)
      ensures outcome == Panic(NoParent) ==> records == old(records)
      ensures outcome == Panic(NotInSystemMap) ==> records == LeaveParent(old(records), pid)
      ensures outcome.Done? ==> records == Unlinked(old(records), pid) && Valid()
      ensures outcome.Done? && Balanced(old(records)) && old(records)[pid].activeThreads == 0 ==> Balanced(records)
    {
      DestroyFaultCases(records, pid);
      assert EntryOk(records, pid);
      if records[pid].parent.None? {
        return Panic(NoParent);
      }
      var p := records[pid].parent.value;
      // the removal from the parent's map always finds the pid
      assert pid in records[p].children;
      records := records[p := records[p].(children := records[p].children - {pid})];
      if pid !in records[PID_SYSTEM].children {
        return Panic(NotInSystemMap);
      }
      records := records[PID_SYSTEM := records[PID_SYSTEM].(children := records[PID_SYSTEM].children - {pid})];
      records := records - {pid};
      UnlinkedWellFormed(old(records), pid);
      CountersKept(old(records), records);
      outcome := Done;
      if Balanced(old(records)) && old(records)[pid].activeThreads == 0 {
        UnlinkedBalanced(old(records), pid);
      }
    }

    /** `cpu_usage`: user plus kernel time over all CPUs, summed in a `u64`
        that wraps around. */
    method CpuUsage(pid: Pid) returns (res: u64)
      requires pid in records
      ensures res == CpuTotal(records[pid].perCpu) % U64_MODULUS
    {
      var data := records[pid].perCpu;
      res := 0;
      var i := 0;
      while i < |data|
        invariant 0 <= i <= |data|
        invariant res == CpuTotal(data[..i]) % U64_MODULUS
      {
        assert data[..i + 1][..i] == data[..i];
        var a := data[i].cpuUspace;
        var b := data[i].cpuKernel;
        ModAddLeft(CpuTotal(data[..i]), (a + b) % U64_MODULUS);
        ModAddLeft(a + b, CpuTotal(data[..i]));
        res := WrapAdd(res, WrapAdd(a, b));
        i := i + 1;
      }
      assert data[..i] == data;
    }

    /** `get_percpu_stats_entry`; indexing past the last CPU panics (`None`). */
    function GetPerCpuStatsEntry(pid: Pid, cpu: nat): (e: Option<PerCpuStatsEntry>)
      reads this
      requires pid in records
      ensures e.Some? <==> cpu < |records[pid].perCpu|
      ensures e.Some? ==> e.value == records[pid].perCpu[cpu]
    {
      if cpu < |records[pid].perCpu| then Some(records[pid].perCpu[cpu]) else None
    }

    /** `stats_from_pid`: the record of `pid` if the system map holds it and it
        is alive. */
    function StatsFromPid(pid: u64): (r: Option<Pid>)
      reads this
      requires Valid() && PID_SYSTEM in records
      ensures r.Some? <==> pid in records[PID_SYSTEM].children && pid in records && records[pid].alive
      ensures r.Some? ==> r.value == pid
    {
      ChildrenInTable(records, PID_SYSTEM);
      if pid in records[PID_SYSTEM].children && records[pid].alive then Some(pid) else None
    }

    /** `into_v1`: the record as a `ProcessStatsV1`. The name is cut to 32
        bytes and copied over the front of the destination's name buffer. */
    method IntoV1(pid: Pid, dest: ProcessStatsV1) returns (out: ProcessStatsV1)
      requires pid in records && |dest.debugNameBytes| == MAX_DEBUG_NAME_LEN
      ensures var r := records[pid];
        && out.pid == pid
        && out.parentPid == (if r.parent.None? then 0 else r.parent.value)
        && (out.parentPid == 0 <==> r.parent.None? || r.parent == Some(PID_SYSTEM))
        && out.totalThreads == r.totalThreads && out.activeThreads == r.activeThreads
        && out.totalChildren == r.totalChildren && out.activeChildren == r.activeChildren
        && out.pagesUser == r.memUser.pagesUsed && out.pagesKernel == r.memKernel.pagesUsed
        && out.cpuUsage == CpuTotal(r.perCpu) % U64_MODULUS
        && (out.systemProcess == 1 <==> r.owner.Alive? && r.owner.capSys)
        && (out.systemProcess == 0 <==> !(r.owner.Alive? && r.owner.capSys))
        && (out.active == 1 <==> r.active) && (out.active == 0 <==> !r.active)
      ensures var name := records[pid].debugName;
        && out.debugNameLen == (if |name| < MAX_DEBUG_NAME_LEN then |name| else MAX_DEBUG_NAME_LEN)
        && |out.debugNameBytes| == MAX_DEBUG_NAME_LEN
        && out.debugNameBytes[..out.debugNameLen] == name[..out.debugNameLen]
        && out.debugNameBytes[out.debugNameLen..] == dest.debugNameBytes[out.debugNameLen..]
        && (|name| <= MAX_DEBUG_NAME_LEN ==> out.debugNameBytes[..out.debugNameLen] == name)
    {
      var r := records[pid];
      var cpu := CpuUsage(pid);
      var systemProcess: u8 := 0;
      if r.owner.Alive? && r.owner.capSys {
        systemProcess := 1;
      }
      var name := TruncatedName(r.debugName);
      out := ProcessStatsV1(
        pid,
        if r.parent.None? then 0 else r.parent.value,
        r.totalThreads, r.totalChildren, r.activeThreads, r.activeChildren,
        r.memUser.pagesUsed, r.memKernel.pagesUsed, cpu,
        systemProcess,
        |name|,
        CopyPrefix(dest.debugNameBytes, name),
        if r.active then 1 else 0);
    }

    /** The live records among `keys`, handed to `cont` in order until it
        answers `false`; `calls` counts the earlier answers. */
    method VisitLive(keys: seq<Pid>, cont: (nat, Pid) -> bool, calls: nat) returns (visited: seq<Pid>)
      requires InTable(records, keys)
      ensures visited == Visit(LiveOnly(records, keys), cont, calls)
    {
      WalkIsVisit(records, keys, cont, calls);
      visited := [];
      var i := 0;
      while i < |keys|
        invariant 0 <= i <= |keys|
        invariant Walk(records, keys, cont, calls) == visited + Walk(records, keys[i..], cont, calls + |visited|)
      {
        assert keys[i..][1..] == keys[i + 1..];
        if records[keys[i]].alive {
          if !cont(calls + |visited|, keys[i]) {
            return visited + [keys[i]];
          }
          ghost var later := Walk(records, keys[i + 1..], cont, calls + |visited| + 1);
          assert visited + ([keys[i]] + later) == (visited + [keys[i]]) + later;
          visited := visited + [keys[i]];
        }
        i := i + 1;
      }
    }

    /** `iterate`. Flat: the system record first if `start` is the system pid,
        then every live record of the system map from `PID_KERNEL` up. Tree:
        the live children of `start`, if the system map holds `start` and it is
        alive. Each record goes to `cont` until it answers `false`. */
    method Iterate(start: Pid, flat: bool, cont: (nat, Pid) -> bool) returns (visited: seq<Pid>)
      requires Valid() && PID_SYSTEM in records
      ensures visited == Visit(IterCandidates(records, start, flat), cont, 0)
    {
      if flat {
        FlatCandidates(records, start);
        var keys := KeysInOrder(FlatKeys(records));
        if start == PID_SYSTEM {
          VisitFirst(PID_SYSTEM, LiveOnly(records, keys), cont);
          if !cont(0, PID_SYSTEM) {
            return [PID_SYSTEM];
          }
          var rest := VisitLive(keys, cont, 1);
          visited := [PID_SYSTEM] + rest;
        } else {
          visited := VisitLive(keys, cont, 0);
        }
      } else {
        ChildrenInTable(records, PID_SYSTEM);
        if start !in records[PID_SYSTEM].children || !records[start].alive {
          return [];
        }
        TreeCandidates(records, start);
        var keys := KeysInOrder(records[start].children);
        visited := VisitLive(keys, cont, 0);
      }
    }
  }

  /** Looking a pid up finds exactly the records a flat iteration visits
      after the system record. */
  lemma StatsFromPidMatchesIterate(reg: Registry, pid: Pid)
    requires reg.Valid() && PID_SYSTEM in reg.records
    ensures var c := IterCandidates(reg.records, PID_SYSTEM, true);
      reg.StatsFromPid(pid).Some? <==> pid in c[1..]
  {
    assert EntryOk(reg.records, PID_SYSTEM);
  }
}
