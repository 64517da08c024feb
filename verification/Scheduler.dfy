/** The process list and schedule(): a linked list walked in place. */
module Scheduler {
  import opened Bytes
  import opened PageFrames
  import opened RoundRobin

  const MAX_PROCESSES := 4194304
  const PROC_RUNNING := 1
  const PROC_IDLE := 4
  /** STACK_ELF_START + 0x1000. */
  const USER_STACK_TOP := 0xC000_0000

  class Process {
    var pid: nat
    var state: nat
    var pageDir: nat
    var fdTable: nat
    var regs: Registers
    var next: Process?
    var prev: Process?

    constructor (pid: nat, state: nat, pageDir: nat, fdTable: nat, regs: Registers)
      ensures this.pid == pid && this.state == state && this.pageDir == pageDir && this.fdTable == fdTable
      ensures this.regs == regs && next == null && prev == null
    {
      this.pid, this.state, this.pageDir, this.fdTable, this.regs := pid, state, pageDir, fdTable, regs;
      next, prev := null, null;
    }
  }

  /** The registers create_process gives a new process. */
  function InitialRegisters(entry: u32): Registers {
    NoRegisters.(eip := entry, csm := 0x1B, eflags := 0x202, ds := 0x23, ss := 0x23,
                 useresp := USER_STACK_TOP, esp := USER_STACK_TOP)
  }

  /** The registers with which a process at `entry` enters user mode: code selector 0x1B, data and stack selector 0x23,
      interrupts on, the stack at its top, and zeros. */
  ghost predicate Entering(r: Registers, entry: u32) {
    && r.eip == entry && r.csm == 0x1B && r.ds == 0x23 && r.ss == 0x23 && r.eflags == 0x202
    && r.esp == 0xC000_0000 && r.useresp == 0xC000_0000
    && r.eax == 0 && r.ebx == 0 && r.ecx == 0 && r.edx == 0 && r.esi == 0 && r.edi == 0 && r.ebp == 0
    && r.cr2 == 0 && r.number == 0 && r.error == 0
  }

  ghost predicate AllZero(r: Registers) {
    && r.eip == 0 && r.csm == 0 && r.ds == 0 && r.ss == 0 && r.eflags == 0 && r.esp == 0 && r.useresp == 0
    && r.eax == 0 && r.ebx == 0 && r.ecx == 0 && r.edx == 0 && r.esi == 0 && r.edi == 0 && r.ebp == 0
    && r.cr2 == 0 && r.number == 0 && r.error == 0
  }

  /** The idle head of the list: a zeroed record but for its state. */
  ghost predicate Blank(process: Process)
    reads process
  {
    process.state == 4 && process.pid == 0 && process.pageDir == 0 && process.fdTable == 0 && AllZero(process.regs)
  }

  ghost function SavedOf(list: seq<Process>): seq<Registers>
    reads list
  {
    seq(|list|, i requires 0 <= i < |list| reads list => list[i].regs)
  }

  ghost function RunningOf(list: seq<Process>): Running
    reads list
  {
    seq(|list|, i requires 0 <= i < |list| reads list => list[i].state == PROC_RUNNING)
  }

  /** Node `i` is linked to its neighbours in the list. */
  ghost predicate LinkedAt(list: seq<Process>, i: nat)
    requires i < |list|
    reads list
  {
    && list[i].next == (if i + 1 < |list| then list[i + 1] else null)
    && list[i].prev == (if i > 0 then list[i - 1] else null)
  }

  /** The nodes are linked in this order, each way, and no node occurs twice. */
  ghost predicate Linked(list: seq<Process>)
    reads list
  {
    && (forall i, j :: 0 <= i < j < |list| ==> list[i] != list[j])
    && forall i :: 0 <= i < |list| ==> LinkedAt(list, i)
  }

  ghost function PidsOf(list: seq<Process>): seq<nat>
    reads list
  {
    seq(|list|, i requires 0 <= i < |list| reads list => list[i].pid)
  }

  /** Listed processes have different, marked ids, those apart that got 0 because there was none left. */
  ghost predicate PidsDistinct(pids: seq<nat>, used: set<nat>) {
    && (forall i :: 0 < i < |pids| && pids[i] != 0 ==> pids[i] in used)
    && forall i, j :: 0 < i < j < |pids| && pids[i] != 0 ==> pids[i] != pids[j]
  }

  lemma PidAdded(pids: seq<nat>, used: set<nat>, pid: nat, used': set<nat>)
    requires PidsDistinct(pids, used) && |pids| > 0
    requires if pid == 0 then used' == used else pid !in used && used' == used + {pid}
    ensures PidsDistinct(pids + [pid], used')
  {
  }

  lemma SnapshotsGrow(list: seq<Process>, process: Process)
    ensures SavedOf(list + [process]) == SavedOf(list) + [process.regs]
    ensures RunningOf(list + [process]) == RunningOf(list) + [process.state == PROC_RUNNING]
    ensures PidsOf(list + [process]) == PidsOf(list) + [process.pid]
  {
  }

  lemma IdleOnly(idle: Process)
    requires idle.state == PROC_IDLE && idle.next == null && idle.prev == null
    ensures Linked([idle])
    ensures idle.pid == 0 && idle.pageDir == 0 && idle.fdTable == 0 && idle.regs == NoRegisters ==> Blank(idle)
    ensures AllRunning(RunningOf([idle])) && PidsDistinct(PidsOf([idle]), {})
  {
  }

  lemma SnapshotsAt(list: seq<Process>)
    ensures |RunningOf(list)| == |list| && |SavedOf(list)| == |list|
    ensures forall i :: 0 <= i < |list| ==> RunningOf(list)[i] == (list[i].state == PROC_RUNNING)
    ensures forall i :: 0 <= i < |list| ==> SavedOf(list)[i] == list[i].regs
  {
  }

  lemma PidsLength(list: seq<Process>)
    ensures |PidsOf(list)| == |list|
  {
  }

  twostate lemma SnapshotsSame(list: seq<Process>)
    requires forall i :: 0 <= i < |list| ==>
               && list[i].regs == old(list[i].regs) && list[i].state == old(list[i].state)
               && list[i].pid == old(list[i].pid)
    ensures SavedOf(list) == old(SavedOf(list)) && RunningOf(list) == old(RunningOf(list))
    ensures PidsOf(list) == old(PidsOf(list))
  {
  }

  class ProcessTable {
    var head: Process
    var current: Process
    var pidBitmap: seq<bv8>
    /** The active page directory and file-descriptor table. */
    var pageDir: nat
    var fdTable: nat
    ghost var list: seq<Process>
    ghost var at: nat

    ghost predicate Valid()
      reads this, list
    {
      && |list| > 0 && Linked(list)
      && head == list[0] && head.state == PROC_IDLE
      && at < |list| && current == list[at]
      && |pidBitmap| == MAX_PROCESSES / 8
    }

    ghost function View(): Machine
      reads this, list
    {
      Machine(at, SavedOf(list))
    }

    /** init_process. */
    constructor (pageDir: nat, fdTable: nat)
      ensures Valid() && |list| == 1 && fresh(list[0]) && at == 0
      ensures Blank(head)
      ensures this.pageDir == pageDir && this.fdTable == fdTable
      ensures MarkedSet(pidBitmap) == {} && PidsDistinct(PidsOf(list), {}) && AllRunning(RunningOf(list))
    {
      hide BlankBitmap, Marked, MarkedSet, RunningOf, PidsOf, PidsDistinct, AllRunning, Linked, NoRegisters, Blank;
      var idle := new Process(0, PROC_IDLE, 0, 0, NoRegisters);
      head, current := idle, idle;
      list, at := [idle], 0;
      pidBitmap := BlankBitmap(MAX_PROCESSES / 8);
      this.pageDir, this.fdTable := pageDir, fdTable;
      new;
      NothingMarked(MAX_PROCESSES / 8);
      IdleOnly(idle);
    }

    /** allocate_pid: the lowest free one from 1, or 0 when all are taken. */
    method AllocatePid() returns (pid: nat)
      requires |pidBitmap| == MAX_PROCESSES / 8
      modifies this`pidBitmap
      ensures |pidBitmap| == 4194304 / 8
      ensures pid == 0 <==> NoneFree(old(MarkedSet(pidBitmap)), 1, 4194304)
      ensures pid == 0 ==> pidBitmap == old(pidBitmap)
      ensures pid != 0 ==>
                && LowestFree(old(MarkedSet(pidBitmap)), 1, 4194304, pid)
                && MarkedSet(pidBitmap) == old(MarkedSet(pidBitmap)) + {pid}
    {
      hide Marked, MarkedSet, SetBit;
      ghost var used := MarkedSet(pidBitmap);
      var i := 1;
      while i < MAX_PROCESSES
        invariant 1 <= i <= MAX_PROCESSES
        invariant forall g :: 1 <= g < i ==> g in used
        invariant pidBitmap == old(pidBitmap)
      {
        InMarkedSet(pidBitmap, i);
        if !Marked(pidBitmap, i) {
          assert LowestFree(used, 1, MAX_PROCESSES, i);
          SetInSet(pidBitmap, i);
          pidBitmap := SetBit(pidBitmap, i);
          return i;
        }
        i := i + 1;
      }
      pid := 0;
    }

    ghost function Tail(): Process
      requires |list| > 0
      reads this
    {
      list[|list| - 1]
    }

    /** The walk to the last process. */
    method FindTail() returns (last: Process)
      requires Valid()
      ensures last == Tail()
    {
      hide RunningOf, SavedOf;
      last := head;
      ghost var i: nat := 0;
      while last.next != null
        invariant i < |list| && last == list[i]
        decreases |list| - i
      {
        assert LinkedAt(list, i);
        last := last.next;
        i := i + 1;
      }
      assert LinkedAt(list, i);
    }

    /** The end of create_process: the new process goes to the tail of the list. */
    method Append(process: Process)
      requires Valid() && process !in list && process.next == null && process.prev == null
      modifies Tail()`next, process`prev, this`list
      ensures Valid() && list == old(list) + [process] && at == old(at)
      ensures SavedOf(list) == old(SavedOf(list)) + [process.regs]
      ensures RunningOf(list) == old(RunningOf(list)) + [process.state == PROC_RUNNING]
      ensures PidsOf(list) == old(PidsOf(list)) + [process.pid]
    {
      hide RunningOf, SavedOf, PidsOf;
      var last := FindTail();
      ghost var before, n := list, |list|;
      last.next := process;
      process.prev := last;
      list := list + [process];
      forall i | 0 <= i < n + 1 ensures LinkedAt(list, i) {
        if i < n {
          assert old(LinkedAt(before, i));
        }
      }
      SnapshotsSame(before);
      SnapshotsGrow(before, process);
    }

    /**
     * The process record create_process fills in once the image is loaded: RUNNING, at the tail of the list, with its
     * initial registers and an id no other listed process has.
     */
    method Create(entry: u32, directory: nat, files: nat) returns (process: Process)
      requires Valid() && PidsDistinct(PidsOf(list), MarkedSet(pidBitmap))
      modifies Tail()`next, this`list, this`pidBitmap
      ensures Valid() && PidsDistinct(PidsOf(list), MarkedSet(pidBitmap))
      ensures list == old(list) + [process] && at == old(at) && fresh(process)
      ensures process.pageDir == directory && process.fdTable == files && process.state == 1
      ensures process.pid == 0 <==> NoneFree(old(MarkedSet(pidBitmap)), 1, 4194304)
      ensures process.pid != 0 ==> LowestFree(old(MarkedSet(pidBitmap)), 1, 4194304, process.pid)
      ensures Entering(process.regs, entry)
      ensures SavedOf(list) == old(SavedOf(list)) + [process.regs]
      ensures RunningOf(list) == old(RunningOf(list)) + [true]
    {
      hide RunningOf, SavedOf, PidsOf, MarkedSet, PidsDistinct, Linked, NoneFree;
      ghost var used := MarkedSet(pidBitmap);
      ghost var pids := PidsOf(list);
      var pid := AllocatePid();
      PidsLength(list);
      PidAdded(pids, used, pid, MarkedSet(pidBitmap));
      process := new Process(pid, PROC_RUNNING, directory, files, InitialRegisters(entry));
      Append(process);
    }

    /** The memcpy of the interrupted registers into the current process. */
    method SaveContext(regs: Registers)
      requires Valid()
      modifies current`regs
      ensures Valid()
      ensures SavedOf(list) == old(SavedOf(list))[at := regs]
      ensures RunningOf(list) == old(RunningOf(list))
    {
      current.regs := regs;
      forall i | 0 <= i < |list| ensures LinkedAt(list, i) {
        assert old(LinkedAt(list, i));
      }
    }

    /** schedule: saves the interrupted context and picks the process to resume. */
    method Schedule(regs: Registers) returns (out: Registers)
      requires Valid() && CanLeave(RunningOf(list), at)
      modifies this`current, this`at, this`pageDir, this`fdTable, current`regs
      ensures Valid() && list == old(list)
      ensures RunningOf(list) == old(RunningOf(list))
      ensures Tick(RunningOf(list), old(View()), regs, View(), out)
      ensures if AnyRunning(RunningOf(list)) then pageDir == current.pageDir && fdTable == current.fdTable
              else pageDir == old(pageDir) && fdTable == old(fdTable)
    {
      hide IsNext, CanLeave, RunningOf, SavedOf, Linked, AnyRunning;
      SnapshotsAt(list);
      SaveContext(regs);
      Search();
      SnapshotsAt(list);
      PickedRuns(RunningOf(list), old(at), at);
      out := regs;
      if current.state == PROC_RUNNING {
        pageDir := current.pageDir;
        fdTable := current.fdTable;
        out := current.regs;
      }
    }

    /** The search loop. */
    method Search()
      requires Valid() && CanLeave(RunningOf(list), at)
      modifies this`current, this`at
      ensures Valid()
      ensures AnyRunning(RunningOf(list)) ==> IsNext(RunningOf(list), old(at), at)
      ensures !AnyRunning(RunningOf(list)) ==> at == if |list| == 1 then 0 else old(at)
    {
      hide IsNext, CanLeave, AnyRunning, Searching, RunningOf, Steps, Linked;
      ghost var running, n: nat, k: nat := RunningOf(list), |list| - 1, 0;
      SnapshotsAt(list);
      SearchStart(running, at);
      var start := current;
      while true
        invariant Valid() && RunningOf(list) == running
        invariant k <= n && Searching(running, old(at), k, at)
        decreases n - k
      {
        NextNode();
        if current.next != null {
          current := current.next;
        } else if head.next != null {
          current := head.next;
        } else {
          current := head;
          at := 0;
          break;
        }
        SearchStep(running, old(at), k, at);
        at := Next(at, n);
        k := k + 1;
        SameNode(at, old(at));
        if !(current.state != PROC_RUNNING && current != start) {
          break;
        }
      }
    }

    lemma SameNode(i: nat, j: nat)
      requires Valid() && i < |list| && j < |list|
      ensures list[i] == list[j] <==> i == j
    {
    }

    /** What the links of the current node and of the head say. */
    lemma NextNode()
      requires Valid()
      ensures if at + 1 < |list| then current.next == list[at + 1] else current.next == null
      ensures if |list| > 1 then head.next == list[1] else head.next == null
    {
      assert LinkedAt(list, at) && LinkedAt(list, 0);
    }
  }

  // Whole runs.

  datatype Call = NewProcess(entry: u32, directory: nat, files: nat) | Interrupt(regs: Registers)

  /** A process table as the kernel can come to have it. */
  ghost predicate Reachable(table: ProcessTable)
    reads table, table.list
  {
    && table.Valid() && AllRunning(RunningOf(table.list))
    && PidsDistinct(PidsOf(table.list), MarkedSet(table.pidBitmap))
  }

  lemma AppendKeepsRunning(running: Running)
    requires AllRunning(running)
    ensures AllRunning(running + [true])
  {
  }

  /** schedule on a reachable table: it always returns. */
  method OneTick(table: ProcessTable, regs: Registers) returns (out: Registers)
    requires Reachable(table)
    modifies table`current, table`at, table`pageDir, table`fdTable, table.current`regs
    ensures Reachable(table) && table.list == old(table.list)
    ensures RunningOf(table.list) == old(RunningOf(table.list))
    ensures Tick(RunningOf(table.list), old(table.View()), regs, table.View(), out)
  {
    hide RunningOf, SavedOf, PidsOf, Linked, PidsDistinct, MarkedSet, CanLeave, AllRunning, Tick, ProcessTable.View;
    SnapshotsAt(table.list);
    AllRunningLeaves(RunningOf(table.list), table.at);
    out := table.Schedule(regs);
    PidsSame(table.list);
  }

  twostate lemma PidsSame(list: seq<Process>)
    requires forall i :: 0 <= i < |list| ==> list[i].pid == old(list[i].pid)
    ensures PidsOf(list) == old(PidsOf(list))
  {
  }

  /** What a call gives back: a new process, or the registers of the context resumed. */
  datatype Reply = Created | Resumed(out: Registers)

  /** Which processes are RUNNING, which is current, and what each has saved. */
  datatype Moment = Moment(running: Running, machine: Machine)

  ghost function Now(table: ProcessTable): Moment
    reads table, table.list
  {
    Moment(RunningOf(table.list), table.View())
  }

  /** A creation adds a RUNNING process that will enter user mode at `entry`; an interrupt is a tick. */
  ghost predicate Handles(call: Call, m: Moment, m': Moment, reply: Reply) {
    match call
    case NewProcess(entry, _, _) =>
      && reply == Created && m'.running == m.running + [true] && m'.machine.current == m.machine.current
      && |m'.machine.saved| == |m.machine.saved| + 1 && m.machine.saved <= m'.machine.saved
      && Entering(m'.machine.saved[|m.machine.saved|], entry)
    case Interrupt(regs) =>
      && reply.Resumed? && m'.running == m.running
      && Tick(m.running, m.machine, regs, m'.machine, reply.out)
  }

  ghost predicate Served(calls: seq<Call>, moments: seq<Moment>, replies: seq<Reply>) {
    && |moments| == |calls| + 1 && |replies| == |calls|
    && forall i :: 0 <= i < |calls| ==> Handles(calls[i], moments[i], moments[i + 1], replies[i])
  }

  lemma ServedMore(calls: seq<Call>, moments: seq<Moment>, replies: seq<Reply>, call: Call, m: Moment, reply: Reply)
    requires Served(calls, moments, replies) && Handles(call, moments[|calls|], m, reply)
    ensures Served(calls + [call], moments + [m], replies + [reply])
  {
    hide Handles;
  }

  /** One call on a reachable table. */
  method ServeOne(table: ProcessTable, call: Call) returns (reply: Reply)
    requires Reachable(table)
    modifies table, table.Tail()`next, table.current`regs
    ensures Reachable(table) && old(table.list) <= table.list
    ensures forall p :: p in table.list ==> p in old(table.list) || fresh(p)
    ensures Handles(call, old(Now(table)), Now(table), reply)
  {
    hide RunningOf, SavedOf, PidsOf, Linked, PidsDistinct, MarkedSet, AllRunning, Tick, Entering;
    SnapshotsAt(table.list);
    match call {
      case NewProcess(entry, directory, files) =>
        AppendKeepsRunning(RunningOf(table.list));
        var _ := table.Create(entry, directory, files);
        SnapshotsAt(table.list);
        reply := Created;
      case Interrupt(regs) =>
        var out := OneTick(table, regs);
        reply := Resumed(out);
    }
  }

  /**
   * Any sequence of process creations and timer interrupts from a reachable table ends: every call of schedule returns,
   * each call does what it should, and the table stays reachable. The table of init_process is.
   */
  method Serve(table: ProcessTable, calls: seq<Call>) returns (replies: seq<Reply>, ghost moments: seq<Moment>)
    requires Reachable(table)
    modifies table, table.list
    ensures Reachable(table) && old(table.list) <= table.list
    ensures forall p :: p in table.list ==> p in old(table.list) || fresh(p)
    ensures Served(calls, moments, replies) && moments[0] == old(Now(table)) && moments[|calls|] == Now(table)
  {
    hide Handles, Served, Now, RunningOf, SavedOf, PidsOf, Linked, PidsDistinct, MarkedSet, AllRunning;
    replies, moments := [], [Now(table)];
    ServedNone(Now(table));
    assert calls[..0] == [];
    var i := 0;
    while i < |calls|
      invariant i <= |calls| && Reachable(table) && old(table.list) <= table.list
      invariant forall p :: p in table.list ==> p in old(table.list) || fresh(p)
      invariant |moments| == i + 1 && moments[0] == old(Now(table)) && moments[i] == Now(table)
      invariant Served(calls[..i], moments, replies)
    {
      ghost var seen := table.list;
      assert table.Tail() in seen && table.current in seen;
      var reply := ServeOne(table, calls[i]);
      assert forall p :: p in table.list ==> p in seen || fresh(p);
      ServedMore(calls[..i], moments, replies, calls[i], Now(table), reply);
      assert calls[..i + 1] == calls[..i] + [calls[i]];
      replies, moments := replies + [reply], moments + [Now(table)];
      i := i + 1;
    }
    assert calls[..i] == calls;
  }

  lemma ServedNone(m: Moment)
    ensures Served([], [m], [])
  {
  }

  /** The timer interrupts of a run without new processes make a run of the round robin. */
  method Ticks(table: ProcessTable, inputs: seq<Registers>) returns (outs: seq<Registers>, ghost states: seq<Machine>)
    requires Reachable(table)
    modifies table, table.list
    ensures Reachable(table) && table.list == old(table.list) && |states| == |inputs| + 1
    ensures RunningOf(table.list) == old(RunningOf(table.list))
    ensures Run(RunningOf(table.list), states, inputs, outs)
    ensures states[0] == old(table.View()) && states[|inputs|] == table.View()
  {
    hide RunningOf, SavedOf, PidsOf, Linked, PidsDistinct, MarkedSet, AllRunning, Tick, ProcessTable.View;
    outs, states := [], [table.View()];
    ghost var running := RunningOf(table.list);
    var i := 0;
    while i < |inputs|
      invariant i <= |inputs| && Reachable(table) && table.list == old(table.list) && RunningOf(table.list) == running
      invariant |states| == i + 1 && |outs| == i && Run(running, states, inputs[..i], outs)
      invariant states[0] == old(table.View()) && states[i] == table.View()
    {
      assert table.current in table.list;
      var out := OneTick(table, inputs[i]);
      RunMore(running, states, inputs[..i], outs, inputs[i], out, table.View());
      assert inputs[..i + 1] == inputs[..i] + [inputs[i]];
      outs, states := outs + [out], states + [table.View()];
      i := i + 1;
    }
    assert inputs[..i] == inputs;
  }

  lemma RunMore(running: Running, states: seq<Machine>, inputs: seq<Registers>, outs: seq<Registers>,
                regs: Registers, out: Registers, s: Machine)
    requires Run(running, states, inputs, outs) && Tick(running, states[|inputs|], regs, s, out)
    ensures Run(running, states + [s], inputs + [regs], outs + [out])
  {
    hide Tick;
  }

  /** When the run of a table comes to position `p` for the first time, it returns what `entry` says. */
  ghost predicate EntersFirst(states: seq<Machine>, outs: seq<Registers>, p: nat, entry: u32) {
    forall j :: 0 <= j < |outs| && Undisturbed(states, p, 0, j + 1) && states[j + 1].current == p ==>
      Entering(outs[j], entry)
  }

  lemma FirstEntry(running: Running, states: seq<Machine>, inputs: seq<Registers>, outs: seq<Registers>, p: nat,
                   entry: u32)
    requires Run(running, states, inputs, outs) && p < |running| && running[p] && p > 0
    requires p < |states[0].saved| && Entering(states[0].saved[p], entry)
    ensures EntersFirst(states, outs, p, entry)
  {
    hide Entering;
    forall j | 0 <= j < |outs| && Undisturbed(states, p, 0, j + 1) && states[j + 1].current == p
      ensures Entering(outs[j], entry)
    {
      StartsFresh(running, states, inputs, outs, p, j);
    }
  }

  /**
   * A process created and then the timer interrupts `inputs`: with as many of them as there are processes the new one
   * is resumed, and the first that resumes it returns exactly the registers of a process that enters user mode.
   */
  method CreateAndRun(table: ProcessTable, entry: u32, directory: nat, files: nat, inputs: seq<Registers>)
    returns (outs: seq<Registers>, ghost states: seq<Machine>)
    requires Reachable(table)
    modifies table, table.list
    ensures Reachable(table) && |table.list| == old(|table.list|) + 1
    ensures Run(RunningOf(table.list), states, inputs, outs)
    ensures EntersFirst(states, outs, old(|table.list|), entry)
    ensures |inputs| >= old(|table.list|) ==>
              exists j :: 0 < j <= old(|table.list|) && states[j].current == old(|table.list|)
  {
    hide RunningOf, SavedOf, PidsOf, Linked, PidsDistinct, MarkedSet, AllRunning, Entering, EntersFirst, Run;
    ghost var p := |table.list|;
    AppendKeepsRunning(RunningOf(table.list));
    SnapshotsAt(table.list);
    assert table.Tail() in table.list;
    var process := table.Create(entry, directory, files);
    SnapshotsAt(table.list);
    outs, states := Ticks(table, inputs);
    FirstEntry(RunningOf(table.list), states, inputs, outs, p, entry);
    if |inputs| >= p {
      Fair(RunningOf(table.list), states, inputs, outs, 0, p);
    }
  }
}
