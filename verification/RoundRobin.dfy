/** The order in which the scheduler takes processes, and what follows for whole runs. */
module RoundRobin {
  import opened Bytes

  /** The saved registers of an interrupted context. */
  datatype Registers = Registers(
    cr2: u32, ds: u32,
    edi: u32, esi: u32, ebp: u32, esp: u32, ebx: u32, edx: u32, ecx: u32, eax: u32,
    number: u32, error: u32,
    eip: u32, csm: u32, eflags: u32, useresp: u32, ss: u32)

  const NoRegisters := Registers(0, 0, 0, 0, 0, 0, 0, 0, 0, 0, 0, 0, 0, 0, 0, 0, 0)

  /** Which list positions are RUNNING; position 0 is the idle head, which never is. */
  type Running = seq<bool>

  ghost predicate Table(running: Running) {
    |running| > 0 && !running[0]
  }

  /** The list position after `c`: the head is skipped when the list wraps. */
  function Next(c: nat, n: nat): nat {
    if c < n then c + 1 else if n > 0 then 1 else 0
  }

  function Steps(c: nat, k: nat, n: nat): nat {
    if k == 0 then c else Next(Steps(c, k - 1, n), n)
  }

  /** How many steps from `c` to `p`, at least one. */
  function Distance(c: nat, p: nat, n: nat): int {
    if p > c then p - c else n - c + p
  }

  lemma {:induction false} StepsReach(c: nat, k: nat, n: nat)
    requires c <= n && 1 <= k <= n
    ensures 1 <= Steps(c, k, n) <= n && Distance(c, Steps(c, k, n), n) == k
  {
    if k > 1 {
      StepsReach(c, k - 1, n);
    } else {
      assert Steps(c, 0, n) == c;
    }
  }

  lemma {:induction false} StepsRange(c: nat, k: nat, n: nat)
    requires c <= n
    ensures Steps(c, k, n) <= n && (k > 0 && n > 0 ==> Steps(c, k, n) >= 1)
  {
    if k > 0 {
      StepsRange(c, k - 1, n);
    }
  }

  /** `p` is the RUNNING process cyclically next after `c`. */
  ghost predicate IsNext(running: Running, c: nat, p: nat) {
    var n := |running| - 1;
    && 1 <= p <= n && running[p]
    && forall q :: 1 <= q <= n && running[q] ==> Distance(c, p, n) <= Distance(c, q, n)
  }

  ghost predicate AnyRunning(running: Running) {
    exists p :: 0 < p < |running| && running[p]
  }

  lemma NextUnique(running: Running, c: nat, p: nat, q: nat)
    requires c < |running| && IsNext(running, c, p) && IsNext(running, c, q)
    ensures p == q
  {
  }

  /** Positions `q` that come before `p` when counting up from `c` and round the list, `c` itself coming last. */
  predicate Between(c: nat, q: nat, p: nat) {
    if c < p then c < q < p else c < q || q < p
  }

  /** No RUNNING process lies between the current one and the next. */
  lemma NextIs(running: Running, c: nat, p: nat)
    requires c < |running|
    ensures IsNext(running, c, p) <==>
            && 1 <= p < |running| && running[p]
            && forall q :: 1 <= q < |running| && Between(c, q, p) ==> !running[q]
  {
    var n := |running| - 1;
    if 1 <= p <= n {
      forall q | 1 <= q <= n ensures Between(c, q, p) <==> Distance(c, q, n) < Distance(c, p, n) {
      }
    }
  }

  /** Every process but the idle head is RUNNING. */
  ghost predicate AllRunning(running: Running) {
    Table(running) && forall i :: 0 < i < |running| ==> running[i]
  }

  /** Then the search always ends. */
  lemma AllRunningLeaves(running: Running, c: nat)
    requires AllRunning(running) && c < |running|
    ensures CanLeave(running, c)
  {
    if |running| > 1 {
      assert running[1];
    }
  }

  // When the search loop ends.

  /** The loop of schedule leaves after `k` steps. */
  predicate Leaves(running: Running, c: nat, k: nat)
    requires |running| > 0
  {
    var n := |running| - 1;
    n == 0 || Steps(c, k, n) == c || (Steps(c, k, n) < |running| && running[Steps(c, k, n)])
  }

  /** There is nothing to search, or something to find, or a listed process to come back to. */
  ghost predicate CanLeave(running: Running, c: nat) {
    |running| == 1 || AnyRunning(running) || c > 0
  }

  /**
   * For an arbitrary table the search ends exactly when this holds: with processes listed, none RUNNING, and the idle
   * head current, it would go round the list for ever, for the head is never reached again.
   */
  lemma LeavesIff(running: Running, c: nat)
    requires Table(running) && c < |running|
    ensures (exists k: nat :: k > 0 && Leaves(running, c, k)) <==> CanLeave(running, c)
  {
    hide Steps;
    var n := |running| - 1;
    if n == 0 {
      assert Leaves(running, c, 1);
    } else if c > 0 {
      StepsBack(c, n);
      assert Leaves(running, c, n);
    } else if AnyRunning(running) {
      var p :| 0 < p < |running| && running[p];
      StepsTo(c, p, n);
      assert Leaves(running, c, Distance(c, p, n));
    } else {
      forall k: nat | k > 0 ensures !Leaves(running, c, k) {
        StepsRange(c, k, n);
      }
    }
  }

  lemma StepsTo(c: nat, p: nat, n: nat)
    requires c <= n && 1 <= p <= n
    ensures 1 <= Distance(c, p, n) <= n && Steps(c, Distance(c, p, n), n) == p
  {
    StepsReach(c, Distance(c, p, n), n);
  }

  lemma StepsBack(c: nat, n: nat)
    requires 1 <= c <= n
    ensures Steps(c, n, n) == c
  {
    StepsTo(c, c, n);
  }

  /** The search has taken `k` steps from `c` to `at` and met no RUNNING process. */
  ghost predicate Searching(running: Running, c: nat, k: nat, at: nat) {
    var n := |running| - 1;
    && Table(running) && c <= n && k <= n && (n > 0 ==> k < n) && at == Steps(c, k, n)
    && forall q :: 1 <= q <= n && running[q] ==> Distance(c, q, n) > k
  }

  lemma SearchStart(running: Running, c: nat)
    requires Table(running) && c < |running|
    ensures Searching(running, c, 0, c)
    ensures |running| == 1 ==> !AnyRunning(running)
  {
  }

  lemma SearchStep(running: Running, c: nat, k: nat, at: nat)
    requires Searching(running, c, k, at) && CanLeave(running, c) && |running| > 1
    ensures var p := Next(at, |running| - 1);
            && 1 <= p < |running|
            && (running[p] ==> AnyRunning(running) && IsNext(running, c, p))
            && (!running[p] && p == c ==> !AnyRunning(running))
            && (!running[p] && p != c ==> k + 1 < |running| && Searching(running, c, k + 1, p))
  {
    var n := |running| - 1;
    var p := Next(at, n);
    StepsReach(c, k + 1, n);
    assert p == Steps(c, k + 1, n);
    hide Steps;
    if !running[p] {
      forall q | 1 <= q <= n && running[q] ensures Distance(c, q, n) > k + 1 {
      }
    }
  }

  lemma PickedRuns(running: Running, c: nat, p: nat)
    requires p < |running|
    ensures IsNext(running, c, p) ==> running[p]
    ensures !AnyRunning(running) ==> p == 0 || !running[p]
  {
  }

  // Ticks.

  /** Which list position runs, and the registers saved at each. */
  datatype Machine = Machine(current: nat, saved: seq<Registers>)

  ghost predicate MachineOk(running: Running, s: Machine) {
    Table(running) && |s.saved| == |running| && s.current < |running|
  }

  /** One call of schedule, interrupted context `regs`, resumed context `out`. */
  ghost predicate Tick(running: Running, s: Machine, regs: Registers, s': Machine, out: Registers) {
    && MachineOk(running, s) && MachineOk(running, s')
    && s'.saved == s.saved[s.current := regs]
    && if AnyRunning(running) then
         IsNext(running, s.current, s'.current) && out == s'.saved[s'.current]
       else
         (s'.current == if |running| == 1 then 0 else s.current) && out == regs
  }

  ghost predicate Run(running: Running, states: seq<Machine>, inputs: seq<Registers>, outs: seq<Registers>) {
    && |states| == |inputs| + 1 && |outs| == |inputs|
    && forall t :: 0 <= t < |inputs| ==> Tick(running, states[t], inputs[t], states[t + 1], outs[t])
  }

  /** Either the next tick resumes `p`, or it brings `p` nearer. */
  lemma TickNearer(running: Running, s: Machine, regs: Registers, s': Machine, out: Registers, p: nat)
    requires Tick(running, s, regs, s', out) && 1 <= p < |running| && running[p]
    ensures s'.current == p || Distance(s'.current, p, |running| - 1) < Distance(s.current, p, |running| - 1)
  {
    assert AnyRunning(running);
    var n := |running| - 1;
    var q := s'.current;
    assert Distance(s.current, q, n) <= Distance(s.current, p, n);
  }

  /** Whatever happens, a RUNNING process of `n` listed ones is resumed within `n` ticks. */
  lemma {:induction false} ResumedInTime(running: Running, states: seq<Machine>, inputs: seq<Registers>,
                                         outs: seq<Registers>, t: nat, p: nat, d: nat)
    requires Run(running, states, inputs, outs) && 1 <= p < |running| && running[p]
    requires t + d <= |inputs| && MachineOk(running, states[t])
    requires Distance(states[t].current, p, |running| - 1) <= d
    ensures exists j :: t < j <= t + d && states[j].current == p
    decreases d
  {
    hide Distance;
    StepsTo(states[t].current, p, |running| - 1);
    assert Tick(running, states[t], inputs[t], states[t + 1], outs[t]);
    TickNearer(running, states[t], inputs[t], states[t + 1], outs[t], p);
    if states[t + 1].current != p {
      ResumedInTime(running, states, inputs, outs, t + 1, p, d - 1);
    }
  }

  lemma Fair(running: Running, states: seq<Machine>, inputs: seq<Registers>, outs: seq<Registers>, t: nat, p: nat)
    requires Run(running, states, inputs, outs) && 1 <= p < |running| && running[p]
    requires t + (|running| - 1) <= |inputs|
    ensures exists j :: t < j <= t + (|running| - 1) && states[j].current == p
  {
    assert Tick(running, states[t], inputs[t], states[t + 1], outs[t]);
    StepsTo(states[t].current, p, |running| - 1);
    ResumedInTime(running, states, inputs, outs, t, p, |running| - 1);
  }

  /** `p` was not interrupted at any tick of `[i, j)`. */
  ghost predicate Undisturbed(states: seq<Machine>, p: nat, i: nat, j: nat) {
    i <= j < |states| && forall t :: i <= t < j ==> states[t].current != p
  }

  lemma {:induction false} SavedStays(running: Running, states: seq<Machine>, inputs: seq<Registers>,
                                      outs: seq<Registers>, p: nat, i: nat, j: nat)
    requires Run(running, states, inputs, outs) && p < |running| && Undisturbed(states, p, i, j)
    requires MachineOk(running, states[i]) && MachineOk(running, states[j])
    ensures states[j].saved[p] == states[i].saved[p]
    decreases j - i
  {
    if i < j {
      assert Tick(running, states[j - 1], inputs[j - 1], states[j], outs[j - 1]);
      SavedStays(running, states, inputs, outs, p, i, j - 1);
    }
  }

  /** A process resumes with the registers it had when it was last preempted. */
  lemma ResumesWhereItStopped(running: Running, states: seq<Machine>, inputs: seq<Registers>, outs: seq<Registers>,
                              p: nat, i: nat, j: nat)
    requires Run(running, states, inputs, outs) && AnyRunning(running)
    requires i <= j < |inputs| && p < |running|
    requires states[i].current == p && Undisturbed(states, p, i + 1, j + 1) && states[j + 1].current == p
    ensures outs[j] == inputs[i]
  {
    assert Tick(running, states[i], inputs[i], states[i + 1], outs[i]);
    assert Tick(running, states[j], inputs[j], states[j + 1], outs[j]);
    SavedStays(running, states, inputs, outs, p, i + 1, j + 1);
  }

  /** A process that has never run starts with its initial registers. */
  lemma StartsFresh(running: Running, states: seq<Machine>, inputs: seq<Registers>, outs: seq<Registers>,
                    p: nat, j: nat)
    requires Run(running, states, inputs, outs) && AnyRunning(running) && j < |inputs| && p < |running|
    requires Undisturbed(states, p, 0, j + 1) && states[j + 1].current == p
    ensures MachineOk(running, states[0]) && outs[j] == states[0].saved[p]
  {
    assert Tick(running, states[0], inputs[0], states[1], outs[0]);
    assert Tick(running, states[j], inputs[j], states[j + 1], outs[j]);
    SavedStays(running, states, inputs, outs, p, 0, j + 1);
  }
}
