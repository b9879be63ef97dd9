/** The timing of one instruction over successive cycles: a station waits
    with its full latency, counts down by one per cycle once it executes,
    and writes in the cycle after its countdown reaches zero. Hence an
    instruction whose execution starts in cycle c writes its result in
    cycle c + latency. */
module Timing {
  import opened Types
  import opened Instructions
  import opened Engine
  import opened Invariants
  import opened Cycle

  /** Every busy station that has not started executing still holds the
      configured latency of its operation. */
  predicate LatencyOk(m: Machine, config: HardwareConfig)
  {
    forall k :: 0 <= k < |m.stations| && m.stations[k].busy && !m.stations[k].isExecuting && m.stations[k].op.Some? ==>
      m.stations[k].remainingCycles == GetLatency(m.stations[k].op.value, config)
  }

  /** The issue phase leaves every station as it was, except the one it
      fills, which is busy, not executing and holds its latency. */
  lemma IssueStations(m: Machine, cycle: int, ip: nat, config: HardwareConfig, k: nat)
    requires k < |m.stations|
    ensures var r := Issue(m, cycle, ip, config).0;
      |r.stations| == |m.stations| &&
      (r.stations[k] == m.stations[k] ||
       (!m.stations[k].busy && r.stations[k].busy && !r.stations[k].isExecuting && r.stations[k].op.Some? &&
        r.stations[k].remainingCycles == GetLatency(r.stations[k].op.value, config)))
  {
  }

  /** Station `k` through one cycle, before the issue phase: emptied when
      it was finishing, otherwise ticked with at most its operands changed
      first. */
  lemma CycleStation(cycle: int, m: Machine, k: nat)
    requires WriteReady(m.stations) && k < |m.stations|
    ensures var w := WritePhase(m.(events := []), cycle);
      var e := ExecPhase(w, cycle);
      |w.stations| == |e.stations| == |m.stations| &&
      e.stations[k] == Tick(w.stations[k]) &&
      (Finishing(m.stations[k]) ==> w.stations[k] == EmptyStation(m.stations[k].name, m.stations[k].unit)) &&
      (!Finishing(m.stations[k]) ==>
         OnlyOperands(m.stations[k], w.stations[k]) && (Quiet(m.stations[k]) ==> w.stations[k] == m.stations[k]))
  {
    var m0 := m.(events := []);
    WritePrefixAt(m0, cycle, |m0.stations|, k);
    var w := WritePhase(m0, cycle);
    ExecPrefixAt(w, cycle, |w.stations|, k);
  }

  /** A cycle keeps every waiting station at its full latency. */
  lemma AfterCycleLatency(cycle: int, m: Machine, ip: nat, config: HardwareConfig)
    requires Inv(m) && LatencyOk(m, config)
    ensures WriteReady(m.stations) && LatencyOk(AfterCycle(cycle, m, ip, config).machine, config)
  {
    InvWriteReady(m);
    var w := WritePhase(m.(events := []), cycle);
    var e := ExecPhase(w, cycle);
    var r := AfterCycle(cycle, m, ip, config).machine;
    forall k | 0 <= k < |r.stations| && r.stations[k].busy && !r.stations[k].isExecuting && r.stations[k].op.Some?
      ensures r.stations[k].remainingCycles == GetLatency(r.stations[k].op.value, config)
    {
      IssueStations(e, cycle, ip, config, k);
      CycleStation(cycle, m, k);
      if r.stations[k] == e.stations[k] {
        assert m.stations[k].busy && !m.stations[k].isExecuting;
      }
    }
  }

  // ---------------------------------------------------------------------
  // One cycle seen from one station

  /** A station counting down ticks once per cycle and is otherwise left
      alone: its operands are complete, so no broadcast touches it, and it
      is busy, so the issue phase does not take it. */
  lemma CountdownStep(cycle: int, m: Machine, ip: nat, config: HardwareConfig, i: nat)
    requires Inv(m) && i < |m.stations|
    requires m.stations[i].busy && m.stations[i].isExecuting && m.stations[i].remainingCycles > 0
    ensures WriteReady(m.stations)
    ensures AfterCycle(cycle, m, ip, config).machine.stations[i] ==
      m.stations[i].(remainingCycles := m.stations[i].remainingCycles - 1)
  {
    InvWriteReady(m);
    assert StationOk(m.stations[i]);
    CycleStation(cycle, m, i);
    var w := WritePhase(m.(events := []), cycle);
    IssueStations(ExecPhase(w, cycle), cycle, ip, config, i);
  }

  /** A station whose countdown has reached zero writes in this cycle: its
      instruction's write cycle is this cycle at the end of the cycle. */
  lemma FinishStep(cycle: int, m: Machine, ip: nat, config: HardwareConfig, i: nat)
    requires WriteReady(m.stations) && i < |m.stations| && Finishing(m.stations[i])
    requires FindInstr(m.instructions, m.stations[i].instrId).Some?
    ensures AfterCycle(cycle, m, ip, config).machine.instructions[FindInstr(m.instructions, m.stations[i].instrId).value].writeAt
      == Some(cycle)
  {
    var k := FindInstr(m.instructions, m.stations[i].instrId).value;
    var m0 := m.(events := []);
    WritePrefixStamp(m0, cycle, |m0.stations|, i);
    var w := WritePhase(m0, cycle);
    ExecPrefixLog(w, cycle, |w.stations|);
    var e := ExecPhase(w, cycle);
    var iss := IssueFacts(e, cycle, ip, config);
    var d := Issue(e, cycle, ip, config).0.instructions;
    assert e.instructions[k] == w.instructions[k] ||
      (w.instructions[k].execStartAt.None? && e.instructions[k] == w.instructions[k].(execStartAt := Some(cycle)));
    assert d[k] == e.instructions[k] || d[k] == e.instructions[k].(issuedAt := Some(cycle));
  }

  /** A station that, once this cycle's results are broadcast, is waiting
      for nobody starts executing in this cycle: its countdown drops by one
      and its instruction's start cycle is stamped with this cycle. */
  lemma StartStep(cycle: int, m: Machine, ip: nat, config: HardwareConfig, i: nat)
    requires Inv(m) && i < |m.stations|
    requires var s := WritePhase(m.(events := []), cycle).stations[i];
      s.busy && !s.isExecuting && s.qj.None? && s.qk.None?
    requires FindInstr(m.instructions, m.stations[i].instrId).Some?
    requires m.instructions[FindInstr(m.instructions, m.stations[i].instrId).value].execStartAt.None?
    ensures WriteReady(m.stations)
    ensures var r := AfterCycle(cycle, m, ip, config).machine;
      && r.stations[i] == m.stations[i].(isExecuting := true, remainingCycles := m.stations[i].remainingCycles - 1,
                                         vj := r.stations[i].vj, vk := r.stations[i].vk, qj := None, qk := None)
      && r.instructions[FindInstr(m.instructions, m.stations[i].instrId).value].execStartAt == Some(cycle)
  {
    InvWriteReady(m);
    var k := FindInstr(m.instructions, m.stations[i].instrId).value;
    var m0 := m.(events := []);
    CycleStation(cycle, m, i);
    var w := WritePhase(m0, cycle);
    var e := ExecPhase(w, cycle);
    WritePrefixLog(m0, cycle, |m0.stations|);
    FindInstrSameIds(m0.instructions, w.instructions, m.stations[i].instrId);
    assert w.instructions[k] == m.instructions[k] || w.instructions[k] == m.instructions[k].(writeAt := Some(cycle));
    ExecPrefixStamp(w, cycle, |w.stations|, i);
    IssueStations(e, cycle, ip, config, i);
    var iss := IssueFacts(e, cycle, ip, config);
    var d := Issue(e, cycle, ip, config).0.instructions;
    assert d[k] == e.instructions[k] || d[k] == e.instructions[k].(issuedAt := Some(cycle));
  }

  // ---------------------------------------------------------------------
  // Successive cycles

  /** `n` successive steps from cycle `cycle`: cycles `cycle + 1` to
      `cycle + n`, each starting from the previous one's machine and issue
      pointer. */
  function Run(cycle: int, m: Machine, ip: nat, config: HardwareConfig, n: nat): (r: CycleResult)
    requires Inv(m) && PositiveLatencies(config.latencies)
    ensures |r.machine.instructions| == |m.instructions|
    decreases n, 0
  {
    if n == 0 then CycleResult(m, ip, CheckSimulationComplete(m.instructions, m.stations))
    else StepThen(cycle + 1, m, ip, config, n - 1)
  }

  /** Cycle `cycle`, then `n` more. */
  function StepThen(cycle: int, m: Machine, ip: nat, config: HardwareConfig, n: nat): (r: CycleResult)
    requires Inv(m) && PositiveLatencies(config.latencies)
    ensures |r.machine.instructions| == |m.instructions|
    decreases n, 1
  {
    AfterCycleInv(cycle, m, ip, config);
    var r1 := AfterCycle(cycle, m, ip, config);
    Run(cycle, r1.machine, r1.instructionPointer, config, n)
  }

  /** The first of `n` cycles, then the remaining `n - 1`. */
  lemma RunStep(cycle: int, m: Machine, ip: nat, config: HardwareConfig, n: nat)
    requires Inv(m) && PositiveLatencies(config.latencies) && n > 0
    ensures WriteReady(m.stations) && Inv(AfterCycle(cycle + 1, m, ip, config).machine)
    ensures var r1 := AfterCycle(cycle + 1, m, ip, config);
      Run(cycle, m, ip, config, n) == Run(cycle + 1, r1.machine, r1.instructionPointer, config, n - 1)
  {
    AfterCycleInv(cycle + 1, m, ip, config);
  }

  /** Successive cycles keep the instructions, their ids, operations and
      registers, and every start cycle already stamped. */
  lemma {:induction false} RunSameProgram(cycle: int, m: Machine, ip: nat, config: HardwareConfig, n: nat)
    requires Inv(m) && PositiveLatencies(config.latencies)
    ensures SameProgram(m.instructions, Run(cycle, m, ip, config, n).machine.instructions)
    decreases n
  {
    if n > 0 {
      RunStep(cycle, m, ip, config, n);
      var r1 := AfterCycle(cycle + 1, m, ip, config);
      CycleSameProgram(cycle + 1, m, ip, config);
      RunSameProgram(cycle + 1, r1.machine, r1.instructionPointer, config, n - 1);
      SameProgramTrans(m.instructions, r1.machine.instructions,
                       Run(cycle + 1, r1.machine, r1.instructionPointer, config, n - 1).machine.instructions);
    }
  }

  /** The first of `n` cycles for a station counting down: the next
      machine keeps the invariant and the station's instruction, and the
      station has one cycle less to go. */
  lemma CountdownNext(cycle: int, m: Machine, ip: nat, config: HardwareConfig, i: nat, n: nat)
    returns (m1: Machine, ip1: nat)
    requires Inv(m) && PositiveLatencies(config.latencies) && i < |m.stations| && n > 0
    requires m.stations[i].busy && m.stations[i].isExecuting && m.stations[i].remainingCycles > 0
    ensures Inv(m1) && i < |m1.stations|
    ensures m1.stations[i] == m.stations[i].(remainingCycles := m.stations[i].remainingCycles - 1)
    ensures FindInstr(m1.instructions, m.stations[i].instrId) == FindInstr(m.instructions, m.stations[i].instrId)
    ensures Run(cycle, m, ip, config, n) == Run(cycle + 1, m1, ip1, config, n - 1)
  {
    RunStep(cycle, m, ip, config, n);
    var r1 := AfterCycle(cycle + 1, m, ip, config);
    CountdownStep(cycle + 1, m, ip, config, i);
    CycleSameProgram(cycle + 1, m, ip, config);
    FindInstrSameIds(m.instructions, r1.machine.instructions, m.stations[i].instrId);
    m1, ip1 := r1.machine, r1.instructionPointer;
  }

  /** A station whose countdown has reached zero writes in the next cycle. */
  lemma FinishNext(cycle: int, m: Machine, ip: nat, config: HardwareConfig, i: nat)
    requires Inv(m) && PositiveLatencies(config.latencies) && i < |m.stations| && Finishing(m.stations[i])
    requires FindInstr(m.instructions, m.stations[i].instrId).Some?
    ensures Run(cycle, m, ip, config, 1).machine.instructions[FindInstr(m.instructions, m.stations[i].instrId).value].writeAt
      == Some(cycle + 1)
  {
    RunStep(cycle, m, ip, config, 1);
    FinishStep(cycle + 1, m, ip, config, i);
  }

  /** A station with `r` cycles left to count down writes its instruction
      `k`'s result in the `r + 1`-th cycle from now: `final` is the result
      of those `r + 1` cycles. */
  lemma {:induction false} CountdownToWrite(cycle: int, m: Machine, ip: nat, config: HardwareConfig, i: nat, r: nat,
                                            k: nat, final: CycleResult)
    requires Inv(m) && PositiveLatencies(config.latencies) && i < |m.stations|
    requires m.stations[i].busy && m.stations[i].isExecuting && m.stations[i].remainingCycles == r
    requires FindInstr(m.instructions, m.stations[i].instrId) == Some(k)
    requires final == Run(cycle, m, ip, config, r + 1)
    ensures k < |final.machine.instructions| && final.machine.instructions[k].writeAt == Some(cycle + r + 1)
    decreases r
  {
    if r == 0 {
      FinishNext(cycle, m, ip, config, i);
    } else {
      var m1, ip1 := CountdownNext(cycle, m, ip, config, i, r + 1);
      CountdownToWrite(cycle + 1, m1, ip1, config, i, r - 1, k, final);
    }
  }

  /** The first of `n` cycles for a station that starts executing in it:
      the next machine keeps the invariant, the station counts down from
      `lat - 1`, and its instruction's start cycle is stamped. */
  lemma StartNext(cycle: int, m: Machine, ip: nat, config: HardwareConfig, i: nat, n: nat, lat: nat)
    returns (m1: Machine, ip1: nat)
    requires Inv(m) && PositiveLatencies(config.latencies) && i < |m.stations| && n > 0
    requires var s := WritePhase(m.(events := []), cycle + 1).stations[i];
      s.busy && !s.isExecuting && s.qj.None? && s.qk.None?
    requires m.stations[i].remainingCycles == lat
    requires FindInstr(m.instructions, m.stations[i].instrId).Some?
    requires m.instructions[FindInstr(m.instructions, m.stations[i].instrId).value].execStartAt.None?
    ensures Inv(m1) && i < |m1.stations| && |m1.instructions| == |m.instructions|
    ensures m1.stations[i].busy && m1.stations[i].isExecuting && m1.stations[i].remainingCycles == lat - 1
    ensures m1.stations[i].instrId == m.stations[i].instrId
    ensures FindInstr(m1.instructions, m.stations[i].instrId) == FindInstr(m.instructions, m.stations[i].instrId)
    ensures m1.instructions[FindInstr(m.instructions, m.stations[i].instrId).value].execStartAt == Some(cycle + 1)
    ensures Run(cycle, m, ip, config, n) == Run(cycle + 1, m1, ip1, config, n - 1)
  {
    RunStep(cycle, m, ip, config, n);
    StartStep(cycle + 1, m, ip, config, i);
    var r1 := AfterCycle(cycle + 1, m, ip, config);
    CycleSameProgram(cycle + 1, m, ip, config);
    FindInstrSameIds(m.instructions, r1.machine.instructions, m.stations[i].instrId);
    m1, ip1 := r1.machine, r1.instructionPointer;
  }

  /** An instruction whose station starts executing in cycle `cycle + 1`
      records that cycle as its start and writes its result `latency`
      cycles later, in cycle `cycle + 1 + latency`. */
  lemma StartToWrite(cycle: int, m: Machine, ip: nat, config: HardwareConfig, i: nat)
    requires Inv(m) && LatencyOk(m, config) && PositiveLatencies(config.latencies) && i < |m.stations|
    requires var s := WritePhase(m.(events := []), cycle + 1).stations[i];
      s.busy && !s.isExecuting && s.qj.None? && s.qk.None?
    requires FindInstr(m.instructions, m.stations[i].instrId).Some?
    requires m.instructions[FindInstr(m.instructions, m.stations[i].instrId).value].execStartAt.None?
    ensures m.stations[i].op.Some?
    ensures var k := FindInstr(m.instructions, m.stations[i].instrId).value;
      var final := Run(cycle, m, ip, config, GetLatency(m.stations[i].op.value, config) + 1).machine;
      final.instructions[k].execStartAt == Some(cycle + 1) &&
      final.instructions[k].writeAt == Some(cycle + 1 + GetLatency(m.stations[i].op.value, config))
  {
    var lat := StartsWithLatency(cycle + 1, m, config, i);
    var k := FindInstr(m.instructions, m.stations[i].instrId).value;
    var m1, ip1 := StartNext(cycle, m, ip, config, i, lat + 1, lat);
    StartedRun(cycle + 1, m1, ip1, config, i, lat, k, cycle + 1);
    var final := Run(cycle + 1, m1, ip1, config, lat).machine;
    assert Run(cycle, m, ip, config, GetLatency(m.stations[i].op.value, config) + 1).machine == final;
  }

  /** The `lat` cycles after the start of a station's execution keep the
      start stamp and end with the write stamp. */
  lemma StartedRun(cycle: int, m: Machine, ip: nat, config: HardwareConfig, i: nat, lat: nat, k: nat, start: int)
    requires Inv(m) && PositiveLatencies(config.latencies) && i < |m.stations|
    requires m.stations[i].busy && m.stations[i].isExecuting && m.stations[i].remainingCycles == lat - 1 && lat >= 1
    requires FindInstr(m.instructions, m.stations[i].instrId) == Some(k)
    requires m.instructions[k].execStartAt == Some(start)
    ensures var final := Run(cycle, m, ip, config, lat).machine;
      k < |final.instructions| &&
      final.instructions[k].execStartAt == Some(start) && final.instructions[k].writeAt == Some(cycle + lat)
  {
    var final := Run(cycle, m, ip, config, lat);
    CountdownToWrite(cycle, m, ip, config, i, lat - 1, k, final);
    RunSameProgram(cycle, m, ip, config, lat);
  }

  /** A station ready after this cycle's broadcasts was waiting before
      them, so it holds its latency. */
  lemma StartsWithLatency(cycle: int, m: Machine, config: HardwareConfig, i: nat) returns (lat: nat)
    requires Inv(m) && LatencyOk(m, config) && PositiveLatencies(config.latencies) && i < |m.stations|
    requires var s := WritePhase(m.(events := []), cycle).stations[i];
      s.busy && !s.isExecuting && s.qj.None? && s.qk.None?
    ensures m.stations[i].op.Some? && lat == GetLatency(m.stations[i].op.value, config) >= 1
    ensures m.stations[i].remainingCycles == lat
  {
    InvWriteReady(m);
    CycleStation(cycle, m, i);
    assert m.stations[i].busy && !m.stations[i].isExecuting;
    assert StationOk(m.stations[i]);
    lat := GetLatency(m.stations[i].op.value, config);
  }
}
