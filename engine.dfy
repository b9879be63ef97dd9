/** The Tomasulo cycle engine as functions on values: one function per
    phase, each a fold over the station list in list order, exactly as the
    phase loops in `src/core/tomasulo.ts` run. The mutable workspace that
    executes these phases in place is proved equal to them (workspace.dfy). */
module Engine {
  import opened Types
  import opened Instructions

  /** The state one cycle works on: the cloned instruction list, station
      list, register files and status tables, and the cycle's event log. */
  datatype Machine = Machine(
    instructions: seq<Instruction>,
    stations: seq<Station>,
    fpRegs: RegisterFile,
    intRegs: RegisterFile,
    fpStatus: RegisterStatus,
    intStatus: RegisterStatus,
    events: seq<Annotation>)

  /** What `executeCycle` returns besides the machine: the new issue pointer
      and the completion flag. */
  datatype CycleResult = CycleResult(machine: Machine, instructionPointer: nat, isComplete: bool)

  // ---------------------------------------------------------------------
  // Pure helpers

  /** The configured latency of an operation. */
  function GetLatency(op: Op, config: HardwareConfig): (n: int)
    ensures PositiveLatencies(config.latencies) ==> n >= 1
    ensures n in LatencyValues(config.latencies)
  {
    match op
    case AddD => config.latencies.fpAdd
    case SubD => config.latencies.fpSub
    case MulD => config.latencies.fpMult
    case DivD => config.latencies.fpDiv
    case Add => config.latencies.intAdd
    case Sub => config.latencies.intSub
    case Mul => config.latencies.intMult
    case Div => config.latencies.intDiv
  }

  function LatencyValues(l: Latencies): set<int>
  {
    {l.fpAdd, l.fpSub, l.fpMult, l.fpDiv, l.intAdd, l.intSub, l.intMult, l.intDiv}
  }

  /** Every configured latency is at least one cycle. */
  predicate PositiveLatencies(l: Latencies)
  {
    l.fpAdd >= 1 && l.fpSub >= 1 && l.fpMult >= 1 && l.fpDiv >= 1 &&
    l.intAdd >= 1 && l.intSub >= 1 && l.intMult >= 1 && l.intDiv >= 1
  }

  /** The arithmetic of the four operation kinds, on exact reals. Division
      by zero yields zero, and integer division is not truncated. */
  function ComputeResult(op: Op, v1: real, v2: real): (r: real)
    ensures (op == AddD || op == Add) ==> r - v2 == v1
    ensures (op == SubD || op == Sub) ==> r + v2 == v1
    ensures (op == MulD || op == Mul) ==> (v2 != 0.0 ==> r / v2 == v1) && (v2 == 0.0 ==> r == 0.0)
    ensures (op == DivD || op == Div) ==> (v2 != 0.0 ==> r * v2 == v1) && (v2 == 0.0 ==> r == 0.0)
  {
    match op
    case AddD => v1 + v2
    case Add => v1 + v2
    case SubD => v1 - v2
    case Sub => v1 - v2
    case MulD => v1 * v2
    case Mul => v1 * v2
    case DivD => if v2 != 0.0 then v1 / v2 else 0.0
    case Div => if v2 != 0.0 then v1 / v2 else 0.0
  }

  /** The arithmetic undoes itself: subtraction undoes addition and the
      reverse, division by a non-zero value undoes multiplication and the
      reverse, and the FP and integer forms of an operation compute the
      same value. */
  lemma ArithmeticInverses(a: real, b: real)
    ensures ComputeResult(Sub, ComputeResult(Add, a, b), b) == a
    ensures ComputeResult(SubD, ComputeResult(AddD, a, b), b) == a
    ensures ComputeResult(Add, ComputeResult(Sub, a, b), b) == a
    ensures ComputeResult(AddD, ComputeResult(SubD, a, b), b) == a
    ensures b != 0.0 ==> ComputeResult(Div, ComputeResult(Mul, a, b), b) == a
    ensures b != 0.0 ==> ComputeResult(DivD, ComputeResult(MulD, a, b), b) == a
    ensures b != 0.0 ==> ComputeResult(Mul, ComputeResult(Div, a, b), b) == a
    ensures b != 0.0 ==> ComputeResult(MulD, ComputeResult(DivD, a, b), b) == a
    ensures ComputeResult(AddD, a, b) == ComputeResult(Add, a, b)
    ensures ComputeResult(SubD, a, b) == ComputeResult(Sub, a, b)
    ensures ComputeResult(MulD, a, b) == ComputeResult(Mul, a, b)
    ensures ComputeResult(DivD, a, b) == ComputeResult(Div, a, b)
  {
  }

  /** A station holding nothing: free, no operation, no operands or tags,
      no destination or owner, countdown zero, not executing. */
  predicate Idle(s: Station)
  {
    !s.busy && s.op.None? && s.vj.None? && s.vk.None? && s.qj.None? && s.qk.None? &&
    s.dest == "" && s.instrId.None? && s.remainingCycles == 0 && !s.isExecuting
  }

  /** `createEmptyStation`, and what `clearStation` turns a station into. */
  function EmptyStation(name: string, unit: UnitType): (s: Station)
    ensures Idle(s) && s.name == name && s.unit == unit
  {
    Station(name, unit, false, None, None, None, None, None, "", None, 0, false)
  }

  /** An idle station is exactly the empty station of its name and unit. */
  lemma IdleIsEmpty(s: Station)
    ensures Idle(s) <==> s == EmptyStation(s.name, s.unit)
  {
  }

  /** A station of the given unit that is not busy. */
  predicate Free(s: Station, unit: UnitType)
  {
    s.unit == unit && !s.busy
  }

  /** The first free station of `unit` at or after index `k`. */
  function FindFree(stations: seq<Station>, unit: UnitType, k: nat): (r: Option<nat>)
    requires k <= |stations|
    ensures r.Some? ==> k <= r.value < |stations| && Free(stations[r.value], unit)
    decreases |stations| - k
  {
    if k == |stations| then None
    else if Free(stations[k], unit) then Some(k)
    else FindFree(stations, unit, k + 1)
  }

  /** `FindFree` skips only stations that are not free, and fails only when
      no station from `k` on is free. */
  lemma {:induction false} FindFreeSpec(stations: seq<Station>, unit: UnitType, k: nat)
    requires k <= |stations|
    ensures var r := FindFree(stations, unit, k);
      (r.Some? ==> forall j :: k <= j < r.value ==> !Free(stations[j], unit)) &&
      (r.None? <==> forall j :: k <= j < |stations| ==> !Free(stations[j], unit))
    decreases |stations| - k
  {
    if k < |stations| && !Free(stations[k], unit) {
      FindFreeSpec(stations, unit, k + 1);
    }
  }

  /** `findAvailableStation`: the position of the first station, in list
      order, whose unit is the operation's unit and which is not busy. */
  function FindAvailableStation(stations: seq<Station>, op: Op): (r: Option<nat>)
    ensures r.Some? ==> r.value < |stations| && Free(stations[r.value], OpToFunctionalUnit(op))
  {
    FindFree(stations, OpToFunctionalUnit(op), 0)
  }

  /** The allocator takes the first free station of the right unit, and
      reports none exactly when every station of that unit is busy. */
  lemma FindAvailableStationSpec(stations: seq<Station>, op: Op)
    ensures var r := FindAvailableStation(stations, op);
      (r.Some? ==> r.value < |stations| && Free(stations[r.value], OpToFunctionalUnit(op)) &&
                   forall j :: 0 <= j < r.value ==> !Free(stations[j], OpToFunctionalUnit(op))) &&
      (r.None? <==> forall j :: 0 <= j < |stations| ==> !Free(stations[j], OpToFunctionalUnit(op)))
  {
    FindFreeSpec(stations, OpToFunctionalUnit(op), 0);
  }

  /** The first instruction at or after `k` whose id is `id`
      (`instructions.find(i => i.id === id)`). */
  function FindInstrFrom(instrs: seq<Instruction>, id: int, k: nat): (r: Option<nat>)
    requires k <= |instrs|
    ensures r.Some? ==> k <= r.value < |instrs| && instrs[r.value].id == id
    decreases |instrs| - k
  {
    if k == |instrs| then None
    else if instrs[k].id == id then Some(k)
    else FindInstrFrom(instrs, id, k + 1)
  }

  /** The instruction a station's owner id refers to; a station without an
      owner matches nothing. */
  function FindInstr(instrs: seq<Instruction>, id: Option<int>): (r: Option<nat>)
    ensures r.Some? ==> id.Some? && r.value < |instrs| && instrs[r.value].id == id.value
  {
    if id.None? then None else FindInstrFrom(instrs, id.value, 0)
  }

  /** The search is for the first match, and fails only when nothing
      matches. */
  lemma {:induction false} FindInstrFromSpec(instrs: seq<Instruction>, id: int, k: nat)
    requires k <= |instrs|
    ensures var r := FindInstrFrom(instrs, id, k);
      (r.Some? ==> forall j :: k <= j < r.value ==> instrs[j].id != id) &&
      (r.None? <==> forall j :: k <= j < |instrs| ==> instrs[j].id != id)
    decreases |instrs| - k
  {
    if k < |instrs| && instrs[k].id != id {
      FindInstrFromSpec(instrs, id, k + 1);
    }
  }

  /** The search looks at ids only. */
  lemma {:induction false} FindInstrFromIds(a: seq<Instruction>, b: seq<Instruction>, id: int, k: nat)
    requires k <= |a| == |b|
    requires forall j :: 0 <= j < |a| ==> a[j].id == b[j].id
    ensures FindInstrFrom(a, id, k) == FindInstrFrom(b, id, k)
    decreases |a| - k
  {
    if k < |a| {
      FindInstrFromIds(a, b, id, k + 1);
    }
  }

  /** `checkSimulationComplete`: every instruction has written its result,
      no station is busy, and the program is not empty. */
  function CheckSimulationComplete(instrs: seq<Instruction>, stations: seq<Station>): bool
  {
    (forall k :: 0 <= k < |instrs| ==> instrs[k].writeAt.Some?) &&
    (forall k :: 0 <= k < |stations| ==> !stations[k].busy) &&
    |instrs| > 0
  }

  // ---------------------------------------------------------------------
  // Register files and status tables

  /** The register file an operation class uses. */
  function Regs(m: Machine, fp: bool): RegisterFile
  {
    if fp then m.fpRegs else m.intRegs
  }

  /** The status table an operation class uses. */
  function Status(m: Machine, fp: bool): RegisterStatus
  {
    if fp then m.fpStatus else m.intStatus
  }

  /** Replace the register file and status table of one class. */
  function WithFile(m: Machine, fp: bool, regs: RegisterFile, status: RegisterStatus): Machine
  {
    if fp then m.(fpRegs := regs, fpStatus := status) else m.(intRegs := regs, intStatus := status)
  }

  /** JavaScript truthiness of a tag: set and not the empty string. */
  predicate Truthy(t: Option<string>)
  {
    t.Some? && t.value != ""
  }

  /** The station the status table names as the next producer of `reg`,
      when that entry is truthy; a missing key reads as no producer. */
  function Producer(status: RegisterStatus, reg: string): (r: Option<string>)
    ensures r.Some? ==> reg in status && status[reg] == r && r.value != ""
    ensures r.None? ==> reg !in status || !Truthy(status[reg])
  {
    if reg in status && Truthy(status[reg]) then status[reg] else None
  }

  /** The value of a register; a register missing from the file reads as 0. */
  function ReadReg(regs: RegisterFile, reg: string): (v: real)
    ensures reg in regs ==> v == regs[reg]
    ensures reg !in regs ==> v == 0.0
  {
    if reg in regs then regs[reg] else 0.0
  }

  // ---------------------------------------------------------------------
  // Phase 1: write result

  /** A station whose execution has counted down to zero. */
  predicate Finishing(s: Station)
  {
    s.busy && s.isExecuting && s.remainingCycles == 0
  }

  /** A finishing station has the operation and both operand values that
      `computeResult(rs.op!, rs.vj!, rs.vk!)` asserts to be present. */
  predicate WriteReady(stations: seq<Station>)
  {
    forall k :: 0 <= k < |stations| && Finishing(stations[k]) ==>
      stations[k].op.Some? && stations[k].vj.Some? && stations[k].vk.Some?
  }

  /** The register write of a finishing station: only when the status
      table still names it as the producer of its destination. */
  function WriteBack(m: Machine, rs: Station, result: real): Machine
    requires rs.op.Some?
  {
    var fp := IsFpOperation(rs.op.value);
    var status := Status(m, fp);
    if rs.dest in status && status[rs.dest] == Some(rs.name) then
      WithFile(m, fp, Regs(m, fp)[rs.dest := result], status[rs.dest := None])
    else m
  }

  /** One waiting station hears a broadcast of `result` by station `name`:
      a busy station with another name takes the value for each operand
      tagged with that name and drops the tag. */
  function Forward(s: Station, name: string, result: real): Station
  {
    if s.busy && s.name != name then
      var s1 := if s.qj == Some(name) then s.(vj := Some(result), qj := None) else s;
      if s1.qk == Some(name) then s1.(vk := Some(result), qk := None) else s1
    else s
  }

  /** The common-data-bus broadcast over the whole station list. */
  function Broadcast(stations: seq<Station>, name: string, result: real): (r: seq<Station>)
    ensures |r| == |stations|
  {
    seq(|stations|, j requires 0 <= j < |stations| => Forward(stations[j], name, result))
  }

  /** Stamp the write cycle of a station's instruction, if it has one. */
  function StampWrite(instrs: seq<Instruction>, id: Option<int>, cycle: int): (r: seq<Instruction>)
    ensures |r| == |instrs|
  {
    match FindInstr(instrs, id)
    case Some(k) => instrs[k := instrs[k].(writeAt := Some(cycle))]
    case None => instrs
  }

  /** The write phase's work for a finishing station at index `i`: compute
      the result, write it back under the ownership guard, broadcast it,
      stamp the instruction's write cycle, log the write and clear the
      station. */
  function Finish(m: Machine, cycle: int, i: nat): (r: Machine)
    requires i < |m.stations| && WriteReady(m.stations) && Finishing(m.stations[i])
    ensures |r.stations| == |m.stations| && WriteReady(r.stations) && |r.instructions| == |m.instructions|
  {
    var rs := m.stations[i];
    var result := ComputeResult(rs.op.value, rs.vj.value, rs.vk.value);
    FinishReady(m, i, result);
    var m1 := WriteBack(m, rs, result);
    var m2 := m1.(stations := Broadcast(m1.stations, rs.name, result));
    var m3 := m2.(instructions := StampWrite(m2.instructions, rs.instrId, cycle));
    var m4 := m3.(events := m3.events + [WriteNote(cycle, rs.name, result, rs.dest)]);
    m4.(stations := m4.stations[i := EmptyStation(rs.name, rs.unit)])
  }

  /** The write phase's step for the station at index `i` (one iteration
      of its loop). */
  function WriteOne(m: Machine, cycle: int, i: nat): (r: Machine)
    requires i < |m.stations| && WriteReady(m.stations)
    ensures |r.stations| == |m.stations| && WriteReady(r.stations) && |r.instructions| == |m.instructions|
  {
    if Finishing(m.stations[i]) then Finish(m, cycle, i) else m
  }

  /** The register write touches neither the stations nor the instructions
      nor the log. */
  lemma WriteBackFrame(m: Machine, rs: Station, result: real)
    requires rs.op.Some?
    ensures var r := WriteBack(m, rs, result);
      r.stations == m.stations && r.instructions == m.instructions && r.events == m.events
  {
  }

  /** A broadcast only ever fills operand values. */
  lemma BroadcastReady(stations: seq<Station>, name: string, result: real)
    requires WriteReady(stations)
    ensures WriteReady(Broadcast(stations, name, result))
  {
    var b := Broadcast(stations, name, result);
    forall k | 0 <= k < |b| && Finishing(b[k])
      ensures b[k].op.Some? && b[k].vj.Some? && b[k].vk.Some?
    {
      assert b[k] == Forward(stations[k], name, result);
      assert Finishing(stations[k]);
    }
  }

  /** Clearing a finishing station after its broadcast keeps every other
      finishing station ready to write. */
  lemma FinishReady(m: Machine, i: nat, result: real)
    requires i < |m.stations| && WriteReady(m.stations) && Finishing(m.stations[i])
    ensures var rs := m.stations[i];
      WriteReady(Broadcast(WriteBack(m, rs, result).stations, rs.name, result)[i := EmptyStation(rs.name, rs.unit)])
  {
    var rs := m.stations[i];
    WriteBackFrame(m, rs, result);
    var b := Broadcast(m.stations, rs.name, result);
    BroadcastReady(m.stations, rs.name, result);
    var st := b[i := EmptyStation(rs.name, rs.unit)];
    forall k | 0 <= k < |st| && Finishing(st[k])
      ensures st[k].op.Some? && st[k].vj.Some? && st[k].vk.Some?
    {
      assert k != i && st[k] == b[k];
    }
  }

  /** The first `n` iterations of the write phase. */
  function WritePrefix(m: Machine, cycle: int, n: nat): (r: Machine)
    requires n <= |m.stations| && WriteReady(m.stations)
    ensures |r.stations| == |m.stations| && WriteReady(r.stations) && |r.instructions| == |m.instructions|
  {
    if n == 0 then m
    else
      WriteOne(WritePrefix(m, cycle, n - 1), cycle, n - 1)
  }

  /** `writeResultPhase`. */
  function WritePhase(m: Machine, cycle: int): Machine
    requires WriteReady(m.stations)
  {
    WritePrefix(m, cycle, |m.stations|)
  }

  // ---------------------------------------------------------------------
  // Phase 2: execute

  /** Stamp the execution start of a station's instruction, only when it
      has none yet. */
  function StampStart(instrs: seq<Instruction>, id: Option<int>, cycle: int): (r: seq<Instruction>)
    ensures |r| == |instrs|
  {
    match FindInstr(instrs, id)
    case Some(k) =>
      if instrs[k].execStartAt.None? then instrs[k := instrs[k].(execStartAt := Some(cycle))] else instrs
    case None => instrs
  }

  /** The producers a waiting station names, operand 1 first. */
  function Waiting(s: Station): seq<string>
  {
    (if Truthy(s.qj) then [s.qj.value] else []) + (if Truthy(s.qk) then [s.qk.value] else [])
  }

  /** The execute phase's step for the station at index `i`. */
  function ExecOne(m: Machine, cycle: int, i: nat): (r: Machine)
    requires i < |m.stations|
    ensures |r.stations| == |m.stations| && |r.instructions| == |m.instructions|
    ensures r.fpRegs == m.fpRegs && r.intRegs == m.intRegs && r.fpStatus == m.fpStatus && r.intStatus == m.intStatus
  {
    var rs := m.stations[i];
    if !rs.busy then m
    else if rs.isExecuting then
      if rs.remainingCycles > 0 then
        m.(stations := m.stations[i := rs.(remainingCycles := rs.remainingCycles - 1)])
      else m
    else if rs.qj.None? && rs.qk.None? then
      var started := rs.(isExecuting := true, remainingCycles := rs.remainingCycles - 1);
      m.(stations := m.stations[i := started],
         instructions := StampStart(m.instructions, rs.instrId, cycle),
         events := m.events + [ExecuteNote(cycle, rs.name, rs.op, started.remainingCycles + 1)])
    else
      m.(events := m.events + [WaitNote(cycle, rs.name, Waiting(rs))])
  }

  /** The first `n` iterations of the execute phase. */
  function ExecPrefix(m: Machine, cycle: int, n: nat): (r: Machine)
    requires n <= |m.stations|
    ensures |r.stations| == |m.stations| && |r.instructions| == |m.instructions|
  {
    if n == 0 then m else ExecOne(ExecPrefix(m, cycle, n - 1), cycle, n - 1)
  }

  /** `executePhase`. */
  function ExecPhase(m: Machine, cycle: int): Machine
  {
    ExecPrefix(m, cycle, |m.stations|)
  }

  // ---------------------------------------------------------------------
  // Phase 3: issue

  /** The station an instruction is issued to: busy with the operation,
      destination, owner and configured latency, not yet executing, and
      each operand renamed through the status table, as a tag when a
      producer is pending and as the register's value otherwise. */
  function Issued(s: Station, instr: Instruction, regs: RegisterFile, status: RegisterStatus,
                  config: HardwareConfig): Station
  {
    var qj := Producer(status, instr.src1);
    var qk := Producer(status, instr.src2);
    s.(busy := true, op := Some(instr.op), dest := instr.dest, instrId := Some(instr.id),
       remainingCycles := GetLatency(instr.op, config), isExecuting := false,
       qj := qj, vj := if qj.Some? then None else Some(ReadReg(regs, instr.src1)),
       qk := qk, vk := if qk.Some? then None else Some(ReadReg(regs, instr.src2)))
  }

  /** The (register, producer) pairs of the RAW-hazard event. */
  function HazardSources(instr: Instruction, rs: Station): seq<(string, string)>
  {
    (if Truthy(rs.qj) then [(instr.src1, rs.qj.value)] else []) +
    (if Truthy(rs.qk) then [(instr.src2, rs.qk.value)] else [])
  }

  /** The events of a successful issue. */
  function IssueEvents(cycle: int, instr: Instruction, rs: Station): seq<Annotation>
  {
    [IssueNote(cycle, instr.op, instr.dest, instr.src1, instr.src2, rs.name)] +
    (if Truthy(rs.qj) || Truthy(rs.qk) then [RawNote(cycle, HazardSources(instr, rs))] else [])
  }

  /** A successful issue of instruction `ip` to the free station `s`: the
      station is filled, the destination's status entry is overwritten with
      the station's name after the sources were read, the issue cycle is
      stamped and the events are logged. */
  function IssueAt(m: Machine, cycle: int, ip: nat, s: nat, config: HardwareConfig): Machine
    requires ip < |m.instructions| && s < |m.stations|
  {
    var instr := m.instructions[ip];
    var fp := IsFpOperation(instr.op);
    var status := Status(m, fp);
    var rs := Issued(m.stations[s], instr, Regs(m, fp), status, config);
    var m1 := WithFile(m, fp, Regs(m, fp), status[instr.dest := Some(rs.name)]);
    m1.(stations := m.stations[s := rs],
        instructions := m.instructions[ip := instr.(issuedAt := Some(cycle))],
        events := m.events + IssueEvents(cycle, instr, rs))
  }

  /** `issuePhase`: the new machine and the new issue pointer. */
  function Issue(m: Machine, cycle: int, ip: nat, config: HardwareConfig): (Machine, nat)
  {
    if ip >= |m.instructions| then (m, ip)
    else
      var instr := m.instructions[ip];
      match FindAvailableStation(m.stations, instr.op)
      case None =>
        (m.(events := m.events + [StructuralNote(cycle, OpToFunctionalUnit(instr.op), instr.op)]), ip)
      case Some(s) =>
        (IssueAt(m, cycle, ip, s, config), ip + 1)
  }

  // ---------------------------------------------------------------------
  // The whole cycle

  /** `executeCycle`: on a clone of the inputs with an empty event log, run
      write, execute and issue in that order, then test for completion. */
  function AfterCycle(cycle: int, m: Machine, ip: nat, config: HardwareConfig): (r: CycleResult)
    requires WriteReady(m.stations)
    ensures |r.machine.instructions| == |m.instructions| && |r.machine.stations| == |m.stations|
    ensures r.instructionPointer == ip || (ip < |m.instructions| && r.instructionPointer == ip + 1)
    ensures r.isComplete ==> |m.instructions| > 0
  {
    var w := WritePhase(m.(events := []), cycle);
    var e := ExecPhase(w, cycle);
    var (i, newIp) := Issue(e, cycle, ip, config);
    CycleResult(i, newIp, CheckSimulationComplete(i.instructions, i.stations))
  }
}
