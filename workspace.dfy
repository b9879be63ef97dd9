/** The in-place execution of one cycle: `executeCycle` clones its inputs
    into a workspace whose phase methods update the station list, the
    register files, the status tables, the instruction list and the event
    log step by step. Each method is proved to leave the workspace in the
    state the corresponding function of `Engine` describes. */
module Phases {
  import opened Types
  import opened Instructions
  import opened Engine

  class Workspace {
    var instructions: seq<Instruction>
    var stations: seq<Station>
    var fpRegs: RegisterFile
    var intRegs: RegisterFile
    var fpStatus: RegisterStatus
    var intStatus: RegisterStatus
    var annotations: seq<Annotation>

    /** The workspace as a value. */
    ghost function Snapshot(): Machine
      reads this
    {
      Machine(instructions, stations, fpRegs, intRegs, fpStatus, intStatus, annotations)
    }

    /** The clone `executeCycle` starts from, with an empty event log. */
    constructor (instrs: seq<Instruction>, sts: seq<Station>, fpFile: RegisterFile, intFile: RegisterFile,
                 fpTable: RegisterStatus, intTable: RegisterStatus)
      ensures Snapshot() == Machine(instrs, sts, fpFile, intFile, fpTable, intTable, [])
    {
      instructions := instrs;
      stations := sts;
      fpRegs := fpFile;
      intRegs := intFile;
      fpStatus := fpTable;
      intStatus := intTable;
      annotations := [];
    }

    /** `clearStation`: the station at `i` becomes the empty station of its
        name and unit; nothing else changes. */
    method ClearStation(i: nat)
      requires i < |stations|
      modifies this
      ensures Snapshot() == old(Snapshot()).(stations := old(stations)[i := EmptyStation(old(stations)[i].name, old(stations)[i].unit)])
    {
      stations := stations[i := EmptyStation(stations[i].name, stations[i].unit)];
    }

    /** The broadcast loop of the write phase: every station hears the
        result of station `name`; nothing but the stations changes. */
    method BroadcastResult(name: string, result: real)
      modifies this
      ensures Snapshot() == old(Snapshot()).(stations := Broadcast(old(stations), name, result))
    {
      ghost var s0 := stations;
      var j := 0;
      while j < |stations|
        invariant 0 <= j <= |stations| == |s0|
        invariant forall k :: 0 <= k < j ==> stations[k] == Forward(s0[k], name, result)
        invariant forall k :: j <= k < |stations| ==> stations[k] == s0[k]
        invariant Snapshot() == old(Snapshot()).(stations := stations)
      {
        var waiting := stations[j];
        if waiting.busy && waiting.name != name {
          if waiting.qj == Some(name) {
            waiting := waiting.(vj := Some(result), qj := None);
          }
          if waiting.qk == Some(name) {
            waiting := waiting.(vk := Some(result), qk := None);
          }
        }
        stations := stations[j := waiting];
        j := j + 1;
      }
      assert stations == Broadcast(s0, name, result);
    }

    /** The register write of a finishing station: only when the status
        table of its class still names it as its destination's producer. */
    method WriteBackResult(rs: Station, result: real)
      requires rs.op.Some?
      modifies this
      ensures Snapshot() == WriteBack(old(Snapshot()), rs, result)
    {
      var isFp := IsFpOperation(rs.op.value);
      if isFp {
        if rs.dest in fpStatus && fpStatus[rs.dest] == Some(rs.name) {
          fpRegs := fpRegs[rs.dest := result];
          fpStatus := fpStatus[rs.dest := None];
        }
      } else {
        if rs.dest in intStatus && intStatus[rs.dest] == Some(rs.name) {
          intRegs := intRegs[rs.dest := result];
          intStatus := intStatus[rs.dest := None];
        }
      }
    }

    /** One iteration of the write phase's loop: a busy station that has
        finished executing computes its result, writes it back when it still
        owns its destination, broadcasts it, stamps its instruction's write
        cycle, logs the write and is cleared. */
    method WriteStation(cycle: int, i: nat)
      requires i < |stations| && WriteReady(stations)
      modifies this
      ensures Snapshot() == WriteOne(old(Snapshot()), cycle, i)
    {
      var rs := stations[i];
      if rs.busy && rs.isExecuting && rs.remainingCycles == 0 {
        var result := ComputeResult(rs.op.value, rs.vj.value, rs.vk.value);
        WriteBackResult(rs, result);
        BroadcastResult(rs.name, result);
        var k := FindInstr(instructions, rs.instrId);
        if k.Some? {
          instructions := instructions[k.value := instructions[k.value].(writeAt := Some(cycle))];
        }
        annotations := annotations + [WriteNote(cycle, rs.name, result, rs.dest)];
        ClearStation(i);
      }
    }

    /** `writeResultPhase`. */
    method WriteResultPhase(cycle: int)
      requires WriteReady(stations)
      modifies this
      ensures Snapshot() == WritePhase(old(Snapshot()), cycle)
    {
      var i := 0;
      while i < |stations|
        invariant |stations| == |old(stations)|
        invariant 0 <= i <= |stations|
        invariant Snapshot() == WritePrefix(old(Snapshot()), cycle, i)
      {
        WriteStation(cycle, i);
        i := i + 1;
      }
    }

    /** One iteration of the execute phase's loop: a busy executing station
        counts down (never below zero), a busy station with both tags clear
        starts executing, and any other busy station logs what it waits
        for. */
    method ExecuteStation(cycle: int, i: nat)
      requires i < |stations|
      modifies this
      ensures Snapshot() == ExecOne(old(Snapshot()), cycle, i)
    {
      var rs := stations[i];
      if !rs.busy {
        return;
      }
      if rs.isExecuting {
        if rs.remainingCycles > 0 {
          stations := stations[i := rs.(remainingCycles := rs.remainingCycles - 1)];
        }
        return;
      }
      if rs.qj.None? && rs.qk.None? {
        rs := rs.(isExecuting := true, remainingCycles := rs.remainingCycles - 1);
        stations := stations[i := rs];
        var k := FindInstr(instructions, rs.instrId);
        if k.Some? && instructions[k.value].execStartAt.None? {
          instructions := instructions[k.value := instructions[k.value].(execStartAt := Some(cycle))];
        }
        assert instructions == StampStart(old(instructions), rs.instrId, cycle);
        annotations := annotations + [ExecuteNote(cycle, rs.name, rs.op, rs.remainingCycles + 1)];
      } else {
        var waiting: seq<string> := [];
        if Truthy(rs.qj) {
          waiting := waiting + [rs.qj.value];
        }
        if Truthy(rs.qk) {
          waiting := waiting + [rs.qk.value];
        }
        assert waiting == Waiting(rs);
        annotations := annotations + [WaitNote(cycle, rs.name, waiting)];
      }
    }

    /** `executePhase`. */
    method ExecutePhase(cycle: int)
      modifies this
      ensures Snapshot() == ExecPhase(old(Snapshot()), cycle)
    {
      var i := 0;
      while i < |stations|
        invariant |stations| == |old(stations)|
        invariant 0 <= i <= |stations|
        invariant Snapshot() == ExecPrefix(old(Snapshot()), cycle, i)
      {
        ExecuteStation(cycle, i);
        i := i + 1;
      }
    }

    /** The renaming step of an issue: the status table of the class now
        names station `name` as the producer of `dest`. */
    method ClaimDestination(isFp: bool, dest: string, name: string)
      modifies this
      ensures Snapshot() == WithFile(old(Snapshot()), isFp, Regs(old(Snapshot()), isFp),
                                     Status(old(Snapshot()), isFp)[dest := Some(name)])
    {
      if isFp {
        fpStatus := fpStatus[dest := Some(name)];
      } else {
        intStatus := intStatus[dest := Some(name)];
      }
    }

    /** The issue of instruction `ip` to the free station `s`. */
    method IssueTo(cycle: int, ip: nat, s: nat, config: HardwareConfig)
      requires ip < |instructions| && s < |stations|
      modifies this
      ensures Snapshot() == IssueAt(old(Snapshot()), cycle, ip, s, config)
    {
      var instr := instructions[ip];
      var isFp := IsFpOperation(instr.op);
      var regFile := if isFp then fpRegs else intRegs;
      var regStatus := if isFp then fpStatus else intStatus;

      var rs := FillStation(stations[s], instr, regFile, regStatus, config);

      var events := [IssueNote(cycle, instr.op, instr.dest, instr.src1, instr.src2, rs.name)];
      if Truthy(rs.qj) || Truthy(rs.qk) {
        var hazardSources: seq<(string, string)> := [];
        if Truthy(rs.qj) {
          hazardSources := hazardSources + [(instr.src1, rs.qj.value)];
        }
        if Truthy(rs.qk) {
          hazardSources := hazardSources + [(instr.src2, rs.qk.value)];
        }
        assert hazardSources == HazardSources(instr, rs);
        events := events + [RawNote(cycle, hazardSources)];
      }
      assert events == IssueEvents(cycle, instr, rs);

      ClaimDestination(isFp, instr.dest, rs.name);
      stations, instructions, annotations :=
        stations[s := rs], instructions[ip := instr.(issuedAt := Some(cycle))], annotations + events;
    }

    /** `issuePhase`: returns the new issue pointer. */
    method IssuePhase(cycle: int, ip: nat, config: HardwareConfig) returns (newIp: nat)
      modifies this
      ensures (Snapshot(), newIp) == Issue(old(Snapshot()), cycle, ip, config)
    {
      if ip >= |instructions| {
        return ip;
      }
      var instr := instructions[ip];
      var available := FindAvailableStation(stations, instr.op);
      if available.None? {
        annotations := annotations + [StructuralNote(cycle, OpToFunctionalUnit(instr.op), instr.op)];
        return ip;
      }
      IssueTo(cycle, ip, available.value, config);
      newIp := ip + 1;
    }
  }

  /** The field updates of a successful issue on the chosen station: the
      operation, destination, owner and latency, and each source operand
      either as the pending producer's tag or as the register's value. */
  method FillStation(station: Station, instr: Instruction, regFile: RegisterFile, regStatus: RegisterStatus,
                     config: HardwareConfig) returns (rs: Station)
    ensures rs == Issued(station, instr, regFile, regStatus, config)
  {
    rs := station.(busy := true, op := Some(instr.op), dest := instr.dest, instrId := Some(instr.id),
                   remainingCycles := GetLatency(instr.op, config), isExecuting := false);
    if instr.src1 in regStatus && Truthy(regStatus[instr.src1]) {
      rs := rs.(qj := regStatus[instr.src1], vj := None);
    } else {
      rs := rs.(qj := None, vj := Some(ReadReg(regFile, instr.src1)));
    }
    if instr.src2 in regStatus && Truthy(regStatus[instr.src2]) {
      rs := rs.(qk := regStatus[instr.src2], vk := None);
    } else {
      rs := rs.(qk := None, vk := Some(ReadReg(regFile, instr.src2)));
    }
  }

  /** `executeCycle`: clone the inputs, run write, execute and issue in that
      order on the clone, and report the new state, the new issue pointer,
      the cycle's events and whether the simulation is complete. */
  method ExecuteCycle(cycle: int, instructions: seq<Instruction>, stations: seq<Station>,
                      fpRegisterFile: RegisterFile, intRegisterFile: RegisterFile,
                      fpRegisterStatus: RegisterStatus, intRegisterStatus: RegisterStatus,
                      instructionPointer: nat, config: HardwareConfig) returns (r: CycleResult)
    requires WriteReady(stations)
    ensures r == AfterCycle(cycle, Machine(instructions, stations, fpRegisterFile, intRegisterFile,
                                           fpRegisterStatus, intRegisterStatus, []),
                            instructionPointer, config)
  {
    var work := new Workspace(instructions, stations, fpRegisterFile, intRegisterFile,
                              fpRegisterStatus, intRegisterStatus);
    work.WriteResultPhase(cycle);
    work.ExecutePhase(cycle);
    var newIp := work.IssuePhase(cycle, instructionPointer, config);
    var isComplete := CheckSimulationComplete(work.instructions, work.stations);
    r := CycleResult(Machine(work.instructions, work.stations, work.fpRegs, work.intRegs,
                             work.fpStatus, work.intStatus, work.annotations),
                     newIp, isComplete);
  }
}
