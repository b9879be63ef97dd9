/** What one cycle does to a single station, a single instruction and the
    event log, traced through the three phases; and the consequences: the
    order of a cycle's events, the reuse of a station freed in the same
    cycle, and the countdown from the start of execution to the write. */
module Cycle {
  import opened Types
  import opened Instructions
  import opened Engine
  import opened Invariants

  // ---------------------------------------------------------------------
  // Relations between a station or an instruction list before and after a
  // phase

  /** `b` differs from `a` at most in its operand values and tags. */
  predicate OnlyOperands(a: Station, b: Station)
  {
    b.(vj := a.vj, vk := a.vk, qj := a.qj, qk := a.qk) == a
  }

  /** A station a broadcast leaves alone: free, or waiting for nobody. */
  predicate Quiet(s: Station)
  {
    !s.busy || (s.qj.None? && s.qk.None?)
  }

  /** The write phase only stamps write cycles, all with the current cycle. */
  predicate WriteFrame(a: seq<Instruction>, b: seq<Instruction>, cycle: int)
  {
    |a| == |b| && forall k :: 0 <= k < |a| ==> b[k] == a[k] || b[k] == a[k].(writeAt := Some(cycle))
  }

  /** The execute phase only stamps missing start cycles, with the current
      cycle. */
  predicate StartFrame(a: seq<Instruction>, b: seq<Instruction>, cycle: int)
  {
    |a| == |b| &&
    forall k :: 0 <= k < |a| ==>
      b[k] == a[k] || (a[k].execStartAt.None? && b[k] == a[k].(execStartAt := Some(cycle)))
  }

  /** The issue phase only stamps issue cycles, with the current cycle. */
  predicate IssueFrame(a: seq<Instruction>, b: seq<Instruction>, cycle: int)
  {
    |a| == |b| && forall k :: 0 <= k < |a| ==> b[k] == a[k] || b[k] == a[k].(issuedAt := Some(cycle))
  }

  /** `b` is `a` with the same instructions: the same id, operation and
      registers at every position, and every start cycle already stamped
      kept. */
  predicate SameProgram(a: seq<Instruction>, b: seq<Instruction>)
  {
    |a| == |b| &&
    forall k :: 0 <= k < |a| ==>
      b[k].id == a[k].id && b[k].op == a[k].op && b[k].dest == a[k].dest &&
      b[k].src1 == a[k].src1 && b[k].src2 == a[k].src2 &&
      (a[k].execStartAt.Some? ==> b[k].execStartAt == a[k].execStartAt)
  }

  /** Keeping the program composes. */
  lemma SameProgramTrans(a: seq<Instruction>, b: seq<Instruction>, c: seq<Instruction>)
    requires SameProgram(a, b) && SameProgram(b, c)
    ensures SameProgram(a, c)
  {
  }

  /** The search for an instruction by id gives the same answer in two
      lists with the same ids. */
  lemma FindInstrSameIds(a: seq<Instruction>, b: seq<Instruction>, id: Option<int>)
    requires |a| == |b| && forall k :: 0 <= k < |a| ==> a[k].id == b[k].id
    ensures FindInstr(a, id) == FindInstr(b, id)
  {
    if id.Some? {
      FindInstrFromIds(a, b, id.value, 0);
    }
  }
  /** `b` extends the log `a` with write events only. */
  predicate AppendsWrites(a: seq<Annotation>, b: seq<Annotation>)
  {
    |a| <= |b| && (forall j :: 0 <= j < |a| ==> b[j] == a[j]) && (forall j :: |a| <= j < |b| ==> b[j].WriteNote?)
  }

  /** `b` extends the log `a` with execute and wait events only. */
  predicate AppendsExecs(a: seq<Annotation>, b: seq<Annotation>)
  {
    |a| <= |b| && (forall j :: 0 <= j < |a| ==> b[j] == a[j]) &&
    (forall j :: |a| <= j < |b| ==> b[j].ExecuteNote? || b[j].WaitNote?)
  }

  // ---------------------------------------------------------------------
  // Write phase

  /** One write step seen from station `i`: the finishing station is
      emptied, any other station changes at most in its operands, and a
      quiet one not at all. */
  lemma WriteOneStation(m: Machine, r: Machine, cycle: int, j: nat, i: nat)
    requires j < |m.stations| && i < |m.stations| && WriteReady(m.stations) && r == WriteOne(m, cycle, j)
    ensures i == j && Finishing(m.stations[i]) ==> r.stations[i] == EmptyStation(m.stations[i].name, m.stations[i].unit)
    ensures i != j || !Finishing(m.stations[i]) ==>
      OnlyOperands(m.stations[i], r.stations[i]) && (Quiet(m.stations[i]) ==> r.stations[i] == m.stations[i])
  {
    var rs := m.stations[j];
    if Finishing(rs) {
      var result := ComputeResult(rs.op.value, rs.vj.value, rs.vk.value);
      FinishParts(m, cycle, j);
      AfterFinishAt(m.stations, j, result, i);
      ForwardFrame(m.stations[i], rs.name, result);
    }
  }

  /** One write step seen from the instruction list and the log: at most
      one write stamp, of the finishing station's instruction, and at most
      one write event. */
  lemma WriteOneLog(m: Machine, r: Machine, cycle: int, j: nat)
    requires j < |m.stations| && WriteReady(m.stations) && r == WriteOne(m, cycle, j)
    ensures WriteFrame(m.instructions, r.instructions, cycle)
    ensures Finishing(m.stations[j]) && FindInstr(m.instructions, m.stations[j].instrId).Some? ==>
      r.instructions[FindInstr(m.instructions, m.stations[j].instrId).value].writeAt == Some(cycle)
    ensures AppendsWrites(m.events, r.events) && |r.events| <= |m.events| + 1
  {
    var rs := m.stations[j];
    if Finishing(rs) {
      var result := ComputeResult(rs.op.value, rs.vj.value, rs.vk.value);
      WriteBackFrame(m, rs, result);
    }
  }

  lemma WritePrefixStepStation(m: Machine, cycle: int, n: nat, i: nat)
    requires 0 < n <= |m.stations| && i < |m.stations| && WriteReady(m.stations)
    ensures var p, r := WritePrefix(m, cycle, n - 1).stations[i], WritePrefix(m, cycle, n).stations[i];
      (i == n - 1 && Finishing(p) ==> r == EmptyStation(p.name, p.unit)) &&
      (i != n - 1 || !Finishing(p) ==> OnlyOperands(p, r) && (Quiet(p) ==> r == p))
  {
    WriteOneStation(WritePrefix(m, cycle, n - 1), WritePrefix(m, cycle, n), cycle, n - 1, i);
  }

  lemma WritePrefixStepLog(m: Machine, cycle: int, n: nat)
    requires 0 < n <= |m.stations| && WriteReady(m.stations)
    ensures var p, r := WritePrefix(m, cycle, n - 1), WritePrefix(m, cycle, n);
      WriteFrame(p.instructions, r.instructions, cycle) &&
      (Finishing(p.stations[n - 1]) && FindInstr(p.instructions, p.stations[n - 1].instrId).Some? ==>
         r.instructions[FindInstr(p.instructions, p.stations[n - 1].instrId).value].writeAt == Some(cycle)) &&
      AppendsWrites(p.events, r.events) && |r.events| <= |p.events| + 1
  {
    WriteOneLog(WritePrefix(m, cycle, n - 1), WritePrefix(m, cycle, n), cycle, n - 1);
  }

  /** Two steps that each change at most the operands, and leave a quiet
      station alone, compose. */
  lemma ComposeOperands(a: Station, p: Station, r: Station)
    requires OnlyOperands(a, p) && (Quiet(a) ==> p == a)
    requires OnlyOperands(p, r) && (Quiet(p) ==> r == p)
    ensures OnlyOperands(a, r) && (Quiet(a) ==> r == a)
  {
  }

  /** The write phase empties the stations that were finishing, changes at
      most the operands of the others, and leaves quiet ones alone. */
  lemma {:induction false} WritePrefixAt(m: Machine, cycle: int, n: nat, i: nat)
    requires n <= |m.stations| && i < |m.stations| && WriteReady(m.stations)
    ensures var r := WritePrefix(m, cycle, n);
      (i < n && Finishing(m.stations[i]) ==> r.stations[i] == EmptyStation(m.stations[i].name, m.stations[i].unit)) &&
      (!(i < n && Finishing(m.stations[i])) ==>
         OnlyOperands(m.stations[i], r.stations[i]) && (Quiet(m.stations[i]) ==> r.stations[i] == m.stations[i]))
  {
    if n > 0 {
      WritePrefixAt(m, cycle, n - 1, i);
      WritePrefixStepStation(m, cycle, n, i);
      var a, p, r := m.stations[i], WritePrefix(m, cycle, n - 1).stations[i], WritePrefix(m, cycle, n).stations[i];
      if i < n - 1 && Finishing(a) {
        assert Quiet(p);
      } else if !(i == n - 1 && Finishing(p)) {
        ComposeOperands(a, p, r);
      }
    }
  }

  /** The write phase only stamps write cycles of the current cycle and
      only logs write events, at most one per station. */
  lemma {:induction false} WritePrefixLog(m: Machine, cycle: int, n: nat)
    requires n <= |m.stations| && WriteReady(m.stations)
    ensures WriteFrame(m.instructions, WritePrefix(m, cycle, n).instructions, cycle)
    ensures AppendsWrites(m.events, WritePrefix(m, cycle, n).events)
    ensures |WritePrefix(m, cycle, n).events| <= |m.events| + n
  {
    if n > 0 {
      WritePrefixLog(m, cycle, n - 1);
      var p := WritePrefix(m, cycle, n - 1);
      var r := WritePrefix(m, cycle, n);
      WritePrefixStepLog(m, cycle, n);
      forall k | 0 <= k < |m.instructions|
        ensures r.instructions[k] == m.instructions[k] || r.instructions[k] == m.instructions[k].(writeAt := Some(cycle))
      {
        assert p.instructions[k] == m.instructions[k] || p.instructions[k] == m.instructions[k].(writeAt := Some(cycle));
      }
    }
  }

  /** A station finishing at the start of the write phase stamps its
      instruction's write cycle, and no later step of the phase undoes it. */
  lemma {:induction false} WritePrefixStamp(m: Machine, cycle: int, n: nat, i: nat)
    requires i < n <= |m.stations| && WriteReady(m.stations) && Finishing(m.stations[i])
    requires FindInstr(m.instructions, m.stations[i].instrId).Some?
    ensures WritePrefix(m, cycle, n).instructions[FindInstr(m.instructions, m.stations[i].instrId).value].writeAt == Some(cycle)
  {
    var k := FindInstr(m.instructions, m.stations[i].instrId).value;
    var p := WritePrefix(m, cycle, n - 1);
    var r := WritePrefix(m, cycle, n);
    WritePrefixStepLog(m, cycle, n);
    if i == n - 1 {
      WritePrefixAt(m, cycle, n - 1, i);
      WritePrefixLog(m, cycle, n - 1);
      FindInstrSameIds(m.instructions, p.instructions, m.stations[i].instrId);
    } else {
      WritePrefixStamp(m, cycle, n - 1, i);
    }
  }

  // ---------------------------------------------------------------------
  // Execute phase

  /** What the execute phase does to one station: a countdown in progress
      ticks (never below zero), a ready station starts, and any other
      station stays as it is. */
  function Tick(s: Station): Station
  {
    if !s.busy then s
    else if s.isExecuting then
      if s.remainingCycles > 0 then s.(remainingCycles := s.remainingCycles - 1) else s
    else if s.qj.None? && s.qk.None? then s.(isExecuting := true, remainingCycles := s.remainingCycles - 1)
    else s
  }

  /** One execute step seen from station `i`. */
  lemma ExecOneStation(m: Machine, r: Machine, cycle: int, j: nat, i: nat)
    requires j < |m.stations| && i < |m.stations| && r == ExecOne(m, cycle, j)
    ensures r.stations[i] == if i == j then Tick(m.stations[i]) else m.stations[i]
  {
  }

  /** One execute step seen from the instruction list, the register files
      and the log: at most one start stamp, kept when already present, and
      at most one execute or wait event. */
  lemma ExecOneLog(m: Machine, r: Machine, cycle: int, j: nat)
    requires j < |m.stations| && r == ExecOne(m, cycle, j)
    ensures StartFrame(m.instructions, r.instructions, cycle)
    ensures var s := m.stations[j];
      s.busy && !s.isExecuting && s.qj.None? && s.qk.None? && FindInstr(m.instructions, s.instrId).Some? ==>
      var k := FindInstr(m.instructions, s.instrId).value;
      r.instructions[k].execStartAt == if m.instructions[k].execStartAt.None? then Some(cycle) else m.instructions[k].execStartAt
    ensures AppendsExecs(m.events, r.events) && |r.events| <= |m.events| + 1
    ensures r.fpRegs == m.fpRegs && r.intRegs == m.intRegs && r.fpStatus == m.fpStatus && r.intStatus == m.intStatus
  {
    var s := m.stations[j];
    if s.busy && !s.isExecuting && s.qj.None? && s.qk.None? {
      StampStartFrame(m.instructions, s.instrId, cycle);
      assert r.instructions == StampStart(m.instructions, s.instrId, cycle);
      assert r.events == m.events + [ExecuteNote(cycle, s.name, s.op, s.remainingCycles)];
    } else {
      assert r.instructions == m.instructions;
      assert r.events == m.events || r.events == m.events + [WaitNote(cycle, s.name, Waiting(s))];
    }
  }

  /** Stamping a start cycle changes at most the found instruction, and only
      when it has none yet. */
  lemma StampStartFrame(instrs: seq<Instruction>, id: Option<int>, cycle: int)
    ensures StartFrame(instrs, StampStart(instrs, id, cycle), cycle)
    ensures FindInstr(instrs, id).Some? ==>
      var k := FindInstr(instrs, id).value;
      StampStart(instrs, id, cycle)[k].execStartAt == if instrs[k].execStartAt.None? then Some(cycle) else instrs[k].execStartAt
  {
  }

  lemma ExecPrefixStep(m: Machine, cycle: int, n: nat, i: nat)
    requires 0 < n <= |m.stations| && i < |m.stations|
    ensures ExecPrefix(m, cycle, n).stations[i] ==
      if i == n - 1 then Tick(ExecPrefix(m, cycle, n - 1).stations[i]) else ExecPrefix(m, cycle, n - 1).stations[i]
  {
    ExecOneStation(ExecPrefix(m, cycle, n - 1), ExecPrefix(m, cycle, n), cycle, n - 1, i);
  }

  lemma ExecPrefixStepLog(m: Machine, cycle: int, n: nat)
    requires 0 < n <= |m.stations|
    ensures var p, r := ExecPrefix(m, cycle, n - 1), ExecPrefix(m, cycle, n);
      var s := p.stations[n - 1];
      StartFrame(p.instructions, r.instructions, cycle) &&
      (s.busy && !s.isExecuting && s.qj.None? && s.qk.None? && FindInstr(p.instructions, s.instrId).Some? ==>
         var k := FindInstr(p.instructions, s.instrId).value;
         r.instructions[k].execStartAt == if p.instructions[k].execStartAt.None? then Some(cycle) else p.instructions[k].execStartAt) &&
      AppendsExecs(p.events, r.events) && |r.events| <= |p.events| + 1 &&
      r.fpRegs == p.fpRegs && r.intRegs == p.intRegs && r.fpStatus == p.fpStatus && r.intStatus == p.intStatus
  {
    ExecOneLog(ExecPrefix(m, cycle, n - 1), ExecPrefix(m, cycle, n), cycle, n - 1);
  }

  /** The execute phase ticks every station once. */
  lemma {:induction false} ExecPrefixAt(m: Machine, cycle: int, n: nat, i: nat)
    requires n <= |m.stations| && i < |m.stations|
    ensures ExecPrefix(m, cycle, n).stations[i] == if i < n then Tick(m.stations[i]) else m.stations[i]
  {
    if n > 0 {
      ExecPrefixAt(m, cycle, n - 1, i);
      ExecPrefixStep(m, cycle, n, i);
    }
  }

  /** The execute phase only stamps missing start cycles with the current
      cycle, touches no register file or status table, and only logs
      execute and wait events, at most one per station. */
  lemma {:induction false} ExecPrefixLog(m: Machine, cycle: int, n: nat)
    requires n <= |m.stations|
    ensures var r := ExecPrefix(m, cycle, n);
      StartFrame(m.instructions, r.instructions, cycle) &&
      AppendsExecs(m.events, r.events) && |r.events| <= |m.events| + n &&
      r.fpRegs == m.fpRegs && r.intRegs == m.intRegs && r.fpStatus == m.fpStatus && r.intStatus == m.intStatus
  {
    if n > 0 {
      ExecPrefixLog(m, cycle, n - 1);
      var p := ExecPrefix(m, cycle, n - 1);
      var r := ExecPrefix(m, cycle, n);
      ExecPrefixStepLog(m, cycle, n);
      forall k | 0 <= k < |m.instructions|
        ensures r.instructions[k] == m.instructions[k] ||
          (m.instructions[k].execStartAt.None? && r.instructions[k] == m.instructions[k].(execStartAt := Some(cycle)))
      {
        assert p.instructions[k] == m.instructions[k] ||
          (m.instructions[k].execStartAt.None? && p.instructions[k] == m.instructions[k].(execStartAt := Some(cycle)));
        assert r.instructions[k] == p.instructions[k] ||
          (p.instructions[k].execStartAt.None? && r.instructions[k] == p.instructions[k].(execStartAt := Some(cycle)));
      }
    }
  }

  /** A station that starts executing in this phase stamps its
      instruction's start cycle unless one is already stamped. */
  lemma {:induction false} ExecPrefixStamp(m: Machine, cycle: int, n: nat, i: nat)
    requires i < n <= |m.stations|
    requires var s := m.stations[i];
      s.busy && !s.isExecuting && s.qj.None? && s.qk.None? && FindInstr(m.instructions, s.instrId).Some?
    ensures var k := FindInstr(m.instructions, m.stations[i].instrId).value;
      ExecPrefix(m, cycle, n).instructions[k].execStartAt ==
        if m.instructions[k].execStartAt.None? then Some(cycle) else m.instructions[k].execStartAt
  {
    var k := FindInstr(m.instructions, m.stations[i].instrId).value;
    var p := ExecPrefix(m, cycle, n - 1);
    var r := ExecPrefix(m, cycle, n);
    ExecPrefixLog(m, cycle, n - 1);
    ExecPrefixStepLog(m, cycle, n);
    if i == n - 1 {
      ExecPrefixAt(m, cycle, n - 1, i);
      FindInstrSameIds(m.instructions, p.instructions, m.stations[i].instrId);
      assert p.instructions[k] == m.instructions[k] ||
        (m.instructions[k].execStartAt.None? && p.instructions[k] == m.instructions[k].(execStartAt := Some(cycle)));
    } else {
      ExecPrefixStamp(m, cycle, n - 1, i);
    }
  }

  // ---------------------------------------------------------------------
  // Issue phase

  /** The issue phase touches no busy station, only stamps an issue cycle
      and logs either nothing (the program is exhausted), one
      structural-hazard event, or an issue event possibly followed by a
      RAW-hazard event. */
  lemma IssueFacts(m: Machine, cycle: int, ip: nat, config: HardwareConfig) returns (iss: seq<Annotation>)
    ensures var r := Issue(m, cycle, ip, config).0;
      |r.stations| == |m.stations| &&
      (forall k :: 0 <= k < |m.stations| && m.stations[k].busy ==> r.stations[k] == m.stations[k]) &&
      IssueFrame(m.instructions, r.instructions, cycle) &&
      r.events == m.events + iss
    ensures iss == [] || (|iss| == 1 && iss[0].StructuralNote?) ||
      (1 <= |iss| <= 2 && iss[0].IssueNote? && (|iss| == 2 ==> iss[1].RawNote?))
  {
    if ip >= |m.instructions| {
      iss := [];
    } else {
      var instr := m.instructions[ip];
      var s := FindAvailableStation(m.stations, instr.op);
      if s.None? {
        iss := [StructuralNote(cycle, OpToFunctionalUnit(instr.op), instr.op)];
      } else {
        var fp := IsFpOperation(instr.op);
        var rs := Issued(m.stations[s.value], instr, Regs(m, fp), Status(m, fp), config);
        iss := IssueEvents(cycle, instr, rs);
      }
    }
  }

  /** The issue phase in full. With the pointer past the program nothing
      happens. Without a free station of the instruction's unit one
      structural hazard is logged and nothing else changes. Otherwise the
      first free station of that unit is filled with the operation, the
      destination, the instruction's id and the latency as countdown; each
      source gets the producer the status table names, or else the value
      of the register file (0 for a missing register); only then is the
      destination's status entry set to the station; the issue cycle is
      stamped, the events logged and the pointer advanced by one. */
  lemma IssueEffect(m: Machine, cycle: int, ip: nat, config: HardwareConfig)
    ensures var (r, ip') := Issue(m, cycle, ip, config);
      && (ip >= |m.instructions| ==> r == m && ip' == ip)
      && (ip < |m.instructions| && FindAvailableStation(m.stations, m.instructions[ip].op).None? ==>
            var op := m.instructions[ip].op;
            ip' == ip && r == m.(events := m.events + [StructuralNote(cycle, OpToFunctionalUnit(op), op)]))
      && (ip < |m.instructions| && FindAvailableStation(m.stations, m.instructions[ip].op).Some? ==>
            var instr := m.instructions[ip];
            var s := FindAvailableStation(m.stations, instr.op).value;
            var fp := IsFpOperation(instr.op);
            var rs := r.stations[s];
            && ip' == ip + 1
            && r.instructions == m.instructions[ip := instr.(issuedAt := Some(cycle))]
            && r.stations == m.stations[s := rs]
            && rs.name == m.stations[s].name && rs.unit == OpToFunctionalUnit(instr.op)
            && rs.busy && !rs.isExecuting && rs.op == Some(instr.op) && rs.dest == instr.dest
            && rs.instrId == Some(instr.id) && rs.remainingCycles == GetLatency(instr.op, config)
            && rs.qj == Producer(Status(m, fp), instr.src1)
            && rs.vj == (if rs.qj.Some? then None else Some(ReadReg(Regs(m, fp), instr.src1)))
            && rs.qk == Producer(Status(m, fp), instr.src2)
            && rs.vk == (if rs.qk.Some? then None else Some(ReadReg(Regs(m, fp), instr.src2)))
            && Status(r, fp) == Status(m, fp)[instr.dest := Some(rs.name)]
            && Status(r, !fp) == Status(m, !fp)
            && r.fpRegs == m.fpRegs && r.intRegs == m.intRegs
            && r.events == m.events + IssueEvents(cycle, instr, rs))
  {
    if ip < |m.instructions| {
      var s := FindAvailableStation(m.stations, m.instructions[ip].op);
      if s.Some? {
        IssueAtParts(m, cycle, ip, s.value, config);
      }
    }
  }

  /** Sources are renamed before the destination is claimed, and the chosen
      station was free, so a freshly issued station never waits on itself:
      an instruction that reads its own destination waits on the register's
      previous producer. */
  lemma IssueNeverWaitsOnItself(m: Machine, cycle: int, ip: nat, config: HardwareConfig)
    requires Inv(m) && ip < |m.instructions|
    requires FindAvailableStation(m.stations, m.instructions[ip].op).Some?
    ensures var instr := m.instructions[ip];
      var s := FindAvailableStation(m.stations, instr.op).value;
      var rs := Issue(m, cycle, ip, config).0.stations[s];
      && rs.qj != Some(rs.name) && rs.qk != Some(rs.name)
      && (instr.src1 == instr.dest ==> rs.qj == Producer(Status(m, IsFpOperation(instr.op)), instr.dest))
  {
    var instr := m.instructions[ip];
    var s := FindAvailableStation(m.stations, instr.op).value;
    var fp := IsFpOperation(instr.op);
    var status := Status(m, fp);
    IssueEffect(m, cycle, ip, config);
    var rs := Issue(m, cycle, ip, config).0.stations[s];
    assert StatusOk(m.stations, status, fp) by {
      if fp {
        assert status == m.fpStatus;
      } else {
        assert status == m.intStatus;
      }
    }
  }

  /** The write-back guard: a finishing station writes its result to its
      destination and clears the destination's status entry only while the
      entry still names it; a superseded producer leaves both untouched. The
      other class's file and table never change, every other station hears
      the broadcast, and the finishing station is cleared. */
  lemma FinishEffect(m: Machine, cycle: int, i: nat)
    requires i < |m.stations| && WriteReady(m.stations) && Finishing(m.stations[i])
    ensures var rs := m.stations[i];
      var fp := IsFpOperation(rs.op.value);
      var result := ComputeResult(rs.op.value, rs.vj.value, rs.vk.value);
      var r := Finish(m, cycle, i);
      var owns := rs.dest in Status(m, fp) && Status(m, fp)[rs.dest] == Some(rs.name);
      && (owns ==> Regs(r, fp) == Regs(m, fp)[rs.dest := result] && Status(r, fp) == Status(m, fp)[rs.dest := None])
      && (!owns ==> Regs(r, fp) == Regs(m, fp) && Status(r, fp) == Status(m, fp))
      && Regs(r, !fp) == Regs(m, !fp) && Status(r, !fp) == Status(m, !fp)
      && |r.stations| == |m.stations|
      && r.stations[i] == EmptyStation(rs.name, rs.unit)
      && (forall k :: 0 <= k < |m.stations| && k != i ==> r.stations[k] == Forward(m.stations[k], rs.name, result))
  {
    var rs := m.stations[i];
    var result := ComputeResult(rs.op.value, rs.vj.value, rs.vk.value);
    FinishParts(m, cycle, i);
    WriteBackFrame(m, rs, result);
    forall k | 0 <= k < |m.stations| && k != i
      ensures Finish(m, cycle, i).stations[k] == Forward(m.stations[k], rs.name, result)
    {
      AfterFinishAt(m.stations, i, result, k);
    }
    AfterFinishAt(m.stations, i, result, i);
  }

  /** Register renaming: once an instruction is issued, its station is the
      producer its class's status table names for the destination, so a
      later instruction reading that register waits on the station; every
      other register keeps its producer, and no register value changes. */
  lemma IssueRenamesDest(m: Machine, cycle: int, ip: nat, config: HardwareConfig)
    requires NamesOk(m.stations) && ip < |m.instructions|
    requires FindAvailableStation(m.stations, m.instructions[ip].op).Some?
    ensures var instr := m.instructions[ip];
      var s := FindAvailableStation(m.stations, instr.op).value;
      var fp := IsFpOperation(instr.op);
      var r := Issue(m, cycle, ip, config).0;
      && Producer(Status(r, fp), instr.dest) == Some(m.stations[s].name)
      && (forall reg :: reg != instr.dest ==> Producer(Status(r, fp), reg) == Producer(Status(m, fp), reg))
      && Status(r, !fp) == Status(m, !fp)
      && Regs(r, fp) == Regs(m, fp) && Regs(r, !fp) == Regs(m, !fp)
  {
    IssueEffect(m, cycle, ip, config);
    var s := FindAvailableStation(m.stations, m.instructions[ip].op).value;
    assert m.stations[s].name != "";
  }

  /** Publishing a result: while a finishing station still owns its
      destination, the register then holds the result and names no
      producer, so a later reader takes the value from the file; a
      superseded station leaves the register's value and producer alone.
      No other register of either class changes. */
  lemma FinishPublishes(m: Machine, cycle: int, i: nat)
    requires i < |m.stations| && WriteReady(m.stations) && Finishing(m.stations[i])
    ensures var rs := m.stations[i];
      var fp := IsFpOperation(rs.op.value);
      var result := ComputeResult(rs.op.value, rs.vj.value, rs.vk.value);
      var r := Finish(m, cycle, i);
      var owns := rs.dest in Status(m, fp) && Status(m, fp)[rs.dest] == Some(rs.name);
      && (owns ==> ReadReg(Regs(r, fp), rs.dest) == result && Producer(Status(r, fp), rs.dest).None?)
      && (!owns ==> (ReadReg(Regs(r, fp), rs.dest) == ReadReg(Regs(m, fp), rs.dest) &&
                     Producer(Status(r, fp), rs.dest) == Producer(Status(m, fp), rs.dest)))
      && (forall reg :: reg != rs.dest ==>
            ReadReg(Regs(r, fp), reg) == ReadReg(Regs(m, fp), reg) &&
            Producer(Status(r, fp), reg) == Producer(Status(m, fp), reg))
      && Regs(r, !fp) == Regs(m, !fp) && Status(r, !fp) == Status(m, !fp)
  {
    FinishEffect(m, cycle, i);
  }

  /** With no station busy, the write phase changes nothing. */
  lemma {:induction false} WritePrefixIdle(m: Machine, cycle: int, n: nat)
    requires n <= |m.stations| && forall k :: 0 <= k < |m.stations| ==> !m.stations[k].busy
    ensures WriteReady(m.stations) && WritePrefix(m, cycle, n) == m
  {
    if n > 0 {
      WritePrefixIdle(m, cycle, n - 1);
    }
  }

  /** With no station busy, the execute phase changes nothing. */
  lemma {:induction false} ExecPrefixIdle(m: Machine, cycle: int, n: nat)
    requires n <= |m.stations| && forall k :: 0 <= k < |m.stations| ==> !m.stations[k].busy
    ensures ExecPrefix(m, cycle, n) == m
  {
    if n > 0 {
      ExecPrefixIdle(m, cycle, n - 1);
    }
  }

  /** A completed machine whose whole program has been issued is a fixed
      point of the cycle: another cycle logs nothing, changes nothing and
      still reports completion. */
  lemma CompleteIsFixedPoint(cycle: int, m: Machine, ip: nat, config: HardwareConfig)
    requires CheckSimulationComplete(m.instructions, m.stations) && ip >= |m.instructions|
    ensures WriteReady(m.stations)
    ensures var res := AfterCycle(cycle, m, ip, config);
      res.machine == m.(events := []) && res.instructionPointer == ip && res.isComplete
  {
    var m0 := m.(events := []);
    WritePrefixIdle(m0, cycle, |m0.stations|);
    ExecPrefixIdle(m0, cycle, |m0.stations|);
  }

  // ---------------------------------------------------------------------
  // The whole cycle

  /** An event log ordered by phase: write events before index `a`,
      execute and wait events from `a` to `b`, then the issue phase's
      events: none, one structural-hazard event, or an issue event possibly
      followed by a RAW-hazard event. */
  predicate PhaseOrdered(ev: seq<Annotation>, a: nat, b: nat)
  {
    a <= b <= |ev| &&
    (forall j :: 0 <= j < a ==> ev[j].Kind() == WriteKind) &&
    (forall j :: a <= j < b ==> ev[j].Kind() == ExecuteKind || (ev[j].WaitNote? && ev[j].Kind() == HazardKind)) &&
    (|ev| == b ||
     (|ev| == b + 1 && ev[b].StructuralNote? && ev[b].Kind() == HazardKind) ||
     (b < |ev| <= b + 2 && ev[b].Kind() == IssueKind && (|ev| == b + 2 ==> ev[b + 1].RawNote? && ev[b + 1].Kind() == HazardKind)))
  }

  lemma LogsOrdered(w: seq<Annotation>, e: seq<Annotation>, iss: seq<Annotation>)
    requires AppendsWrites([], w) && AppendsExecs(w, e)
    requires iss == [] || (|iss| == 1 && iss[0].StructuralNote?) ||
      (1 <= |iss| <= 2 && iss[0].IssueNote? && (|iss| == 2 ==> iss[1].RawNote?))
    ensures PhaseOrdered(e + iss, |w|, |e|)
  {
    var ev := e + iss;
    forall j | 0 <= j < |w| ensures ev[j].Kind() == WriteKind {
      assert ev[j] == e[j] == w[j];
    }
    forall j | |w| <= j < |e| ensures ev[j].Kind() == ExecuteKind || (ev[j].WaitNote? && ev[j].Kind() == HazardKind) {
      assert ev[j] == e[j];
    }
  }

  /** The events of a cycle come phase by phase (at most one write event
      and at most one execute or wait event per station). */
  lemma CycleEventOrder(cycle: int, m: Machine, ip: nat, config: HardwareConfig) returns (a: nat, b: nat)
    requires WriteReady(m.stations)
    ensures a <= |m.stations| && b <= a + |m.stations|
    ensures PhaseOrdered(AfterCycle(cycle, m, ip, config).machine.events, a, b)
  {
    var m0 := m.(events := []);
    WritePrefixLog(m0, cycle, |m0.stations|);
    var w := WritePhase(m0, cycle);
    ExecPrefixLog(w, cycle, |w.stations|);
    var e := ExecPhase(w, cycle);
    var iss := IssueFacts(e, cycle, ip, config);
    a, b := |w.events|, |e.events|;
    LogsOrdered(w.events, e.events, iss);
  }

  /** A station that finishes in a cycle's write phase is free for that
      cycle's issue phase: when the next instruction needs its unit, the
      instruction issues in the same cycle. */
  lemma FreedStationReused(cycle: int, m: Machine, ip: nat, config: HardwareConfig, i: nat)
    requires WriteReady(m.stations) && i < |m.stations| && Finishing(m.stations[i])
    requires ip < |m.instructions| && m.stations[i].unit == OpToFunctionalUnit(m.instructions[ip].op)
    ensures AfterCycle(cycle, m, ip, config).instructionPointer == ip + 1
  {
    var m0 := m.(events := []);
    WritePrefixAt(m0, cycle, |m0.stations|, i);
    var w := WritePhase(m0, cycle);
    ExecPrefixAt(w, cycle, |w.stations|, i);
    var e := ExecPhase(w, cycle);
    WritePrefixLog(m0, cycle, |m0.stations|);
    ExecPrefixLog(w, cycle, |w.stations|);
    assert e.instructions[ip].op == m.instructions[ip].op by {
      assert w.instructions[ip] == m.instructions[ip] || w.instructions[ip] == m.instructions[ip].(writeAt := Some(cycle));
      assert e.instructions[ip] == w.instructions[ip] ||
        e.instructions[ip] == w.instructions[ip].(execStartAt := Some(cycle));
    }
    assert Free(e.stations[i], OpToFunctionalUnit(e.instructions[ip].op));
    FindAvailableStationSpec(e.stations, e.instructions[ip].op);
  }

  /** The instruction list across a cycle keeps its length and, at every
      position, the id, operation and registers, and every start cycle
      already stamped. */
  lemma CycleSameProgram(cycle: int, m: Machine, ip: nat, config: HardwareConfig)
    requires WriteReady(m.stations)
    ensures SameProgram(m.instructions, AfterCycle(cycle, m, ip, config).machine.instructions)
  {
    var m0 := m.(events := []);
    WritePrefixLog(m0, cycle, |m0.stations|);
    var w := WritePhase(m0, cycle);
    ExecPrefixLog(w, cycle, |w.stations|);
    var e := ExecPhase(w, cycle);
    var iss := IssueFacts(e, cycle, ip, config);
    var a, b, c, d := m.instructions, w.instructions, e.instructions, Issue(e, cycle, ip, config).0.instructions;
    forall k | 0 <= k < |a|
      ensures d[k].id == a[k].id && d[k].op == a[k].op && d[k].dest == a[k].dest
        && d[k].src1 == a[k].src1 && d[k].src2 == a[k].src2
        && (a[k].execStartAt.Some? ==> d[k].execStartAt == a[k].execStartAt)
    {
      assert b[k] == a[k] || b[k] == a[k].(writeAt := Some(cycle));
      assert c[k] == b[k] || (b[k].execStartAt.None? && c[k] == b[k].(execStartAt := Some(cycle)));
      assert d[k] == c[k] || d[k] == c[k].(issuedAt := Some(cycle));
    }
  }
}
