/** The invariants the cycle engine keeps on its station list and status
    tables, and their preservation by each phase and by a whole cycle.

    - A free station is empty. A busy station has an operation of its unit,
      an owner, and for each operand exactly one of a value and a tag; it
      executes only with both tags clear; its countdown is at least 1 while
      it waits and never negative while it executes.
    - Station names are unique and non-empty.
    - A status entry names a busy station of the table's class whose
      destination is that register.
    - A tag names a busy station. */
module Invariants {
  import opened Types
  import opened Instructions
  import opened Engine

  predicate StationOk(s: Station)
  {
    if !s.busy then Idle(s)
    else
      && s.op.Some? && s.unit == OpToFunctionalUnit(s.op.value) && s.instrId.Some?
      && (s.qj.None? <==> s.vj.Some?) && (s.qk.None? <==> s.vk.Some?)
      && (s.isExecuting ==> s.qj.None? && s.qk.None? && s.remainingCycles >= 0)
      && (!s.isExecuting ==> s.remainingCycles >= 1)
  }

  predicate StationsOk(st: seq<Station>)
  {
    forall k :: 0 <= k < |st| ==> StationOk(st[k])
  }

  predicate NamesOk(st: seq<Station>)
  {
    (forall k :: 0 <= k < |st| ==> st[k].name != "") &&
    (forall k1, k2 :: 0 <= k1 < |st| && 0 <= k2 < |st| && k1 != k2 ==> st[k1].name != st[k2].name)
  }

  /** Station `k` is busy and called `n`. */
  predicate LiveAt(st: seq<Station>, k: int, n: string)
  {
    0 <= k < |st| && st[k].busy && st[k].name == n
  }

  /** Some busy station is called `n`. */
  ghost predicate Live(st: seq<Station>, n: string)
  {
    exists k :: LiveAt(st, k, n)
  }

  /** Station `k` is busy, called `n`, of class `fp`, and produces `reg`. */
  predicate OwnerAt(st: seq<Station>, k: int, n: string, reg: string, fp: bool)
  {
    LiveAt(st, k, n) && st[k].dest == reg && st[k].op.Some? && IsFpOperation(st[k].op.value) == fp
  }

  ghost predicate Owner(st: seq<Station>, n: string, reg: string, fp: bool)
  {
    exists k :: OwnerAt(st, k, n, reg, fp)
  }

  ghost predicate StatusOk(st: seq<Station>, status: RegisterStatus, fp: bool)
  {
    forall r :: r in status && status[r].Some? ==> Owner(st, status[r].value, r, fp)
  }

  ghost predicate TagsOk(st: seq<Station>)
  {
    forall k :: 0 <= k < |st| && st[k].busy ==>
      (st[k].qj.Some? ==> Live(st, st[k].qj.value)) && (st[k].qk.Some? ==> Live(st, st[k].qk.value))
  }

  ghost predicate Inv(m: Machine)
  {
    StationsOk(m.stations) && NamesOk(m.stations) &&
    StatusOk(m.stations, m.fpStatus, true) && StatusOk(m.stations, m.intStatus, false) &&
    TagsOk(m.stations)
  }

  /** Every finishing station has its operation and both operand values. */
  lemma InvWriteReady(m: Machine)
    requires Inv(m)
    ensures WriteReady(m.stations)
  {
    forall k | 0 <= k < |m.stations| && Finishing(m.stations[k])
      ensures m.stations[k].op.Some? && m.stations[k].vj.Some? && m.stations[k].vk.Some?
    {
      assert StationOk(m.stations[k]);
    }
  }

  // ---------------------------------------------------------------------
  // Write phase

  /** A broadcast changes nothing of a station but its operands: a busy
      station with another name takes the result for each operand tagged
      with the broadcaster's name and drops that tag. */
  lemma ForwardFrame(s: Station, n: string, result: real)
    ensures var f := Forward(s, n, result);
      f.(vj := s.vj, vk := s.vk, qj := s.qj, qk := s.qk) == s
    ensures Forward(s, n, result).qj == (if s.busy && s.name != n && s.qj == Some(n) then None else s.qj)
    ensures Forward(s, n, result).qk == (if s.busy && s.name != n && s.qk == Some(n) then None else s.qk)
    ensures Forward(s, n, result).vj == (if s.busy && s.name != n && s.qj == Some(n) then Some(result) else s.vj)
    ensures Forward(s, n, result).vk == (if s.busy && s.name != n && s.qk == Some(n) then Some(result) else s.vk)
    ensures StationOk(s) ==> StationOk(Forward(s, n, result))
  {
  }

  /** The station list after a finishing station `i` has broadcast and been
      cleared. */
  function AfterFinish(st: seq<Station>, i: nat, result: real): seq<Station>
    requires i < |st|
  {
    Broadcast(st, st[i].name, result)[i := EmptyStation(st[i].name, st[i].unit)]
  }

  lemma AfterFinishAt(st: seq<Station>, i: nat, result: real, k: nat)
    requires i < |st| && k < |st|
    ensures |AfterFinish(st, i, result)| == |st|
    ensures AfterFinish(st, i, result)[k] ==
      if k == i then EmptyStation(st[i].name, st[i].unit) else Forward(st[k], st[i].name, result)
  {
  }

  /** Station shapes and names survive a finish. */
  lemma AfterFinishShape(st: seq<Station>, i: nat, result: real)
    requires i < |st| && StationsOk(st) && NamesOk(st)
    ensures StationsOk(AfterFinish(st, i, result)) && NamesOk(AfterFinish(st, i, result))
  {
    var st' := AfterFinish(st, i, result);
    forall k | 0 <= k < |st'|
      ensures StationOk(st'[k]) && st'[k].name == st[k].name
    {
      AfterFinishAt(st, i, result, k);
      ForwardFrame(st[k], st[i].name, result);
      assert StationOk(st[k]);
    }
  }

  /** A busy station other than the finishing one stays busy under its name. */
  lemma AfterFinishLive(st: seq<Station>, i: nat, result: real, k: int, n: string)
    requires i < |st| && LiveAt(st, k, n) && k != i
    ensures LiveAt(AfterFinish(st, i, result), k, n)
    ensures AfterFinish(st, i, result)[k].dest == st[k].dest && AfterFinish(st, i, result)[k].op == st[k].op
  {
    AfterFinishAt(st, i, result, k);
    ForwardFrame(st[k], st[i].name, result);
  }

  /** Tags still name busy stations after a finish: the tags naming the
      finishing station were all cleared by its broadcast. */
  lemma AfterFinishTags(st: seq<Station>, i: nat, result: real)
    requires i < |st| && NamesOk(st) && TagsOk(st) && StationsOk(st)
    ensures TagsOk(AfterFinish(st, i, result))
  {
    var st' := AfterFinish(st, i, result);
    var n := st[i].name;
    forall k | 0 <= k < |st'| && st'[k].busy
      ensures (st'[k].qj.Some? ==> Live(st', st'[k].qj.value)) && (st'[k].qk.Some? ==> Live(st', st'[k].qk.value))
    {
      AfterFinishAt(st, i, result, k);
      ForwardFrame(st[k], n, result);
      assert k != i && st[k].busy && st[k].name != n;
      if st'[k].qj.Some? {
        var t := st'[k].qj.value;
        assert st[k].qj == Some(t) && t != n;
        var k2 :| LiveAt(st, k2, t);
        AfterFinishLive(st, i, result, k2, t);
      }
      if st'[k].qk.Some? {
        var t := st'[k].qk.value;
        assert st[k].qk == Some(t) && t != n;
        var k2 :| LiveAt(st, k2, t);
        AfterFinishLive(st, i, result, k2, t);
      }
    }
  }

  /** The status entries of one class after a finish: the entry the
      finishing station owned is cleared when it still owns it, and since
      only its own destination in its own class can name it, no entry names
      it afterwards. */
  lemma AfterFinishStatus(st: seq<Station>, i: nat, result: real, status: RegisterStatus, fp: bool,
                          status': RegisterStatus)
    requires i < |st| && NamesOk(st) && StatusOk(st, status, fp) && Finishing(st[i]) && st[i].op.Some?
    requires var rs := st[i];
      status' == if fp == IsFpOperation(rs.op.value) && rs.dest in status && status[rs.dest] == Some(rs.name)
                 then status[rs.dest := None] else status
    ensures StatusOk(AfterFinish(st, i, result), status', fp)
  {
    var st' := AfterFinish(st, i, result);
    forall r | r in status' && status'[r].Some?
      ensures Owner(st', status'[r].value, r, fp)
    {
      var n := status'[r].value;
      assert status[r] == Some(n);
      var k :| OwnerAt(st, k, n, r, fp);
      if k == i {
        assert false;
      }
      AfterFinishLive(st, i, result, k, n);
      assert OwnerAt(st', k, n, r, fp);
    }
  }

  /** The status table of class `fp` after the register write of `rs`. */
  lemma WriteBackStatus(m: Machine, rs: Station, result: real, fp: bool)
    requires rs.op.Some?
    ensures Status(WriteBack(m, rs, result), fp) ==
      if fp == IsFpOperation(rs.op.value) && rs.dest in Status(m, fp) && Status(m, fp)[rs.dest] == Some(rs.name)
      then Status(m, fp)[rs.dest := None] else Status(m, fp)
  {
  }

  /** The pieces of a finish step. */
  lemma FinishParts(m: Machine, cycle: int, i: nat)
    requires i < |m.stations| && WriteReady(m.stations) && Finishing(m.stations[i])
    ensures var rs := m.stations[i];
      var result := ComputeResult(rs.op.value, rs.vj.value, rs.vk.value);
      var r := Finish(m, cycle, i);
      r.stations == AfterFinish(m.stations, i, result) &&
      r.fpStatus == Status(WriteBack(m, rs, result), true) &&
      r.intStatus == Status(WriteBack(m, rs, result), false)
  {
    var rs := m.stations[i];
    var result := ComputeResult(rs.op.value, rs.vj.value, rs.vk.value);
    WriteBackFrame(m, rs, result);
  }

  /** One step of the write phase keeps the invariant. */
  lemma WriteOneInv(m: Machine, cycle: int, i: nat)
    requires i < |m.stations| && Inv(m)
    ensures WriteReady(m.stations) && Inv(WriteOne(m, cycle, i))
  {
    InvWriteReady(m);
    var rs := m.stations[i];
    if Finishing(rs) {
      var result := ComputeResult(rs.op.value, rs.vj.value, rs.vk.value);
      FinishParts(m, cycle, i);
      AfterFinishShape(m.stations, i, result);
      AfterFinishTags(m.stations, i, result);
      WriteBackStatus(m, rs, result, true);
      WriteBackStatus(m, rs, result, false);
      AfterFinishStatus(m.stations, i, result, m.fpStatus, true, Status(WriteBack(m, rs, result), true));
      AfterFinishStatus(m.stations, i, result, m.intStatus, false, Status(WriteBack(m, rs, result), false));
    }
  }

  lemma WriteStepInv(m: Machine, cycle: int, n: nat)
    requires 0 < n <= |m.stations| && WriteReady(m.stations) && Inv(WritePrefix(m, cycle, n - 1))
    ensures Inv(WritePrefix(m, cycle, n))
  {
    WriteOneInv(WritePrefix(m, cycle, n - 1), cycle, n - 1);
  }

  /** The write phase keeps the invariant. */
  lemma {:induction false} WritePrefixInv(m: Machine, cycle: int, n: nat)
    requires n <= |m.stations| && Inv(m)
    ensures WriteReady(m.stations) && Inv(WritePrefix(m, cycle, n))
  {
    InvWriteReady(m);
    if n > 0 {
      WritePrefixInv(m, cycle, n - 1);
      WriteStepInv(m, cycle, n);
    }
  }

  // ---------------------------------------------------------------------
  // Execute phase

  /** One step of the execute phase changes at most the countdown and the
      executing flag of station `i`. */
  lemma ExecOneStations(m: Machine, cycle: int, i: nat)
    requires i < |m.stations|
    ensures var r := ExecOne(m, cycle, i);
      |r.stations| == |m.stations| &&
      (forall k :: 0 <= k < |m.stations| && k != i ==> r.stations[k] == m.stations[k]) &&
      r.stations[i].(remainingCycles := m.stations[i].remainingCycles, isExecuting := m.stations[i].isExecuting)
        == m.stations[i] &&
      r.fpStatus == m.fpStatus && r.intStatus == m.intStatus
  {
    var rs := m.stations[i];
    if rs.busy && !rs.isExecuting && rs.qj.None? && rs.qk.None? {
      assert ExecOne(m, cycle, i).stations == m.stations[i := rs.(isExecuting := true, remainingCycles := rs.remainingCycles - 1)];
    }
  }

  /** One step of the execute phase keeps the invariant: a countdown stops at
      zero, and execution starts only with both tags clear and from a
      countdown of at least 1. */
  lemma ExecOneInv(m: Machine, cycle: int, i: nat)
    requires i < |m.stations| && Inv(m)
    ensures Inv(ExecOne(m, cycle, i))
  {
    var r := ExecOne(m, cycle, i);
    ExecOneStations(m, cycle, i);
    var st, st' := m.stations, r.stations;
    assert StationOk(st[i]);
    assert StationOk(st'[i]);
    forall k | 0 <= k < |st'|
      ensures StationOk(st'[k]) && st'[k].name == st[k].name && st'[k].busy == st[k].busy
      ensures st'[k].dest == st[k].dest && st'[k].op == st[k].op && st'[k].qj == st[k].qj && st'[k].qk == st[k].qk
    {
      if k != i {
        assert StationOk(st[k]);
      }
    }
    forall k, n | LiveAt(st, k, n) ensures LiveAt(st', k, n) {
    }
    forall k, n, reg, fp | OwnerAt(st, k, n, reg, fp) ensures OwnerAt(st', k, n, reg, fp) {
    }
  }

  /** The execute phase keeps the invariant. */
  lemma {:induction false} ExecPrefixInv(m: Machine, cycle: int, n: nat)
    requires n <= |m.stations| && Inv(m)
    ensures Inv(ExecPrefix(m, cycle, n))
  {
    if n > 0 {
      ExecPrefixInv(m, cycle, n - 1);
      ExecStepInv(m, cycle, n);
    }
  }

  lemma ExecStepInv(m: Machine, cycle: int, n: nat)
    requires 0 < n <= |m.stations| && Inv(ExecPrefix(m, cycle, n - 1))
    ensures Inv(ExecPrefix(m, cycle, n))
  {
    var p := ExecPrefix(m, cycle, n - 1);
    ExecOneInv(p, cycle, n - 1);
    assert ExecPrefix(m, cycle, n) == ExecOne(p, cycle, n - 1);
  }

  // ---------------------------------------------------------------------
  // Issue phase

  /** The station an instruction is issued to is well formed: its unit fits
      the operation, each operand is a value or a tag, it is not executing
      and its countdown is the configured latency. */
  lemma IssuedOk(s: Station, instr: Instruction, regs: RegisterFile, status: RegisterStatus, config: HardwareConfig)
    requires s.unit == OpToFunctionalUnit(instr.op) && PositiveLatencies(config.latencies)
    ensures StationOk(Issued(s, instr, regs, status, config))
  {
  }

  /** The pieces of a successful issue. */
  lemma IssueAtParts(m: Machine, cycle: int, ip: nat, s: nat, config: HardwareConfig)
    requires ip < |m.instructions| && s < |m.stations|
    ensures var instr := m.instructions[ip];
      var fp := IsFpOperation(instr.op);
      var rs := Issued(m.stations[s], instr, Regs(m, fp), Status(m, fp), config);
      var r := IssueAt(m, cycle, ip, s, config);
      r.stations == m.stations[s := rs] &&
      Status(r, fp) == Status(m, fp)[instr.dest := Some(rs.name)] &&
      Status(r, !fp) == Status(m, !fp)
  {
  }

  /** A successful issue keeps the invariant: the chosen station was free,
      so no status entry or tag named it, and every tag it receives names a
      producer the status table vouched for. */
  lemma IssueAtInv(m: Machine, cycle: int, ip: nat, s: nat, config: HardwareConfig)
    requires ip < |m.instructions| && s < |m.stations| && Inv(m) && PositiveLatencies(config.latencies)
    requires Free(m.stations[s], OpToFunctionalUnit(m.instructions[ip].op))
    ensures Inv(IssueAt(m, cycle, ip, s, config))
  {
    var instr := m.instructions[ip];
    var fp := IsFpOperation(instr.op);
    var rs := Issued(m.stations[s], instr, Regs(m, fp), Status(m, fp), config);
    var r := IssueAt(m, cycle, ip, s, config);
    IssueAtParts(m, cycle, ip, s, config);
    IssuedOk(m.stations[s], instr, Regs(m, fp), Status(m, fp), config);
    var st, st' := m.stations, r.stations;
    assert StationOk(st[s]);
    // busy stations keep their index, name, destination and class
    forall k, n | LiveAt(st, k, n) ensures k != s && LiveAt(st', k, n) {
    }
    forall k, n, reg, c | OwnerAt(st, k, n, reg, c) ensures OwnerAt(st', k, n, reg, c) {
      assert LiveAt(st, k, n);
    }
    assert OwnerAt(st', s, rs.name, instr.dest, fp);
    // shapes and names
    forall k | 0 <= k < |st'| ensures StationOk(st'[k]) && st'[k].name == st[k].name {
      if k != s {
        assert StationOk(st[k]);
      }
    }
    // status tables
    forall fp' | true ensures StatusOk(st', Status(r, fp'), fp') {
      var status := Status(m, fp');
      assert StatusOk(st, status, fp') by {
        if fp' {
          assert status == m.fpStatus;
        } else {
          assert status == m.intStatus;
        }
      }
      forall reg | reg in Status(r, fp') && Status(r, fp')[reg].Some?
        ensures Owner(st', Status(r, fp')[reg].value, reg, fp')
      {
        if fp' == fp && reg == instr.dest {
          assert OwnerAt(st', s, rs.name, reg, fp');
        } else {
          var k :| OwnerAt(st, k, status[reg].value, reg, fp');
          assert OwnerAt(st', k, status[reg].value, reg, fp');
        }
      }
    }
    assert StatusOk(st', r.fpStatus, true) && StatusOk(st', r.intStatus, false) by {
      assert Status(r, true) == r.fpStatus && Status(r, false) == r.intStatus;
    }
    IssueAtTags(m, cycle, ip, s, config);
  }

  /** Issuing into a free station keeps every tag naming a busy station. */
  lemma IssueAtTags(m: Machine, cycle: int, ip: nat, s: nat, config: HardwareConfig)
    requires ip < |m.instructions| && s < |m.stations| && Inv(m)
    requires Free(m.stations[s], OpToFunctionalUnit(m.instructions[ip].op))
    ensures TagsOk(IssueAt(m, cycle, ip, s, config).stations)
  {
    var instr := m.instructions[ip];
    var fp := IsFpOperation(instr.op);
    var rs := Issued(m.stations[s], instr, Regs(m, fp), Status(m, fp), config);
    IssueAtParts(m, cycle, ip, s, config);
    assert StatusOk(m.stations, Status(m, fp), fp) by {
      if fp {
        assert Status(m, fp) == m.fpStatus;
      } else {
        assert Status(m, fp) == m.intStatus;
      }
    }
    TagsAfterFill(m.stations, s, rs, Status(m, fp), fp, instr.src1, instr.src2);
  }

  /** Filling a free station whose tags come from a vouched-for status
      table keeps every tag naming a busy station. */
  lemma TagsAfterFill(st: seq<Station>, s: nat, rs: Station, status: RegisterStatus, fp: bool, src1: string, src2: string)
    requires s < |st| && !st[s].busy && TagsOk(st) && StatusOk(st, status, fp)
    requires rs.qj == Producer(status, src1) && rs.qk == Producer(status, src2)
    ensures TagsOk(st[s := rs])
  {
    var st' := st[s := rs];
    forall k | 0 <= k < |st'| && st'[k].busy
      ensures (st'[k].qj.Some? ==> Live(st', st'[k].qj.value)) && (st'[k].qk.Some? ==> Live(st', st'[k].qk.value))
    {
      if k == s {
        if rs.qj.Some? {
          var k2 :| OwnerAt(st, k2, rs.qj.value, src1, fp);
          assert LiveAt(st', k2, rs.qj.value);
        }
        if rs.qk.Some? {
          var k2 :| OwnerAt(st, k2, rs.qk.value, src2, fp);
          assert LiveAt(st', k2, rs.qk.value);
        }
      } else {
        assert st[k].busy && st'[k] == st[k];
        if st[k].qj.Some? {
          var k2 :| LiveAt(st, k2, st[k].qj.value);
          assert LiveAt(st', k2, st[k].qj.value);
        }
        if st[k].qk.Some? {
          var k2 :| LiveAt(st, k2, st[k].qk.value);
          assert LiveAt(st', k2, st[k].qk.value);
        }
      }
    }
  }

  /** The issue phase keeps the invariant. */
  lemma IssueInv(m: Machine, cycle: int, ip: nat, config: HardwareConfig)
    requires Inv(m) && PositiveLatencies(config.latencies)
    ensures Inv(Issue(m, cycle, ip, config).0)
  {
    if ip < |m.instructions| {
      var s := FindAvailableStation(m.stations, m.instructions[ip].op);
      if s.Some? {
        IssueAtInv(m, cycle, ip, s.value, config);
      }
    }
  }

  // ---------------------------------------------------------------------
  // The whole cycle

  /** A cycle keeps the invariant. */
  lemma AfterCycleInv(cycle: int, m: Machine, ip: nat, config: HardwareConfig)
    requires Inv(m) && PositiveLatencies(config.latencies)
    ensures WriteReady(m.stations) && Inv(AfterCycle(cycle, m, ip, config).machine)
  {
    InvWriteReady(m);
    var m0 := m.(events := []);
    assert Inv(m0);
    WritePrefixInv(m0, cycle, |m0.stations|);
    var w := WritePhase(m0, cycle);
    ExecPrefixInv(w, cycle, |w.stations|);
    IssueInv(ExecPhase(w, cycle), cycle, ip, config);
  }

  /** No status entry and no tag names a station that is not busy. */
  lemma NoStaleNames(m: Machine, fp: bool, reg: string, k: nat)
    requires Inv(m) && k < |m.stations|
    ensures reg in Status(m, fp) && Status(m, fp)[reg] == Some(m.stations[k].name) ==>
      m.stations[k].busy && m.stations[k].dest == reg
    ensures forall j :: 0 <= j < |m.stations| && m.stations[j].busy &&
                        (m.stations[j].qj == Some(m.stations[k].name) || m.stations[j].qk == Some(m.stations[k].name))
                        ==> m.stations[k].busy
  {
    var st := m.stations;
    var n := st[k].name;
    if reg in Status(m, fp) && Status(m, fp)[reg] == Some(n) {
      assert StatusOk(st, Status(m, fp), fp) by {
        if fp {
          assert Status(m, fp) == m.fpStatus;
        } else {
          assert Status(m, fp) == m.intStatus;
        }
      }
      var k2 :| OwnerAt(st, k2, n, reg, fp);
      assert k2 == k;
    }
    forall j | 0 <= j < |st| && st[j].busy && (st[j].qj == Some(n) || st[j].qk == Some(n))
      ensures st[k].busy
    {
      var k2 :| LiveAt(st, k2, n);
      assert k2 == k;
    }
  }

  /** When no station is busy, both status tables are clear: a completed
      simulation leaves no register waiting for a producer. */
  lemma IdleClearsStatus(m: Machine)
    requires Inv(m) && forall k :: 0 <= k < |m.stations| ==> !m.stations[k].busy
    ensures forall r :: r in m.fpStatus ==> m.fpStatus[r].None?
    ensures forall r :: r in m.intStatus ==> m.intStatus[r].None?
  {
    forall r | r in m.fpStatus ensures m.fpStatus[r].None? {
      if m.fpStatus[r].Some? {
        assert false;
      }
    }
    forall r | r in m.intStatus ensures m.intStatus[r].None? {
      if m.intStatus[r].Some? {
        assert false;
      }
    }
  }
}
