/** The simulator's state and its reducer: every user action (configure,
    rebuild the pool, load a program, start, step, reset, edit a register,
    play, pause, set the speed) as a pure function from the old state to the
    new one. A step runs one Tomasulo cycle (`Engine.AfterCycle`, carried out
    in place by `Phases.ExecuteCycle`) on cycle number `cycle + 1`. */
module Simulator {
  import opened Types
  import opened Instructions
  import opened Engine
  import opened Pool
  import opened Invariants
  import opened Timing

  /** Everything the simulator keeps between actions. */
  datatype SimulatorState = SimulatorState(
    config: HardwareConfig,
    cycle: int,
    instructions: seq<Instruction>,
    reservationStations: seq<Station>,
    fpRegisterFile: RegisterFile,
    intRegisterFile: RegisterFile,
    fpRegisterStatus: RegisterStatus,
    intRegisterStatus: RegisterStatus,
    annotations: seq<Annotation>,
    isSimulationStarted: bool,
    isSimulationComplete: bool,
    instructionPointer: nat,
    isPlaying: bool,
    playSpeed: int)

  /** A partial latency table: the latencies a configuration change sets. */
  datatype LatencyPatch = LatencyPatch(
    fpAdd: Option<int>, fpSub: Option<int>, fpMult: Option<int>, fpDiv: Option<int>,
    intAdd: Option<int>, intSub: Option<int>, intMult: Option<int>, intDiv: Option<int>)

  /** A partial hardware configuration: the fields a configuration change
      sets; the others keep their values. */
  datatype ConfigPatch = ConfigPatch(
    fpAddStations: Option<int>,
    fpMultStations: Option<int>,
    intAddStations: Option<int>,
    intMultStations: Option<int>,
    latencies: Option<LatencyPatch>)

  datatype Action =
    | Configure(patch: ConfigPatch)
    | RebuildReservationStations
    | LoadProgram(program: seq<Instruction>)
    | StartSimulation
    | Step
    | Reset
    | SetFpRegister(fpRegister: string, fpValue: real)
    | SetIntRegister(intRegister: string, intValue: real)
    | Play
    | Pause
    | SetSpeed(speed: int)

  // ---------------------------------------------------------------------
  // Defaults

  /** Three FP adders, two FP multipliers, two integer adders and two
      integer multipliers, with the default latency of each operation. */
  const DefaultConfig: HardwareConfig :=
    HardwareConfig(3, 2, 2, 2, Latencies(2, 2, 10, 40, 1, 1, 4, 20))

  /** The even FP registers F0 to F30, each holding its own number. */
  const DefaultFpRegisters: RegisterFile :=
    map["F0" := 0.0, "F2" := 2.0, "F4" := 4.0, "F6" := 6.0, "F8" := 8.0, "F10" := 10.0,
        "F12" := 12.0, "F14" := 14.0, "F16" := 16.0, "F18" := 18.0, "F20" := 20.0,
        "F22" := 22.0, "F24" := 24.0, "F26" := 26.0, "F28" := 28.0, "F30" := 30.0]

  /** The integer registers R0 to R15, each holding its own number. */
  const DefaultIntRegisters: RegisterFile :=
    map["R0" := 0.0, "R1" := 1.0, "R2" := 2.0, "R3" := 3.0, "R4" := 4.0, "R5" := 5.0,
        "R6" := 6.0, "R7" := 7.0, "R8" := 8.0, "R9" := 9.0, "R10" := 10.0, "R11" := 11.0,
        "R12" := 12.0, "R13" := 13.0, "R14" := 14.0, "R15" := 15.0]

  /** The delay between automatic steps, in milliseconds, before any change. */
  const DefaultPlaySpeed := 500

  /** `createInitialState`: the pool of `config`, the default register files
      with clear status tables, no program and nothing started. */
  function CreateInitialState(config: HardwareConfig): (r: SimulatorState)
    ensures r.config == config && |r.reservationStations| == PoolSize(config)
    ensures forall k :: 0 <= k < |r.reservationStations| ==> Idle(r.reservationStations[k])
    ensures r.fpRegisterStatus.Keys == r.fpRegisterFile.Keys && r.intRegisterStatus.Keys == r.intRegisterFile.Keys
    ensures forall reg :: reg in r.fpRegisterStatus ==> r.fpRegisterStatus[reg].None?
    ensures forall reg :: reg in r.intRegisterStatus ==> r.intRegisterStatus[reg].None?
  {
    FreshPool(config);
    SimulatorState(config, 0, [], StationsFor(config), DefaultFpRegisters, DefaultIntRegisters,
                   ClearStatus(DefaultFpRegisters), ClearStatus(DefaultIntRegisters), [],
                   false, false, 0, false, DefaultPlaySpeed)
  }

  // ---------------------------------------------------------------------
  // Helpers of the reducer

  /** A field of a patch when it is given, the old value otherwise. */
  function Pick(o: Option<int>, old_: int): int
  {
    if o.Some? then o.value else old_
  }

  function MergeLatencies(l: Latencies, p: LatencyPatch): Latencies
  {
    Latencies(Pick(p.fpAdd, l.fpAdd), Pick(p.fpSub, l.fpSub), Pick(p.fpMult, l.fpMult), Pick(p.fpDiv, l.fpDiv),
              Pick(p.intAdd, l.intAdd), Pick(p.intSub, l.intSub), Pick(p.intMult, l.intMult), Pick(p.intDiv, l.intDiv))
  }

  /** The configuration a `CONFIGURE` action produces: the given station
      counts replace the old ones, and a given latency table is merged into
      the old one field by field. */
  function MergeConfig(c: HardwareConfig, p: ConfigPatch): HardwareConfig
  {
    HardwareConfig(Pick(p.fpAddStations, c.fpAddStations), Pick(p.fpMultStations, c.fpMultStations),
                   Pick(p.intAddStations, c.intAddStations), Pick(p.intMultStations, c.intMultStations),
                   if p.latencies.Some? then MergeLatencies(c.latencies, p.latencies.value) else c.latencies)
  }

  /** An instruction with its four timing stamps cleared. */
  function ClearTimings(i: Instruction): Instruction
  {
    i.(issuedAt := None, execStartAt := None, execEndAt := None, writeAt := None)
  }

  /** The program with every instruction's timing stamps cleared, in order. */
  function ClearAllTimings(instrs: seq<Instruction>): (r: seq<Instruction>)
    ensures |r| == |instrs|
    ensures forall k :: 0 <= k < |r| ==> r[k] == ClearTimings(instrs[k])
  {
    if |instrs| == 0 then [] else [ClearTimings(instrs[0])] + ClearAllTimings(instrs[1..])
  }

  /** The part of the state one cycle works on, with an empty event log. */
  function MachineOf(s: SimulatorState): Machine
  {
    Machine(s.instructions, s.reservationStations, s.fpRegisterFile, s.intRegisterFile,
            s.fpRegisterStatus, s.intRegisterStatus, [])
  }

  /** A step does something: the simulation is started and not complete. */
  predicate CanStep(s: SimulatorState)
  {
    s.isSimulationStarted && !s.isSimulationComplete
  }

  /** What a step needs of the stations to run a cycle: every finishing
      station holds its operation and both operands. */
  predicate Steppable(s: SimulatorState)
  {
    CanStep(s) ==> WriteReady(s.reservationStations)
  }

  /** The state after `STEP` when a step does something: one cycle on cycle
      number `cycle + 1`, its events appended to the log, followed by a
      completion note and the end of auto-play when the cycle completed the
      program. */
  function StepState(s: SimulatorState): SimulatorState
    requires WriteReady(s.reservationStations)
  {
    var newCycle := s.cycle + 1;
    var res := AfterCycle(newCycle, MachineOf(s), s.instructionPointer, s.config);
    var m := res.machine;
    s.(cycle := newCycle,
       instructions := m.instructions,
       reservationStations := m.stations,
       fpRegisterFile := m.fpRegs,
       intRegisterFile := m.intRegs,
       fpRegisterStatus := m.fpStatus,
       intRegisterStatus := m.intStatus,
       instructionPointer := res.instructionPointer,
       annotations := s.annotations + m.events +
                      (if res.isComplete then [InfoNote(newCycle, SimulationComplete)] else []),
       isSimulationComplete := res.isComplete,
       isPlaying := if res.isComplete then false else s.isPlaying)
  }

  // ---------------------------------------------------------------------
  // The reducer

  /** `simulatorReducer`. */
  function Reduce(s: SimulatorState, a: Action): (r: SimulatorState)
    requires a.Step? ==> Steppable(s)
    ensures !a.Configure? ==> r.config == s.config
    ensures !a.LoadProgram? ==> |r.instructions| == |s.instructions|
    ensures !(a.LoadProgram? || a.Step? || a.Reset?) ==> r.instructions == s.instructions
    ensures !(a.LoadProgram? || a.RebuildReservationStations? || a.Step? || a.Reset?) ==>
      r.reservationStations == s.reservationStations
    ensures !(a.SetFpRegister? || a.Step? || a.Reset?) ==> r.fpRegisterFile == s.fpRegisterFile
    ensures !(a.SetIntRegister? || a.Step? || a.Reset?) ==> r.intRegisterFile == s.intRegisterFile
    ensures r.cycle == s.cycle || r.cycle == s.cycle + 1 || r.cycle == 0
    ensures r.isSimulationStarted && !s.isSimulationStarted ==> a.StartSimulation?
    ensures r.isSimulationComplete && !s.isSimulationComplete ==> a.Step?
    ensures r.isPlaying && !s.isPlaying ==> a.Play?
  {
    match a
    case Configure(p) => s.(config := MergeConfig(s.config, p))
    case RebuildReservationStations => s.(reservationStations := StationsFor(s.config))
    case LoadProgram(program) =>
      s.(instructions := program, isSimulationStarted := false, isSimulationComplete := false,
         instructionPointer := 0, cycle := 0, annotations := [],
         reservationStations := StationsFor(s.config),
         fpRegisterStatus := ClearStatus(s.fpRegisterFile),
         intRegisterStatus := ClearStatus(s.intRegisterFile))
    case StartSimulation =>
      if |s.instructions| == 0 then s
      else s.(isSimulationStarted := true, cycle := 0, annotations := [InfoNote(0, SimulationStarted)])
    case Step => if !CanStep(s) then s else StepState(s)
    case Reset => CreateInitialState(s.config).(instructions := ClearAllTimings(s.instructions))
    case SetFpRegister(reg, value) => s.(fpRegisterFile := s.fpRegisterFile[reg := value])
    case SetIntRegister(reg, value) => s.(intRegisterFile := s.intRegisterFile[reg := value])
    case Play => if !CanStep(s) then s else s.(isPlaying := true)
    case Pause => s.(isPlaying := false)
    case SetSpeed(speed) => s.(playSpeed := speed)
  }

  // ---------------------------------------------------------------------
  // Guards and effects of single actions

  /** A step changes the state exactly when the simulation is started and
      not complete. */
  lemma StepGuard(s: SimulatorState)
    requires Steppable(s)
    ensures Reduce(s, Step) == s <==> !CanStep(s)
  {
    if CanStep(s) {
      assert Reduce(s, Step).cycle == s.cycle + 1;
    }
  }

  /** A step advances the clock by one, keeps the old log as a prefix of the
      new one, appends the cycle's events, and on completion appends the
      completion note and stops auto-play; configuration, speed and the
      started flag stay as they were. */
  lemma StepEffect(s: SimulatorState)
    requires CanStep(s) && WriteReady(s.reservationStations)
    ensures var r := Reduce(s, Step);
      var res := AfterCycle(s.cycle + 1, MachineOf(s), s.instructionPointer, s.config);
      && r.cycle == s.cycle + 1
      && r.config == s.config && r.playSpeed == s.playSpeed && r.isSimulationStarted
      && |s.annotations| <= |r.annotations| && r.annotations[..|s.annotations|] == s.annotations
      && r.annotations[|s.annotations|..|s.annotations| + |res.machine.events|] == res.machine.events
      && (r.isSimulationComplete <==> res.isComplete)
      && (r.isSimulationComplete ==>
            !r.isPlaying && |r.annotations| == |s.annotations| + |res.machine.events| + 1 &&
            r.annotations[|r.annotations| - 1] == InfoNote(s.cycle + 1, SimulationComplete))
      && (!r.isSimulationComplete ==>
            r.isPlaying == s.isPlaying && |r.annotations| == |s.annotations| + |res.machine.events|)
      && MachineOf(r) == res.machine.(events := [])
      && r.instructionPointer == res.instructionPointer
  {
  }

  /** Starting needs a program; it resets the clock and the log to the start
      note, and leaves the machine and the issue pointer where they are. */
  lemma StartEffect(s: SimulatorState)
    ensures var r := Reduce(s, StartSimulation);
      && (|s.instructions| == 0 ==> r == s)
      && (|s.instructions| > 0 ==>
            r.isSimulationStarted && r.cycle == 0 && r.annotations == [InfoNote(0, SimulationStarted)])
      && MachineOf(r) == MachineOf(s) && r.instructionPointer == s.instructionPointer
      && r.isSimulationComplete == s.isSimulationComplete && r.config == s.config
  {
  }

  /** The fresh pool of a configuration: one empty station per configured
      slot, all free, well formed and uniquely named. */
  lemma FreshPool(config: HardwareConfig)
    ensures var st := StationsFor(config);
      |st| == PoolSize(config) && StationsOk(st) && NamesOk(st) &&
      forall k :: 0 <= k < |st| ==> Idle(st[k])
  {
    var st := StationsFor(config);
    StationsForLayout(config);
    StationNamesUnique(config);
    forall k1, k2 | 0 <= k1 < |st| && 0 <= k2 < |st| && k1 != k2
      ensures st[k1].name != st[k2].name
    {
      if k2 < k1 {
        assert st[k2].name != st[k1].name;
      }
    }
  }

  /** Loading a program installs it with the fresh pool of the current
      configuration and clear status tables over the current register
      files, and stops the simulation; register values, configuration and
      play state are kept. */
  lemma LoadProgramEffect(s: SimulatorState, program: seq<Instruction>)
    ensures var r := Reduce(s, LoadProgram(program));
      && r.instructions == program
      && r.reservationStations == StationsFor(s.config)
      && |r.reservationStations| == PoolSize(s.config)
      && (forall k :: 0 <= k < |r.reservationStations| ==> Idle(r.reservationStations[k]))
      && r.fpRegisterStatus.Keys == s.fpRegisterFile.Keys
      && r.intRegisterStatus.Keys == s.intRegisterFile.Keys
      && (forall reg :: reg in r.fpRegisterStatus ==> r.fpRegisterStatus[reg].None?)
      && (forall reg :: reg in r.intRegisterStatus ==> r.intRegisterStatus[reg].None?)
      && r.fpRegisterFile == s.fpRegisterFile && r.intRegisterFile == s.intRegisterFile
      && !r.isSimulationStarted && !r.isSimulationComplete
      && r.instructionPointer == 0 && r.cycle == 0 && r.annotations == []
      && r.config == s.config && r.isPlaying == s.isPlaying && r.playSpeed == s.playSpeed
  {
    FreshPool(s.config);
  }

  /** A reset is a reload of the same program, with its timings cleared,
      into a freshly initialised simulator of the same configuration: the
      register files and the speed return to their defaults too. */
  lemma ResetIsReload(s: SimulatorState)
    ensures Reduce(s, Reset) ==
      Reduce(CreateInitialState(s.config), LoadProgram(ClearAllTimings(s.instructions)))
    ensures Reduce(s, Reset).fpRegisterFile == DefaultFpRegisters
    ensures Reduce(s, Reset).intRegisterFile == DefaultIntRegisters
    ensures Reduce(s, Reset).playSpeed == DefaultPlaySpeed
  {
  }

  /** A reset keeps every instruction of the program, in order, with its
      four timing stamps cleared; a second reset changes nothing. */
  lemma ResetKeepsProgram(s: SimulatorState)
    ensures var r := Reduce(s, Reset);
      && |r.instructions| == |s.instructions|
      && (forall k :: 0 <= k < |r.instructions| ==>
            var i, j := r.instructions[k], s.instructions[k];
            i.id == j.id && i.op == j.op && i.dest == j.dest && i.src1 == j.src1 && i.src2 == j.src2 &&
            i.issuedAt.None? && i.execStartAt.None? && i.execEndAt.None? && i.writeAt.None?)
      && Reduce(r, Reset) == r
  {
    var r := Reduce(s, Reset);
    assert ClearAllTimings(r.instructions) == r.instructions;
  }

  /** A configuration change sets exactly the given fields, merges a given
      latency table field by field, and changes nothing but the
      configuration; in particular it does not rebuild the pool. */
  lemma ConfigureEffect(s: SimulatorState, p: ConfigPatch)
    ensures var r := Reduce(s, Configure(p));
      && r == s.(config := r.config)
      && r.config.fpAddStations == (if p.fpAddStations.Some? then p.fpAddStations.value else s.config.fpAddStations)
      && r.config.fpMultStations == (if p.fpMultStations.Some? then p.fpMultStations.value else s.config.fpMultStations)
      && r.config.intAddStations == (if p.intAddStations.Some? then p.intAddStations.value else s.config.intAddStations)
      && r.config.intMultStations == (if p.intMultStations.Some? then p.intMultStations.value else s.config.intMultStations)
      && (p.latencies.None? ==> r.config.latencies == s.config.latencies)
      && (forall op :: GetLatency(op, r.config) ==
            if p.latencies.Some? && LatencyField(p.latencies.value, op).Some?
            then LatencyField(p.latencies.value, op).value else GetLatency(op, s.config))
  {
  }

  /** The field of a latency patch that sets the latency of `op`. */
  function LatencyField(p: LatencyPatch, op: Op): Option<int>
  {
    match op
    case AddD => p.fpAdd
    case SubD => p.fpSub
    case MulD => p.fpMult
    case DivD => p.fpDiv
    case Add => p.intAdd
    case Sub => p.intSub
    case Mul => p.intMult
    case Div => p.intDiv
  }

  /** Applying a configuration change twice is applying it once, and an
      empty change is no change. */
  lemma ConfigureIdempotent(s: SimulatorState, p: ConfigPatch)
    ensures Reduce(Reduce(s, Configure(p)), Configure(p)) == Reduce(s, Configure(p))
    ensures p == ConfigPatch(None, None, None, None, None) ==> Reduce(s, Configure(p)) == s
  {
  }

  /** Rebuilding replaces the pool by the fresh pool of the current
      configuration and changes nothing else. */
  lemma RebuildEffect(s: SimulatorState)
    ensures var r := Reduce(s, RebuildReservationStations);
      && r == s.(reservationStations := r.reservationStations)
      && |r.reservationStations| == PoolSize(s.config)
      && StationsOk(r.reservationStations) && NamesOk(r.reservationStations)
      && (forall k :: 0 <= k < |r.reservationStations| ==> Idle(r.reservationStations[k]))
  {
    FreshPool(s.config);
  }

  /** `updateConfig`: a configuration change followed by a rebuild leaves
      the fresh pool of the new configuration. */
  lemma UpdateConfigPool(s: SimulatorState, p: ConfigPatch)
    ensures var r := Reduce(Reduce(s, Configure(p)), RebuildReservationStations);
      && r.config == MergeConfig(s.config, p)
      && r.reservationStations == StationsFor(MergeConfig(s.config, p))
      && |r.reservationStations| == PoolSize(MergeConfig(s.config, p))
  {
    FreshPool(MergeConfig(s.config, p));
  }

  /** Setting a register changes that register of that file to the value,
      leaves every other register of both files reading as before, and
      changes nothing else. */
  lemma SetRegisterEffect(s: SimulatorState, reg: string, value: real)
    ensures var r := Reduce(s, SetFpRegister(reg, value));
      && r == s.(fpRegisterFile := r.fpRegisterFile)
      && ReadReg(r.fpRegisterFile, reg) == value
      && r.fpRegisterFile.Keys == s.fpRegisterFile.Keys + {reg}
      && forall o :: o != reg ==> ReadReg(r.fpRegisterFile, o) == ReadReg(s.fpRegisterFile, o)
    ensures var r := Reduce(s, SetIntRegister(reg, value));
      && r == s.(intRegisterFile := r.intRegisterFile)
      && ReadReg(r.intRegisterFile, reg) == value
      && r.intRegisterFile.Keys == s.intRegisterFile.Keys + {reg}
      && forall o :: o != reg ==> ReadReg(r.intRegisterFile, o) == ReadReg(s.intRegisterFile, o)
  {
  }

  /** Play turns auto-play on only while a step would do something; pause
      always turns it off, whatever came before; the speed is set as
      given. Each changes nothing else. */
  lemma PlayPauseEffect(s: SimulatorState, speed: int)
    ensures var r := Reduce(s, Play);
      r == s.(isPlaying := r.isPlaying) && (r.isPlaying <==> s.isPlaying || CanStep(s))
    ensures Reduce(s, Pause) == s.(isPlaying := false)
    ensures Reduce(Reduce(s, Play), Pause) == Reduce(s, Pause)
    ensures Reduce(s, SetSpeed(speed)) == s.(playSpeed := speed)
  {
  }

  // ---------------------------------------------------------------------
  // The session invariant

  /** What the configuration panel lets through: it changes the
      configuration only while no simulation is started, station counts
      clamped to 1..10 and latencies to 1..100. */
  predicate UiAllows(s: SimulatorState, a: Action)
  {
    match a
    case Configure(p) => !s.isSimulationStarted && PatchInRange(p)
    case RebuildReservationStations => !s.isSimulationStarted
    case _ => true
  }

  predicate InRange(o: Option<int>, lo: int, hi: int)
  {
    o.Some? ==> lo <= o.value <= hi
  }

  predicate PatchInRange(p: ConfigPatch)
  {
    InRange(p.fpAddStations, 1, 10) && InRange(p.fpMultStations, 1, 10) &&
    InRange(p.intAddStations, 1, 10) && InRange(p.intMultStations, 1, 10) &&
    (p.latencies.Some? ==>
       var l := p.latencies.value;
       InRange(l.fpAdd, 1, 100) && InRange(l.fpSub, 1, 100) && InRange(l.fpMult, 1, 100) &&
       InRange(l.fpDiv, 1, 100) && InRange(l.intAdd, 1, 100) && InRange(l.intSub, 1, 100) &&
       InRange(l.intMult, 1, 100) && InRange(l.intDiv, 1, 100))
  }

  /** The invariant of every state the user can reach: the machine keeps the
      engine's invariant, every latency is positive and every waiting
      station holds its latency, the issue pointer stays within the program,
      a complete simulation is a started one whose program has all written
      with no station busy, and before a start no station is busy and
      nothing has issued. */
  ghost predicate SessionOk(s: SimulatorState)
  {
    && Inv(MachineOf(s))
    && PositiveLatencies(s.config.latencies)
    && LatencyOk(MachineOf(s), s.config)
    && s.instructionPointer <= |s.instructions|
    && (s.isSimulationComplete ==>
          s.isSimulationStarted && CheckSimulationComplete(s.instructions, s.reservationStations))
    && (!s.isSimulationStarted ==>
          s.instructionPointer == 0 &&
          forall k :: 0 <= k < |s.reservationStations| ==> !s.reservationStations[k].busy)
  }

  /** A machine with the fresh pool and clear status tables keeps the
      engine's invariant. */
  lemma FreshMachineOk(m: Machine, config: HardwareConfig)
    requires m.stations == StationsFor(config)
    requires forall r :: r in m.fpStatus ==> m.fpStatus[r].None?
    requires forall r :: r in m.intStatus ==> m.intStatus[r].None?
    ensures Inv(m) && LatencyOk(m, config)
    ensures forall k :: 0 <= k < |m.stations| ==> !m.stations[k].busy
  {
    FreshPool(config);
  }

  /** The simulator as it starts, with the panel's default configuration. */
  lemma InitialSession()
    ensures SessionOk(CreateInitialState(DefaultConfig))
  {
    var s := CreateInitialState(DefaultConfig);
    FreshMachineOk(MachineOf(s), DefaultConfig);
  }

  /** A cycle keeps the issue pointer within the program. */
  lemma CyclePointer(cycle: int, m: Machine, ip: nat, config: HardwareConfig)
    requires WriteReady(m.stations) && ip <= |m.instructions|
    ensures AfterCycle(cycle, m, ip, config).instructionPointer <= |AfterCycle(cycle, m, ip, config).machine.instructions|
  {
  }

  /** A step keeps the session invariant. */
  lemma StepSession(s: SimulatorState)
    requires SessionOk(s)
    ensures Steppable(s) && SessionOk(Reduce(s, Step))
  {
    InvWriteReady(MachineOf(s));
    if CanStep(s) {
      StepStateSession(s);
    }
  }

  /** The cycle a step runs keeps the session invariant. */
  lemma StepStateSession(s: SimulatorState)
    requires SessionOk(s) && CanStep(s) && WriteReady(s.reservationStations)
    ensures SessionOk(StepState(s))
  {
    var res := AfterCycle(s.cycle + 1, MachineOf(s), s.instructionPointer, s.config);
    AfterCycleInv(s.cycle + 1, MachineOf(s), s.instructionPointer, s.config);
    AfterCycleLatency(s.cycle + 1, MachineOf(s), s.instructionPointer, s.config);
    CyclePointer(s.cycle + 1, MachineOf(s), s.instructionPointer, s.config);
    assert MachineOf(StepState(s)) == res.machine.(events := []);
  }

  /** Loading a program and resetting keep the session invariant. */
  lemma ReloadSession(s: SimulatorState, program: seq<Instruction>)
    requires SessionOk(s)
    ensures SessionOk(Reduce(s, LoadProgram(program)))
    ensures SessionOk(Reduce(s, Reset))
  {
    var r := Reduce(s, LoadProgram(program));
    FreshMachineOk(MachineOf(r), s.config);
    ResetSession(s);
  }

  /** Resetting keeps the session invariant. */
  lemma ResetSession(s: SimulatorState)
    requires SessionOk(s)
    ensures SessionOk(Reduce(s, Reset))
  {
    var t := CreateInitialState(s.config).(instructions := ClearAllTimings(s.instructions));
    assert Reduce(s, Reset) == t;
    FreshMachineOk(MachineOf(t), s.config);
  }

  /** A panel-approved configuration change or rebuild keeps the session
      invariant. */
  lemma ConfigureSession(s: SimulatorState, a: Action)
    requires SessionOk(s) && (a.Configure? || a.RebuildReservationStations?) && UiAllows(s, a)
    ensures SessionOk(Reduce(s, a))
  {
    var m := MachineOf(s);
    if a.Configure? {
      var r := Reduce(s, a);
      assert MachineOf(r) == m;
      assert forall k :: 0 <= k < |m.stations| ==> !m.stations[k].busy;
    } else {
      IdleClearsStatus(m);
      var r := Reduce(s, a);
      FreshMachineOk(MachineOf(r), s.config);
    }
  }

  /** Every action the panel lets through keeps the session invariant, and a
      step is always able to run its cycle. */
  lemma ReduceKeepsSession(s: SimulatorState, a: Action)
    requires SessionOk(s) && UiAllows(s, a)
    ensures Steppable(s) && SessionOk(Reduce(s, a))
  {
    StepSession(s);
    match a
    case Configure(_) => ConfigureSession(s, a);
    case RebuildReservationStations => ConfigureSession(s, a);
    case LoadProgram(program) => ReloadSession(s, program);
    case Reset => ResetSession(s);
    case StartSimulation =>
      assert MachineOf(Reduce(s, a)) == MachineOf(s);
    case Step =>
    case SetFpRegister(_, _) =>
      assert MachineOf(Reduce(s, a)).stations == MachineOf(s).stations;
    case SetIntRegister(_, _) =>
      assert MachineOf(Reduce(s, a)).stations == MachineOf(s).stations;
    case Play =>
    case Pause =>
    case SetSpeed(_) =>
  }

  /** A complete simulation has written every instruction, freed every
      station and left no register waiting for a producer. */
  lemma CompleteSession(s: SimulatorState)
    requires SessionOk(s) && s.isSimulationComplete
    ensures forall k :: 0 <= k < |s.instructions| ==> s.instructions[k].writeAt.Some?
    ensures forall k :: 0 <= k < |s.reservationStations| ==> Idle(s.reservationStations[k])
    ensures forall r :: r in s.fpRegisterStatus ==> s.fpRegisterStatus[r].None?
    ensures forall r :: r in s.intRegisterStatus ==> s.intRegisterStatus[r].None?
  {
    var m := MachineOf(s);
    assert forall k :: 0 <= k < |m.stations| ==> StationOk(m.stations[k]);
    IdleClearsStatus(m);
  }
}
