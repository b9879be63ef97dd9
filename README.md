# A verified model of the Tomasulo simulator core

This project models the core of a web-based Tomasulo-algorithm simulator and
proves properties of the model. The core has four parts:

- **The cycle engine** (`executeCycle` and its three phases: write result,
  execute, issue). It works on an instruction list, a list of reservation
  stations, a floating-point and an integer register file, and a
  register-status table for each file.
- **The simulator's state machine**: a pure reducer over the whole simulator
  state.
- **The assembly-line parser** and its formatter.
- **The operation → functional-unit table.**

## How the model is laid out

- `types.dfy` (module `Types`): the data model.
  - The eight operations and the four unit types.
  - Instructions, reservation stations, the hardware configuration and the
    event log.
  - The op → unit table and the mnemonics.
- `instructions.dfy` (module `Instructions`): `parseInstruction`,
  `isValidRegister`, `isFpOperation` and `isMultOperation`, written as
  functions over strings. The match pattern is modelled as a whitespace
  tokenizer that must yield exactly four tokens.
- `programs.dfy` (module `Programs`): `parseProgram`. Its `for` loop is a
  method proved against a fold over the lines.
- `roundtrip.dfy` (module `RoundTrip`): `formatInstruction` followed by
  `parseInstruction` is the identity.
- `engine.dfy` (module `Engine`): the specification of one cycle.
  - Each phase is a function over an immutable `Machine` holding the
    instructions, the stations, both register files, both status tables and
    the event log.
  - Each loop is a fold (`WritePrefix`, `ExecPrefix`).
- `workspace.dfy` (module `Phases`): the imperative engine.
  - A `Workspace` class whose fields are the cloned state of
    `executeCycle`.
  - Methods `WriteResultPhase`, `ExecutePhase`, `IssuePhase` and
    `ClearStation`, with `while` loops that update the stations one at a
    time.
  - `ExecuteCycle`, which clones the inputs, runs the three phases and
    reports completion.
  - Each method is proved equal to the `Engine` function of its old state.
- `pool.dfy` (module `Pool`): the loops `createReservationStations` and
  `initializeRegisterStatus`, and what they build.
- `invariants.dfy` (module `Invariants`): the engine invariant, and its
  preservation by every phase and by a whole cycle.
- `cycle.dfy` (module `Cycle`): the effects of each phase on one station,
  one instruction and the event log, and their consequences.
- `timing.dfy` (module `Timing`): the latency countdown and the cycle on
  which a started instruction writes back.
- `reducer.dfy` (module `Simulator`): `createInitialState`, the reducer and
  the session invariant it keeps.

Values are exact `real`s and integers are unbounded.

The engine invariant `Invariants.Inv` has four parts:
- Every free station is empty.
- Every busy station has:
  - an operation of its own unit and an owning instruction;
  - for each operand, exactly one of a value and a tag;
  - both tags clear while it executes;
  - a countdown of at least 1 while it waits, never negative once it
    executes.
- Station names are unique and non-empty.
- Every status entry names a busy station of the table's class whose
  destination is that register, and every tag names a busy station.

## Model

| member | source | states |
|---|---|---|
| Types.MnemonicInjective | src/types/index.ts:2-10 | distinct operations have distinct mnemonics |
| Instructions.UnitAgreesWithClass | src/types/index.ts:16-25 | an operation maps to an FP unit exactly when it is a floating-point operation, and to a multiply unit exactly when it is a multiply or divide |
| Instructions.IsFpOperation | src/core/instructions.ts:85-87 | true exactly for the four `.D` operations |
| Instructions.IsMultOperation | src/core/instructions.ts:90-92 | true exactly for the multiply and divide operations |
| Instructions.MnemonicClasses | src/core/instructions.ts:85-92 | the mnemonic contains ".D" exactly for the four FP operations; it contains "MUL" or "DIV" exactly for those operations, so the substring tests agree with the enumeration |
| Instructions.SplitJoin | src/core/instructions.ts:64 | splitting on a separator and joining the pieces back gives the original text |
| Instructions.SplitPieces | src/core/instructions.ts:64 | no piece of a split contains the separator |
| Instructions.TrimStartSpec | src/core/instructions.ts:12 | trimming at the start drops exactly a maximal run of leading blanks |
| Instructions.TrimEndSpec | src/core/instructions.ts:12 | trimming at the end drops exactly a maximal run of trailing blanks |
| Instructions.TokensAreWords | src/core/instructions.ts:17 | every token is non-empty and contains no blank |
| Instructions.TokensWord | src/core/instructions.ts:17 | a word followed by a blank or by the end of the text is the first token |
| Instructions.ToUpperSpec | src/core/instructions.ts:21-29 | upper-casing maps every character through the same character mapping and keeps the length |
| Instructions.RemoveCommasSpec | src/core/instructions.ts:27-29 | the result has no comma, and it equals the input exactly when the input had none |
| Instructions.RemoveCommasConcat | src/core/instructions.ts:27-29 | removal distributes over concatenation, drops a lone comma and keeps any other lone character, so every non-comma character survives in order |
| Instructions.OpFromMnemonicSpec | src/core/instructions.ts:4-24 | a token is accepted exactly when it is one of the eight mnemonics, and each mnemonic decodes to its operation |
| Instructions.IsValidRegister | src/core/instructions.ts:50-60 | specified by Instructions.ValidRegisterShape: a register is valid exactly when it is 'F' for an FP operation, or 'R' otherwise, followed by one or more digits |
| Instructions.ValidRegisterShape | src/core/instructions.ts:50-60 | a register is valid exactly when it is 'F' (for `.D` operations) or 'R' (otherwise) followed by one or more digits |
| Instructions.DecodeTokensSpec | src/core/instructions.ts:20-46 | four tokens decode exactly when the upper-cased first token is a mnemonic and each comma-stripped, upper-cased register is valid for it; the result carries those fields, the given id and no timing stamps |
| Instructions.ParseInstruction | src/core/instructions.ts:10-13 | a line that is blank before its first ';' yields nothing, and a parsed instruction carries the given id |
| Instructions.ParseValidityIgnoresId | src/core/instructions.ts:10-47 | whether a line parses does not depend on the id |
| Programs.ParseLinesStep | src/core/instructions.ts:68-74 | one loop iteration appends the parsed line exactly when it is valid |
| Programs.ParseLinesIds | src/core/instructions.ts:66-73 | the program is numbered 1, 2, ... in order |
| Programs.ParseLinesSources | src/core/instructions.ts:63-77 | each parsed instruction comes from a distinct line, in line order, and every line left out is invalid |
| Programs.ParseEachLine | src/core/instructions.ts:65-76 | the loop with its `id` counter computes the fold over the lines |
| Programs.ParseProgram | src/core/instructions.ts:63-77 | `parseProgram` is the fold over the text's lines split on '\n' |
| Programs.ParsedProgramSources | src/core/instructions.ts:63-77 | the program keeps line order and has ids exactly 1..n, at most one per line, and every dropped line is invalid |
| Programs.ParsedProgramDecoded | src/core/instructions.ts:63-77 | every instruction of a parsed program has valid registers for its class and no timing stamp |
| RoundTrip.ParsedIsDecoded | src/core/instructions.ts:27-46 | every parsed instruction has upper-case registers of the right class and all four timing fields unset |
| Instructions.FormatInstruction | src/core/instructions.ts:80-82 | specified by its inverse: RoundTrip.FormatThenParse and RoundTrip.ParseFormatRoundTrip prove that parsing the formatted text gives the instruction back |
| RoundTrip.FormatThenParse | src/core/instructions.ts:10-82 | parsing the formatted text of a decoded instruction gives that instruction back |
| RoundTrip.ParseFormatRoundTrip | src/core/instructions.ts:10-82 | for every instruction the parser returns, parsing its formatted text with the same id returns it again |
| Engine.GetLatency | src/core/tomasulo.ts:15-27 | the latency is one of the configured latencies, and it is at least 1 when all of them are |
| Engine.ArithmeticInverses | src/core/tomasulo.ts:361-378 | subtraction undoes addition and the reverse; division by a non-zero value undoes multiplication and the reverse; the FP and integer form of each operation compute the same value (division by zero gives 0, stated by Engine.ComputeResult) |
| Engine.EmptyStation | src/core/tomasulo.ts:56-71 | an empty station has the given name and unit and is idle: not busy, no operation, no operands or tags, no owner, countdown 0 |
| Engine.IdleIsEmpty | src/core/tomasulo.ts:381-392 | a station is idle exactly when it equals the empty station of its name and unit |
| Engine.FindAvailableStation | src/core/tomasulo.ts:74-80 | a chosen station is free and of the operation's unit; Engine.FindAvailableStationSpec adds that it is the first such and that none is chosen exactly when none qualifies |
| Engine.FindAvailableStationSpec | src/core/tomasulo.ts:74-80 | the chosen station is free and of the operation's unit, no earlier station is, and nothing is chosen exactly when no station qualifies |
| Engine.FindInstrFromSpec | src/core/tomasulo.ts:201-244 | the first instruction with the id is found, and nothing is found exactly when no instruction has it |
| Cycle.FinishPublishes | src/core/tomasulo.ts:180-184 | while the finishing station still owns its destination, the register afterwards reads as the result and names no producer; a superseded station leaves the register's value and producer alone; no other register of either class changes (a missing register reads as 0 through Engine.ReadReg) |
| Cycle.IssueRenamesDest | src/core/tomasulo.ts:311-334 | after an issue the class's status table names the new station as the destination's producer (a truthy tag, so a later reader waits on it); every other register keeps its producer and no register value changes |
| Engine.WriteBackFrame | src/core/tomasulo.ts:180-184 | the register write touches neither the stations nor the instructions nor the log |
| Pool.PushStations | src/core/tomasulo.ts:34-51 | one loop appends the bank of `count` empty stations named prefix1..prefix`count` |
| Pool.CreateReservationStations | src/core/tomasulo.ts:30-54 | the method builds the FP-add, FP-multiply, integer-add and integer-multiply banks, in that order |
| Pool.StationsForLayout | src/core/tomasulo.ts:30-54 | the pool has one station per configured slot, and slot k is the empty station of its unit, named by the unit's prefix and its 1-based number within the unit |
| Pool.StationNamesUnique | src/core/tomasulo.ts:30-54 | no two stations of a pool share a name, and none is empty |
| Pool.NatToStringInjective | src/core/tomasulo.ts:34-51 | distinct numbers are spelled differently |
| Pool.InitializeRegisterStatus | src/core/tomasulo.ts:409-415 | the table has exactly the keys of the register file, and every entry names no producer |
| Engine.AfterCycle | src/core/tomasulo.ts:83-158 | a cycle keeps the number of instructions and stations, the new pointer is the old one or, when an instruction remained, one more, and completion needs a non-empty program; Invariants.AfterCycleInv and Cycle.CycleSameProgram state what the cycle preserves |
| Phases.Workspace.constructor | src/core/tomasulo.ts:104-112 | the workspace holds the cloned inputs and an empty event log |
| Phases.Workspace.ClearStation | src/core/tomasulo.ts:381-392 | station i becomes the empty station of its name and unit; nothing else changes |
| Phases.Workspace.BroadcastResult | src/core/tomasulo.ts:186-198 | every busy station of another name takes the result for each operand tagged with that name |
| Phases.Workspace.WriteBackResult | src/core/tomasulo.ts:176-184 | the register write under the ownership guard, on the file and table of the operation's class |
| Phases.Workspace.WriteStation | src/core/tomasulo.ts:173-214 | one iteration of the write loop equals `Engine.WriteOne` of the old state |
| Phases.Workspace.WriteResultPhase | src/core/tomasulo.ts:161-216 | the write phase loop equals `Engine.WritePhase` of the old state |
| Phases.Workspace.ExecuteStation | src/core/tomasulo.ts:226-264 | one iteration of the execute loop equals `Engine.ExecOne` of the old state |
| Phases.Workspace.ExecutePhase | src/core/tomasulo.ts:219-266 | the execute phase loop equals `Engine.ExecPhase` of the old state |
| Phases.Workspace.ClaimDestination | src/core/tomasulo.ts:334 | the destination's status entry is set to the station's name, unconditionally |
| Phases.Workspace.FillStation | src/core/tomasulo.ts:304-331 | the station is filled from the instruction, each source renamed through the status table or read from the file |
| Phases.Workspace.IssueTo | src/core/tomasulo.ts:299-357 | a successful issue equals `Engine.IssueAt` of the old state |
| Phases.Workspace.IssuePhase | src/core/tomasulo.ts:269-358 | the issue phase equals `Engine.Issue` of the old state, new pointer included |
| Phases.Workspace.ExecuteCycle | src/core/tomasulo.ts:83-158 | clone, write, execute, issue and completion test equal `Engine.AfterCycle` of the inputs |
| Invariants.InvWriteReady | src/core/tomasulo.ts:173-175 | under the invariant every finishing station has its operation and both operand values, so the `!` assertions of the write phase hold |
| Invariants.ForwardFrame | src/core/tomasulo.ts:186-198 | a broadcast changes only operands; a tag equal to the broadcaster's name on a busy station of another name is cleared, and its value set to the result |
| Invariants.WriteBackStatus | src/core/tomasulo.ts:180-184 | the status entry is cleared only when it still names the finishing station, and only in that class's table |
| Invariants.AfterFinishTags | src/core/tomasulo.ts:186-213 | after a broadcast and the clear, every tag still names a busy station |
| Invariants.AfterFinishStatus | src/core/tomasulo.ts:180-213 | after the guarded write-back and the clear, every status entry still names a busy producer |
| Invariants.WriteOneInv | src/core/tomasulo.ts:172-215 | one write step keeps the invariant |
| Invariants.WritePrefixInv | src/core/tomasulo.ts:161-216 | the write phase keeps the invariant |
| Invariants.ExecOneStations | src/core/tomasulo.ts:225-264 | one execute step changes at most one station's countdown and executing flag, and no status table |
| Invariants.ExecOneInv | src/core/tomasulo.ts:229-246 | one execute step keeps the invariant: a countdown stops at zero, and execution starts only with both tags clear and from a countdown of at least 1 |
| Invariants.ExecPrefixInv | src/core/tomasulo.ts:219-266 | the execute phase keeps the invariant |
| Invariants.IssuedOk | src/core/tomasulo.ts:304-331 | a freshly issued station is well formed: right unit, owner, each operand valued or tagged but not both, and a countdown of at least 1 when latencies are at least 1 |
| Invariants.IssueAtInv | src/core/tomasulo.ts:299-357 | a successful issue keeps the invariant |
| Invariants.TagsAfterFill | src/core/tomasulo.ts:311-331 | tags copied from a vouched-for status table into a free station name busy stations |
| Invariants.IssueInv | src/core/tomasulo.ts:269-358 | the issue phase keeps the invariant |
| Invariants.AfterCycleInv | src/core/tomasulo.ts:83-158 | a whole cycle keeps the invariant |
| Invariants.NoStaleNames | src/core/tomasulo.ts:172-215 | a status entry or a tag that names a station implies that the station is busy, and a status entry also implies that the station's destination is that register |
| Invariants.IdleClearsStatus | src/core/tomasulo.ts:395-406 | when no station is busy, no status entry names a producer |
| Cycle.WritePrefixAt | src/core/tomasulo.ts:172-215 | after the write phase a finishing station is empty, and every other station differs at most in its operands (and not at all if it waits for nobody) |
| Cycle.WritePrefixLog | src/core/tomasulo.ts:200-210 | the write phase only stamps write cycles, with the current cycle, and only appends write events, at most one per station |
| Cycle.WritePrefixStamp | src/core/tomasulo.ts:200-204 | the instruction of every finishing station gets the current cycle as its write cycle |
| Cycle.ExecOneStation | src/core/tomasulo.ts:225-247 | one execute step ticks its own station and no other |
| Cycle.ExecPrefixAt | src/core/tomasulo.ts:219-266 | the execute phase ticks every station exactly once |
| Cycle.ExecPrefixLog | src/core/tomasulo.ts:243-263 | the execute phase only stamps missing start cycles, with the current cycle, appends only execute and wait events, and leaves files and tables alone |
| Cycle.ExecPrefixStamp | src/core/tomasulo.ts:243-247 | a station that starts executing stamps its instruction's start cycle only if none was set |
| Cycle.IssueFacts | src/core/tomasulo.ts:282-355 | the issue phase touches no busy station, only stamps an issue cycle, and logs nothing, one structural hazard, or an issue event possibly followed by a RAW-hazard event |
| Cycle.IssueEffect | src/core/tomasulo.ts:282-357 | past the end nothing happens; with no free station only a structural hazard is logged and the pointer stays; otherwise the first free station of the unit is filled (op, dest, id, latency, not executing), each source becomes the old status table's tag or the file's value (0 if missing), the destination's entry is then set to the station, the issue cycle stamped and the pointer advanced by one |
| Cycle.IssueNeverWaitsOnItself | src/core/tomasulo.ts:311-334 | a freshly issued station never waits on itself; an instruction reading its own destination waits on that register's previous producer |
| Cycle.FinishEffect | src/core/tomasulo.ts:173-213 | a finishing station writes its file and clears its status entry exactly when the entry still names it; otherwise both stay; the other class is untouched; every other station hears the broadcast and the finishing station is cleared |
| Cycle.CompleteIsFixedPoint | src/core/tomasulo.ts:395-406 | a machine that `checkSimulationComplete` accepts (a non-empty program, all written, no station busy) and whose program has all issued is a fixed point: another cycle logs nothing, changes nothing and still reports completion |
| Cycle.CycleEventOrder | src/core/tomasulo.ts:114-141 | the events of a cycle are write events, then execute and wait events, then the issue phase's events |
| Cycle.FreedStationReused | src/core/tomasulo.ts:114-142 | a station freed by this cycle's write phase can take this cycle's issue: the pointer advances |
| Cycle.CycleSameProgram | src/core/tomasulo.ts:83-158 | a cycle keeps the instruction list's length and, at every position, the id, operation, destination and both sources, and a start cycle once stamped |
| Timing.IssueStations | src/core/tomasulo.ts:304-309 | issue changes a station only by filling a free one, which starts not executing with the operation's latency as countdown |
| Timing.CycleStation | src/core/tomasulo.ts:114-127 | within a cycle the execute phase ticks the station as the write phase left it |
| Timing.AfterCycleLatency | src/core/tomasulo.ts:229-241 | a waiting station's countdown stays equal to its operation's latency across a cycle |
| Timing.CountdownStep | src/core/tomasulo.ts:229-234 | an executing station above zero counts down by exactly one per cycle |
| Timing.StartStep | src/core/tomasulo.ts:238-247 | a ready station starts executing, counts down once and stamps its instruction's start cycle |
| Timing.CountdownToWrite | src/core/tomasulo.ts:173-234 | an executing station with countdown r has its instruction written exactly r + 1 cycles later |
| Timing.StartToWrite | src/core/tomasulo.ts:173-247 | an instruction that starts executing in cycle c writes back in cycle c + latency, with its start stamp kept |
| Timing.StartedRun | src/core/tomasulo.ts:173-234 | after starting with latency L, the instruction's write stamp is set L cycles later and its start stamp is kept |
| Simulator.CreateInitialState | src/context/simulatorReducer.ts:6-23 | the initial state has the given config, a pool of the configured size with every station idle, and status tables with exactly the default files' keys, each naming no producer |
| Simulator.ClearAllTimings | src/context/simulatorReducer.ts:134-140 | every instruction keeps its decoded fields and loses all four timing stamps |
| Simulator.Reduce | src/context/simulatorReducer.ts:26-191 | requires, for STEP only, that a runnable state has every finishing station ready (the `!` assertions); only CONFIGURE changes the config; only LOAD_PROGRAM changes the program's length, and only it, STEP and RESET its content; only those and REBUILD replace the stations; only SET_*_REGISTER, STEP and RESET change a register file; the cycle stays, advances by one or returns to 0; only START starts, only STEP completes, and only PLAY starts auto-play |
| Simulator.StepGuard | src/context/simulatorReducer.ts:83-85 | STEP changes the state exactly when the simulation is started and not complete |
| Simulator.StepEffect | src/context/simulatorReducer.ts:87-126 | STEP runs the engine on cycle + 1; the log becomes the old log followed by the cycle's events, plus a completion note exactly when the engine reports completion, which also stops play; otherwise play is kept |
| Simulator.StartEffect | src/context/simulatorReducer.ts:66-80 | START does nothing on an empty program; otherwise it sets started, resets the cycle to 0 and the log to the start note, and keeps machine and pointer |
| Simulator.FreshPool | src/context/simulatorReducer.ts:44-49 | a freshly built pool has the configured size and only idle, uniquely named stations |
| Simulator.LoadProgramEffect | src/context/simulatorReducer.ts:51-64 | LOAD_PROGRAM installs the program, clears flags, pointer, cycle and log, rebuilds the pool from the config and sets every status entry of the current files to none, keeping register values and config |
| Simulator.ResetIsReload | src/context/simulatorReducer.ts:129-142 | RESET is the initial state for the current config with the program reloaded without timings; register files and speed revert to the defaults |
| Simulator.ResetKeepsProgram | src/context/simulatorReducer.ts:129-142 | RESET keeps every instruction's decoded fields, clears its four timing stamps, and a second RESET changes nothing |
| Simulator.ConfigureEffect | src/context/simulatorReducer.ts:31-42 | CONFIGURE changes only the config; each station count is the patch's when given, and each latency is the patch's when given, merged field by field |
| Simulator.ConfigureIdempotent | src/context/simulatorReducer.ts:31-42 | applying a patch twice is applying it once, and an empty patch changes nothing |
| Simulator.RebuildEffect | src/context/simulatorReducer.ts:44-49 | REBUILD replaces only the station list, with a fresh pool of the configured size |
| Simulator.UpdateConfigPool | src/context/SimulatorContext.tsx:54-57 | a configuration update followed by the rebuild leaves the merged config and the pool built from it |
| Simulator.SetRegisterEffect | src/context/simulatorReducer.ts:144-162 | SET_FP/INT_REGISTER changes one key of one file and nothing else |
| Simulator.PlayPauseEffect | src/context/simulatorReducer.ts:164-186 | PLAY sets playing only while the simulation can step; PAUSE always clears it and undoes PLAY; SET_SPEED changes only the speed |
| Simulator.InitialSession | src/context/simulatorReducer.ts:6-23 | the initial state with the default config satisfies the session invariant |
| Simulator.StepSession | src/context/simulatorReducer.ts:82-127 | STEP keeps the session invariant, and the engine's preconditions hold whenever STEP runs it |
| Simulator.ReloadSession | src/context/simulatorReducer.ts:51-142 | LOAD_PROGRAM and RESET keep the session invariant |
| Simulator.ConfigureSession | src/context/simulatorReducer.ts:31-49 | a configuration change or rebuild that the configuration panel allows keeps the session invariant |
| Simulator.ReduceKeepsSession | src/context/simulatorReducer.ts:26-191 | every action the interface can send keeps the session invariant: the engine invariant, positive latencies, a pointer within the program, and a completion flag that implies a completed program |
| Simulator.CompleteSession | src/core/tomasulo.ts:395-406 | in a completed session every instruction has written, every station is idle and no status entry names a producer |

## Left out

- Rendering, React context plumbing, the auto-play timer and the wall-clock
  meaning of `playSpeed` are not modelled. `playSpeed` is carried as a
  plain number.
- The message text and the `toFixed(2)` formatting of events are left out.
  Each event is a datatype holding the cycle and the names and values its
  message mentions.
- IEEE floating point is left out. Register values are exact `real`s, so
  rounding, infinities and NaN are not modelled, and `DIV` on integers
  divides exactly, as the source does.
- `execEndAt` is never written by the engine. The model keeps it as a field
  that only the parser and RESET set, and always to nothing.
- White space (the pattern's `\s` and `trim()`) is modelled in full, with
  JavaScript's set of white-space characters. `toUpperCase()` is
  partial: the model upper-cases ASCII letters plus the two non-ASCII
  letters whose upper-case form is one ASCII letter, and leaves every other
  character as it is. Tokens holding other letters are refused either
  way.
- The `default` branches of `getLatency` and `computeResult` and the
  reducer's unknown-action branch are left out. They cannot be reached,
  because operations and actions are closed datatypes.
- Engine.WriteOne, Engine.AfterCycle and Simulator.Reduce on STEP require
  `WriteReady`: every finishing station has its operation and both operand
  values. In `writeResultPhase` these are the `!` assertions, which
  JavaScript does not check. Invariants.InvWriteReady and
  Simulator.StepSession prove that the requirement holds in every reachable
  session.
- Simulator.ReduceKeepsSession: the reducer accepts CONFIGURE and REBUILD
  at any time. Only the configuration panel refuses changes once a run has
  started, and clamps station counts to 1..10 and latencies to 1..100
  (src/components/ConfigPanel.tsx:9-28). So the session invariant is
  proved only for actions that pass that rule (`Simulator.UiAllows`).
- Termination of a run is not proved, because the acyclicity of the wait
  graph is not modelled. What is proved is the exact countdown: an
  executing instruction writes back a fixed number of cycles later.
- The station list is modelled as a sequence of station values that the
  phase methods update by index. This stands in for a list of shared,
  mutable objects. The source never aliases two stations, so no aliasing
  is modelled.
- `instructions.find(...)` returns the first instruction with the owning
  id. Ids produced by `parseProgram` are distinct, but the engine does not
  rely on that, and neither does the model.

## Timing

In the code, an instruction that starts executing in cycle c writes its
result in cycle c + latency:
- The start decrement leaves the countdown at latency − 1.
- The countdown is decremented once per later cycle.
- The write phase of the following cycle sees zero.

Timing.StartToWrite proves this. The instruction table displays the end of
execution as `writeAt − 1`, that is, start + latency − 1, the last cycle
the countdown runs (src/components/InstructionTable.tsx:53-56).
