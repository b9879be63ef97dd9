/** Shared data model of the Tomasulo simulator: operations, functional
    units, instructions, reservation stations, register files, register
    status tables, the hardware configuration and the event log. */
module Types {

  datatype Option<T> = None | Some(value: T)

  /** The eight operation codes: four floating-point, four integer. */
  datatype Op = AddD | SubD | MulD | DivD | Add | Sub | Mul | Div

  /** The four functional-unit classes a reservation station belongs to. */
  datatype UnitType = FpAdd | FpMult | IntAdd | IntMult

  /** The textual mnemonic of an operation, as the program text spells it. */
  function Mnemonic(op: Op): (s: string)
    ensures |s| >= 3
  {
    match op
    case AddD => "ADD.D"
    case SubD => "SUB.D"
    case MulD => "MUL.D"
    case DivD => "DIV.D"
    case Add => "ADD"
    case Sub => "SUB"
    case Mul => "MUL"
    case Div => "DIV"
  }

  /** Distinct operations have distinct mnemonics. */
  lemma MnemonicInjective(a: Op, b: Op)
    requires Mnemonic(a) == Mnemonic(b)
    ensures a == b
  {
    assert Mnemonic(a)[0] == Mnemonic(b)[0] && |Mnemonic(a)| == |Mnemonic(b)|;
  }

  /** The fixed operation-to-unit table the station allocator consults. */
  function OpToFunctionalUnit(op: Op): UnitType
  {
    match op
    case AddD => FpAdd
    case SubD => FpAdd
    case MulD => FpMult
    case DivD => FpMult
    case Add => IntAdd
    case Sub => IntAdd
    case Mul => IntMult
    case Div => IntMult
  }

  /** A decoded instruction with its four timing stamps (cycle numbers). */
  datatype Instruction = Instruction(
    id: int,
    op: Op,
    dest: string,
    src1: string,
    src2: string,
    issuedAt: Option<int>,
    execStartAt: Option<int>,
    execEndAt: Option<int>,
    writeAt: Option<int>)

  /** A reservation station: the operand values (vj, vk) or the names of the
      stations that will produce them (qj, qk), and the latency countdown. */
  datatype Station = Station(
    name: string,
    unit: UnitType,
    busy: bool,
    op: Option<Op>,
    vj: Option<real>,
    vk: Option<real>,
    qj: Option<string>,
    qk: Option<string>,
    dest: string,
    instrId: Option<int>,
    remainingCycles: int,
    isExecuting: bool)

  /** Register name to value; a missing register reads as 0. */
  type RegisterFile = map<string, real>

  /** Register name to the station that will produce its next value. */
  type RegisterStatus = map<string, Option<string>>

  datatype Latencies = Latencies(
    fpAdd: int, fpSub: int, fpMult: int, fpDiv: int,
    intAdd: int, intSub: int, intMult: int, intDiv: int)

  datatype HardwareConfig = HardwareConfig(
    fpAddStations: int,
    fpMultStations: int,
    intAddStations: int,
    intMultStations: int,
    latencies: Latencies)

  /** The kind tag every annotation carries. */
  datatype AnnotationType = IssueKind | ExecuteKind | WriteKind | HazardKind | InfoKind

  datatype InfoMessage = SimulationStarted | SimulationComplete

  /** One entry of the event log. The rendered message text is replaced by
      the names and values it mentions. */
  datatype Annotation =
    | WriteNote(cycle: int, station: string, result: real, dest: string)
    | ExecuteNote(cycle: int, station: string, execOp: Option<Op>, cycles: int)
    | WaitNote(cycle: int, station: string, waitingFor: seq<string>)
    | StructuralNote(cycle: int, unit: UnitType, issueOp: Op)
    | IssueNote(cycle: int, issueOp: Op, dest: string, src1: string, src2: string, station: string)
    | RawNote(cycle: int, sources: seq<(string, string)>)
    | InfoNote(cycle: int, info: InfoMessage)
  {
    function Kind(): AnnotationType
    {
      match this
      case WriteNote(_, _, _, _) => WriteKind
      case ExecuteNote(_, _, _, _) => ExecuteKind
      case WaitNote(_, _, _) => HazardKind
      case StructuralNote(_, _, _) => HazardKind
      case IssueNote(_, _, _, _, _, _) => IssueKind
      case RawNote(_, _) => HazardKind
      case InfoNote(_, _) => InfoKind
    }
  }
}
