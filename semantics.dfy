/** The executor as pure functions on a machine value: the specification that the
    class `ExecutorState` (module Executor) is proved against. */
module Semantics {
  import opened Commands

  /** The fields of an executor: program counter, data pointer, tape, and the
      UTF-16 code units printed so far. */
  datatype Machine = Machine(pc: Int32, ptr: int, cells: seq<Int32>, printed: seq<int>)

  /** The outcome of one call of `executeOnce` and the machine it leaves behind. */
  datatype Step = Step(result: Result<ExecutionState>, next: Machine)

  /** Number of zero cells a fresh tape holds. */
  const INITIAL_CELLS: nat := 32

  function Initial(): Machine {
    Machine(0, 0, seq(INITIAL_CELLS, _ => 0), [])
  }

  /** The tape is at least as long as the initial one and the pointer is on it. */
  ghost predicate TapeOk(m: Machine) {
    INITIAL_CELLS <= |m.cells| && 0 <= m.ptr < |m.cells|
  }

  /** `after`'s tape is `before`'s, possibly extended with zeros, except for the
      cell under `before`'s pointer. */
  ghost predicate TapeExtends(before: Machine, after: Machine) {
    |before.cells| <= |after.cells| &&
    (forall i :: 0 <= i < |before.cells| && i != before.ptr ==> after.cells[i] == before.cells[i]) &&
    (forall i :: |before.cells| <= i < |after.cells| ==> after.cells[i] == 0)
  }

  /** Kotlin's `pc++` on an `Int`: one more, wrapping around at 32 bits. */
  function IncrementPc(pc: Int32): (r: Int32)
    ensures (r - (pc + 1)) % 0x1_0000_0000 == 0
  {
    if pc == INT_MAX then INT_MIN else pc + 1
  }

  /** Kotlin's `Int.toChar()`: the UTF-16 code unit given by the low 16 bits. */
  function ToChar(v: Int32): (ch: int)
    ensures 0 <= ch < 0x1_0000
    ensures (v - ch) % 0x1_0000 == 0
  {
    v % 0x1_0000
  }

  /** `checkStateValid`: the first violated condition, in the order program counter,
      right end of the tape, left end of the tape. */
  function CheckStateValid(size: int, m: Machine): (e: Option<ExecutionError>)
    ensures e.None? <==> 0 <= m.pc < size && 0 <= m.ptr < |m.cells|
    ensures e == Some(ProgramCounterOutOfRange) <==> !(0 <= m.pc < size)
    ensures e == Some(TooFarRight) <==> 0 <= m.pc < size && |m.cells| <= m.ptr
    ensures e == Some(TooFarLeft) <==> 0 <= m.pc < size && m.ptr < 0
  {
    if m.pc >= size || m.pc < 0 then Some(ProgramCounterOutOfRange)
    else if m.ptr >= |m.cells| then Some(TooFarRight)
    else if m.ptr < 0 then Some(TooFarLeft)
    else None
  }

  /** Where a command leaves the program counter before `incrementPc`: a taken
      jump sets it to its target, everything else keeps it. */
  function Redirect(cmd: Command, cell: int, pc: Int32): Int32 {
    match cmd
    case JumpForward(pos) => if cell == 0 then pos else pc
    case JumpBack(pos) => if cell != 0 then pos else pc
    case _ => pc
  }

  /** The fault a single command itself raises on a valid state, if any. */
  ghost predicate CommandFault(commands: seq<Command>, isDefined: int -> bool, m: Machine, cmd: Command, e: ExecutionError)
    requires 0 <= m.ptr < |m.cells|
  {
    var cell := m.cells[m.ptr];
    match cmd
    case MoveLeft => m.ptr == 0 && e == TooFarLeft
    case Increment => cell == INT_MAX && e == Overflow
    case Decrement => cell == INT_MIN && e == Underflow
    case Output => !isDefined(ToChar(cell)) && e == InvalidCharacter
    case JumpForward(pos) => (pos > |commands| && e == TooFarRight) || (0 > pos && e == TooFarLeft)
    case _ => false
  }

  /** `executeCommand`: check the state, then run one command (without `incrementPc`). */
  function ExecuteCommand(commands: seq<Command>, isDefined: int -> bool, m: Machine, cmd: Command): (r: Result<Machine>)
    ensures r.Failure? ==> r.exception.RuntimeError?
    ensures CheckStateValid(|commands|, m).Some? ==> r == Failure(RuntimeError(CheckStateValid(|commands|, m).value))
    ensures CheckStateValid(|commands|, m).None? && r.Failure? ==> CommandFault(commands, isDefined, m, cmd, r.exception.err)
    ensures r.Success? ==>
      var m' := r.value;
      0 <= m.ptr < |m.cells| &&
      m'.pc == Redirect(cmd, m.cells[m.ptr], m.pc) &&
      m'.ptr == (match cmd case MoveRight => m.ptr + 1 case MoveLeft => m.ptr - 1 case _ => m.ptr) &&
      0 <= m'.ptr < |m'.cells| && |m'.cells| <= |m.cells| + 1 &&
      TapeExtends(m, m') &&
      m'.cells[m.ptr] as int == m.cells[m.ptr] as int + (match cmd case Increment => 1 case Decrement => -1 case _ => 0) &&
      m'.printed == m.printed + (if cmd == Output then [ToChar(m.cells[m.ptr])] else [])
  {
    match CheckStateValid(|commands|, m)
    case Some(e) => Failure(RuntimeError(e))
    case None =>
      var cell := m.cells[m.ptr];
      match cmd
      case MoveRight =>
        var ptr := m.ptr + 1;
        Success(m.(ptr := ptr, cells := if ptr >= |m.cells| then m.cells + [0] else m.cells))
      case MoveLeft =>
        if m.ptr == 0 then Failure(RuntimeError(TooFarLeft)) else Success(m.(ptr := m.ptr - 1))
      case Increment =>
        if cell == INT_MAX then Failure(RuntimeError(Overflow))
        else Success(m.(cells := m.cells[m.ptr := cell + 1]))
      case Decrement =>
        if cell == INT_MIN then Failure(RuntimeError(Underflow))
        else Success(m.(cells := m.cells[m.ptr := cell - 1]))
      case Output =>
        var ch := ToChar(cell);
        if isDefined(ch) then Success(m.(printed := m.printed + [ch]))
        else Failure(RuntimeError(InvalidCharacter))
      case JumpForward(pos) =>
        if pos > |commands| then Failure(RuntimeError(TooFarRight))
        else if pos < 0 then Failure(RuntimeError(TooFarLeft))
        else Success(if cell == 0 then m.(pc := pos) else m)
      case JumpBack(pos) =>
        Success(if cell != 0 then m.(pc := pos) else m)
  }

  /** `executeOnce`: report `Finished` past the end of the program, otherwise run the
      command under the program counter and, if it succeeded, increment the counter. */
  function ExecuteOnce(commands: seq<Command>, isDefined: int -> bool, m: Machine): (s: Step)
    ensures s.result == Success(Finished) <==> m.pc >= |commands|
    ensures s.result != Success(Running) ==> s.next == m
    ensures s.result == Failure(IndexOutOfBounds(m.pc)) <==> m.pc < 0
    ensures s.result != Failure(RuntimeError(ProgramCounterOutOfRange))
    ensures s.result == Success(Running) ==>
      0 <= m.pc < |commands| && 0 <= m.ptr < |m.cells| &&
      s.next.pc == IncrementPc(Redirect(commands[m.pc], m.cells[m.ptr], m.pc))
    ensures s.result == Success(Running) && TapeOk(m) ==> TapeOk(s.next) && TapeExtends(m, s.next)
    ensures m.printed <= s.next.printed
    ensures s.result.Failure? && 0 <= m.pc && TapeOk(m) ==>
      s.result.exception.RuntimeError? && CommandFault(commands, isDefined, m, commands[m.pc], s.result.exception.err)
  {
    if m.pc >= |commands| then Step(Success(Finished), m)
    else if m.pc < 0 then Step(Failure(IndexOutOfBounds(m.pc)), m)
    else
      match ExecuteCommand(commands, isDefined, m, commands[m.pc])
      case Failure(x) => Step(Failure(x), m)
      case Success(m') => Step(Success(Running), m'.(pc := IncrementPc(m'.pc)))
  }

  /** The driver loop of `main`: call `executeOnce` while it reports `Running`, for at
      most `fuel` calls. The last step is returned; if fuel ran out it is `Running`. */
  function Run(commands: seq<Command>, isDefined: int -> bool, m: Machine, fuel: nat): (s: Step)
    ensures s.result != Success(Running) ==> ExecuteOnce(commands, isDefined, s.next) == s
    ensures s.result == Success(Finished) ==> s.next.pc >= |commands|
    decreases fuel
  {
    if fuel == 0 then Step(Success(Running), m)
    else
      var s := ExecuteOnce(commands, isDefined, m);
      if s.result == Success(Running) then Run(commands, isDefined, s.next, fuel - 1) else s
  }
}
