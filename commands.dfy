/** The interpreter's data: commands, execution states, error kinds, and the
    Result and Option shapes that stand for Kotlin's `Result` and nullable types. */
module Commands {

  /** Kotlin's `Int.MIN_VALUE` and `Int.MAX_VALUE`. */
  const INT_MIN: int := -0x8000_0000
  const INT_MAX: int := 0x7FFF_FFFF

  /** A Kotlin `Int`: a 32-bit signed integer. */
  type Int32 = x: int | -0x8000_0000 <= x <= 0x7FFF_FFFF

  datatype ExecutionState = Running | Finished

  /** Runtime fault kinds. `InputError` is declared by the source but no command raises it. */
  datatype ExecutionError =
    | ProgramCounterOutOfRange
    | TooFarLeft
    | TooFarRight
    | Overflow
    | Underflow
    | InvalidCharacter
    | InputError

  /** The two syntax errors of the parser: a `]` with no pending `[`, and a `[` never closed. */
  datatype BracketMismatch = MoreClosing | MoreOpening

  /** What a failed operation carries. `IndexOutOfBounds` is the exception the JVM
      throws when the command list is indexed with a negative program counter. */
  datatype Throwable =
    | RuntimeError(err: ExecutionError)
    | SyntaxError(mismatch: BracketMismatch)
    | IndexOutOfBounds(index: int)

  datatype Result<T> = Success(value: T) | Failure(exception: Throwable)

  datatype Option<T> = None | Some(value: T)

  /** One instruction. Jump targets are indices into the command list. */
  datatype Command =
    | MoveRight
    | MoveLeft
    | Increment
    | Decrement
    | Output
    | JumpForward(pos: Int32)
    | JumpBack(pos: Int32)

  /** The source character a command is parsed from. */
  function Symbol(c: Command): char {
    match c
    case MoveRight => '>'
    case MoveLeft => '<'
    case Increment => '+'
    case Decrement => '-'
    case Output => '.'
    case JumpForward(_) => '['
    case JumpBack(_) => ']'
  }

  predicate IsCommandChar(ch: char) {
    ch == '>' || ch == '<' || ch == '+' || ch == '-' || ch == '.' || ch == '[' || ch == ']'
  }
}
