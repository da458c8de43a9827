/** The executor class `ExecutorState` of Problematic.kt: fields updated in place,
    each method proved against the pure step functions of module Semantics. */
module Executor {
  import opened Commands
  import opened Semantics

  class ExecutorState {
    const commands: seq<Command>
    /** Kotlin's `Char.isDefined()` (a Unicode database lookup), on UTF-16 code units. */
    const isDefined: int -> bool
    var ptr: int
    var cells: seq<Int32>
    var pc: Int32
    /** The code units written by `print`, in order. */
    var printed: seq<int>

    /** The fields as a machine value. */
    function State(): Machine
      reads this
    {
      Machine(pc, ptr, cells, printed)
    }

    constructor (commands: seq<Command>, isDefined: int -> bool)
      ensures this.commands == commands && this.isDefined == isDefined
      ensures State() == Initial()
      ensures TapeOk(State())
    {
      this.commands := commands;
      this.isDefined := isDefined;
      ptr := 0;
      cells := seq(32, _ => 0);
      pc := 0;
      printed := [];
    }

    /** Runs the command under the program counter and advances the counter;
        `Finished` once the counter is past the last command. */
    method ExecuteOnce() returns (r: Result<ExecutionState>)
      modifies this
      ensures Step(r, State()) == Semantics.ExecuteOnce(commands, isDefined, old(State()))
      ensures r.Failure? ==> State() == old(State())
    {
      if pc >= |commands| {
        return Success(Finished);
      }
      if pc < 0 {
        // `commands[pc]` throws before any check is made
        return Failure(IndexOutOfBounds(pc));
      }
      var currentCommand := commands[pc];
      var executionResult := ExecuteCommand(currentCommand);
      if executionResult.Failure? {
        return executionResult;
      }
      IncrementPc();
      return Success(Running);
    }

    /** Checks the state, then dispatches on the command. */
    method ExecuteCommand(currentCommand: Command) returns (r: Result<ExecutionState>)
      modifies this
      ensures
        var e := Semantics.ExecuteCommand(commands, isDefined, old(State()), currentCommand);
        (e.Success? ==> r == Success(Running) && State() == e.value) &&
        (e.Failure? ==> r == Failure(e.exception) && State() == old(State()))
    {
      var error := CheckStateValid();
      if error.Some? {
        return Failure(RuntimeError(error.value));
      }
      match currentCommand
      case MoveRight => r := MoveToTheRight();
      case MoveLeft => r := MoveToTheLeft();
      case Increment => r := Increment();
      case Decrement => r := Decrement();
      case Output => r := Output();
      case JumpForward(pos) => r := JumpForward(pos);
      case JumpBack(pos) => r := JumpBack(pos);
    }

    method IncrementPc()
      modifies this
      ensures pc == Semantics.IncrementPc(old(pc))
      ensures ptr == old(ptr) && cells == old(cells) && printed == old(printed)
    {
      pc := Semantics.IncrementPc(pc);
    }

    /** No error exactly when the program counter is on a command and the pointer
        is on the tape. */
    function CheckStateValid(): (e: Option<ExecutionError>)
      reads this
      ensures e.None? <==> 0 <= pc < |commands| && 0 <= ptr < |cells|
    {
      Semantics.CheckStateValid(|commands|, State())
    }

    /** Moves the pointer right, growing the tape by one zero cell when the pointer
        runs off its end. */
    method MoveToTheRight() returns (r: Result<ExecutionState>)
      requires 0 <= ptr < |cells|
      modifies this
      ensures r == Success(Running)
      ensures ptr == old(ptr) + 1 && ptr < |cells|
      ensures cells == if ptr == |old(cells)| then old(cells) + [0] else old(cells)
      ensures pc == old(pc) && printed == old(printed)
    {
      ptr := ptr + 1;
      if ptr >= |cells| {
        cells := cells + [0];
      }
      return Success(Running);
    }

    method MoveToTheLeft() returns (r: Result<ExecutionState>)
      requires 0 <= ptr < |cells|
      modifies this
      ensures r.Failure? <==> old(ptr) == 0
      ensures r.Failure? ==> r == Failure(RuntimeError(TooFarLeft)) && ptr == old(ptr)
      ensures r.Success? ==> r == Success(Running) && ptr == old(ptr) - 1
      ensures pc == old(pc) && cells == old(cells) && printed == old(printed)
    {
      if ptr == 0 {
        return Failure(RuntimeError(TooFarLeft));
      }
      ptr := ptr - 1;
      return Success(Running);
    }

    /** Adds one to the current cell unless it holds `Int.MAX_VALUE`. */
    method Increment() returns (r: Result<ExecutionState>)
      requires 0 <= ptr < |cells|
      modifies this
      ensures pc == old(pc) && ptr == old(ptr) && printed == old(printed)
      ensures r.Failure? <==> old(cells[ptr]) == INT_MAX
      ensures r.Failure? ==> r == Failure(RuntimeError(Overflow)) && cells == old(cells)
      ensures r.Success? ==> r == Success(Running) && cells == old(cells)[ptr := old(cells[ptr]) + 1]
    {
      if cells[ptr] == INT_MAX {
        return Failure(RuntimeError(Overflow));
      }
      cells := cells[ptr := cells[ptr] + 1];
      return Success(Running);
    }

    /** Subtracts one from the current cell unless it holds `Int.MIN_VALUE`. */
    method Decrement() returns (r: Result<ExecutionState>)
      requires 0 <= ptr < |cells|
      modifies this
      ensures pc == old(pc) && ptr == old(ptr) && printed == old(printed)
      ensures r.Failure? <==> old(cells[ptr]) == INT_MIN
      ensures r.Failure? ==> r == Failure(RuntimeError(Underflow)) && cells == old(cells)
      ensures r.Success? ==> r == Success(Running) && cells == old(cells)[ptr := old(cells[ptr]) - 1]
    {
      if cells[ptr] == INT_MIN {
        return Failure(RuntimeError(Underflow));
      }
      cells := cells[ptr := cells[ptr] - 1];
      return Success(Running);
    }

    /** Prints the current cell as a character, if that character is defined. */
    method Output() returns (r: Result<ExecutionState>)
      requires 0 <= ptr < |cells|
      modifies this
      ensures pc == old(pc) && ptr == old(ptr) && cells == old(cells)
      ensures r.Failure? <==> !isDefined(ToChar(cells[ptr]))
      ensures r.Failure? ==> r == Failure(RuntimeError(InvalidCharacter)) && printed == old(printed)
      ensures r.Success? ==> r == Success(Running) && printed == old(printed) + [ToChar(cells[ptr])]
    {
      var ch := ToChar(cells[ptr]);
      if isDefined(ch) {
        printed := printed + [ch];
        return Success(Running);
      }
      return Failure(RuntimeError(InvalidCharacter));
    }

    /** Jumps to `pos` when the current cell is zero; `pos` must lie in
        `[0, |commands|]`, checked right end first. */
    method JumpForward(pos: Int32) returns (r: Result<ExecutionState>)
      requires 0 <= ptr < |cells|
      modifies this
      ensures ptr == old(ptr) && cells == old(cells) && printed == old(printed)
      ensures pos > |commands| ==> r == Failure(RuntimeError(TooFarRight))
      ensures 0 > pos ==> r == Failure(RuntimeError(TooFarLeft))
      ensures 0 <= pos <= |commands| ==> r == Success(Running)
      ensures pc == if r.Success? && cells[ptr] == 0 then pos else old(pc)
    {
      if pos > |commands| {
        return Failure(RuntimeError(TooFarRight));
      } else if pos < 0 {
        return Failure(RuntimeError(TooFarLeft));
      }
      if cells[ptr] == 0 {
        pc := pos;
      }
      return Success(Running);
    }

    /** Jumps to `pos` when the current cell is not zero. */
    method JumpBack(pos: Int32) returns (r: Result<ExecutionState>)
      requires 0 <= ptr < |cells|
      modifies this
      ensures ptr == old(ptr) && cells == old(cells) && printed == old(printed)
      ensures r == Success(Running)
      ensures pc == if cells[ptr] != 0 then pos else old(pc)
    {
      if cells[ptr] != 0 {
        pc := pos;
      }
      return Success(Running);
    }

    /** The loop of `main`: call `executeOnce` while it succeeds with `Running`,
        at most `fuel` times. */
    method RunUntilStopped(fuel: nat) returns (r: Result<ExecutionState>)
      modifies this
      ensures Step(r, State()) == Run(commands, isDefined, old(State()), fuel)
    {
      r := Success(Running);
      var n := 0;
      while n < fuel && r == Success(Running)
        invariant 0 <= n <= fuel
        invariant Run(commands, isDefined, old(State()), fuel) ==
          if r == Success(Running) then Run(commands, isDefined, State(), fuel - n) else Step(r, State())
      {
        r := ExecuteOnce();
        n := n + 1;
      }
    }
  }
}
