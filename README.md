# Brainfuck interpreter of `Problematic.kt`, modelled in Dafny

The repository is a scratch harness around the Kotlin Analysis API. The only
self-contained logic in it is the small Brainfuck interpreter in
`debug-analysis-api/src/main/resources/Problematic.kt`. It supports every command except `,`.
`Main.kt` holds a copy of that interpreter inside the string `src1`. The copy is identical
except for line 1, where it reads `enum class` instead of `ienum class`.
This project models the interpreter's two parts.

- **`parse`** turns source text into a list of `ExecutorCommand`s. Every character
  other than `><+-.[]` is skipped. Each `[` is emitted as a `JumpForward(0)`
  placeholder and its index is pushed on a stack. Each `]` pops that index, patches
  the placeholder to point at the `]`, and emits `JumpBack` to the `[`. An unmatched
  bracket is a syntax error.
- **`ExecutorState`** holds the program counter `pc`, the data pointer `ptr`, and a
  tape `cells` of 32-bit `Int`s. The tape starts as 32 zeros and grows by one zero
  cell when the pointer moves off its right end. `executeOnce` reports `Finished`
  once `pc` is past the program. Otherwise it checks the state, runs one command and
  increments `pc`. Faults are returned as failures and leave the state untouched.

Layout:

- `commands.dfy` (module `Commands`): the commands, the execution states, the
  `ExecutionError` kinds, and `Result`/`Option`. `Int32` is Kotlin's `Int`.
- `parser.dfy` (module `Parser`): `Parse`, an imperative loop with a stack. It is
  proved against the predicates `Matched`, `Nested` and `NoExcessClose`, the bracket
  depth `Depth`, and the command characters `CommandChars` of the source.
- `semantics.dfy` (module `Semantics`): the executor as pure functions on a
  `Machine` value. `ExecuteCommand` and `ExecuteOnce` are the specification. `Run`
  is the driver loop of `main`, bounded by fuel.
- `executor.dfy` (module `Executor`): the class `ExecutorState`. Its fields are
  updated in place. Each method states its new state, and `ExecuteOnce` and
  `ExecuteCommand` are proved equal to the pure step.
- `properties.dfy` (module `Properties`): facts about whole runs. The tape
  invariant holds and the program counter stays in range for parsed programs. It
  also proves the behaviour of `[-]` and some concrete runs.
- `brackets.dfy` (module `Brackets`): the contract of `Parse` determines its result.
  Each `[` points at the first position where the bracket depth falls back to its
  level before that `[`.

`JumpForward` holds the index of the matching `]` (`Problematic.kt:194`). A taken
jump still lands one past that `]`, because `executeOnce` increments `pc` after every
successful command (line 64). `SampleParse` states the resulting command list for
`+-><.[]`: `JumpForward(6), JumpBack(5)`.

Line 1 of `Problematic.kt` reads `ienum class`, a deliberate typo. It is read as
`enum class ExecutionState { Running, Finished }`.

## Model

| member | source | states |
|---|---|---|
| `Parser.Parse` | debug-analysis-api/src/main/resources/Problematic.kt:172-210 | All outcomes of the parse. It fails with "more `]`s than `[`s" exactly when some prefix of the source closes more brackets than it opens. It fails with "more `[`s than `]`s" exactly when no prefix does but brackets remain open at the end. Otherwise it succeeds. On success, the command symbols are exactly the `><+-.[]` characters of the source in order, so the length is their count. Every jump is paired with its partner, all targets lie inside the list, and loops do not cross |
| `Parser.PushKeepsPending` | debug-analysis-api/src/main/resources/Problematic.kt:185-188 | Pushing a `[` keeps the parser's invariant. The stack holds, in increasing order, exactly the indices of the `JumpForward(0)` placeholders, and every other bracket command is paired and nested |
| `Parser.PopKeepsPending` | debug-analysis-api/src/main/resources/Problematic.kt:189-195 | A `]` pops the innermost open `[`, patches it to the index of the `]` and appends `JumpBack` to it. This keeps the same invariant, with one placeholder fewer |
| `Parser.AppendKeepsPending` | debug-analysis-api/src/main/resources/Problematic.kt:179-184 | Appending a non-bracket command keeps the parser's invariant |
| `Parser.CommandChars` | debug-analysis-api/src/main/resources/Problematic.kt:178-198 | The characters that produce commands are at most as many as the source's, and each is one of `><+-.[]` |
| `Parser.CommandCharsCount` | debug-analysis-api/src/main/resources/Problematic.kt:178-198 | Every `><+-.[]` character of the source is kept as often as it occurs there, and every other character is dropped |
| `Parser.CommandCharsAppend` | debug-analysis-api/src/main/resources/Problematic.kt:178-198 | The command characters of a concatenation are those of the first part followed by those of the second, so the source order is kept |
| `Brackets.ParseResultUnique` | debug-analysis-api/src/main/resources/Problematic.kt:172-210 | Two matched, nested command lists with the same symbols are equal. So the contract of `Parse` fixes every jump target |
| `Brackets.TargetClosesAt` | debug-analysis-api/src/main/resources/Problematic.kt:185-195 | In a matched, nested list, each `JumpForward` targets the first position where the bracket depth falls back to its level before the `[`. This is an independent definition of the matching `]` |
| `Brackets.OpenIsDepth` | debug-analysis-api/src/main/resources/Problematic.kt:185-195 | After position `u`, the number of loops still open equals the bracket depth of the source up to `u`. This is the depth of the parser's stack |
| `Brackets.OpenStep` | debug-analysis-api/src/main/resources/Problematic.kt:185-195 | At each position, a `[` opens one loop, a `]` closes exactly its partner, and any other command changes nothing |
| `Brackets.OpenAroundLoop` | debug-analysis-api/src/main/resources/Problematic.kt:185-195 | Loops that are open before a `[` stay open past its `]`. Inside the loop, its own `[` is open in addition |
| `Brackets.DepthInsideLoop` | debug-analysis-api/src/main/resources/Problematic.kt:185-195 | Between a `[` and its `]`, the depth stays above its level before the `[` |
| `Semantics.IncrementPc` | debug-analysis-api/src/main/resources/Problematic.kt:86-88 | `pc++` on an `Int`: one more, modulo 2^32, within the `Int` range |
| `Semantics.ToChar` | debug-analysis-api/src/main/resources/Problematic.kt:140 | `Int.toChar()` gives the UTF-16 code unit congruent to the cell value modulo 2^16 |
| `Semantics.CheckStateValid` | debug-analysis-api/src/main/resources/Problematic.kt:90-100 | No error exactly when `pc` is in `[0, size)` and `ptr` is on the tape. Otherwise the first violation wins, in this order: `ProgramCounterOutOfRange` when `pc` is out of range, then `TooFarRight` when `ptr >= size of cells`, then `TooFarLeft` when `ptr < 0` |
| `Semantics.ExecuteCommand` | debug-analysis-api/src/main/resources/Problematic.kt:69-84 | The state check comes first, and its error is returned as is. Any other failure is the command's own fault: `<` at cell 0, `+` at `Int.MAX_VALUE`, `-` at `Int.MIN_VALUE`, `.` on an undefined character, or a `JumpForward` target outside `[0, size]`. On success, `pc` changes only by a taken jump, and `ptr` moves only for `<`/`>`. The tape only grows, by at most one zero cell, and the pointer stays on it. Only the current cell changes, by +1 for `+` and by -1 for `-`. Only `.` appends its character to the output |
| `Semantics.ExecuteOnce` | debug-analysis-api/src/main/resources/Problematic.kt:53-67 | Reports `Finished` exactly when `pc >= size`. A negative `pc` gives the index exception. `ProgramCounterOutOfRange` is never returned. Anything but `Running` leaves the machine unchanged. When `Running`, `pc` ends one past where the command left it: the target of a taken jump, or `pc` itself. The step keeps the tape invariant and only appends to the output. On a valid state, a failure is the current command's own fault |
| `Semantics.Run` | debug-analysis-api/src/main/resources/Problematic.kt:225-227 | The loop stops at the first step that is not `Running`. That step is the outcome of one more `executeOnce` from the final state. `Finished` means `pc` is past the end |
| `Executor.ExecutorState.constructor` | debug-analysis-api/src/main/resources/Problematic.kt:48-51 | A new executor has `pc = ptr = 0`, 32 zero cells and no output |
| `Executor.ExecutorState.ExecuteOnce` | debug-analysis-api/src/main/resources/Problematic.kt:53-67 | The in-place step produces exactly the result and the new state of `Semantics.ExecuteOnce`. A failure leaves every field unchanged |
| `Executor.ExecutorState.ExecuteCommand` | debug-analysis-api/src/main/resources/Problematic.kt:69-84 | The in-place dispatch matches `Semantics.ExecuteCommand`. On a failure the fields are unchanged |
| `Executor.ExecutorState.CheckStateValid` | debug-analysis-api/src/main/resources/Problematic.kt:90-100 | Reads the fields only. There is no error exactly when `pc` is on a command and `ptr` is on the tape. Which error comes first is given by `Semantics.CheckStateValid` |
| `Executor.ExecutorState.IncrementPc` | debug-analysis-api/src/main/resources/Problematic.kt:86-88 | `pc` becomes the wrapped successor. Nothing else changes |
| `Executor.ExecutorState.MoveToTheRight` | debug-analysis-api/src/main/resources/Problematic.kt:102-110 | `ptr` goes up by one. Exactly one `0` is appended, and only when `ptr` reaches the length of the tape. Existing cells are unchanged |
| `Executor.ExecutorState.MoveToTheLeft` | debug-analysis-api/src/main/resources/Problematic.kt:112-119 | Fails with `TooFarLeft` exactly when `ptr == 0`, leaving it unchanged. Otherwise `ptr` goes down by one |
| `Executor.ExecutorState.Increment` | debug-analysis-api/src/main/resources/Problematic.kt:121-128 | Fails with `Overflow` exactly when the cell holds `Int.MAX_VALUE`, leaving the tape unchanged. Otherwise only `cells[ptr]` changes, by +1 |
| `Executor.ExecutorState.Decrement` | debug-analysis-api/src/main/resources/Problematic.kt:130-137 | Fails with `Underflow` exactly when the cell holds `Int.MIN_VALUE`, leaving the tape unchanged. Otherwise only `cells[ptr]` changes, by -1 |
| `Executor.ExecutorState.Output` | debug-analysis-api/src/main/resources/Problematic.kt:139-148 | Fails with `InvalidCharacter` exactly when the cell's character is not defined. Otherwise it appends that character to the output |
| `Executor.ExecutorState.JumpForward` | debug-analysis-api/src/main/resources/Problematic.kt:150-161 | Before looking at the cell, it rejects a target above the program size with `TooFarRight`, then a negative target with `TooFarLeft`. Otherwise `pc` becomes the target exactly when the cell is zero |
| `Executor.ExecutorState.JumpBack` | debug-analysis-api/src/main/resources/Problematic.kt:163-169 | Always succeeds. `pc` becomes the target exactly when the cell is non-zero |
| `Executor.ExecutorState.RunUntilStopped` | debug-analysis-api/src/main/resources/Problematic.kt:225-227 | The `do`/`while` loop of `main`, bounded by fuel, ends in the result and state of `Semantics.Run` |
| `Properties.RunKeepsTape` | debug-analysis-api/src/main/resources/Problematic.kt:49-51 | Over a whole run, the tape never shrinks below its initial 32 cells, the pointer stays on it, and output is only appended |
| `Properties.ParsedStep` | debug-analysis-api/src/main/resources/Problematic.kt:53-67 | For a parsed (matched) program, one step keeps `pc` in `[0, size]`. A fault comes only from `<`, `+`, `-` or `.`, never from a jump |
| `Properties.ParsedRunStaysInRange` | debug-analysis-api/src/main/resources/Problematic.kt:150-169 | For a parsed program, a whole run keeps `pc` in `[0, size]` and the pointer on the tape. It never raises `ProgramCounterOutOfRange`, `TooFarRight` or the index exception |
| `Properties.RunSplit` | debug-analysis-api/src/main/resources/Problematic.kt:225-227 | Running `a` steps and then `b` more is the same as running `a + b` steps, while the first part is still running |
| `Properties.ClearLoopBody` | debug-analysis-api/src/main/resources/Problematic.kt:130-137 | Inside `[-]` with `k > 0` in the cell, `2k` steps leave the loop with the cell zero and nothing else changed |
| `Properties.ClearLoop` | debug-analysis-api/src/main/resources/Problematic.kt:150-169 | `[-]` on a cell holding `n >= 0` finishes after `2n + 2` steps. The cell is zero, `pc` is just past the loop, and nothing else has changed |
| `Properties.IncrementsThenDecrement` | debug-analysis-api/src/main/resources/Problematic.kt:121-137 | `+++-` from a fresh executor finishes with 2 in the first cell |
| `Properties.MoveRightStep` | debug-analysis-api/src/main/resources/Problematic.kt:102-110 | A `>` on an all-zero tape whose pointer is on its last cell (or on one of the initial 32) moves on and grows the tape by one zero if needed |
| `Properties.MoveRightsGrowTape` | debug-analysis-api/src/main/resources/Problematic.kt:102-110 | After `k` more `>`, the tape is all zeros and has grown one cell at a time past the initial 32 |
| `Properties.SixtyFourMovesRight` | debug-analysis-api/src/main/resources/Problematic.kt:49-51 | Sixty-four `>` from a fresh executor finish with 65 zero cells and the pointer on the last one |
| `Properties.SampleParse` | debug-analysis-api/src/main/resources/Problematic.kt:185-195 | The only matched list with the symbols `+-><.[]` is `+ - > < . JumpForward(6) JumpBack(5)` |

## Left out

- Printing: `print(char)` is modelled as appending the UTF-16 code unit to `printed`. Nothing is written to a console.
- `Char.isDefined()` is a lookup in the Unicode character database. It is a parameter `isDefined` of the executor and of the step functions, not a table.
- Exception messages: `ExecutionError.message` and the two syntax-error texts are constant strings. They are represented by the error kinds `ExecutionError` and `BracketMismatch`.
- Thrown exceptions: `RuntimeError(kind)` becomes `Failure(RuntimeError(kind))`. The JVM exception from `commands[pc]` with a negative `pc` (Problematic.kt:58) becomes `Failure(IndexOutOfBounds(pc))`, even though Kotlin throws it instead of returning it.
- Parser.Parse: requires the source to be at most `Int.MAX_VALUE` characters long, which every Kotlin `String` is. This keeps command indices within `Int`.
- `ptr` is an unbounded integer. Its 32-bit wrap-around cannot happen, because a tape of 2^31 cells cannot be allocated.
- The driver `main` (Problematic.kt:212-228): its fixed sample program is not run here. Its loop is modelled with fuel, as `Run` and `RunUntilStopped`, because the program need not terminate. When a step fails, `getOrThrow()` on line 227 rethrows, because the infix `and` does not short-circuit. The model simply stops with that failure. `parse(...).getOrThrow()` on a syntax error is not modelled.
- `InputError` is declared but nothing raises it, because the interpreter has no `,` command.
- `Main.kt` (`simpleAnalyze`, `main`, `src1`, `src2`), `LeakingThis.kt` and `build.gradle.kts` are not part of this model. They are glue around the Analysis API, a copy of the interpreter, inert fixtures and build configuration.
