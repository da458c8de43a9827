/** Properties of whole runs of the executor, and of the programs the parser produces. */
module Properties {
  import opened Commands
  import opened Parser
  import opened Semantics

  /** The driver loop can be split: running `a` steps and then `b` more is running
      `a + b` steps, as long as the first part is still running. */
  lemma {:induction false} RunSplit(c: seq<Command>, d: int -> bool, m: Machine, a: nat, b: nat)
    requires Run(c, d, m, a).result == Success(Running)
    ensures Run(c, d, m, a + b) == Run(c, d, Run(c, d, m, a).next, b)
    decreases a
  {
    if a > 0 {
      var s := ExecuteOnce(c, d, m);
      assert s.result == Success(Running);
      RunSplit(c, d, s.next, a - 1, b);
    }
  }

  /** Over a whole run the tape never shrinks, the pointer stays on it, and output
      is only ever appended. */
  lemma {:induction false} RunKeepsTape(c: seq<Command>, d: int -> bool, m: Machine, fuel: nat)
    requires TapeOk(m)
    ensures var s := Run(c, d, m, fuel);
      TapeOk(s.next) && |m.cells| <= |s.next.cells| && m.printed <= s.next.printed
    decreases fuel
  {
    if fuel > 0 {
      var s := ExecuteOnce(c, d, m);
      if s.result == Success(Running) {
        RunKeepsTape(c, d, s.next, fuel - 1);
      }
    }
  }

  /** One step of a parsed program keeps the program counter in `[0, |c|]`, and the
      only faults it can raise are those of `<`, `+`, `-` and `.`. */
  lemma ParsedStep(c: seq<Command>, d: int -> bool, m: Machine)
    requires Matched(c) && |c| <= INT_MAX
    requires 0 <= m.pc <= |c| && TapeOk(m)
    ensures var s := ExecuteOnce(c, d, m);
      0 <= s.next.pc <= |c| &&
      (s.result.Failure? ==>
        s.result.exception.RuntimeError? &&
        s.result.exception.err in {TooFarLeft, Overflow, Underflow, InvalidCharacter} &&
        !c[m.pc].JumpForward? && !c[m.pc].JumpBack?)
  {
    if m.pc < |c| {
      assert PairedAt(c, m.pc);
    }
  }

  /** For a program produced by the parser, a run from a state with the pointer on
      the tape and the program counter in `[0, |c|]` keeps both so; it never raises
      `ProgramCounterOutOfRange`, `TooFarRight` or an index exception, and a fault
      can only come from `<`, `+`, `-` or `.`. */
  lemma {:induction false} ParsedRunStaysInRange(c: seq<Command>, d: int -> bool, m: Machine, fuel: nat)
    requires Matched(c) && |c| <= INT_MAX
    requires 0 <= m.pc <= |c| && TapeOk(m)
    ensures var s := Run(c, d, m, fuel);
      0 <= s.next.pc <= |c| && TapeOk(s.next) &&
      (s.result.Failure? ==>
        s.result.exception.RuntimeError? &&
        s.result.exception.err in {TooFarLeft, Overflow, Underflow, InvalidCharacter})
    decreases fuel
  {
    if fuel > 0 {
      var s := ExecuteOnce(c, d, m);
      ParsedStep(c, d, m);
      if s.result == Success(Running) {
        ParsedRunStaysInRange(c, d, s.next, fuel - 1);
      }
    }
  }

  /** The commands of `[-]`. */
  const CLEAR: seq<Command> := [JumpForward(2), Decrement, JumpBack(0)]

  /** Inside `[-]` (at the `-`) with `k > 0` in the current cell, `2 * k` steps
      leave the loop with the cell cleared and nothing else changed. */
  lemma {:induction false} ClearLoopBody(d: int -> bool, m: Machine, k: int)
    requires m.pc == 1 && TapeOk(m) && 0 < k && m.cells[m.ptr] == k
    ensures Run(CLEAR, d, m, 2 * k) == Step(Success(Running), m.(pc := 3, cells := m.cells[m.ptr := 0]))
    decreases k
  {
    var m1 := m.(pc := 2, cells := m.cells[m.ptr := k - 1]);
    assert ExecuteOnce(CLEAR, d, m) == Step(Success(Running), m1);
    if k == 1 {
      assert ExecuteOnce(CLEAR, d, m1) == Step(Success(Running), m1.(pc := 3));
    } else {
      var m2 := m1.(pc := 1);
      assert ExecuteOnce(CLEAR, d, m1) == Step(Success(Running), m2);
      ClearLoopBody(d, m2, k - 1);
      assert m2.cells[m.ptr := 0] == m.cells[m.ptr := 0];
    }
  }

  /** `[-]` on a cell holding `n >= 0` ends, after `2 * n + 2` calls of `executeOnce`,
      in `Finished` with that cell zero, the program counter just past the loop and
      nothing else changed. */
  lemma ClearLoop(d: int -> bool, m: Machine, n: int)
    requires m.pc == 0 && TapeOk(m) && 0 <= n && m.cells[m.ptr] == n
    ensures Run(CLEAR, d, m, 2 * n + 2) == Step(Success(Finished), m.(pc := 3, cells := m.cells[m.ptr := 0]))
  {
    var done := m.(pc := 3, cells := m.cells[m.ptr := 0]);
    if n == 0 {
      assert m.cells[m.ptr := 0] == m.cells;
      assert ExecuteOnce(CLEAR, d, m) == Step(Success(Running), done);
      assert ExecuteOnce(CLEAR, d, done) == Step(Success(Finished), done);
    } else {
      var m1 := m.(pc := 1);
      assert ExecuteOnce(CLEAR, d, m) == Step(Success(Running), m1);
      assert Run(CLEAR, d, m, 1) == Step(Success(Running), m1);
      ClearLoopBody(d, m1, n);
      RunSplit(CLEAR, d, m, 1, 2 * n);
      RunSplit(CLEAR, d, m, 2 * n + 1, 1);
      assert ExecuteOnce(CLEAR, d, done) == Step(Success(Finished), done);
    }
  }

  /** `+++-` from a fresh executor: five calls of `executeOnce` end in `Finished`
      with 2 in the first cell. */
  lemma IncrementsThenDecrement(d: int -> bool)
    ensures Run([Increment, Increment, Increment, Decrement], d, Initial(), 5)
      == Step(Success(Finished), Initial().(pc := 4, cells := Initial().cells[0 := 2]))
  {
    var c := [Increment, Increment, Increment, Decrement];
    var m0 := Initial();
    var m1 := m0.(pc := 1, cells := m0.cells[0 := 1]);
    var m2 := m0.(pc := 2, cells := m0.cells[0 := 2]);
    var m3 := m0.(pc := 3, cells := m0.cells[0 := 3]);
    var m4 := m0.(pc := 4, cells := m0.cells[0 := 2]);
    assert ExecuteOnce(c, d, m0) == Step(Success(Running), m1);
    assert m1.cells[0 := 2] == m0.cells[0 := 2];
    assert ExecuteOnce(c, d, m1) == Step(Success(Running), m2);
    assert m2.cells[0 := 3] == m0.cells[0 := 3];
    assert ExecuteOnce(c, d, m2) == Step(Success(Running), m3);
    assert m3.cells[0 := 2] == m0.cells[0 := 2];
    assert ExecuteOnce(c, d, m3) == Step(Success(Running), m4);
    assert ExecuteOnce(c, d, m4) == Step(Success(Finished), m4);
  }

  function Zeros(n: nat): seq<Int32> {
    seq(n, _ => 0)
  }

  function Max(a: int, b: int): int {
    if a < b then b else a
  }

  /** The machine a program of `>` only is in after `p` of its commands. */
  function AfterMoves(p: nat): Machine
    requires p <= INT_MAX
  {
    Machine(p, p, Zeros(Max(32, p + 1)), [])
  }

  lemma MoveRightStep(c: seq<Command>, d: int -> bool, p: nat)
    requires p < |c| <= INT_MAX && c[p] == MoveRight
    ensures ExecuteOnce(c, d, AfterMoves(p)) == Step(Success(Running), AfterMoves(p + 1))
  {
    var m := AfterMoves(p);
    var cells := if p + 1 >= |m.cells| then m.cells + [0] else m.cells;
    assert cells == Zeros(Max(32, p + 2));
    assert ExecuteCommand(c, d, m, MoveRight) == Success(m.(ptr := p + 1, cells := cells));
  }

  /** A program of `>` only: after `k` more of its commands the pointer and the
      program counter have moved on by `k` and the tape is all zeros, grown one cell
      at a time past the initial 32. */
  lemma {:induction false} MoveRightsGrowTape(c: seq<Command>, d: int -> bool, p: nat, k: nat)
    requires forall i :: 0 <= i < |c| ==> c[i] == MoveRight
    requires p + k <= |c| <= INT_MAX
    ensures Run(c, d, AfterMoves(p), k) == Step(Success(Running), AfterMoves(p + k))
    decreases k
  {
    if k > 0 {
      MoveRightStep(c, d, p);
      MoveRightsGrowTape(c, d, p + 1, k - 1);
    }
  }

  /** Sixty-four `>` from a fresh executor: the tape has grown from 32 to 65 zero
      cells and the run finishes with the pointer on the last one. */
  lemma SixtyFourMovesRight(d: int -> bool)
    ensures Run(seq(64, _ => MoveRight), d, Initial(), 65) == Step(Success(Finished), Machine(64, 64, Zeros(65), []))
  {
    var c: seq<Command> := seq(64, _ => MoveRight);
    assert Initial() == AfterMoves(0);
    MoveRightsGrowTape(c, d, 0, 64);
    RunSplit(c, d, Initial(), 64, 1);
    assert AfterMoves(64) == Machine(64, 64, Zeros(65), []);
    assert ExecuteOnce(c, d, AfterMoves(64)).result == Success(Finished);
  }

  /** The command list the parser's contract admits for `+-><.[]` is exactly
      `Increment, Decrement, MoveRight, MoveLeft, Output, JumpForward(6), JumpBack(5)`. */
  lemma SampleParse(c: seq<Command>)
    requires Symbols(c) == "+-><.[]" && Matched(c)
    ensures c == [Increment, Decrement, MoveRight, MoveLeft, Output, JumpForward(6), JumpBack(5)]
  {
    assert |c| == 7;
    forall i | 0 <= i < 7 ensures Symbol(c[i]) == "+-><.[]"[i] {
      assert Symbols(c)[i] == Symbol(c[i]);
    }
    assert PairedAt(c, 5) && PairedAt(c, 6);
    assert c[5].pos == 6;
    assert c[6].pos == 5 by {
      var j := c[6].pos;
      assert 0 <= j < 6 && c[j].JumpForward?;
    }
  }
}
