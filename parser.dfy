/** The parser: source text to a command list with resolved jump targets
    (`parse` in Problematic.kt). */
module Parser {
  import opened Commands

  /** The command characters of `s`, in order; every other character is a comment. */
  function CommandChars(s: string): (r: string)
    ensures |r| <= |s|
    ensures forall i :: 0 <= i < |r| ==> IsCommandChar(r[i])
  {
    if s == [] then []
    else
      var last := s[|s| - 1];
      CommandChars(s[..|s| - 1]) + (if IsCommandChar(last) then [last] else [])
  }

  /** Every command character of `s` is kept as often as it occurs; every other one is dropped. */
  lemma {:induction false} CommandCharsCount(s: string)
    ensures forall ch :: multiset(CommandChars(s))[ch] == if IsCommandChar(ch) then multiset(s)[ch] else 0
  {
    if s != [] {
      var last := s[|s| - 1];
      assert s == s[..|s| - 1] + [last];
      CommandCharsCount(s[..|s| - 1]);
    }
  }

  /** Keeping the command characters commutes with concatenation, so they keep their order. */
  lemma {:induction false} CommandCharsAppend(a: string, b: string)
    ensures CommandChars(a + b) == CommandChars(a) + CommandChars(b)
    decreases |b|
  {
    if b != [] {
      var b' := b[..|b| - 1];
      assert (a + b)[..|a + b| - 1] == a + b';
      CommandCharsAppend(a, b');
    } else {
      assert a + b == a;
    }
  }

  /** The source characters a command list stands for. */
  function Symbols(c: seq<Command>): string {
    seq(|c|, i requires 0 <= i < |c| => Symbol(c[i]))
  }

  /** Number of `[` minus number of `]` in `s`. */
  function Depth(s: string): int {
    if s == [] then 0
    else
      var last := s[|s| - 1];
      Depth(s[..|s| - 1]) + (if last == '[' then 1 else if last == ']' then -1 else 0)
  }

  /** No prefix of `s` closes more brackets than it opens. */
  ghost predicate NoExcessClose(s: string) {
    forall k :: 0 <= k <= |s| ==> Depth(s[..k]) >= 0
  }

  /** The bracket command at index `i` points at its partner, and the partner points back. */
  ghost predicate PairedAt(c: seq<Command>, i: int)
    requires 0 <= i < |c|
  {
    match c[i]
    case JumpForward(t) => i < t < |c| && c[t] == JumpBack(i)
    case JumpBack(j) => 0 <= j < i && c[j].JumpForward? && c[j].pos == i
    case _ => true
  }

  /** Every bracket command of `c` is paired; all targets lie inside `c`. */
  ghost predicate Matched(c: seq<Command>) {
    forall i :: 0 <= i < |c| ==> PairedAt(c, i)
  }

  /** Loops never cross: a `[` opened inside the loop of an earlier `[` is closed
      (with a positive target) before that loop closes. */
  ghost predicate Nested(c: seq<Command>) {
    forall i, k ::
      0 <= i < k < |c| && c[i].JumpForward? && c[k].JumpForward? && k < c[i].pos
      ==> 0 < c[k].pos < c[i].pos
  }

  /** The parser's state between two characters: `stack` holds, in increasing order,
      the indices of the `[`s still open, which are exactly the `JumpForward(0)`
      placeholders of `c`; every other bracket command is already paired. */
  ghost predicate Pending(c: seq<Command>, stack: seq<int>) {
    (forall a, b :: 0 <= a < b < |stack| ==> stack[a] < stack[b]) &&
    (forall a :: 0 <= a < |stack| ==> 0 <= stack[a] < |c|) &&
    (forall i :: 0 <= i < |c| ==> (c[i] == JumpForward(0) <==> i in stack)) &&
    (forall i :: 0 <= i < |c| && c[i] != JumpForward(0) ==> PairedAt(c, i)) &&
    Nested(c)
  }

  lemma PushKeepsPending(c: seq<Command>, stack: seq<int>)
    requires Pending(c, stack)
    ensures Pending(c + [JumpForward(0)], stack + [|c|])
  {
    var c', st' := c + [JumpForward(0)], stack + [|c|];
    forall i | 0 <= i < |c'| && c'[i] != JumpForward(0) ensures PairedAt(c', i) {
      assert c'[i] == c[i] && PairedAt(c, i);
    }
    forall i, k | 0 <= i < k < |c'| && c'[i].JumpForward? && c'[k].JumpForward? && k < c'[i].pos
      ensures 0 < c'[k].pos < c'[i].pos
    {
      assert c'[i] == c[i];
      assert c[i] != JumpForward(0) ==> PairedAt(c, i);
    }
  }

  lemma AppendKeepsPending(c: seq<Command>, stack: seq<int>, x: Command)
    requires Pending(c, stack)
    requires !x.JumpForward? && !x.JumpBack?
    ensures Pending(c + [x], stack)
  {
    var c' := c + [x];
    forall i | 0 <= i < |c'| && c'[i] != JumpForward(0) ensures PairedAt(c', i) {
      if i < |c| {
        assert c'[i] == c[i] && PairedAt(c, i);
      }
    }
  }

  /** Closing the innermost open `[` (the last stack entry `s`) at index `|c|`. */
  lemma PopKeepsPending(c: seq<Command>, stack: seq<int>)
    requires Pending(c, stack) && |stack| > 0 && |c| <= INT_MAX
    ensures
      var s := stack[|stack| - 1];
      Pending(c[s := JumpForward(|c|)] + [JumpBack(s)], stack[..|stack| - 1])
  {
    var s := stack[|stack| - 1];
    var t := |c|;
    var c' := c[s := JumpForward(t)] + [JumpBack(s)];
    var st' := stack[..|stack| - 1];
    assert c[s] == JumpForward(0);
    forall a | 0 <= a < |st'| ensures st'[a] < s {
      assert st'[a] == stack[a];
    }
    forall i | 0 <= i < |c'| ensures c'[i] == JumpForward(0) <==> i in st' {
      if i != s && i < t {
        assert c'[i] == c[i];
        assert i in stack <==> i in st' by {
          assert stack == st' + [s];
        }
      }
    }
    forall i | 0 <= i < |c'| && c'[i] != JumpForward(0) ensures PairedAt(c', i) {
      if i != s && i < t {
        assert c'[i] == c[i] && PairedAt(c, i);
      }
    }
    forall i, k | 0 <= i < k < |c'| && c'[i].JumpForward? && c'[k].JumpForward? && k < c'[i].pos
      ensures 0 < c'[k].pos < c'[i].pos
    {
      assert k < t;
      if i == s {
        assert c'[k] == c[k];
        assert k !in stack by {
          assert stack == st' + [s];
        }
        assert PairedAt(c, k);
      } else {
        assert c'[i] == c[i];
        assert c[i] != JumpForward(0) ==> PairedAt(c, i);
      }
    }
  }

  /** How one more character extends the command characters and the depth of a prefix. */
  lemma PrefixStep(src: string, i: int)
    requires 0 <= i < |src|
    ensures CommandChars(src[..i + 1]) == CommandChars(src[..i]) + (if IsCommandChar(src[i]) then [src[i]] else [])
    ensures Depth(src[..i + 1]) == Depth(src[..i]) + (if src[i] == '[' then 1 else if src[i] == ']' then -1 else 0)
  {
    assert src[..i + 1][..i] == src[..i];
  }

  lemma SymbolsAppend(c: seq<Command>, x: Command)
    ensures Symbols(c + [x]) == Symbols(c) + [Symbol(x)]
  {
  }

  lemma SymbolsUpdate(c: seq<Command>, k: int, x: Command)
    requires 0 <= k < |c| && Symbol(c[k]) == Symbol(x)
    ensures Symbols(c[k := x]) == Symbols(c)
  {
  }

  /** Turns `src` into its command list. Characters other than `><+-.[]` are skipped;
      each `[` is emitted as a `JumpForward(0)` placeholder whose index is pushed, and
      each `]` pops that index, patches the placeholder to point at the `]` and emits
      a `JumpBack` to the `[`. */
  method Parse(src: string) returns (r: Result<seq<Command>>)
    requires |src| <= INT_MAX
    ensures r.Failure? ==> r.exception.SyntaxError?
    ensures r == Failure(SyntaxError(MoreClosing)) <==> !NoExcessClose(src)
    ensures r == Failure(SyntaxError(MoreOpening)) <==> NoExcessClose(src) && Depth(src) > 0
    ensures r.Success? <==> NoExcessClose(src) && Depth(src) == 0
    ensures r.Success? ==> Symbols(r.value) == CommandChars(src)
    ensures r.Success? ==> Matched(r.value) && Nested(r.value)
  {
    var commands: seq<Command> := [];
    var posInCommands: seq<int> := [];
    var currentCmdPtr := 0;
    for i := 0 to |src|
      invariant currentCmdPtr == |commands| <= i
      invariant Symbols(commands) == CommandChars(src[..i])
      invariant Pending(commands, posInCommands)
      invariant |posInCommands| == Depth(src[..i])
      invariant forall k :: 0 <= k <= i ==> Depth(src[..k]) >= 0
    {
      PrefixStep(src, i);
      var currentCmd: Command;
      match src[i] {
        case '>' =>
          currentCmd := MoveRight;
        case '<' =>
          currentCmd := MoveLeft;
        case '+' =>
          currentCmd := Increment;
        case '-' =>
          currentCmd := Decrement;
        case '.' =>
          currentCmd := Output;
        case '[' =>
          PushKeepsPending(commands, posInCommands);
          posInCommands := posInCommands + [currentCmdPtr];
          currentCmd := JumpForward(0);
        case ']' =>
          if |posInCommands| == 0 {
            assert Depth(src[..i + 1]) < 0;
            return Failure(SyntaxError(MoreClosing));
          }
          PopKeepsPending(commands, posInCommands);
          var lastPos := posInCommands[|posInCommands| - 1];
          posInCommands := posInCommands[..|posInCommands| - 1];
          SymbolsUpdate(commands, lastPos, JumpForward(currentCmdPtr));
          commands := commands[lastPos := JumpForward(currentCmdPtr)];
          currentCmd := JumpBack(lastPos);
        case _ =>
          continue;
      }
      if !currentCmd.JumpForward? && !currentCmd.JumpBack? {
        AppendKeepsPending(commands, posInCommands, currentCmd);
      }
      SymbolsAppend(commands, currentCmd);
      currentCmdPtr := currentCmdPtr + 1;
      commands := commands + [currentCmd];
    }
    assert src[..|src|] == src;
    if |posInCommands| != 0 {
      return Failure(SyntaxError(MoreOpening));
    }
    return Success(commands);
  }
}
