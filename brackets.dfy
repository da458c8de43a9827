/** Why the parser's contract pins its output down: in a matched, nested command
    list each `[` points at the first position where the bracket depth of the
    source falls back to its level before that `[`. */
module Brackets {
  import opened Commands
  import opened Parser

  /** The `[`s at or before `u` whose loop is still open after position `u`. */
  ghost function Open(c: seq<Command>, u: int): set<int> {
    set j | 0 <= j <= u && j < |c| && c[j].JumpForward? && c[j].pos > u
  }

  lemma SubsetCard(a: set<int>, b: set<int>)
    requires a <= b
    ensures |a| <= |b|
  {
    assert b == a + (b - a);
    assert a * (b - a) == {};
  }

  /** `t` is the first position after `i` where the depth of `s` returns to its
      level just before `i`. */
  ghost predicate ClosesAt(s: string, i: int, t: int) {
    0 <= i < t < |s| &&
    Depth(s[..t + 1]) == Depth(s[..i]) &&
    forall u :: i < u <= t ==> Depth(s[..u]) > Depth(s[..i])
  }

  /** How the set of open loops changes at position `u`: a `[` opens one, a `]`
      closes its partner, anything else changes nothing. */
  lemma OpenStep(c: seq<Command>, u: int)
    requires Matched(c) && 0 <= u < |c|
    ensures c[u].JumpForward? ==> u !in Open(c, u - 1) && Open(c, u) == Open(c, u - 1) + {u}
    ensures c[u].JumpBack? ==> c[u].pos in Open(c, u - 1) && Open(c, u) == Open(c, u - 1) - {c[u].pos}
    ensures !c[u].JumpForward? && !c[u].JumpBack? ==> Open(c, u) == Open(c, u - 1)
  {
    var before, after := Open(c, u - 1), Open(c, u);
    assert PairedAt(c, u);
    forall j | j in before ensures c[j].pos != u ==> j in after {
    }
    forall j | j in before && c[j].pos == u ensures c[u] == JumpBack(j) {
      assert PairedAt(c, j);
    }
  }

  /** The number of loops open after position `u` is the bracket depth of the
      symbols up to and including `u`. */
  lemma {:induction false} OpenIsDepth(c: seq<Command>, u: int)
    requires Matched(c) && -1 <= u < |c|
    ensures |Open(c, u)| == Depth(Symbols(c)[..u + 1])
    decreases u
  {
    var s := Symbols(c);
    if u == -1 {
      assert Open(c, u) == {};
      assert s[..0] == [];
    } else {
      OpenIsDepth(c, u - 1);
      PrefixStep(s, u);
      OpenStep(c, u);
    }
  }

  /** A `[` at `i` with target `t`: the loops open just before `i` stay open until
      after `t`, and no loop opened inside `(i, t)` outlives `t`. */
  lemma OpenAroundLoop(c: seq<Command>, i: int)
    requires Matched(c) && Nested(c) && 0 <= i < |c| && c[i].JumpForward?
    ensures var t := c[i].pos;
      Open(c, t) == Open(c, i - 1) &&
      forall u :: i <= u < t ==> Open(c, i - 1) < Open(c, u)
  {
    var t := c[i].pos;
    assert PairedAt(c, i);
    forall j | j in Open(c, i - 1) ensures c[j].pos > t {
      assert PairedAt(c, j);
    }
    forall j | i < j < t && c[j].JumpForward? ensures c[j].pos < t {
    }
    assert Open(c, t) == Open(c, i - 1);
    forall u | i <= u < t ensures Open(c, i - 1) < Open(c, u) {
      assert i in Open(c, u) - Open(c, i - 1);
    }
  }

  /** Inside the loop of the `[` at `i`, the depth stays above its level before `i`. */
  lemma DepthInsideLoop(c: seq<Command>, i: int, u: int)
    requires Matched(c) && Nested(c) && 0 <= i < |c| && c[i].JumpForward?
    requires i < u <= c[i].pos < |c|
    ensures Depth(Symbols(c)[..u]) > Depth(Symbols(c)[..i])
  {
    assert PairedAt(c, i);
    OpenAroundLoop(c, i);
    OpenIsDepth(c, i - 1);
    OpenIsDepth(c, u - 1);
    assert i in Open(c, u - 1);
    assert Open(c, i - 1) <= Open(c, u - 1) - {i};
    SubsetCard(Open(c, i - 1), Open(c, u - 1) - {i});
  }

  /** Each `[` of a matched, nested command list points at the first position where
      the depth falls back to its level before the `[`. */
  lemma TargetClosesAt(c: seq<Command>, i: int)
    requires Matched(c) && Nested(c) && 0 <= i < |c| && c[i].JumpForward?
    ensures ClosesAt(Symbols(c), i, c[i].pos)
  {
    var s, t := Symbols(c), c[i].pos;
    assert PairedAt(c, i);
    OpenAroundLoop(c, i);
    OpenIsDepth(c, i - 1);
    OpenIsDepth(c, t);
    forall u | i < u <= t ensures Depth(s[..u]) > Depth(s[..i]) {
      DepthInsideLoop(c, i, u);
    }
  }

  /** The parser's contract determines its result: two matched, nested command lists
      with the same symbols are equal. */
  lemma ParseResultUnique(c1: seq<Command>, c2: seq<Command>)
    requires Matched(c1) && Nested(c1) && Matched(c2) && Nested(c2)
    requires Symbols(c1) == Symbols(c2)
    ensures c1 == c2
  {
    assert |c1| == |Symbols(c1)| == |c2|;
    forall i | 0 <= i < |c1| ensures c1[i].JumpForward? ==> c1[i] == c2[i] {
      assert Symbols(c1)[i] == Symbol(c1[i]) && Symbols(c2)[i] == Symbol(c2[i]);
      if c1[i].JumpForward? {
        TargetClosesAt(c1, i);
        TargetClosesAt(c2, i);
      }
    }
    forall i | 0 <= i < |c1| ensures c1[i] == c2[i] {
      assert Symbols(c1)[i] == Symbol(c1[i]) && Symbols(c2)[i] == Symbol(c2[i]);
      if c1[i].JumpBack? {
        var j1, j2 := c1[i].pos, c2[i].pos;
        assert PairedAt(c1, i) && PairedAt(c2, i);
        assert c1[j2] == c2[j2];
        assert PairedAt(c1, j2);
      }
    }
  }
}
