/**
 * Bracket matching over the opcode stream, stated independently of the pass:
 * `Match` is the pure matcher (pending opens and matched pairs after a prefix),
 * `Depth` counts opens minus closes, and the lemmas relate the two.
 */
module BracketMatching {
  import opened BrainfuckAnalyzer

  /** A matched pair: the open at `open` and the close at `close`. */
  datatype Pair = Pair(open: nat, close: nat)

  /**
   * The matcher's state after a prefix: still running with the pending opens and the
   * pairs matched so far, or stuck on a close with no pending open, with the pairs
   * matched before it.
   */
  datatype Scan = Running(stack: seq<nat>, pairs: seq<Pair>) | Stuck(at: nat, pairs: seq<Pair>)

  /** The matcher after the first `n` opcodes of `rom`, LIFO as the source's `Stack<Long>`. */
  function Match(rom: seq<byte>, n: nat): Scan
    requires n <= |rom|
  {
    if n == 0 then Running([], [])
    else
      var a := n - 1;
      match Match(rom, a)
      case Stuck(x, ps) => Stuck(x, ps)
      case Running(st, ps) =>
        if rom[a] == OPEN_LOOP then Running(st + [a], ps)
        else if rom[a] == CLOSE_LOOP then
          if st == [] then Stuck(a, ps) else Running(st[..|st| - 1], ps + [Pair(st[|st| - 1], a)])
        else Running(st, ps)
  }

  /** The nesting depth contributed by one opcode. */
  function Delta(b: byte): int
  {
    if b == OPEN_LOOP then 1 else if b == CLOSE_LOOP then -1 else 0
  }

  /** Opens minus closes among the first `n` opcodes. */
  function Depth(rom: seq<byte>, n: nat): int
    requires n <= |rom|
  {
    if n == 0 then 0 else Depth(rom, n - 1) + Delta(rom[n - 1])
  }

  /** `rom[lo..hi]` is balanced: its depth returns to where it started and never dips below it. */
  ghost predicate Nested(rom: seq<byte>, lo: nat, hi: nat)
  {
    && lo <= hi <= |rom|
    && Depth(rom, hi) == Depth(rom, lo)
    && forall i :: lo <= i <= hi ==> Depth(rom, lo) <= Depth(rom, i)
  }

  /** The whole stream is balanced: no prefix has more closes than opens, and the totals agree. */
  ghost predicate Balanced(rom: seq<byte>)
  {
    Nested(rom, 0, |rom|)
  }

  /** No prefix of the first `n` opcodes has more closes than opens. */
  ghost predicate NeverNegative(rom: seq<byte>, n: nat)
    requires n <= |rom|
  {
    forall i :: 0 <= i <= n ==> Depth(rom, i) >= 0
  }

  function Opens(ps: seq<Pair>): set<nat> { set p | p in ps :: p.open }
  function Closes(ps: seq<Pair>): set<nat> { set p | p in ps :: p.close }

  /**
   * The pending-open stack after `n` opcodes: it holds as many opens as the depth,
   * in increasing address order, and entry `j` is an open after which the depth
   * has stayed above `j`.
   */
  ghost predicate StackInv(rom: seq<byte>, n: nat, st: seq<nat>)
    requires n <= |rom|
  {
    && |st| == Depth(rom, n)
    && (forall j :: 0 <= j < |st| ==> st[j] < n && rom[st[j]] == OPEN_LOOP && Depth(rom, st[j] + 1) == j + 1)
    && (forall j, i :: 0 <= j < |st| && st[j] < i <= n ==> Depth(rom, i) > j)
    && (forall j, k :: 0 <= j < k < |st| ==> st[j] < st[k])
  }

  /**
   * Every matched pair is an open before a close whose span is balanced; the closes
   * come in increasing order and no open is matched twice.
   */
  ghost predicate PairsInv(rom: seq<byte>, n: nat, ps: seq<Pair>)
    requires n <= |rom|
  {
    && (forall p :: p in ps ==>
          p.open < p.close < n && rom[p.open] == OPEN_LOOP && rom[p.close] == CLOSE_LOOP
          && Nested(rom, p.open + 1, p.close))
    && (forall j, k :: 0 <= j < k < |ps| ==> ps[j].close < ps[k].close && ps[j].open != ps[k].open)
  }

  /** Every open and close of the first `n` opcodes is either pending or matched, and not both. */
  ghost predicate Covered(rom: seq<byte>, n: nat, st: seq<nat>, ps: seq<Pair>)
    requires n <= |rom|
  {
    && (forall a :: 0 <= a < n && rom[a] == OPEN_LOOP ==> a in st || a in Opens(ps))
    && (forall a :: 0 <= a < n && rom[a] == CLOSE_LOOP ==> a in Closes(ps))
    && (forall p, j :: p in ps && 0 <= j < |st| ==> p.open != st[j])
  }

  ghost predicate ScanInv(rom: seq<byte>, n: nat, st: seq<nat>, ps: seq<Pair>)
    requires n <= |rom|
  {
    NeverNegative(rom, n) && StackInv(rom, n, st) && PairsInv(rom, n, ps) && Covered(rom, n, st, ps)
  }

  /** One opcode preserves the invariant of a running matcher. */
  lemma StepKeeps(rom: seq<byte>, n: nat, st: seq<nat>, ps: seq<Pair>)
    requires n < |rom| && ScanInv(rom, n, st, ps) && Match(rom, n) == Running(st, ps)
    requires !(rom[n] == CLOSE_LOOP && st == [])
    ensures Match(rom, n + 1).Running?
    ensures ScanInv(rom, n + 1, Match(rom, n + 1).stack, Match(rom, n + 1).pairs)
  {
    if rom[n] == OPEN_LOOP {
      assert Match(rom, n + 1) == Running(st + [n], ps);
      OpenKeeps(rom, n, st, ps);
    } else if rom[n] == CLOSE_LOOP {
      assert Match(rom, n + 1) == Running(st[..|st| - 1], ps + [Pair(st[|st| - 1], n)]);
      CloseKeeps(rom, n, st, ps);
    } else {
      assert Match(rom, n + 1) == Running(st, ps);
      InertKeeps(rom, n, st, ps);
    }
  }

  lemma InertKeeps(rom: seq<byte>, n: nat, st: seq<nat>, ps: seq<Pair>)
    requires n < |rom| && ScanInv(rom, n, st, ps) && rom[n] != OPEN_LOOP && rom[n] != CLOSE_LOOP
    ensures ScanInv(rom, n + 1, st, ps)
  {
    assert Depth(rom, n + 1) == Depth(rom, n);
  }

  lemma OpenKeeps(rom: seq<byte>, n: nat, st: seq<nat>, ps: seq<Pair>)
    requires n < |rom| && ScanInv(rom, n, st, ps) && rom[n] == OPEN_LOOP
    ensures ScanInv(rom, n + 1, st + [n], ps)
  {
    assert Depth(rom, n + 1) == Depth(rom, n) + 1;
    OpenStack(rom, n, st);
    OpenCovered(rom, n, st, ps);
  }

  lemma OpenStack(rom: seq<byte>, n: nat, st: seq<nat>)
    requires n < |rom| && StackInv(rom, n, st) && rom[n] == OPEN_LOOP
    requires Depth(rom, n + 1) == Depth(rom, n) + 1
    ensures StackInv(rom, n + 1, st + [n])
  {
    var st' := st + [n];
    forall j, i | 0 <= j < |st'| && st'[j] < i <= n + 1
      ensures Depth(rom, i) > j
    {
      if j < |st| && i == n + 1 && st[j] < n {
        assert Depth(rom, n) > j;
      }
    }
  }

  lemma OpenCovered(rom: seq<byte>, n: nat, st: seq<nat>, ps: seq<Pair>)
    requires n < |rom| && Covered(rom, n, st, ps) && rom[n] == OPEN_LOOP
    requires PairsInv(rom, n, ps)
    ensures Covered(rom, n + 1, st + [n], ps)
  {
    var st' := st + [n];
    forall a | 0 <= a < n + 1 && rom[a] == OPEN_LOOP
      ensures a in st' || a in Opens(ps)
    {
      if a < n { assert a in st || a in Opens(ps); } else { assert st'[|st|] == a; }
    }
    forall p, j | p in ps && 0 <= j < |st'|
      ensures p.open != st'[j]
    {
      if j == |st| { assert p.open < p.close < n; }
    }
  }

  lemma CloseKeeps(rom: seq<byte>, n: nat, st: seq<nat>, ps: seq<Pair>)
    requires n < |rom| && ScanInv(rom, n, st, ps) && rom[n] == CLOSE_LOOP && st != []
    ensures ScanInv(rom, n + 1, st[..|st| - 1], ps + [Pair(st[|st| - 1], n)])
  {
    assert Depth(rom, n + 1) == Depth(rom, n) - 1;
    CloseNested(rom, n, st);
    ClosePairs(rom, n, st, ps);
    CloseStack(rom, n, st);
    CloseCovered(rom, n, st, ps);
  }

  lemma CloseNested(rom: seq<byte>, n: nat, st: seq<nat>)
    requires n < |rom| && StackInv(rom, n, st) && st != []
    ensures Nested(rom, st[|st| - 1] + 1, n)
  {
    var top := |st| - 1;
    var o := st[top];
    assert Depth(rom, o + 1) == top + 1 == Depth(rom, n);
    forall i | o + 1 <= i <= n
      ensures Depth(rom, o + 1) <= Depth(rom, i)
    {
      if i > o + 1 { assert Depth(rom, i) > top; }
    }
  }

  lemma ClosePairs(rom: seq<byte>, n: nat, st: seq<nat>, ps: seq<Pair>)
    requires n < |rom| && StackInv(rom, n, st) && PairsInv(rom, n, ps) && Covered(rom, n, st, ps)
    requires rom[n] == CLOSE_LOOP && st != [] && Nested(rom, st[|st| - 1] + 1, n)
    ensures PairsInv(rom, n + 1, ps + [Pair(st[|st| - 1], n)])
  {
    var ps' := ps + [Pair(st[|st| - 1], n)];
    forall j, k | 0 <= j < k < |ps'|
      ensures ps'[j].close < ps'[k].close && ps'[j].open != ps'[k].open
    {
      if k == |ps| {
        assert ps'[j] in ps;
      }
    }
  }

  lemma CloseStack(rom: seq<byte>, n: nat, st: seq<nat>)
    requires n < |rom| && StackInv(rom, n, st) && rom[n] == CLOSE_LOOP && st != []
    requires Depth(rom, n + 1) == Depth(rom, n) - 1
    ensures StackInv(rom, n + 1, st[..|st| - 1])
  {
    var st' := st[..|st| - 1];
    forall j, i | 0 <= j < |st'| && st'[j] < i <= n + 1
      ensures Depth(rom, i) > j
    {
      if i <= n { assert st[j] == st'[j]; }
    }
  }

  lemma CloseCovered(rom: seq<byte>, n: nat, st: seq<nat>, ps: seq<Pair>)
    requires n < |rom| && StackInv(rom, n, st) && Covered(rom, n, st, ps) && rom[n] == CLOSE_LOOP && st != []
    ensures Covered(rom, n + 1, st[..|st| - 1], ps + [Pair(st[|st| - 1], n)])
  {
    var top := |st| - 1;
    var o := st[top];
    var st', ps' := st[..top], ps + [Pair(o, n)];
    forall a | 0 <= a < n + 1 && rom[a] == OPEN_LOOP
      ensures a in st' || a in Opens(ps')
    {
      if a in st {
        var j :| 0 <= j < |st| && st[j] == a;
        if j < top { assert st'[j] == a; } else { assert ps'[|ps|].open == a; }
      } else {
        var p :| p in ps && p.open == a;
        assert p in ps';
      }
    }
    forall a | 0 <= a < n + 1 && rom[a] == CLOSE_LOOP
      ensures a in Closes(ps')
    {
      if a < n {
        var p :| p in ps && p.close == a;
        assert p in ps';
      } else {
        assert ps'[|ps|].close == a;
      }
    }
    forall p, j | p in ps' && 0 <= j < |st'|
      ensures p.open != st'[j]
    {
      if p == Pair(o, n) { assert st[j] < st[top]; } else { assert p in ps && st'[j] == st[j]; }
    }
  }

  /** A running matcher satisfies the invariant, and it runs exactly while no prefix dips below zero. */
  lemma {:induction false} MatchInvariant(rom: seq<byte>, n: nat)
    requires n <= |rom|
    ensures Match(rom, n).Running? ==> ScanInv(rom, n, Match(rom, n).stack, Match(rom, n).pairs)
    ensures Match(rom, n).Running? <==> NeverNegative(rom, n)
  {
    if n > 0 {
      MatchInvariant(rom, n - 1);
      var prev := Match(rom, n - 1);
      if prev.Stuck? {
        StaysNegative(rom, n);
      } else if rom[n - 1] == CLOSE_LOOP && prev.stack == [] {
        FirstNegative(rom, n);
      } else {
        StepKeeps(rom, n - 1, prev.stack, prev.pairs);
      }
    }
  }

  lemma StaysNegative(rom: seq<byte>, n: nat)
    requires 0 < n <= |rom| && Match(rom, n - 1).Stuck? && !NeverNegative(rom, n - 1)
    ensures Match(rom, n).Stuck? && !NeverNegative(rom, n)
  {
    var i :| 0 <= i <= n - 1 && Depth(rom, i) < 0;
  }

  lemma FirstNegative(rom: seq<byte>, n: nat)
    requires 0 < n <= |rom| && Match(rom, n - 1) == Running([], Match(rom, n - 1).pairs)
    requires rom[n - 1] == CLOSE_LOOP && Depth(rom, n - 1) == 0
    ensures Match(rom, n).Stuck? && !NeverNegative(rom, n)
  {
    assert Depth(rom, n) == -1;
  }

  /** Where the matcher gets stuck: the first close that finds the stack empty. */
  lemma {:induction false} StuckFacts(rom: seq<byte>, n: nat)
    requires n <= |rom| && Match(rom, n).Stuck?
    ensures var a := Match(rom, n).at;
      && a < n && rom[a] == CLOSE_LOOP
      && Match(rom, a) == Running([], Match(rom, n).pairs)
      && Match(rom, a + 1) == Match(rom, n)
      && NeverNegative(rom, a) && Depth(rom, a + 1) < 0
  {
    var prev := Match(rom, n - 1);
    if prev.Stuck? {
      StuckFacts(rom, n - 1);
    } else {
      MatchInvariant(rom, n - 1);
      assert Depth(rom, n) == Depth(rom, n - 1) + Delta(rom[n - 1]);
    }
  }

  /** Once stuck, the matcher stays stuck at the same address with the same pairs. */
  lemma {:induction false} StuckStays(rom: seq<byte>, n: nat, m: nat)
    requires n <= m <= |rom| && Match(rom, n).Stuck?
    ensures Match(rom, m) == Match(rom, n)
    decreases m - n
  {
    if n < m {
      assert Match(rom, n + 1) == Match(rom, n);
      StuckStays(rom, n + 1, m);
    }
  }

  /** The stuck matcher's pairs satisfy the pair invariant too. */
  lemma StuckPairs(rom: seq<byte>, n: nat)
    requires n <= |rom| && Match(rom, n).Stuck?
    ensures PairsInv(rom, n, Match(rom, n).pairs)
  {
    var a := Match(rom, n).at;
    StuckFacts(rom, n);
    MatchInvariant(rom, a);
  }

  /** The matcher ends with no pending open exactly when the stream is balanced. */
  lemma MatchedIffBalanced(rom: seq<byte>)
    ensures (Match(rom, |rom|).Running? && Match(rom, |rom|).stack == []) <==> Balanced(rom)
  {
    MatchInvariant(rom, |rom|);
    assert Depth(rom, 0) == 0;
  }
}
