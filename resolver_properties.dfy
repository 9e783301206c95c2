/**
 * What the resolver pass computes, in terms of the independent bracket matcher:
 * the outcome and the final bdest contents of `Resolve`, whenever bdest has room
 * for one word per rom address.
 */
module ResolverProperties {
  import opened BrainfuckAnalyzer
  import opened BracketMatching

  /** Both slots of every pair lie inside a block of `size` bytes. */
  ghost predicate AllFit(size: nat, ps: seq<Pair>)
  {
    forall p :: p in ps ==> SlotFits(size, p.open) && SlotFits(size, p.close)
  }

  /** The two writes of one matched pair, in the source's order: close slot first, then open slot. */
  function WritePair(buf: seq<byte>, p: Pair): (r: seq<byte>)
    requires SlotFits(|buf|, p.open) && SlotFits(|buf|, p.close)
    ensures |r| == |buf|
  {
    WriteWord(WriteWord(buf, p.close, p.open), p.open, p.close + 1)
  }

  /** The bdest contents after the writes of `ps`, one pair after another. */
  function ApplyPairs(buf: seq<byte>, ps: seq<Pair>): (r: seq<byte>)
    requires AllFit(|buf|, ps)
    ensures |r| == |buf|
  {
    if ps == [] then buf
    else WritePair(ApplyPairs(buf, ps[..|ps| - 1]), ps[|ps| - 1])
  }

  /** No slot is written by two different pairs, nor twice by one. */
  ghost predicate DistinctSlots(ps: seq<Pair>)
  {
    && (forall p :: p in ps ==> p.open != p.close)
    && (forall j, k :: 0 <= j < k < |ps| ==>
          ps[j].open != ps[k].open && ps[j].close != ps[k].close
          && ps[j].open != ps[k].close && ps[j].close != ps[k].open)
  }

  /** After the writes of distinct pairs every pair's two slots hold its two destinations. */
  lemma {:induction false} ApplyPairsSlots(buf: seq<byte>, ps: seq<Pair>)
    requires AllFit(|buf|, ps) && DistinctSlots(ps)
    ensures forall p :: p in ps ==> PairWritten(ApplyPairs(buf, ps), p)
  {
    if ps != [] {
      var init, last := ps[..|ps| - 1], ps[|ps| - 1];
      assert forall p :: p in init ==> p in ps;
      DistinctInit(ps);
      ApplyPairsSlots(buf, init);
      var before := ApplyPairs(buf, init);
      forall p | p in ps
        ensures PairWritten(WritePair(before, last), p)
      {
        if p == last {
          WritePairSets(before, last);
        } else {
          var j :| 0 <= j < |ps| && ps[j] == p;
          assert j < |ps| - 1;
          assert p in init;
          WritePairKeeps(before, last, p);
        }
      }
    }
  }

  /** Slot `p.close` decodes to `p.open` and slot `p.open` to `p.close + 1`, both truncated to 16 bits. */
  ghost predicate PairWritten(buf: seq<byte>, p: Pair)
  {
    && SlotFits(|buf|, p.open) && SlotFits(|buf|, p.close)
    && DecodeSlot(buf, p.close) == p.open % 65536
    && DecodeSlot(buf, p.open) == (p.close + 1) % 65536
  }

  lemma DistinctInit(ps: seq<Pair>)
    requires ps != [] && DistinctSlots(ps)
    ensures DistinctSlots(ps[..|ps| - 1])
  {
    var init := ps[..|ps| - 1];
    forall j, k | 0 <= j < k < |init|
      ensures init[j].open != init[k].open && init[j].close != init[k].close
      ensures init[j].open != init[k].close && init[j].close != init[k].open
    {
      assert init[j] == ps[j] && init[k] == ps[k];
    }
    assert forall p :: p in init ==> p in ps;
  }

  lemma WritePairSets(buf: seq<byte>, p: Pair)
    requires SlotFits(|buf|, p.open) && SlotFits(|buf|, p.close) && p.open != p.close
    ensures PairWritten(WritePair(buf, p), p)
  {
    var mid := WriteWord(buf, p.close, p.open);
    WriteWordElsewhere(mid, p.open, p.close + 1, p.close);
  }

  lemma WritePairKeeps(buf: seq<byte>, p: Pair, q: Pair)
    requires SlotFits(|buf|, p.open) && SlotFits(|buf|, p.close)
    requires PairWritten(buf, q)
    requires q.open != p.open && q.open != p.close && q.close != p.open && q.close != p.close
    ensures PairWritten(WritePair(buf, p), q)
  {
    var mid := WriteWord(buf, p.close, p.open);
    WriteWordElsewhere(buf, p.close, p.open, q.close);
    WriteWordElsewhere(mid, p.open, p.close + 1, q.close);
    WriteWordElsewhere(buf, p.close, p.open, q.open);
    WriteWordElsewhere(mid, p.open, p.close + 1, q.open);
  }

  /** Writing one slot leaves every other slot's value as it was. */
  lemma WriteWordElsewhere(buf: seq<byte>, offset: nat, dest: nat, other: nat)
    requires SlotFits(|buf|, offset) && SlotFits(|buf|, other) && other != offset
    ensures DecodeSlot(WriteWord(buf, offset, dest), other) == DecodeSlot(buf, other)
  {
    var r := WriteWord(buf, offset, dest);
    assert r[2 * other] == buf[2 * other] && r[2 * other + 1] == buf[2 * other + 1];
  }

  /** Bytes of slots no pair mentions keep their old value. */
  lemma {:induction false} ApplyPairsElsewhere(buf: seq<byte>, ps: seq<Pair>, i: nat)
    requires AllFit(|buf|, ps) && i < |buf|
    requires i / 2 !in Opens(ps) && i / 2 !in Closes(ps)
    ensures ApplyPairs(buf, ps)[i] == buf[i]
  {
    if ps != [] {
      var init, last := ps[..|ps| - 1], ps[|ps| - 1];
      assert forall p :: p in init ==> p in ps;
      assert last in ps;
      assert i / 2 != last.open && i / 2 != last.close;
      ApplyPairsElsewhere(buf, init, i);
    }
  }

  /** No cancellation is requested at any address below `n`. */
  ghost predicate NoCancel(cancel: nat -> bool, n: nat)
  {
    forall k :: 0 <= k < n ==> !cancel(k)
  }

  /** The first address in `[lo, hi)` at which cancellation is requested, or `hi` if none. */
  function FirstCancel(cancel: nat -> bool, lo: nat, hi: nat): (k: nat)
    requires lo <= hi
    ensures lo <= k <= hi
    ensures k < hi ==> cancel(k)
    ensures forall j: nat :: lo <= j < k ==> !cancel(j)
    decreases hi - lo
  {
    if lo == hi || cancel(lo) then lo else FirstCancel(cancel, lo + 1, hi)
  }

  /** The pairs the matcher has found after `n` opcodes all fit a bdest of two bytes per rom address. */
  lemma PairsFit(rom: seq<byte>, n: nat, size: nat)
    requires n <= |rom| && 2 * |rom| <= size
    ensures AllFit(size, Match(rom, n).pairs)
    ensures DistinctSlots(Match(rom, n).pairs)
    ensures PairsInv(rom, n, Match(rom, n).pairs)
  {
    MatchInvariant(rom, n);
    if Match(rom, n).Stuck? {
      StuckPairs(rom, n);
    }
    var ps := Match(rom, n).pairs;
    forall j, k | 0 <= j < k < |ps|
      ensures ps[j].open != ps[k].open && ps[j].close != ps[k].close
      ensures ps[j].open != ps[k].close && ps[j].close != ps[k].open
    {
      assert ps[j] in ps && ps[k] in ps;
    }
  }

  /**
   * What the pass leaves behind, read off the matcher: it stops at the first
   * cancellation request or at the first close with no pending open, whichever
   * comes first, and bdest then holds the writes of the pairs matched before it.
   */
  ghost function Expected(rom: seq<byte>, buf0: seq<byte>, cancel: nat -> bool, from: nat): (Outcome, seq<byte>)
    requires from <= |rom| && 2 * |rom| <= |buf0|
  {
    var k := FirstCancel(cancel, from, |rom|);
    var m := Match(rom, k);
    var outcome :=
      match m
      case Stuck(a, _) => UnmatchedAt(a)
      case Running(st, _) => if k < |rom| then Cancelled else if st == [] then Ok else UnmatchedLeftover;
    (outcome, Written(rom, buf0, k))
  }

  /** bdest after the writes of the pairs the matcher finds in the first `n` opcodes. */
  ghost function Written(rom: seq<byte>, buf0: seq<byte>, n: nat): (r: seq<byte>)
    requires n <= |rom| && 2 * |rom| <= |buf0|
    ensures |r| == |buf0|
  {
    PairsFit(rom, n, |buf0|);
    ApplyPairs(buf0, Match(rom, n).pairs)
  }

  /** The pass from `addr` on, started in the matcher's state at `addr`, ends as `Expected` says. */
  lemma {:induction false} LoopIsExpected(rom: seq<byte>, buf0: seq<byte>, cancel: nat -> bool, addr: nat)
    requires addr <= |rom| && 2 * |rom| <= |buf0| && Match(rom, addr).Running?
    ensures Loop(rom, Written(rom, buf0, addr), cancel, addr, Match(rom, addr).stack)
      == Expected(rom, buf0, cancel, addr)
    decreases |rom| - addr
  {
    if addr < |rom| && !cancel(addr) {
      assert FirstCancel(cancel, addr, |rom|) == FirstCancel(cancel, addr + 1, |rom|);
      if rom[addr] == CLOSE_LOOP && Match(rom, addr).stack == [] {
        assert Match(rom, addr + 1).Stuck?;
        StuckStays(rom, addr + 1, FirstCancel(cancel, addr + 1, |rom|));
      } else {
        LoopStep(rom, buf0, cancel, addr);
        LoopIsExpected(rom, buf0, cancel, addr + 1);
      }
    }
  }

  /** One address that neither cancels nor gets stuck moves the pass to the matcher's next state. */
  lemma LoopStep(rom: seq<byte>, buf0: seq<byte>, cancel: nat -> bool, addr: nat)
    requires addr < |rom| && 2 * |rom| <= |buf0| && Match(rom, addr).Running? && !cancel(addr)
    requires !(rom[addr] == CLOSE_LOOP && Match(rom, addr).stack == [])
    ensures Match(rom, addr + 1).Running?
    ensures Loop(rom, Written(rom, buf0, addr), cancel, addr, Match(rom, addr).stack)
      == Loop(rom, Written(rom, buf0, addr + 1), cancel, addr + 1, Match(rom, addr + 1).stack)
  {
    var st, ps := Match(rom, addr).stack, Match(rom, addr).pairs;
    MatchInvariant(rom, addr);
    StepKeeps(rom, addr, st, ps);
    if rom[addr] == CLOSE_LOOP {
      LoopClose(rom, buf0, cancel, addr);
    } else {
      assert Match(rom, addr + 1).pairs == ps;
    }
  }

  lemma LoopClose(rom: seq<byte>, buf0: seq<byte>, cancel: nat -> bool, addr: nat)
    requires addr < |rom| && 2 * |rom| <= |buf0| && Match(rom, addr).Running? && !cancel(addr)
    requires rom[addr] == CLOSE_LOOP && Match(rom, addr).stack != []
    ensures Match(rom, addr + 1).Running?
    ensures Loop(rom, Written(rom, buf0, addr), cancel, addr, Match(rom, addr).stack)
      == Loop(rom, Written(rom, buf0, addr + 1), cancel, addr + 1, Match(rom, addr + 1).stack)
  {
    var st, ps := Match(rom, addr).stack, Match(rom, addr).pairs;
    var p := Pair(st[|st| - 1], addr);
    var next := Match(rom, addr + 1);
    assert next == Running(st[..|st| - 1], ps + [p]);
    StackTopBefore(rom, addr);
    var buf := Written(rom, buf0, addr);
    LoopCloseUnfold(rom, buf, cancel, addr, st);
    PairsFit(rom, addr + 1, |buf0|);
    assert next.pairs[..|next.pairs| - 1] == ps;
  }

  lemma StackTopBefore(rom: seq<byte>, n: nat)
    requires n <= |rom| && Match(rom, n).Running? && Match(rom, n).stack != []
    ensures Match(rom, n).stack[|Match(rom, n).stack| - 1] < n
  {
    MatchInvariant(rom, n);
  }

  /** An open pushes its address and writes nothing. */
  lemma LoopOpenUnfold(rom: seq<byte>, buf: seq<byte>, cancel: nat -> bool, addr: nat, st: seq<nat>)
    requires addr < |rom| && !cancel(addr) && rom[addr] == OPEN_LOOP
    ensures Loop(rom, buf, cancel, addr, st) == Loop(rom, buf, cancel, addr + 1, st + [addr])
  {
  }

  /** A matched close performs the pair's two writes and pops the stack. */
  lemma LoopCloseUnfold(rom: seq<byte>, buf: seq<byte>, cancel: nat -> bool, addr: nat, st: seq<nat>)
    requires addr < |rom| && !cancel(addr) && rom[addr] == CLOSE_LOOP && st != []
    requires SlotFits(|buf|, addr) && SlotFits(|buf|, st[|st| - 1])
    ensures Loop(rom, buf, cancel, addr, st)
      == Loop(rom, WritePair(buf, Pair(st[|st| - 1], addr)), cancel, addr + 1, st[..|st| - 1])
  {
  }

  /** With one bdest word per rom address, the pass ends exactly as the matcher predicts. */
  lemma ResolveIsExpected(rom: seq<byte>, buf0: seq<byte>, cancel: nat -> bool)
    requires 2 * |rom| <= |buf0|
    ensures Resolve(rom, buf0, cancel) == Expected(rom, buf0, cancel, 0)
  {
    LoopIsExpected(rom, buf0, cancel, 0);
  }

  /** With room for every slot and no cancellation, the pass succeeds exactly on balanced streams. */
  lemma ResolveOkIffBalanced(rom: seq<byte>, buf0: seq<byte>, cancel: nat -> bool)
    requires 2 * |rom| <= |buf0| && NoCancel(cancel, |rom|)
    ensures Resolve(rom, buf0, cancel).0 == Ok <==> Balanced(rom)
  {
    ResolveIsExpected(rom, buf0, cancel);
    MatchedIffBalanced(rom);
  }

  /**
   * After a successful pass every open and close is in exactly one matched pair, each
   * pair is an open before a close with a balanced stretch between them (so the
   * open is the nearest unmatched one), and bdest holds both destinations of every pair.
   */
  lemma ResolveOkWritesPairs(rom: seq<byte>, buf0: seq<byte>, cancel: nat -> bool)
    requires 2 * |rom| <= |buf0| && Resolve(rom, buf0, cancel).0 == Ok
    ensures NoCancel(cancel, |rom|) && Balanced(rom)
    ensures var ps, buf := Match(rom, |rom|).pairs, Resolve(rom, buf0, cancel).1;
      && |buf| == |buf0|
      && (forall p :: p in ps ==>
            && p.open < p.close < |rom| && rom[p.open] == OPEN_LOOP && rom[p.close] == CLOSE_LOOP
            && Nested(rom, p.open + 1, p.close)
            && PairWritten(buf, p))
      && (forall a :: 0 <= a < |rom| && rom[a] == OPEN_LOOP ==> a in Opens(ps))
      && (forall a :: 0 <= a < |rom| && rom[a] == CLOSE_LOOP ==> a in Closes(ps))
  {
    ResolveIsExpected(rom, buf0, cancel);
    var k := FirstCancel(cancel, 0, |rom|);
    assert k == |rom|;
    MatchedIffBalanced(rom);
    MatchInvariant(rom, |rom|);
    PairsFit(rom, |rom|, |buf0|);
    ApplyPairsSlots(buf0, Match(rom, |rom|).pairs);
  }

  /**
   * The pass fails at address `a` exactly when `a` is the first close with no pending
   * open and nothing was cancelled up to it; bdest then holds only the pairs closed before `a`.
   */
  lemma ResolveUnmatchedAt(rom: seq<byte>, buf0: seq<byte>, cancel: nat -> bool, a: nat)
    requires 2 * |rom| <= |buf0|
    ensures Resolve(rom, buf0, cancel).0 == UnmatchedAt(a) <==> FirstUnmatchedClose(rom, cancel, a)
    ensures Resolve(rom, buf0, cancel).0 == UnmatchedAt(a) ==>
      && Resolve(rom, buf0, cancel).1 == Written(rom, buf0, a)
      && forall p :: p in Match(rom, a).pairs ==> p.close < a
  {
    ResolveIsExpected(rom, buf0, cancel);
    if Resolve(rom, buf0, cancel).0 == UnmatchedAt(a) {
      UnmatchedAtFirst(rom, buf0, cancel, a);
    }
    if FirstUnmatchedClose(rom, cancel, a) {
      FirstUnmatchedAt(rom, buf0, cancel, a);
    }
  }

  /** `a` is the first close with no pending open, and nothing was cancelled up to and including it. */
  ghost predicate FirstUnmatchedClose(rom: seq<byte>, cancel: nat -> bool, a: nat)
  {
    a < |rom| && rom[a] == CLOSE_LOOP && NeverNegative(rom, a) && Depth(rom, a + 1) < 0
    && NoCancel(cancel, a + 1)
  }

  lemma UnmatchedAtFirst(rom: seq<byte>, buf0: seq<byte>, cancel: nat -> bool, a: nat)
    requires 2 * |rom| <= |buf0| && Expected(rom, buf0, cancel, 0).0 == UnmatchedAt(a)
    ensures FirstUnmatchedClose(rom, cancel, a)
    ensures Expected(rom, buf0, cancel, 0).1 == Written(rom, buf0, a)
    ensures forall p :: p in Match(rom, a).pairs ==> p.close < a
  {
    var k := FirstCancel(cancel, 0, |rom|);
    StuckFacts(rom, k);
    MatchInvariant(rom, a);
  }

  lemma FirstUnmatchedAt(rom: seq<byte>, buf0: seq<byte>, cancel: nat -> bool, a: nat)
    requires 2 * |rom| <= |buf0| && FirstUnmatchedClose(rom, cancel, a)
    ensures Expected(rom, buf0, cancel, 0).0 == UnmatchedAt(a)
  {
    var k := FirstCancel(cancel, 0, |rom|);
    StuckAtFirstUnmatched(rom, a);
    assert a < k;
    StuckStays(rom, a + 1, k);
  }

  /** The first close that drives the depth negative is where the matcher gets stuck. */
  lemma StuckAtFirstUnmatched(rom: seq<byte>, a: nat)
    requires a < |rom| && rom[a] == CLOSE_LOOP && NeverNegative(rom, a) && Depth(rom, a + 1) < 0
    ensures Match(rom, a + 1).Stuck? && Match(rom, a + 1).at == a
  {
    MatchInvariant(rom, a);
    assert Depth(rom, a + 1) == Depth(rom, a) - 1;
  }

  /** The pass ends with opens left over exactly when, uncancelled and never stuck, the depth ends above zero. */
  lemma ResolveLeftover(rom: seq<byte>, buf0: seq<byte>, cancel: nat -> bool)
    requires 2 * |rom| <= |buf0|
    ensures Resolve(rom, buf0, cancel).0 == UnmatchedLeftover <==>
      NoCancel(cancel, |rom|) && NeverNegative(rom, |rom|) && Depth(rom, |rom|) > 0
  {
    ResolveIsExpected(rom, buf0, cancel);
    MatchInvariant(rom, |rom|);
    var k := FirstCancel(cancel, 0, |rom|);
    if NoCancel(cancel, |rom|) { assert k == |rom|; }
  }

  /**
   * A cancellation requested first at `k`, before any failure, ends the pass with
   * `Cancelled`; only the pairs closed before `k` have been written.
   */
  lemma ResolveCancelled(rom: seq<byte>, buf0: seq<byte>, cancel: nat -> bool, k: nat)
    requires 2 * |rom| <= |buf0|
    requires k < |rom| && cancel(k) && NoCancel(cancel, k) && NeverNegative(rom, k)
    ensures Resolve(rom, buf0, cancel) == (Cancelled, Written(rom, buf0, k))
    ensures forall p :: p in Match(rom, k).pairs ==> p.open < p.close < k
  {
    ResolveIsExpected(rom, buf0, cancel);
    var f := FirstCancel(cancel, 0, |rom|);
    assert f == k;
    MatchInvariant(rom, k);
  }

  /** Conversely, a cancelled pass stopped at the first requested cancellation, before any failure. */
  lemma CancelledOnlyWhenAsked(rom: seq<byte>, buf0: seq<byte>, cancel: nat -> bool)
    requires 2 * |rom| <= |buf0| && Resolve(rom, buf0, cancel).0 == Cancelled
    ensures var k := FirstCancel(cancel, 0, |rom|);
      k < |rom| && cancel(k) && NeverNegative(rom, k)
      && Resolve(rom, buf0, cancel).1 == Written(rom, buf0, k)
  {
    ResolveIsExpected(rom, buf0, cancel);
    MatchInvariant(rom, FirstCancel(cancel, 0, |rom|));
  }

  /** The pass from `addr` on, with only opens on its stack, never writes a slot whose rom byte is not a bracket. */
  lemma {:induction false} LoopLeavesInert(rom: seq<byte>, buf: seq<byte>, cancel: nat -> bool, addr: nat, stack: seq<nat>, i: nat)
    requires addr <= |rom| && i < |buf|
    requires forall s :: s in stack ==> s < |rom| && rom[s] == OPEN_LOOP
    requires i / 2 >= |rom| || (rom[i / 2] != OPEN_LOOP && rom[i / 2] != CLOSE_LOOP)
    ensures Loop(rom, buf, cancel, addr, stack).1[i] == buf[i]
    decreases |rom| - addr
  {
    if addr < |rom| && !cancel(addr) {
      var instr := rom[addr];
      if instr == OPEN_LOOP {
        LoopLeavesInert(rom, buf, cancel, addr + 1, stack + [addr], i);
      } else if instr == CLOSE_LOOP {
        if stack != [] && SlotFits(|buf|, addr) {
          var open := stack[|stack| - 1];
          assert open in stack;
          assert i / 2 != addr && i / 2 != open;
          assert i != 2 * addr && i != 2 * addr + 1;
          var buf1 := WriteWord(buf, addr, open);
          if SlotFits(|buf1|, open) {
            assert i != 2 * open && i != 2 * open + 1;
            var buf2 := WriteWord(buf1, open, addr + 1);
            var rest := stack[..|stack| - 1];
            assert forall s :: s in rest ==> s in stack;
            LoopLeavesInert(rom, buf2, cancel, addr + 1, rest, i);
          }
        }
      } else {
        LoopLeavesInert(rom, buf, cancel, addr + 1, stack, i);
      }
    }
  }

  /**
   * Whatever the outcome and whatever the size of bdest, bytes of slots whose rom byte
   * is neither open nor close keep their value.
   */
  lemma ResolveLeavesInert(rom: seq<byte>, buf0: seq<byte>, cancel: nat -> bool, i: nat)
    requires i < |buf0|
    requires i / 2 >= |rom| || (rom[i / 2] != OPEN_LOOP && rom[i / 2] != CLOSE_LOOP)
    ensures Resolve(rom, buf0, cancel).1[i] == buf0[i]
  {
    if |buf0| >= |rom| {
      LoopLeavesInert(rom, buf0, cancel, 0, [], i);
    }
  }

  /** The pass never reports `SizeError` itself. */
  lemma {:induction false} LoopNoSizeError(rom: seq<byte>, buf: seq<byte>, cancel: nat -> bool, addr: nat, stack: seq<nat>)
    requires addr <= |rom|
    ensures Loop(rom, buf, cancel, addr, stack).0 != SizeError
    decreases |rom| - addr
  {
    if addr < |rom| && !cancel(addr) {
      var instr := rom[addr];
      if instr == OPEN_LOOP {
        LoopNoSizeError(rom, buf, cancel, addr + 1, stack + [addr]);
      } else if instr == CLOSE_LOOP {
        if stack != [] && SlotFits(|buf|, addr) && SlotFits(|buf|, stack[|stack| - 1]) {
          var open := stack[|stack| - 1];
          LoopNoSizeError(rom, WriteWord(WriteWord(buf, addr, open), open, addr + 1), cancel, addr + 1, stack[..|stack| - 1]);
        }
      } else {
        LoopNoSizeError(rom, buf, cancel, addr + 1, stack);
      }
    }
  }

  /** `SizeError`, with bdest untouched, exactly when bdest has fewer bytes than rom. */
  lemma ResolveSizeError(rom: seq<byte>, buf0: seq<byte>, cancel: nat -> bool)
    ensures Resolve(rom, buf0, cancel).0 == SizeError <==> |buf0| < |rom|
    ensures |buf0| < |rom| ==> Resolve(rom, buf0, cancel).1 == buf0
  {
    LoopNoSizeError(rom, buf0, cancel, 0, []);
  }

  /** A write outside bdest can only happen when bdest passed the size check but has under two bytes per address. */
  lemma OutOfBoundsOnlyWhenShort(rom: seq<byte>, buf0: seq<byte>, cancel: nat -> bool)
    requires Resolve(rom, buf0, cancel).0 == OutOfBounds
    ensures |rom| <= |buf0| < 2 * |rom|
  {
    ResolveSizeError(rom, buf0, cancel);
    if 2 * |rom| <= |buf0| {
      ResolveIsExpected(rom, buf0, cancel);
    }
  }

  /**
   * The size check compares byte counts, but slot `a` occupies bytes `2a` and `2a + 1`:
   * a two-byte stream `[ ]` with a two-byte bdest passes the check and its first
   * write falls outside bdest.
   */
  lemma SizeCheckTooWeak(cancel: nat -> bool)
    requires NoCancel(cancel, 2)
    ensures var rom, buf := [OPEN_LOOP, CLOSE_LOOP], [0, 0];
      !(|buf| < |rom|) && Resolve(rom, buf, cancel).0 == OutOfBounds
  {
    var rom: seq<byte>, buf: seq<byte> := [OPEN_LOOP, CLOSE_LOOP], [0, 0];
    assert !cancel(0) && !cancel(1);
    LoopOpenUnfold(rom, buf, cancel, 0, []);
    assert !SlotFits(|buf|, 1);
  }

  /** `resolveBranchDests` with the size check the writes need: two bytes of bdest per rom byte. */
  function ResolveChecked(rom: seq<byte>, buf: seq<byte>, cancel: nat -> bool): (r: (Outcome, seq<byte>))
    ensures r.0 != OutOfBounds
    ensures r.0 == SizeError <==> |buf| < |rom| * BDEST_WORD_SIZE
  {
    if |buf| < |rom| * BDEST_WORD_SIZE then (SizeError, buf)
    else
      ResolveIsExpected(rom, buf, cancel);
      LoopNoSizeError(rom, buf, cancel, 0, []);
      Loop(rom, buf, cancel, 0, [])
  }

  /** Where the corrected check passes, the corrected resolver does what the original does. */
  lemma ResolveCheckedAgrees(rom: seq<byte>, buf: seq<byte>, cancel: nat -> bool)
    requires |rom| * BDEST_WORD_SIZE <= |buf|
    ensures ResolveChecked(rom, buf, cancel) == Resolve(rom, buf, cancel) == Expected(rom, buf, cancel, 0)
  {
    ResolveIsExpected(rom, buf, cancel);
  }

  /** The nested stream `[ [ ] ]`: success, with each slot holding its partner's destination. */
  lemma NestedExample(cancel: nat -> bool)
    requires NoCancel(cancel, 4)
    ensures var r := Resolve([OPEN_LOOP, OPEN_LOOP, CLOSE_LOOP, CLOSE_LOOP], [0, 0, 0, 0, 0, 0, 0, 0], cancel);
      && r.0 == Ok
      && DecodeSlot(r.1, 2) == 1 && DecodeSlot(r.1, 1) == 3
      && DecodeSlot(r.1, 3) == 0 && DecodeSlot(r.1, 0) == 4
  {
    var rom: seq<byte> := [OPEN_LOOP, OPEN_LOOP, CLOSE_LOOP, CLOSE_LOOP];
    var b0: seq<byte> := [0, 0, 0, 0, 0, 0, 0, 0];
    assert !cancel(0) && !cancel(1) && !cancel(2) && !cancel(3);
    var b1 := WriteWord(WriteWord(b0, 2, 1), 1, 3);
    var b2 := WriteWord(WriteWord(b1, 3, 0), 0, 4);
    LoopOpenUnfold(rom, b0, cancel, 0, []);
    assert [] + [0] == [0];
    LoopOpenUnfold(rom, b0, cancel, 1, [0]);
    assert [0] + [1] == [0, 1] && [0, 1][..1] == [0];
    LoopCloseUnfold(rom, b0, cancel, 2, [0, 1]);
    LoopCloseUnfold(rom, b1, cancel, 3, [0]);
    assert DecodeSlot(b1, 2) == 1;
    WriteWordElsewhere(b1, 3, 0, 2);
    WriteWordElsewhere(WriteWord(b1, 3, 0), 0, 4, 2);
    WriteWordElsewhere(b1, 3, 0, 1);
    WriteWordElsewhere(WriteWord(b1, 3, 0), 0, 4, 1);
    WriteWordElsewhere(WriteWord(b1, 3, 0), 0, 4, 3);
  }

  /** A lone close fails at address 0; a lone open fails with opens left over. */
  lemma LoneBracketExamples(cancel: nat -> bool)
    requires NoCancel(cancel, 1)
    ensures Resolve([CLOSE_LOOP], [0, 0], cancel).0 == UnmatchedAt(0)
    ensures Resolve([OPEN_LOOP], [0, 0], cancel).0 == UnmatchedLeftover
  {
    assert !cancel(0);
    LoopOpenUnfold([OPEN_LOOP], [0, 0], cancel, 0, []);
  }
}
