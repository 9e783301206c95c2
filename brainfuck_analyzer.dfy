/**
 * The branch-destination resolver of the Brainfuck processor module: one
 * left-to-right pass over the `rom` byte block that pairs every OPEN_LOOP with
 * its CLOSE_LOOP and writes the two jump targets into the `bdest` block as
 * 16-bit little-endian words, one word slot per rom address.
 */
module BrainfuckAnalyzer {
  import opened Wrappers

  /** A byte of a memory block. */
  type byte = b: int | 0 <= b < 256

  const OPEN_LOOP: byte := 0x6
  const CLOSE_LOOP: byte := 0x7

  /** Bytes per bdest slot (the constant is spelled BRANCH_DESTS_WORD_SIZE where it is used). */
  const BDEST_WORD_SIZE: nat := 2

  /** The outcome of one resolver pass; the failures replace the exceptions of the source. */
  datatype Outcome =
    | Ok
    | UnmatchedAt(addr: nat)   // a close with no pending open, at this address
    | UnmatchedLeftover        // opens still pending at the end of the pass
    | SizeError                // bdest smaller than rom
    | Cancelled                // the TaskMonitor requested cancellation
    | OutOfBounds              // a read or write outside its memory block

  /** Reads the instruction byte at `offset` of the rom block; nothing outside the block. */
  function ReadInstruction(rom: seq<byte>, offset: nat): (r: Option<byte>)
    ensures r.Some? <==> offset < |rom|
    ensures r.Some? ==> r.value == rom[offset]
  {
    if offset < |rom| then Some(rom[offset]) else None
  }

  /** True when the word of slot `offset` lies wholly inside a block of `size` bytes. */
  predicate SlotFits(size: nat, offset: nat)
  {
    offset * BDEST_WORD_SIZE + BDEST_WORD_SIZE <= size
  }

  /** The 16-bit little-endian value held in slot `offset`. */
  function DecodeSlot(buf: seq<byte>, offset: nat): nat
    requires SlotFits(|buf|, offset)
  {
    buf[2 * offset] as nat + 256 * (buf[2 * offset + 1] as nat)
  }

  /** The low and high byte the source stores for `dest`: `dest & 0xff` and `(dest >> 8) & 0xff`. */
  function LowByte(dest: nat): byte { dest % 256 }
  function HighByte(dest: nat): byte { (dest / 256) % 256 }

  lemma SixteenBits(x: nat)
    ensures x % 256 + 256 * ((x / 256) % 256) == x % 65536
  {
    var q, r := x / 256, x % 256;
    assert x == 256 * q + r;
    var q1, q0 := q / 256, q % 256;
    assert q == 256 * q1 + q0;
    assert x == 65536 * q1 + (256 * q0 + r);
    assert 0 <= 256 * q0 + r < 65536;
  }

  /**
   * The bdest contents after writing `dest` into slot `offset`: the slot decodes
   * to `dest` truncated to 16 bits, and no other byte changes.
   */
  function WriteWord(buf: seq<byte>, offset: nat, dest: nat): (r: seq<byte>)
    requires SlotFits(|buf|, offset)
    ensures |r| == |buf| && SlotFits(|r|, offset)
    ensures DecodeSlot(r, offset) == dest % 65536
    ensures forall i :: 0 <= i < |buf| && i != 2 * offset && i != 2 * offset + 1 ==> r[i] == buf[i]
  {
    SixteenBits(dest);
    buf[2 * offset := LowByte(dest)][2 * offset + 1 := HighByte(dest)]
  }

  /** `writeBranchDest`: fails, writing nothing, when the slot is not inside the block. */
  method WriteBranchDest(bdest: array<byte>, offset: nat, dest: nat) returns (ok: bool)
    modifies bdest
    ensures ok <==> SlotFits(bdest.Length, offset)
    ensures ok ==> bdest[..] == WriteWord(old(bdest[..]), offset, dest)
    ensures !ok ==> bdest[..] == old(bdest[..])
  {
    ok := offset * BDEST_WORD_SIZE + BDEST_WORD_SIZE <= bdest.Length;
    if ok {
      bdest[offset * BDEST_WORD_SIZE] := LowByte(dest);
      bdest[offset * BDEST_WORD_SIZE + 1] := HighByte(dest);
    }
  }

  /**
   * The pass from address `addr` on, with `stack` the pending opens and `buf` the
   * bdest contents so far: the reference the method is proved against.
   */
  function Loop(rom: seq<byte>, buf: seq<byte>, cancel: nat -> bool, addr: nat, stack: seq<nat>): (r: (Outcome, seq<byte>))
    requires addr <= |rom|
    decreases |rom| - addr
    ensures |r.1| == |buf|
  {
    if addr == |rom| then
      (if stack == [] then Ok else UnmatchedLeftover, buf)
    else if cancel(addr) then
      (Cancelled, buf)
    else
      var instr := ReadInstruction(rom, addr).value;
      if instr == OPEN_LOOP then
        Loop(rom, buf, cancel, addr + 1, stack + [addr])
      else if instr == CLOSE_LOOP then
        if stack == [] then
          (UnmatchedAt(addr), buf)
        else
          var open := stack[|stack| - 1];
          if !SlotFits(|buf|, addr) then (OutOfBounds, buf)
          else
            var buf1 := WriteWord(buf, addr, open);
            if !SlotFits(|buf1|, open) then (OutOfBounds, buf1)
            else Loop(rom, WriteWord(buf1, open, addr + 1), cancel, addr + 1, stack[..|stack| - 1])
      else
        Loop(rom, buf, cancel, addr + 1, stack)
  }

  /** `resolveBranchDests` on the two blocks: the size check, then the pass. */
  function Resolve(rom: seq<byte>, buf: seq<byte>, cancel: nat -> bool): (r: (Outcome, seq<byte>))
    ensures |r.1| == |buf|
  {
    if |buf| < |rom| then (SizeError, buf) else Loop(rom, buf, cancel, 0, [])
  }

  /**
   * `resolveBranchDests`: scans `rom` once, keeping the addresses of pending
   * opens on a stack, and writes both destinations of every matched pair into `bdest`.
   */
  method ResolveBranchDests(rom: seq<byte>, bdest: array<byte>, cancel: nat -> bool) returns (outcome: Outcome)
    modifies bdest
    ensures (outcome, bdest[..]) == Resolve(rom, old(bdest[..]), cancel)
    ensures bdest.Length < |rom| ==> outcome == SizeError && bdest[..] == old(bdest[..])
  {
    if bdest.Length < |rom| {
      return SizeError;
    }
    var stack: seq<nat> := [];
    var addr := 0;
    while addr < |rom|
      invariant addr <= |rom|
      invariant Loop(rom, bdest[..], cancel, addr, stack) == Resolve(rom, old(bdest[..]), cancel)
    {
      if cancel(addr) {
        return Cancelled;
      }
      var instr := ReadInstruction(rom, addr).value;
      if instr == OPEN_LOOP {
        stack := stack + [addr];
      } else if instr == CLOSE_LOOP {
        if stack == [] {
          return UnmatchedAt(addr);
        }
        var open := stack[|stack| - 1];
        stack := stack[..|stack| - 1];
        var ok := WriteBranchDest(bdest, addr, open);
        if !ok {
          return OutOfBounds;
        }
        ok := WriteBranchDest(bdest, open, addr + 1);
        if !ok {
          return OutOfBounds;
        }
      }
      addr := addr + 1;
    }
    if stack != [] {
      return UnmatchedLeftover;
    }
    return Ok;
  }
}
