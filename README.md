# Brainfuck branch-destination resolver and compiler, modelled in Dafny

This project models two small parts of a Ghidra processor module for Brainfuck.

- **The branch-destination resolver.** This is `resolveBranchDests` in `BrainfuckAnalyzer.java`, with its helpers `readInstruction` and `writeBranchDest`. It makes one left-to-right pass over the `rom` memory block. It keeps a LIFO stack of the addresses of pending `OPEN_LOOP` (0x6) bytes. Each `CLOSE_LOOP` (0x7) pops the most recent open `o`. The close at `c` then writes two 16-bit little-endian words into the `bdest` block: slot `c` gets `o`, and slot `o` gets `c + 1`. The pass fails when a close finds the stack empty, and when opens are left over at the end.
- **The compiler `bfc.py`.** It maps each of the eight characters `> < + - . , [ ]` to the opcodes 0x0 to 0x7 and drops every other character. Its output is the `rom` stream the resolver reads.

## Layout

- `wrappers.dfy`: `Option`.
- `brainfuck_analyzer.dfy` (module `BrainfuckAnalyzer`): the constants, the outcome datatype, `ReadInstruction`, the word encoding `WriteWord` and the in-place `WriteBranchDest` on an `array`. It also holds the method `ResolveBranchDests`, which is written over `rom: seq<byte>`, `bdest: array<byte>` and a local `seq<nat>` stack. That method is proved equal to the functional reference `Resolve` (the size check, then `Loop`).
- `bracket_matching.dfy` (module `BracketMatching`): a pure bracket matcher `Match` and the nesting depth `Depth`. It also gives `Nested` and `Balanced`, and the invariant that links them. The invariant says the stack holds the unmatched opens so far, in increasing order. Each matched pair is an open before a close with a balanced stretch between them.
- `resolver_properties.dfy` (module `ResolverProperties`): what the pass computes, stated in matcher terms. The main result is `ResolveIsExpected`. The theorems about success, the two unmatched errors, cancellation and untouched bytes follow from it. This file also holds the size-check finding and a few worked examples.
- `bfc.dfy` (module `Bfc`): the table, the pure `Compile`, the loop `CompileSource`, and lemmas on length, range, order, concatenation and decoding.

The model stands in for these parts of the code:

- **Memory blocks.** `rom` is a `seq<byte>` and `bdest` is an `array<byte>`, where `byte` is the integers 0 to 255.
- **`MemoryAccessException`.** A `putBytes` whose two bytes do not both lie inside `bdest` becomes the outcome `OutOfBounds`, and nothing is written. `ReadInstruction` returns `None` outside `rom`, but the pass only reads addresses inside `rom`.
- **`TaskMonitor`.** The monitor is reduced to a cancellation predicate `cancel: nat -> bool`. The pass asks it for each address before reading that address.
- **`UnmatchedBranchException`.** Its two constructors become the outcomes `UnmatchedAt(addr)` and `UnmatchedLeftover`.
- **The size check.** `AddressOutOfBoundsException` from the size check becomes `SizeError`.

### Modelling decisions tied to the code

- **Size check.** The model keeps the byte comparison of `BrainfuckAnalyzer.java:66`, although a slot takes two bytes; see Findings.
- **No range error.** Lines 52-55 keep only the low 16 bits of a destination, so a slot decodes to `dest % 65536`.
- **Word-size constant.** `BRANCH_DESTS_WORD_SIZE` (line 51) is taken as `BDEST_WORD_SIZE` (line 28), of value 2.

## Model

| member | source | states |
|---|---|---|
| `BrainfuckAnalyzer.ReadInstruction` | assets/2020-05-24-ghidra-brainfuck-processor-3/source/BrainfuckAnalyzer.java:43-47 | a byte is returned exactly for offsets inside the rom block, and it is the byte at that offset |
| `BrainfuckAnalyzer.WriteWord` | assets/2020-05-24-ghidra-brainfuck-processor-3/source/BrainfuckAnalyzer.java:49-58 | after the write, the slot decodes (little-endian) to `dest mod 65536`; no byte other than `2*off` and `2*off+1` changes; the length is kept |
| `BrainfuckAnalyzer.WriteBranchDest` | assets/2020-05-24-ghidra-brainfuck-processor-3/source/BrainfuckAnalyzer.java:49-58 | succeeds exactly when both bytes of the slot lie in `bdest`; on success `bdest` becomes `WriteWord` of its old contents, and on failure it is unchanged |
| `BrainfuckAnalyzer.Loop` | assets/2020-05-24-ghidra-brainfuck-processor-3/source/BrainfuckAnalyzer.java:72-96 | the pass from an address on never changes the size of `bdest` |
| `BrainfuckAnalyzer.Resolve` | assets/2020-05-24-ghidra-brainfuck-processor-3/source/BrainfuckAnalyzer.java:60-97 | the size check followed by the pass never changes the size of `bdest` |
| `BrainfuckAnalyzer.ResolveBranchDests` | assets/2020-05-24-ghidra-brainfuck-processor-3/source/BrainfuckAnalyzer.java:60-97 | the returned outcome and the new `bdest` are those of `Resolve` on the old `bdest`; a `bdest` smaller than `rom` gives `SizeError` with `bdest` untouched |
| `BracketMatching.MatchInvariant` | assets/2020-05-24-ghidra-brainfuck-processor-3/source/BrainfuckAnalyzer.java:71-91 | the matcher runs exactly while no prefix has more closes than opens; while it runs, its stack holds the unmatched opens in increasing order (as many as the depth); every pair is an open before a close with a balanced stretch between them; every open or close so far is pending or in exactly one pair |
| `BracketMatching.StuckFacts` | assets/2020-05-24-ghidra-brainfuck-processor-3/source/BrainfuckAnalyzer.java:82-84 | the matcher gets stuck at the first close that finds the stack empty, which is the first prefix of negative depth; it keeps the pairs matched before that close |
| `BracketMatching.StuckStays` | assets/2020-05-24-ghidra-brainfuck-processor-3/source/BrainfuckAnalyzer.java:83-84 | once stuck, the matcher stays stuck at the same address with the same pairs |
| `BracketMatching.MatchedIffBalanced` | assets/2020-05-24-ghidra-brainfuck-processor-3/source/BrainfuckAnalyzer.java:72-96 | the matcher ends running with an empty stack exactly when the stream is balanced |
| `ResolverProperties.FirstCancel` | assets/2020-05-24-ghidra-brainfuck-processor-3/source/BrainfuckAnalyzer.java:72-73 | the result is the first address in the range at which cancellation is asked, or the range's end if there is none |
| `ResolverProperties.ApplyPairsSlots` | assets/2020-05-24-ghidra-brainfuck-processor-3/source/BrainfuckAnalyzer.java:86-88 | after the writes of pairs with distinct slots, every close slot decodes to its open and every open slot to its close plus one, both mod 65536 |
| `ResolverProperties.ApplyPairsElsewhere` | assets/2020-05-24-ghidra-brainfuck-processor-3/source/BrainfuckAnalyzer.java:86-88 | bytes of slots no pair mentions keep their value |
| `ResolverProperties.ResolveIsExpected` | assets/2020-05-24-ghidra-brainfuck-processor-3/source/BrainfuckAnalyzer.java:60-97 | with two `bdest` bytes per rom byte, the pass stops at the first cancellation or the first unmatched close, whichever comes first; otherwise it ends `Ok` or `UnmatchedLeftover` as the matcher's stack is empty or not; `bdest` then holds the writes of exactly the pairs the matcher found before the stop |
| `ResolverProperties.ResolveOkIffBalanced` | assets/2020-05-24-ghidra-brainfuck-processor-3/source/BrainfuckAnalyzer.java:72-96 | uncancelled, with room for every slot, the pass succeeds if and only if no prefix has more closes than opens and the totals are equal |
| `ResolverProperties.ResolveOkWritesPairs` | assets/2020-05-24-ghidra-brainfuck-processor-3/source/BrainfuckAnalyzer.java:78-91 | after success, every open and close is in a pair; the open of each pair is the nearest earlier unmatched open, since the stretch between them is balanced; slot `c` decodes to `o` and slot `o` to `c+1` (mod 65536) |
| `ResolverProperties.ResolveUnmatchedAt` | assets/2020-05-24-ghidra-brainfuck-processor-3/source/BrainfuckAnalyzer.java:82-84 | `UnmatchedAt(a)` exactly when `a` is the first close with no pending open and no cancellation came up to `a`; then only pairs closed before `a` are written |
| `ResolverProperties.FirstUnmatchedAt` | assets/2020-05-24-ghidra-brainfuck-processor-3/source/BrainfuckAnalyzer.java:82-84 | the first close with no pending open, reached without cancellation, yields `UnmatchedAt` of its address |
| `ResolverProperties.ResolveLeftover` | assets/2020-05-24-ghidra-brainfuck-processor-3/source/BrainfuckAnalyzer.java:93-94 | the address-less unmatched error comes exactly when the pass is uncancelled and never stuck but ends with positive depth |
| `ResolverProperties.ResolveCancelled` | assets/2020-05-24-ghidra-brainfuck-processor-3/source/BrainfuckAnalyzer.java:72-74 | a cancellation first asked at `k`, before any failure, yields `Cancelled`; only the pairs closed before `k` are written |
| `ResolverProperties.CancelledOnlyWhenAsked` | assets/2020-05-24-ghidra-brainfuck-processor-3/source/BrainfuckAnalyzer.java:72-74 | a `Cancelled` pass stopped at the first address where cancellation was asked, before any unmatched close |
| `ResolverProperties.ResolveLeavesInert` | assets/2020-05-24-ghidra-brainfuck-processor-3/source/BrainfuckAnalyzer.java:77-90 | whatever the outcome and whatever the size of `bdest`, bytes of slots whose rom byte is neither 0x6 nor 0x7 (or beyond rom) are unchanged |
| `ResolverProperties.LoopLeavesInert` | assets/2020-05-24-ghidra-brainfuck-processor-3/source/BrainfuckAnalyzer.java:72-96 | from any address, with only addresses of opens on the stack, the pass never changes a byte of a slot whose rom byte is not a bracket |
| `ResolverProperties.LoopNoSizeError` | assets/2020-05-24-ghidra-brainfuck-processor-3/source/BrainfuckAnalyzer.java:72-96 | the pass itself never reports the size error |
| `ResolverProperties.ResolveSizeError` | assets/2020-05-24-ghidra-brainfuck-processor-3/source/BrainfuckAnalyzer.java:66-67 | `SizeError` exactly when `bdest` has fewer bytes than `rom`, and then `bdest` is untouched, so no write and no iteration |
| `ResolverProperties.OutOfBoundsOnlyWhenShort` | assets/2020-05-24-ghidra-brainfuck-processor-3/source/BrainfuckAnalyzer.java:51-57 | a write outside `bdest` happens only when `bdest` passed the size check but has fewer than two bytes per rom byte |
| `ResolverProperties.SizeCheckTooWeak` | assets/2020-05-24-ghidra-brainfuck-processor-3/source/BrainfuckAnalyzer.java:66-67 | rom `[ ]` with a 2-byte `bdest` passes the size check and ends `OutOfBounds` |
| `ResolverProperties.ResolveChecked` | assets/2020-05-24-ghidra-brainfuck-processor-3/source/BrainfuckAnalyzer.java:60-97 | with the size check at two bytes per rom byte, the outcome is never `OutOfBounds`, and `SizeError` comes exactly when that check fails |
| `ResolverProperties.ResolveCheckedAgrees` | assets/2020-05-24-ghidra-brainfuck-processor-3/source/BrainfuckAnalyzer.java:60-97 | where the corrected check passes, the corrected, original and matcher-derived results coincide |
| `ResolverProperties.NestedExample` | assets/2020-05-24-ghidra-brainfuck-processor-3/source/BrainfuckAnalyzer.java:78-89 | `[ [ ] ]` succeeds, with slot 2 = 1, slot 1 = 3, slot 3 = 0, slot 0 = 4 |
| `ResolverProperties.LoneBracketExamples` | assets/2020-05-24-ghidra-brainfuck-processor-3/source/BrainfuckAnalyzer.java:82-94 | a lone close fails at address 0; a lone open fails with the address-less error |
| `Bfc.Compile` | assets/2020-06-17-ghidra-brainfuck-processor-1/source/brainfuck/bfc.py:18-25 | the output is no longer than the input and every output byte is in 0x0..0x7 |
| `Bfc.CompileSource` | assets/2020-06-17-ghidra-brainfuck-processor-1/source/brainfuck/bfc.py:18-25 | the character-at-a-time loop produces exactly `Compile` of the input |
| `Bfc.Filter` | assets/2020-06-17-ghidra-brainfuck-processor-1/source/brainfuck/bfc.py:22-23 | every character kept is a key of the table |
| `Bfc.Decompile` | assets/2020-06-17-ghidra-brainfuck-processor-1/source/brainfuck/bfc.py:5-10 | decoding through the inverse table keeps the length |
| `Bfc.CompileAppend` | assets/2020-06-17-ghidra-brainfuck-processor-1/source/brainfuck/bfc.py:18-25 | `Compile(s + t) == Compile(s) + Compile(t)` |
| `Bfc.CompileLength` | assets/2020-06-17-ghidra-brainfuck-processor-1/source/brainfuck/bfc.py:18-25 | the output length is the number of input positions holding a key of the table |
| `Bfc.CompileIsTableOverFilter` | assets/2020-06-17-ghidra-brainfuck-processor-1/source/brainfuck/bfc.py:22-25 | the output is the table applied, position by position and in order, to the instruction characters of the input |
| `Bfc.CompileIgnoresOthers` | assets/2020-06-17-ghidra-brainfuck-processor-1/source/brainfuck/bfc.py:22-23 | dropping the non-instruction characters first changes nothing; an input with none of the eight characters compiles to nothing |
| `Bfc.TableInjective` | assets/2020-06-17-ghidra-brainfuck-processor-1/source/brainfuck/bfc.py:5-10 | no two characters share an opcode; the inverse table undoes the table; its keys are exactly 0x0..0x7 |
| `Bfc.DecompileCompile` | assets/2020-06-17-ghidra-brainfuck-processor-1/source/brainfuck/bfc.py:5-10 | decoding the output with the inverse table gives back the input's instruction characters |
| `Bfc.BracketsAgree` | assets/2020-06-17-ghidra-brainfuck-processor-1/source/brainfuck/bfc.py:9 | `[` compiles to `OPEN_LOOP` (0x6) and `]` to `CLOSE_LOOP` (0x7), and no other character compiles to either |

## Left out

- Ghidra plug-in wiring is left out as host-framework glue. This covers the constructor, enablement and priority (`BrainfuckAnalyzer.java:30-35`), the processor-name test `canAnalyze` (38-41), and `added` with its `MessageLog` and rethrow (99-110).
- Looking up the `rom` and `bdest` blocks by name (62-64) is left out. The two blocks are parameters.
- `TaskMonitor.initialize` and `incrementProgress` (69, 74) are left out, because they only report progress. Cancellation is kept.
- The hexadecimal message text of `UnmatchedBranchException` (line 9) is a foreign library call and is left out. Only the optional address is kept.
- Partial writes by Ghidra's memory layer are not modelled. A `putBytes` that would reach past the end of `bdest` is modelled as failing with nothing written. The memory layer itself is not part of this model.
- Java's 64-bit `long` addresses are modelled as unbounded naturals. No block is near 2^63 bytes.
- `bfc.py`'s argument check, usage message and file handling (lines 12-17, 19-21 and the file write at 25) are left out. The input is a string and the output a byte sequence.
- `ResolveOkIffBalanced`: success is characterised only for a `bdest` of at least two bytes per rom byte, and without cancellation. A shorter `bdest` that passes the byte-size check can end in `OutOfBounds` (see Findings).
- `ResolveOkWritesPairs`: the destination words are stated for a `bdest` of at least two bytes per rom byte.
- `ResolveIsExpected`: needs the same size hypothesis. For a shorter `bdest` the model still computes the exact outcome through `Resolve`, but no lemma describes it beyond `OutOfBoundsOnlyWhenShort`.
- `ResolveUnmatchedAt`: stated only for a `bdest` of at least two bytes per rom byte. With between one and two bytes per rom byte, an out-of-bounds write can end the pass before the unmatched close is reached. For example, rom `0x6 0x7 0x7` with a 3-byte `bdest` ends `OutOfBounds`.
- `FirstUnmatchedAt`: the same size hypothesis, for the same reason. An earlier out-of-bounds write can come before the first unmatched close.
- `ResolveLeftover`: the same size hypothesis. In that size band, an out-of-bounds write can end the pass before the end.
- `ResolveCancelled`: the same size hypothesis. In that size band, an out-of-bounds write can end the pass before the cancellation is reached.
- `CancelledOnlyWhenAsked`: the same size hypothesis. Together with `ResolveCancelled`, it describes `Cancelled` only for a `bdest` with room for every slot.

## Findings

| source | as written | input that shows it | evidently intended | confidence | as-written member | corrected member |
|---|---|---|---|---|---|---|
| assets/2020-05-24-ghidra-brainfuck-processor-3/source/BrainfuckAnalyzer.java:66 | `bdest.getSize() < rom.getSize()` compares byte counts, but slot `a` is written at bytes `2a` and `2a+1` (line 51) | rom `0x6 0x7` with a 2-byte `bdest`: the check passes, and the write of slot 1 (bytes 2 and 3) falls outside `bdest` | reject a `bdest` of fewer than `2 × rom` bytes before scanning | not executed; high | `ResolverProperties.SizeCheckTooWeak` | `ResolverProperties.ResolveChecked` |

The method `ResolveBranchDests` keeps the check as written. All the outcome lemmas except `ResolveLeavesInert`, `LoopNoSizeError`, `ResolveSizeError` and `OutOfBoundsOnlyWhenShort` assume the corrected guard, `2 * |rom| <= |bdest|`. `ResolveCheckedAgrees` shows that under that guard the corrected and original definitions coincide.
