/**
 * The Brainfuck compiler `bfc.py`: each of the eight instruction characters
 * becomes one opcode byte, in order, and every other character is dropped.
 * Its output is the rom stream the branch-destination resolver reads.
 */
module Bfc {
  import opened BrainfuckAnalyzer

  /** The `instructions` table. */
  const Instructions: map<char, byte> := map[
    '>' := 0x0, '<' := 0x1,
    '+' := 0x2, '-' := 0x3,
    '.' := 0x4, ',' := 0x5,
    '[' := 0x6, ']' := 0x7]

  /** The table read backwards: opcode to its source character. */
  const Mnemonics: map<byte, char> := map[
    0x0 := '>', 0x1 := '<',
    0x2 := '+', 0x3 := '-',
    0x4 := '.', 0x5 := ',',
    0x6 := '[', 0x7 := ']']

  /** The bytes written for one input character: its opcode, or nothing. */
  function Emit(c: char): seq<byte>
  {
    if c in Instructions then [Instructions[c]] else []
  }

  /** The whole output file for input text `src`. */
  function Compile(src: string): (r: seq<byte>)
    ensures |r| <= |src|
    ensures forall i :: 0 <= i < |r| ==> r[i] <= 0x7
  {
    if src == [] then [] else Compile(src[..|src| - 1]) + Emit(src[|src| - 1])
  }

  /** The translation loop: read one character at a time, skip it or append its opcode. */
  method CompileSource(src: string) returns (out: seq<byte>)
    ensures out == Compile(src)
  {
    out := [];
    var i := 0;
    while i < |src|
      invariant i <= |src|
      invariant out == Compile(src[..i])
    {
      var c := src[i];
      assert src[..i + 1][..i] == src[..i];
      i := i + 1;
      if c !in Instructions {
        continue;
      }
      var instr := Instructions[c];
      out := out + [instr];
    }
    assert src[..i] == src;
  }

  /** The instruction characters of `src`, in their order. */
  function Filter(src: string): (r: string)
    ensures forall i :: 0 <= i < |r| ==> r[i] in Instructions
  {
    if src == [] then []
    else Filter(src[..|src| - 1]) + (if src[|src| - 1] in Instructions then [src[|src| - 1]] else [])
  }

  /** The source text an opcode stream stands for, through the inverse table. */
  function Decompile(code: seq<byte>): (r: string)
    requires forall i :: 0 <= i < |code| ==> code[i] in Mnemonics
    ensures |r| == |code|
  {
    if code == [] then [] else Decompile(code[..|code| - 1]) + [Mnemonics[code[|code| - 1]]]
  }

  /** Compilation works character by character, so it distributes over concatenation. */
  lemma {:induction false} CompileAppend(s: string, t: string)
    ensures Compile(s + t) == Compile(s) + Compile(t)
  {
    if t == [] {
      assert s + t == s;
    } else {
      var t' := t[..|t| - 1];
      assert (s + t)[..|s + t| - 1] == s + t';
      assert (s + t)[|s + t| - 1] == t[|t| - 1];
      CompileAppend(s, t');
    }
  }

  /** The indices of `src` below `n` that hold an instruction character. */
  function InstructionIndices(src: string, n: nat): set<nat>
    requires n <= |src|
  {
    set i: nat | i < n && src[i] in Instructions
  }

  /** One output byte per input character that is a key of the table. */
  lemma {:induction false} CompileLength(src: string)
    ensures |Compile(src)| == |InstructionIndices(src, |src|)|
  {
    if src != [] {
      var n := |src| - 1;
      var init := src[..n];
      CompileLength(init);
      assert InstructionIndices(init, n) == InstructionIndices(src, n);
      if src[n] in Instructions {
        assert InstructionIndices(src, n + 1) == InstructionIndices(src, n) + {n};
      } else {
        assert InstructionIndices(src, n + 1) == InstructionIndices(src, n);
      }
    }
  }

  /** The output is the table applied, in order, to the instruction characters of the input. */
  lemma {:induction false} CompileIsTableOverFilter(src: string)
    ensures |Compile(src)| == |Filter(src)|
    ensures forall i :: 0 <= i < |Filter(src)| ==> Compile(src)[i] == Instructions[Filter(src)[i]]
  {
    if src != [] {
      CompileIsTableOverFilter(src[..|src| - 1]);
    }
  }

  /** Characters outside the table produce no output: compiling only the instructions gives the same bytes. */
  lemma {:induction false} CompileIgnoresOthers(src: string)
    ensures Compile(Filter(src)) == Compile(src)
    ensures (forall i :: 0 <= i < |src| ==> src[i] !in Instructions) ==> Compile(src) == []
  {
    if src != [] {
      var n := |src| - 1;
      CompileIgnoresOthers(src[..n]);
      var tail := if src[n] in Instructions then [src[n]] else [];
      CompileAppend(Filter(src[..n]), tail);
      assert Compile(tail) == Emit(src[n]) by {
        if tail != [] { assert tail[..0] == []; }
      }
      if forall i :: 0 <= i < |src| ==> src[i] !in Instructions {
        assert forall i :: 0 <= i < n ==> src[..n][i] !in Instructions;
      }
    }
  }

  /** No two characters share an opcode, and the inverse table undoes the table. */
  lemma TableInjective()
    ensures forall c, d :: c in Instructions && d in Instructions && Instructions[c] == Instructions[d] ==> c == d
    ensures forall c :: c in Instructions ==> Instructions[c] in Mnemonics && Mnemonics[Instructions[c]] == c
    ensures forall b: byte :: b in Mnemonics <==> b <= 0x7
  {
    assert Instructions.Keys == {'>', '<', '+', '-', '.', ',', '[', ']'};
    assert Mnemonics.Keys == {0, 1, 2, 3, 4, 5, 6, 7};
    forall b: byte
      ensures b in Mnemonics <==> b <= 0x7
    {
      if b <= 0x7 {
        assert b == 0 || b == 1 || b == 2 || b == 3 || b == 4 || b == 5 || b == 6 || b == 7;
      }
    }
  }

  /** Decoding the output with the inverse table gives back the instruction characters of the input. */
  lemma {:induction false} DecompileCompile(src: string)
    ensures forall i :: 0 <= i < |Compile(src)| ==> Compile(src)[i] in Mnemonics
    ensures Decompile(Compile(src)) == Filter(src)
  {
    var code := Compile(src);
    forall i | 0 <= i < |code| ensures code[i] in Mnemonics {
      OpcodeHasMnemonic(code[i]);
    }
    if src != [] {
      var n := |src| - 1;
      DecompileCompile(src[..n]);
      if src[n] in Instructions {
        MnemonicOfOpcode(src[n]);
        assert code[..|code| - 1] == Compile(src[..n]);
      } else {
        assert code == Compile(src[..n]);
      }
    }
  }

  lemma OpcodeHasMnemonic(b: byte)
    requires b <= 0x7
    ensures b in Mnemonics
  {
    TableInjective();
  }

  lemma MnemonicOfOpcode(c: char)
    requires c in Instructions
    ensures Instructions[c] in Mnemonics && Mnemonics[Instructions[c]] == c
  {
    TableInjective();
  }

  /** `[` and `]` compile to the resolver's OPEN_LOOP and CLOSE_LOOP, and nothing else does. */
  lemma BracketsAgree()
    ensures Instructions['['] == OPEN_LOOP && Instructions[']'] == CLOSE_LOOP
    ensures forall c :: c in Instructions && Instructions[c] == OPEN_LOOP ==> c == '['
    ensures forall c :: c in Instructions && Instructions[c] == CLOSE_LOOP ==> c == ']'
  {
  }
}
