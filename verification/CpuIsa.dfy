// The instruction set of the gate-level CPU (hynergy-benchmarks/src/fixtures/digital.rs).
module CpuIsa {
  import opened BinaryNumbers

  // Opcode 0 does nothing but advance the program counter.
  const OP_LDA: nat := 1
  const OP_LDB: nat := 2
  const OP_ADD: nat := 3
  const OP_XOR: nat := 4
  const OP_AND: nat := 5
  const OP_JZ: nat := 6
  const OP_JMP: nat := 7

  /** The architectural state: a 4-bit program counter, two registers and the carry flag. */
  datatype IsaState = IsaState(pc: nat, a: nat, b: nat, carry: bool)

  /** Execute one instruction word: the opcode in its low three bits, the immediate above. */
  function Execute(width: nat, word: nat, s: IsaState): IsaState {
    var opcode, immediate := word % 8, word / 8;
    IsaState(
      if opcode == OP_JMP || (opcode == OP_JZ && s.a == 0) then immediate % 16 else (s.pc + 1) % 16,
      if opcode == OP_LDA then immediate
      else if opcode == OP_ADD then (s.a + s.b) % Pow2(width)
      else if opcode == OP_XOR then Xor(s.a, s.b, width)
      else if opcode == OP_AND then And(s.a, s.b, width)
      else s.a,
      if opcode == OP_LDB then immediate else s.b,
      if opcode == OP_ADD then s.a + s.b >= Pow2(width) else s.carry)
  }

  /** One instruction: fetch the word the program counter points at, then execute it. */
  function IsaStep(width: nat, program: seq<nat>, s: IsaState): IsaState
    requires |program| == 16 && s.pc < 16
  {
    Execute(width, program[s.pc] % Pow2(width + 3), s)
  }

  function IsaRun(width: nat, program: seq<nat>, n: nat): (s: IsaState)
    requires |program| == 16
    ensures s.pc < 16
  {
    if n == 0 then IsaState(0, 0, 0, false) else IsaStep(width, program, IsaRun(width, program, n - 1))
  }

  // ----- The sample program -----

  /** The words of `full_cpu_program`: it loads, adds, combines, overflows into the carry, branches on
      zero over a poisoned load, and jumps back to the start. */
  function SampleProgram(width: nat): (program: seq<nat>)
    requires 8 <= width
    ensures |program| == 16
  {
    Pow2AtLeast256(width);
    [41, 58, 3, 26, 4, 122, 5, 2 + 8 * (Pow2(width) - 15), 3, 94, 1905, 337, 10, 3, 7, 0]
  }

  lemma {:induction false} Pow2AtLeast256(width: nat)
    requires 8 <= width
    ensures Pow2(width) >= 256
  {
    if width == 8 {
      assert Pow2(4) == 16;
    } else {
      Pow2AtLeast256(width - 1);
    }
  }

  /** The table of states that executing the program goes through, for every width. */
  function SampleTrace(width: nat): (trace: seq<IsaState>)
    requires 8 <= width
    ensures |trace| == 15
  {
    Pow2AtLeast256(width);
    var large := Pow2(width) - 15;
    [IsaState(0, 0, 0, false),
     IsaState(1, 5, 0, false),
     IsaState(2, 5, 7, false),
     IsaState(3, 12, 7, false),
     IsaState(4, 12, 3, false),
     IsaState(5, 15, 3, false),
     IsaState(6, 15, 15, false),
     IsaState(7, 15, 15, false),
     IsaState(8, 15, large, false),
     IsaState(9, 0, large, true),
     IsaState(11, 0, large, true),
     IsaState(12, 42, large, true),
     IsaState(13, 42, 1, true),
     IsaState(14, 43, 1, false),
     IsaState(0, 43, 1, false)]
  }

  lemma BitwiseSamples(width: nat)
    requires 4 <= width
    ensures Xor(12, 3, width) == 15 && And(15, 15, width) == 15
  {
    ZeroBits(width - 4);
    assert Xor(3, 0, width - 2) == 1 + 2 * Xor(1, 0, width - 3);
    assert Xor(12, 3, width) == 1 + 2 * Xor(6, 1, width - 1);
    assert And(7, 7, width - 1) == 1 + 2 * And(3, 3, width - 2);
  }

  lemma {:induction false} ZeroBits(n: nat)
    ensures Xor(0, 0, n) == 0 && And(0, 0, n) == 0
  {
    if n > 0 { ZeroBits(n - 1); }
  }

  lemma SmallModulo(x: nat, m: nat)
    requires x < m
    ensures x % m == x
  {
  }

  /** A word as wide as the instruction is fetched unchanged. */
  lemma WordFits(word: nat, width: nat)
    requires word < 8 * Pow2(width)
    ensures word % Pow2(width + 3) == word
  {
    var size := Pow2(width + 3);
    assert size == 2 * Pow2(width + 2) && Pow2(width + 2) == 2 * Pow2(width + 1);
    SmallModulo(word, size);
  }

  lemma SampleExecutes(width: nat, k: nat)
    requires 8 <= width && k < 14
    ensures Execute(width, SampleProgram(width)[SampleTrace(width)[k].pc], SampleTrace(width)[k])
         == SampleTrace(width)[k + 1]
  {
    Pow2AtLeast256(width);
    BitwiseSamples(width);
    var size := Pow2(width);
    if k == 2 {
      SmallModulo(12, size);
    } else if k == 8 {
      assert 15 + (size - 15) == size && size % size == 0;
    } else if k == 12 {
      SmallModulo(43, size);
    }
  }

  lemma SampleStep(width: nat, k: nat)
    requires 8 <= width && k < 14
    ensures IsaStep(width, SampleProgram(width), SampleTrace(width)[k]) == SampleTrace(width)[k + 1]
  {
    Pow2AtLeast256(width);
    WordFits(SampleProgram(width)[SampleTrace(width)[k].pc], width);
    SampleExecutes(width, k);
  }

  lemma {:induction false} SampleRuns(width: nat, n: nat)
    requires 8 <= width && n <= 14
    ensures IsaRun(width, SampleProgram(width), n) == SampleTrace(width)[n]
  {
    if n > 0 {
      SampleRuns(width, n - 1);
      SampleStep(width, n - 1);
    }
  }
}
