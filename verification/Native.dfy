/**
 * The debugged program: an abstract instruction set, the process state it works on, and the undebugged run.
 * Program text is kept apart from the rest of the state, so no instruction reads or writes it as data.
 */
module Native {
  import opened Words

  type Memory = map<Word, Byte>

  /** The n bytes at an address can be read. */
  predicate Mapped(m: Memory, from: nat, n: nat) {
    from + n <= TWO_64 && forall a: Word :: from <= a < from + n ==> a in m
  }

  /** Everything but pc and text: registers by DWARF number, and data memory. */
  datatype Context = Context(regs: map<Word, Word>, data: Memory)

  const DWARF_RBP: Word := 6
  const DWARF_RSP: Word := 7

  function RegisterOf(ctx: Context, n: Word): Word {
    if n in ctx.regs then ctx.regs[n] else 0
  }

  datatype State = Running(pc: Word, ctx: Context) | Exited

  /** A decoded instruction, as the disassembler reports it. */
  datatype Inst = Inst(len: nat, call: bool, mnemonic: string)

  /** Instruction length, effect, and what the disassembler makes of the bytes at an address. */
  datatype Isa = Isa(
    size: (Memory, Word) -> nat,
    exec: (Memory, Word, Context) -> State,
    decode: (Memory, Word) -> Option<Inst>)

  /** A program: its pristine text and the state it is first stopped in. */
  datatype World = World(isa: Isa, text: Memory, start: State)

  const INT3: Byte := 0xCC

  /** What a trap decodes to. */
  const TRAP: Inst := Inst(1, false, "INT 0x3")

  ghost predicate Agree(m: Memory, m': Memory, from: Word, n: nat) {
    forall a: Word :: from <= a < from + n ==> (a in m <==> a in m') && (a in m ==> m[a] == m'[a])
  }

  /** An instruction has 1 to 15 bytes and everything about it depends on those bytes alone. */
  ghost predicate Local(isa: Isa) {
    && (forall m: Memory, pc: Word :: 1 <= isa.size(m, pc) <= 15)
    && (forall m: Memory, m': Memory, pc: Word :: Agree(m, m', pc, isa.size(m, pc)) ==>
          isa.size(m', pc) == isa.size(m, pc) && isa.decode(m', pc) == isa.decode(m, pc))
    && (forall m: Memory, m': Memory, pc: Word, ctx :: Agree(m, m', pc, isa.size(m, pc)) ==>
          isa.exec(m', pc, ctx) == isa.exec(m, pc, ctx))
    && (forall m: Memory, pc: Word :: isa.decode(m, pc).Some? ==> isa.decode(m, pc).value.len == isa.size(m, pc))
    && (forall m: Memory, pc: Word :: pc in m && m[pc] == INT3 ==> isa.decode(m, pc) == Some(TRAP))
  }

  /** How many bytes are read to decode the instruction `n` is on. */
  const WINDOW: nat := 100

  /** Reads the window and decodes its first instruction; None when the window cannot be read or does not decode. */
  function DecodeAt(isa: Isa, m: Memory, pc: Word): Option<Inst> {
    if Mapped(m, pc, WINDOW) then isa.decode(m, pc) else None
  }

  /** One instruction on the processor: int3 only moves pc past itself and traps. */
  function CpuStep(isa: Isa, m: Memory, s: State): State
    requires s.Running?
  {
    if s.pc in m && m[s.pc] == INT3 then Running(Succ(s.pc), s.ctx) else isa.exec(m, s.pc, s.ctx)
  }

  /** The undebugged run: the state after k instructions. Exit is terminal. */
  function Run(w: World, k: nat): State {
    if k == 0 then w.start
    else match Run(w, k - 1)
         case Exited => Exited
         case Running(pc, ctx) => w.isa.exec(w.text, pc, ctx)
  }

  predicate Live(w: World, k: nat) {
    Run(w, k).Running?
  }

  function Pc(w: World, k: nat): Word
    requires Live(w, k)
  {
    Run(w, k).pc
  }

  lemma {:induction false} ExitIsTerminal(w: World, i: nat, j: nat)
    requires i <= j && Live(w, j)
    ensures Live(w, i)
    decreases j - i
  {
    if i < j {
      ExitIsTerminal(w, i, j - 1);
    }
  }

  /** The program never executes an int3 of its own. */
  ghost predicate Clean(w: World) {
    forall k: nat :: Live(w, k) ==> !(Pc(w, k) in w.text && w.text[Pc(w, k)] == INT3)
  }

  ghost predicate Inside(w: World, x: Word, k: nat)
    requires Live(w, k)
  {
    Pc(w, k) < x < Pc(w, k) + w.isa.size(w.text, Pc(w, k))
  }

  /** An address a breakpoint may be put on: no executed instruction starts one past it or has it in its interior. */
  ghost predicate Patchable(w: World, x: Word) {
    forall k: nat :: Live(w, k) ==> Pc(w, k) != Succ(x) && !Inside(w, x, k)
  }

  /** Text with a trap at every armed address. */
  function Patched(text: Memory, armed: set<Word>): Memory {
    map a | a in text :: if a in armed then INT3 else text[a]
  }

  lemma PatchedDisarm(text: Memory, armed: set<Word>, x: Word)
    requires x in text
    ensures Patched(text, armed)[x := text[x]] == Patched(text, armed - {x})
    ensures Patched(text, armed)[x := INT3] == Patched(text, armed + {x})
  {
  }

  /** The bytes of the instruction at a position are pristine when no breakpoint is at its address. */
  lemma PatchedAgrees(w: World, armed: set<Word>, k: nat)
    requires Live(w, k) && Pc(w, k) !in armed && forall x :: x in armed ==> Patchable(w, x)
    ensures Agree(w.text, Patched(w.text, armed), Pc(w, k), w.isa.size(w.text, Pc(w, k)))
  {
    var pc, m := Pc(w, k), Patched(w.text, armed);
    forall a: Word | pc <= a < pc + w.isa.size(w.text, pc) && a in w.text
      ensures m[a] == w.text[a]
    {
      if a in armed {
        assert Patchable(w, a) && Inside(w, a, k);
      }
    }
  }

  lemma LocalAt(isa: Isa, m: Memory, m': Memory, pc: Word, ctx: Context)
    requires Local(isa) && Agree(m, m', pc, isa.size(m, pc)) && m.Keys == m'.Keys
    ensures isa.exec(m', pc, ctx) == isa.exec(m, pc, ctx) && DecodeAt(isa, m', pc) == DecodeAt(isa, m, pc)
  {
  }

  /** Away from the armed addresses the processor executes patched text as it would pristine text. */
  lemma PatchedStep(w: World, armed: set<Word>, k: nat)
    requires Local(w.isa) && Clean(w) && Live(w, k)
    requires Pc(w, k) !in armed && forall x :: x in armed ==> Patchable(w, x)
    ensures CpuStep(w.isa, Patched(w.text, armed), Run(w, k)) == Run(w, k + 1)
    ensures DecodeAt(w.isa, Patched(w.text, armed), Pc(w, k)) == DecodeAt(w.isa, w.text, Pc(w, k))
  {
    var m := Patched(w.text, armed);
    PatchedAgrees(w, armed, k);
    LocalAt(w.isa, w.text, m, Pc(w, k), Run(w, k).ctx);
    assert !(Pc(w, k) in m && m[Pc(w, k)] == INT3);
  }

  /** At an armed address the processor traps: pc moves one byte on and nothing else changes. */
  lemma PatchedTrap(w: World, armed: set<Word>, s: State)
    requires s.Running? && s.pc in armed && s.pc in w.text
    ensures CpuStep(w.isa, Patched(w.text, armed), s) == Running(Succ(s.pc), s.ctx)
    ensures Local(w.isa) ==>
              DecodeAt(w.isa, Patched(w.text, armed), s.pc) == if Mapped(w.text, s.pc, WINDOW) then Some(TRAP) else None
  {
    assert Patched(w.text, armed)[s.pc] == INT3;
    assert Patched(w.text, armed).Keys == w.text.Keys;
  }

  /** What the machine looks like at position k of the run, either on the instruction or just trapped on it. */
  function Concrete(w: World, k: nat, trapped: bool): State
    requires trapped ==> Live(w, k)
  {
    if trapped then Running(Succ(Pc(w, k)), Run(w, k).ctx) else Run(w, k)
  }

  /**
   * The debugger decides whether the process has just trapped by asking whether pc - 1 carries a breakpoint. That
   * test is right at every position of the run if and only if no breakpoint address is followed by an executed
   * instruction start.
   */
  lemma TrapInference(w: World, sites: set<Word>)
    ensures (forall k: nat, trapped: bool :: Live(w, k) && (trapped ==> Pc(w, k) in sites) ==>
               (Pred(Concrete(w, k, trapped).pc) in sites <==> trapped))
            <==>
            (forall k: nat, x :: Live(w, k) && x in sites ==> Pc(w, k) != Succ(x))
  {
    forall x: Word
      ensures Pred(Succ(x)) == x && Succ(Pred(x)) == x
    {
      SuccPred(x);
    }
    if forall k: nat, trapped: bool :: Live(w, k) && (trapped ==> Pc(w, k) in sites) ==>
         (Pred(Concrete(w, k, trapped).pc) in sites <==> trapped) {
      forall k: nat, x | Live(w, k) && x in sites
        ensures Pc(w, k) != Succ(x)
      {
        assert Pred(Concrete(w, k, false).pc) in sites <==> false;
      }
    }
  }

  function Count(n: int): Context {
    Context(map[0 := Wrap(n)], map[])
  }

  function Filled(code: map<Word, Byte>, a: Word): Byte {
    if a in code then code[a] else 0x90
  }

  /** 200 bytes of text that hold the code given and are filled up with 0x90. */
  function Page(code: map<Word, Byte>): (m: Memory)
    ensures forall a: Word :: a in m <==> a < 200
    ensures forall a: Word :: a in m ==> m[a] == Filled(code, a)
  {
    map a: Word | 0 <= a < 200 :: Filled(code, a)
  }

  /** Two one-byte instructions that each add 1 to register 0, then one that exits. */
  function Counting(): World {
    World(
      Isa((m, pc) => 1,
          (m: Memory, pc: Word, ctx: Context) =>
            if pc in m && m[pc] == 0x40 then Running(Succ(pc), Count(RegisterOf(ctx, 0) + 1)) else Exited,
          (m: Memory, pc: Word) => if pc in m && m[pc] == INT3 then Some(TRAP) else Some(Inst(1, false, "INC"))),
      map[0 := 0x40, 1 := 0x40, 2 := 0xF4],
      Running(0, Count(0)))
  }

  lemma CountingRun()
    ensures var w := Counting();
            && Run(w, 0) == Running(0, Count(0)) && Run(w, 1) == Running(1, Count(1))
            && Run(w, 2) == Running(2, Count(2)) && forall k: nat :: Live(w, k) ==> k < 3
  {
    var w := Counting();
    assert Run(w, 0) == Running(0, Count(0));
    assert Run(w, 1) == Running(1, Count(1));
    assert Run(w, 2) == Running(2, Count(2));
    assert Run(w, 3) == Exited;
    forall k: nat | Live(w, k)
      ensures k < 3
    {
      if k > 3 {
        ExitIsTerminal(w, 3, k);
      }
    }
  }

  lemma CountingIsTame()
    ensures Local(Counting().isa) && Clean(Counting())
  {
    var w := Counting();
    CountingRun();
    forall k: nat | Live(w, k)
      ensures !(Pc(w, k) in w.text && w.text[Pc(w, k)] == INT3)
    {
      assert k == 0 || k == 1 || k == 2;
    }
  }

  /**
   * A breakpoint on a one-byte instruction breaks the inference. Stepping past address 0 leaves the process at
   * address 1, which looks like a trap on 0; backing up and stepping again executes the instruction twice, and the
   * result is no state of the undebugged run.
   */
  lemma OneByteInstructionRepeats()
    ensures var w := Counting();
            && Local(w.isa) && Clean(w)
            && Live(w, 0) && Live(w, 1) && !Patchable(w, Pc(w, 0))
            && Pred(Concrete(w, 1, false).pc) == Pc(w, 0)
            && forall j :: CpuStep(w.isa, w.text, Run(w, 1).(pc := Pc(w, 0))) != Run(w, j)
  {
    var w := Counting();
    CountingIsTame();
    CountingRun();
    var again := CpuStep(w.isa, w.text, Running(0, Count(1)));
    assert again == Running(1, Count(2));
    assert Pc(w, 1) == Succ(Pc(w, 0));
  }
}
