/** Where `s` and `n` stop: the line the user is shown, and the breakpoints that were passed on the way. */
module Stops {
  import opened Words
  import opened Native
  import opened Ideal
  import opened LineIndex
  import opened Breakpoints
  import opened Executor

  // ---------------------------------------------------------------- the line shown by n

  /** The turn from s compares lines and stops, and the place printed is shown. */
  ghost predicate StopsShowing(
      w: World, raw: seq<LineEntry>, armed: set<Word>, s: Nexting, start: Location, shown: Location)
  {
    var f := NextMove(w, armed, s);
    && Unambiguous(raw)
    && TurnResult(w, raw, armed, s, start, Some(Stopped))
    && Live(w, f.k) && Closest(raw, RealPc(w, f.k, f.trapped), shown)
  }

  /**
   * `n` compares the line of the address that follows in memory and prints the line of pc. The line printed is sure to
   * differ from the starting one, whatever the line table, if and only if pc is that following address.
   */
  lemma StopLineExactly(w: World, armed: set<Word>, s: Nexting)
    requires NextQuery(w, armed, s).Some? && Live(w, NextMove(w, armed, s).k)
    ensures var f := NextMove(w, armed, s);
            (forall raw, start, shown :: StopsShowing(w, raw, armed, s, start, shown) ==> shown != start)
            <==> RealPc(w, f.k, f.trapped) == NextQuery(w, armed, s).value
  {
    var f, q := NextMove(w, armed, s), NextQuery(w, armed, s).value;
    var pc := RealPc(w, f.k, f.trapped);
    if pc == q {
      forall raw, start, shown | StopsShowing(w, raw, armed, s, start, shown)
        ensures shown != start
      {
        var other :| other != start && Closest(raw, q, other);
        ClosestUnique(raw, q, other, shown);
      }
    } else {
      var raw := [LineEntry(Some("f"), 1, pc, false), LineEntry(Some("f"), 2, q, false)];
      assert IsNearest(raw, pc, 0) && IsNearest(raw, q, 1);
      assert Closest(raw, q, Location("f", 2)) && Closest(raw, pc, Location("f", 1));
      assert StopsShowing(w, raw, armed, s, Location("f", 1), Location("f", 1));
    }
  }

  /** An `n` that stops without a trap where control falls through shows another line than the one it started on. */
  lemma NextLeavesLine(
      w: World, raw: seq<LineEntry>, armed: set<Word>, k: nat, patience: nat, start: Location, shown: Location,
      n: nat, e: Nexting, f: Nexting)
    requires Unambiguous(raw)
    requires NextResult(w, raw, armed, Nexting(k, false, None), patience, Stopped, start, n, e, f) && !e.trapped
    requires Live(w, f.k) && Closest(raw, RealPc(w, f.k, f.trapped), shown)
    requires NextQuery(w, armed, e) == Some(RealPc(w, f.k, f.trapped))
    ensures shown != start
  {
    StopLineExactly(w, armed, e);
    assert StopsShowing(w, raw, armed, e, start, shown);
  }

  // ---------------------------------------------------------------- the depth n stops at

  /** Two rows that put lines 1 and 2 at two addresses. */
  function Rows(first: Word, second: Word): seq<LineEntry> {
    [LineEntry(Some("f"), 1, first, false), LineEntry(Some("f"), 2, second, false)]
  }

  lemma RowsAt(first: Word, second: Word)
    requires first != second
    ensures Unambiguous(Rows(first, second))
    ensures Closest(Rows(first, second), first, Location("f", 1))
    ensures Closest(Rows(first, second), second, Location("f", 2))
  {
    assert IsNearest(Rows(first, second), first, 0) && IsNearest(Rows(first, second), second, 1);
  }

  lemma TurnStops(
      w: World, raw: seq<LineEntry>, armed: set<Word>, s: Nexting, start: Location, other: Location)
    requires NextQuery(w, armed, s).Some? && Live(w, NextMove(w, armed, s).k)
    requires Closest(raw, NextQuery(w, armed, s).value, other) && other != start
    ensures TurnResult(w, raw, armed, s, start, Some(Stopped))
  {
  }

  /** `n` on a plain instruction stops after it when the following address shows another line. */
  lemma PlainStops(
      w: World, raw: seq<LineEntry>, armed: set<Word>, first: Nexting, patience: nat, start: Location, other: Location)
    requires NextQuery(w, armed, first).Some? && Live(w, NextMove(w, armed, first).k) && !first.trapped
    requires Closest(raw, NextQuery(w, armed, first).value, other) && other != start
    ensures NextResult(w, raw, armed, first, patience, Stopped, start, 0, first, NextMove(w, armed, first))
  {
    assert NextMoves(w, armed, first, 0) == first;
    TurnStops(w, raw, armed, first, start, other);
  }

  lemma TurnGoesOn(w: World, raw: seq<LineEntry>, armed: set<Word>, s: Nexting, start: Location)
    requires NextQuery(w, armed, s) == None && Live(w, NextMove(w, armed, s).k) && !NextMove(w, armed, s).trapped
    ensures !s.trapped && TurnResult(w, raw, armed, s, start, None)
  {
  }

  /** The turns of `n` that run a call through give no reason to stop. */
  lemma {:induction false} CallGoesOn(
      w: World, raw: seq<LineEntry>, armed: set<Word>, c: nat, j: nat, start: Location, i: nat)
    requires Local(w.isa) && ComesBack(w, armed, c, j) && i < 1 + j - c
    ensures var s := NextMoves(w, armed, Nexting(c, false, None), i);
            !s.trapped && TurnResult(w, raw, armed, s, start, None)
  {
    WalkWaits(w, armed, c, j, i);
    CallTurn(w, armed, c, j, i);
    TurnGoesOn(w, raw, armed, NextMoves(w, armed, Nexting(c, false, None), i), start);
  }

  /** `n` on a call stops where control first reaches the return address, when that shows another line. */
  lemma CallStops(
      w: World, raw: seq<LineEntry>, armed: set<Word>, c: nat, j: nat, patience: nat, start: Location, other: Location)
    requires Local(w.isa) && ComesBack(w, armed, c, j)
    requires Closest(raw, ReturnAddress(w, c), other) && other != start
    ensures var first, n := Nexting(c, false, None), 1 + j - c;
            NextResult(w, raw, armed, first, patience, Stopped, start, n, NextMoves(w, armed, first, n),
                       Nexting(j, false, None))
  {
    var first, n := Nexting(c, false, None), 1 + j - c;
    forall i: nat | i < n
      ensures !NextMoves(w, armed, first, i).trapped
      ensures TurnResult(w, raw, armed, NextMoves(w, armed, first, i), start, None)
    {
      CallGoesOn(w, raw, armed, c, j, start, i);
    }
    WalkReturns(w, armed, c, j);
    TurnStops(w, raw, armed, NextMoves(w, armed, first, n), start, other);
  }

  /** An `n` from position k with this line table and this course stops trapped or no deeper than it started. */
  ghost predicate StopsShallow(
      w: World, raw: seq<LineEntry>, armed: set<Word>, depth: nat -> int, k: nat, patience: nat, start: Location,
      n: nat, e: Nexting, f: Nexting)
  {
    Unambiguous(raw) && Live(w, k) && Closest(raw, Pc(w, k), start)
    && NextResult(w, raw, armed, Nexting(k, false, None), patience, Stopped, start, n, e, f) ==>
      f.trapped || depth(f.k) <= depth(k)
  }

  lemma CallStopsDeeper(w: World, armed: set<Word>, depth: nat -> int, c: nat, j: nat)
    requires Local(w.isa) && !CallLevel(w, armed, depth, c, j)
    ensures !StopsShallow(w, Rows(Pc(w, c), ReturnAddress(w, c)), armed, depth, c, 0, Location("f", 1), 1 + j - c,
                          NextMoves(w, armed, Nexting(c, false, None), 1 + j - c), Nexting(j, false, None))
  {
    CallDoesNotReturnToItself(w, c);
    RowsAt(Pc(w, c), ReturnAddress(w, c));
    CallStops(w, Rows(Pc(w, c), ReturnAddress(w, c)), armed, c, j, 0, Location("f", 1), Location("f", 2));
  }

  lemma PlainAdvances(w: World, armed: set<Word>, depth: nat -> int, i: nat) returns (q: Word)
    requires Local(w.isa) && !PlainLevel(w, armed, depth, i)
    ensures NextQuery(w, armed, Nexting(i, false, None)) == Some(q) && q != Pc(w, i)
    ensures NextMove(w, armed, Nexting(i, false, None)) == Nexting(i + 1, false, None) && Live(w, i) && Live(w, i + 1)
    ensures depth(i + 1) > depth(i)
  {
    var len := DecodeAt(w.isa, w.text, Pc(w, i)).value.len;
    assert 1 <= len <= 15;
    q := Pc(w, i) + len;
  }

  lemma PlainStopsDeeper(w: World, armed: set<Word>, depth: nat -> int, i: nat, q: Word)
    requires NextQuery(w, armed, Nexting(i, false, None)) == Some(q)
    requires NextMove(w, armed, Nexting(i, false, None)) == Nexting(i + 1, false, None) && Live(w, i) && Live(w, i + 1)
    requires q != Pc(w, i) && depth(i + 1) > depth(i)
    ensures !StopsShallow(w, Rows(Pc(w, i), q), armed, depth, i, 0, Location("f", 1), 0, Nexting(i, false, None),
                          Nexting(i + 1, false, None))
  {
    RowsAt(Pc(w, i), q);
    PlainStops(w, Rows(Pc(w, i), q), armed, Nexting(i, false, None), 0, Location("f", 1), Location("f", 2));
  }

  /**
   * Exactly when step-over works: with every unambiguous line table and from every position `n` stops trapped or no
   * deeper than it started, if and only if every plain instruction it can step keeps its level and every call it can
   * step over first reaches its return address when it returns.
   */
  lemma StepOverStopsExactly(w: World, armed: set<Word>, depth: nat -> int)
    requires Local(w.isa)
    ensures (forall raw, k, patience, start, n, e, f ::
               StopsShallow(w, raw, armed, depth, k, patience, start, n, e, f)) <==> KeepsLevels(w, armed, depth)
  {
    if KeepsLevels(w, armed, depth) {
      forall raw, k: nat, patience: nat, start, n: nat, e, f
        ensures StopsShallow(w, raw, armed, depth, k, patience, start, n, e, f)
      {
        NextStaysShallow(w, armed, depth, k, n);
      }
    } else if c: nat, j: nat :| !CallLevel(w, armed, depth, c, j) {
      CallStopsDeeper(w, armed, depth, c, j);
    } else {
      var i: nat :| !PlainLevel(w, armed, depth, i);
      var q := PlainAdvances(w, armed, depth, i);
      PlainStopsDeeper(w, armed, depth, i, q);
    }
  }

  /** Any `n` on a call whose two ends show different lines stops where control first reaches the return address. */
  lemma NextOverCall(w: World, armed: set<Word>, c: nat, j: nat, patience: nat) returns (e: Nexting)
    requires Local(w.isa) && ComesBack(w, armed, c, j)
    ensures var raw := Rows(Pc(w, c), ReturnAddress(w, c));
            && Unambiguous(raw) && Closest(raw, Pc(w, c), Location("f", 1))
            && NextResult(w, raw, armed, Nexting(c, false, None), patience, Stopped, Location("f", 1), 1 + j - c, e,
                          Nexting(j, false, None))
  {
    CallDoesNotReturnToItself(w, c);
    RowsAt(Pc(w, c), ReturnAddress(w, c));
    CallStops(w, Rows(Pc(w, c), ReturnAddress(w, c)), armed, c, j, patience, Location("f", 1), Location("f", 2));
    e := NextMoves(w, armed, Nexting(c, false, None), 1 + j - c);
  }

  lemma RecursiveStop(patience: nat) returns (e: Nexting)
    ensures NextResult(Recursive(1), Rows(0, 1), {}, Nexting(0, false, None), patience, Stopped, Location("f", 1), 5, e,
                       Nexting(4, false, None))
  {
    RecursiveIsTame(1);
    RecursiveCall();
    e := NextOverCall(Recursive(1), {}, 0, 4, patience);
  }

  /**
   * Recursion makes `n` stop deeper: started on line 1 on the recursive call, it stops on line 2 at the return address
   * two calls down.
   */
  lemma RecursionStopsDeeper(patience: nat) returns (e: Nexting)
    ensures Local(Recursive(1).isa) && Clean(Recursive(1)) && Unambiguous(Rows(0, 1))
    ensures Live(Recursive(1), 0) && Closest(Rows(0, 1), Pc(Recursive(1), 0), Location("f", 1))
    ensures NextResult(Recursive(1), Rows(0, 1), {}, Nexting(0, false, None), patience, Stopped, Location("f", 1), 5, e,
                       Nexting(4, false, None))
    ensures Frames(Recursive(1), 0) == 0 && Frames(Recursive(1), 4) == 2
  {
    RecursiveIsTame(1);
    RecursiveCall();
    RecursiveFrames();
    RowsAt(0, 1);
    e := RecursiveStop(patience);
  }

  // ---------------------------------------------------------------- a run with a loop

  function LoopingSize(m: Memory, pc: Word): nat {
    if pc in m && (m[pc] == 0xE2 || m[pc] == 0x66) then 2 else 1
  }

  function LoopingStep(m: Memory, pc: Word, ctx: Context): State {
    var left := RegisterOf(ctx, 0);
    if pc !in m then Exited
    else if m[pc] == 0xE2 then Running(if left > 1 then pc else Wrap(pc + 2), Count(left - 1))
    else if m[pc] == 0x66 then Running(Wrap(pc + 2), ctx)
    else Exited
  }

  function LoopingDecode(m: Memory, pc: Word): Option<Inst> {
    if pc !in m then None
    else if m[pc] == INT3 then Some(TRAP)
    else Some(Inst(LoopingSize(m, pc), false, if m[pc] == 0xE2 then "LOOP" else if m[pc] == 0x66 then "NOP" else "HLT"))
  }

  /**
   * A two-byte loop instruction at 0 that counts register 0 down and jumps to itself until that is 0, a two-byte
   * instruction at 2, and the end of the program at 4.
   */
  function Looping(): World {
    World(
      Isa(LoopingSize, LoopingStep, LoopingDecode),
      Page(map[0 := 0xE2, 1 := 0xFE, 2 := 0x66, 4 := 0xF4]),
      Running(0, Count(2)))
  }

  lemma LoopingRun()
    ensures var w := Looping();
            && Run(w, 0) == Running(0, Count(2)) && Run(w, 1) == Running(0, Count(1))
            && Run(w, 2) == Running(2, Count(0)) && Run(w, 3) == Running(4, Count(0)) && Run(w, 4) == Exited
  {
    var w := Looping();
    assert Run(w, 0) == Running(0, Count(2));
    assert Run(w, 1) == Running(0, Count(1));
    assert Run(w, 2) == Running(2, Count(0));
    assert Run(w, 3) == Running(4, Count(0));
  }

  /** The program meets every hypothesis of the engine, with a breakpoint at 0. */
  lemma LoopingIsTame()
    ensures Tame(Looping()) && Patchable(Looping(), 0) && 0 in Looping().text
  {
    var w := Looping();
    forall m: Memory, m': Memory, pc: Word | Agree(m, m', pc, w.isa.size(m, pc))
      ensures w.isa.size(m', pc) == w.isa.size(m, pc) && w.isa.decode(m', pc) == w.isa.decode(m, pc)
      ensures forall ctx :: w.isa.exec(m', pc, ctx) == w.isa.exec(m, pc, ctx)
    {
      assert pc <= pc < pc + w.isa.size(m, pc);
    }
    LoopingRun();
    forall k: nat | Live(w, k)
      ensures Pc(w, k) in {0, 2, 4}
    {
      if k > 4 {
        ExitIsTerminal(w, 4, k);
      }
    }
  }

  lemma LoopingDecodes()
    ensures var w := Looping();
            && DecodeAt(w.isa, w.text, 0) == Some(Inst(2, false, "LOOP"))
            && DecodeAt(w.isa, w.text, 2) == Some(Inst(2, false, "NOP"))
  {
    assert Mapped(Looping().text, 0, WINDOW) && Mapped(Looping().text, 2, WINDOW);
  }

  lemma LoopingNexts()
    ensures var w, first := Looping(), Nexting(0, false, None);
            && NextMoves(w, {}, first, 0) == first
            && NextMoves(w, {}, first, 1) == Nexting(1, false, None)
            && NextMoves(w, {}, first, 2) == Nexting(2, false, None)
            && NextMove(w, {}, Nexting(2, false, None)) == Nexting(3, false, None)
            && NextQuery(w, {}, first) == Some(2) && NextQuery(w, {}, Nexting(1, false, None)) == Some(2)
            && NextQuery(w, {}, Nexting(2, false, None)) == Some(4)
  {
    LoopingRun();
    LoopingDecodes();
    var w, first := Looping(), Nexting(0, false, None);
    assert NextMoves(w, {}, first, 0) == first;
    assert NextMove(w, {}, first) == Nexting(1, false, None);
    assert NextMoves(w, {}, first, 1) == Nexting(1, false, None);
    assert NextMove(w, {}, Nexting(1, false, None)) == Nexting(2, false, None);
  }

  /** Rows that put the start of line 1 at 0 and that of line 2 at the given address. */
  function TwoLines(second: Word): seq<LineEntry> {
    Rows(0, second)
  }

  lemma TwoLinesAt(second: Word, pc: Word)
    requires second > 0
    ensures Unambiguous(TwoLines(second))
    ensures Closest(TwoLines(second), pc, Location("f", if pc < second then 1 else 2))
  {
    assert IsNearest(TwoLines(second), pc, if pc < second then 0 else 1);
  }

  /** With line 2 at address 2, `n` stops on the loop's jump back to 0 and prints line 1, where it started. */
  lemma JumpStopsOnStartingLine(patience: nat)
    ensures var w, raw, first := Looping(), TwoLines(2), Nexting(0, false, None);
            && Tame(w) && Unambiguous(raw)
            && NextResult(w, raw, {}, first, patience, Stopped, Location("f", 1), 0, first, Nexting(1, false, None))
            && Closest(raw, Pc(w, 0), Location("f", 1))
            && Live(w, 1) && Closest(raw, RealPc(w, 1, false), Location("f", 1))
  {
    var w, first := Looping(), Nexting(0, false, None);
    LoopingIsTame();
    LoopingRun();
    LoopingNexts();
    TwoLinesAt(2, 0);
    TwoLinesAt(2, 2);
    assert NextMove(w, {}, first) == Nexting(1, false, None);
    PlainStops(w, TwoLines(2), {}, first, patience, Location("f", 1), Location("f", 2));
  }

  lemma LoopingSteps()
    ensures var w, first := Looping(), Stepping(0, true, {0});
            && StepMoves(w, first, 0) == first && StepMoves(w, first, 1) == Stepping(1, false, {})
            && StepMoves(w, first, 2) == Stepping(2, false, {}) && StepMoves(w, first, 3) == Stepping(3, false, {})
  {
    LoopingRun();
    var w, first := Looping(), Stepping(0, true, {0});
    assert StepMoves(w, first, 0) == first;
    assert {0} - {0 as Word} == {};
    assert StepMoves(w, first, 1) == Stepping(1, false, {});
    assert StepMoves(w, first, 2) == Stepping(2, false, {});
  }

  lemma LoopingShows()
    ensures var w, raw := Looping(), TwoLines(4);
            && Unambiguous(raw)
            && ShowsAt(w, raw, Stepping(0, true, {0}), Location("f", 1))
            && ShowsAt(w, raw, Stepping(1, false, {}), Location("f", 1))
            && ShowsAt(w, raw, Stepping(2, false, {}), Location("f", 1))
            && ShowsAt(w, raw, Stepping(3, false, {}), Location("f", 2))
  {
    LoopingRun();
    TwoLinesAt(4, 0);
    TwoLinesAt(4, 1);
    TwoLinesAt(4, 2);
    TwoLinesAt(4, 4);
  }

  lemma LoopingStops(patience: nat)
    ensures Unambiguous(TwoLines(4))
    ensures StepResult(Looping(), TwoLines(4), Stepping(0, true, {0}), patience, Stopped, Location("f", 1),
                       3, Stepping(3, false, {}))
  {
    var w, raw, first := Looping(), TwoLines(4), Stepping(0, true, {0});
    LoopingSteps();
    LoopingShows();
    forall i: nat | i < 3
      ensures ShowsAt(w, raw, StepMoves(w, first, i), Location("f", 1))
    {
      assert i == 0 || i == 1 || i == 2;
    }
    assert StepPath(w, raw, first, Location("f", 1), 3, Stepping(3, false, {}));
    assert Location("f", 2) != Location("f", 1);
    LoopingRun();
  }

  lemma LoopingPositions(patience: nat)
    ensures var w := Looping();
            && Live(w, 0) && Live(w, 1) && Pc(w, 0) == 0 && Pc(w, 1) == 0
            && ContinueWalk(w, {0}, 1, patience) == Hit(1)
  {
    LoopingRun();
  }

  /**
   * With line 2 at address 4, `s` from the trap at 0 goes round the loop, executes the instruction at 0 a second time
   * without a trap and stops on line 2; `c` would have stopped at that second time.
   */
  lemma StepPassesLiftedBreakpoint(patience: nat)
    ensures var w, raw, first := Looping(), TwoLines(4), Stepping(0, true, {0});
            && Unambiguous(raw)
            && Live(w, 0) && Live(w, 1) && Pc(w, 0) == 0 && Pc(w, 1) == 0
            && StepResult(w, raw, first, patience, Stopped, Location("f", 1), 3, Stepping(3, false, {}))
            && StepMoves(w, first, 1) == Stepping(1, false, {}) && StepMoves(w, first, 2) == Stepping(2, false, {})
            && ContinueWalk(w, {0}, 1, patience) == Hit(1)
  {
    LoopingPositions(patience);
    LoopingSteps();
    LoopingStops(patience);
  }

  lemma LoopingOver(patience: nat)
    ensures Unambiguous(TwoLines(4))
    ensures NextResult(Looping(), TwoLines(4), {}, Nexting(0, false, None), patience, Stopped, Location("f", 1),
                       2, Nexting(2, false, None), Nexting(3, false, None))
  {
    var w, raw, first, start := Looping(), TwoLines(4), Nexting(0, false, None), Location("f", 1);
    LoopingRun();
    LoopingNexts();
    TwoLinesAt(4, 2);
    TwoLinesAt(4, 4);
    assert TurnResult(w, raw, {}, first, start, None);
    assert TurnResult(w, raw, {}, Nexting(1, false, None), start, None);
    forall i: nat | i < 2
      ensures !NextMoves(w, {}, first, i).trapped && TurnResult(w, raw, {}, NextMoves(w, {}, first, i), start, None)
    {
      assert i == 0 || i == 1;
    }
    assert Location("f", 2) != start;
    assert TurnResult(w, raw, {}, Nexting(2, false, None), start, Some(Stopped));
  }

  /** `n` from the same trap passes the breakpoint it started on in the same way. */
  lemma NextPassesLiftedBreakpoint(patience: nat)
    ensures var w, raw, first := Looping(), TwoLines(4), Nexting(0, false, None);
            && Unambiguous(raw)
            && Live(w, 0) && Live(w, 1) && Pc(w, 0) == 0 && Pc(w, 1) == 0
            && NextResult(w, raw, {0} - {Pc(w, 0)}, first, patience, Stopped, Location("f", 1),
                          2, Nexting(2, false, None), Nexting(3, false, None))
            && NextMoves(w, {0} - {Pc(w, 0)}, first, 1) == Nexting(1, false, None)
  {
    LoopingPositions(patience);
    LoopingNexts();
    LoopingOver(patience);
    assert {0} - {Pc(Looping(), 0)} == {};
  }
}
