/**
 * An ideal debugger that never touches the program: each command moves along the undebugged run. The real engine is
 * proved to refine these walks; what they mean is proved here.
 */
module Ideal {
  import opened Words
  import opened Native

  // ---------------------------------------------------------------- continue

  datatype Outcome = Hit(at: nat) | Gone(at: nat) | Pending

  /** From position k, go on for at most patience instructions to the first armed one. */
  function ContinueWalk(w: World, armed: set<Word>, k: nat, patience: nat): Outcome
    decreases patience
  {
    if !Live(w, k) then Gone(k)
    else if Pc(w, k) in armed then Hit(k)
    else if patience == 0 then Pending
    else ContinueWalk(w, armed, k + 1, patience - 1)
  }

  /** Position i is executed without a stop. */
  ghost predicate Passes(w: World, armed: set<Word>, i: nat) {
    Live(w, i) && Pc(w, i) !in armed
  }

  /** `c` stops at the first position at or after k with a breakpoint, and nowhere else. */
  lemma {:induction false} ContinueFindsFirst(w: World, armed: set<Word>, k: nat, patience: nat)
    ensures match ContinueWalk(w, armed, k, patience)
            case Hit(j) => k <= j <= k + patience && Live(w, j) && Pc(w, j) in armed
                           && forall i :: k <= i < j ==> Passes(w, armed, i)
            case Gone(j) => k <= j <= k + patience && !Live(w, j) && forall i :: k <= i < j ==> Passes(w, armed, i)
            case Pending => forall i :: k <= i <= k + patience ==> Passes(w, armed, i)
    decreases patience
  {
    if Passes(w, armed, k) && patience > 0 {
      ContinueFindsFirst(w, armed, k + 1, patience - 1);
    }
  }

  /** No breakpoint is missed: if position j is the first one ahead with a breakpoint, enough patience stops there. */
  lemma {:induction false} NoMissedBreakpoint(w: World, armed: set<Word>, k: nat, j: nat, patience: nat)
    requires k <= j <= k + patience && Live(w, j) && Pc(w, j) in armed
    requires forall i :: k <= i < j ==> Live(w, i) ==> Pc(w, i) !in armed
    ensures ContinueWalk(w, armed, k, patience) == Hit(j)
    decreases patience
  {
    ExitIsTerminal(w, k, j);
    if k < j {
      NoMissedBreakpoint(w, armed, k + 1, j, patience - 1);
    }
  }

  // ---------------------------------------------------------------- step

  /** Where `s` is: position, whether it has just trapped there, and the breakpoints still in place. */
  datatype Stepping = Stepping(k: nat, trapped: bool, armed: set<Word>)

  /**
   * One machine step of `s`. A breakpoint that traps is lifted for the rest of the command, so each one costs at
   * most one step that does not advance the program.
   */
  function StepMove(w: World, s: Stepping): Stepping {
    if !Live(w, s.k) then s
    else if s.trapped then Stepping(s.k + 1, false, s.armed - {Pc(w, s.k)})
    else if Pc(w, s.k) in s.armed then s.(trapped := true)
    else s.(k := s.k + 1)
  }

  function StepMoves(w: World, s: Stepping, n: nat): Stepping {
    if n == 0 then s else StepMove(w, StepMoves(w, s, n - 1))
  }

  /** Stepping never goes back along the run and never puts a breakpoint back. */
  lemma {:induction false} StepVisitsInOrder(w: World, s: Stepping, m: nat, n: nat)
    requires m <= n
    ensures StepMoves(w, s, m).k <= StepMoves(w, s, n).k
    ensures StepMoves(w, s, n).armed <= StepMoves(w, s, m).armed
    decreases n - m
  {
    if m < n {
      StepVisitsInOrder(w, s, m, n - 1);
    }
  }

  /** No position between the first and the last is skipped. */
  lemma {:induction false} StepSkipsNothing(w: World, s: Stepping, n: nat, j: nat) returns (i: nat)
    requires s.k <= j <= StepMoves(w, s, n).k
    ensures i <= n && StepMoves(w, s, i).k == j
  {
    if n == 0 || StepMoves(w, s, n).k == j {
      i := n;
    } else {
      i := StepSkipsNothing(w, s, n - 1, j);
    }
  }

  function Ones(b: bool): nat {
    if b then 1 else 0
  }

  /**
   * No step is spent twice: of n single steps of a live process, each either executes one instruction of the program
   * or is the trap of a breakpoint, which is then lifted by the step after it.
   */
  lemma {:induction false} StepAccounts(w: World, s: Stepping, n: nat)
    requires s.trapped ==> Live(w, s.k) && Pc(w, s.k) in s.armed
    requires n > 0 ==> Live(w, StepMoves(w, s, n - 1).k)
    ensures var e := StepMoves(w, s, n);
            && (e.trapped ==> Live(w, e.k) && Pc(w, e.k) in e.armed)
            && (e.k - s.k) + (|s.armed| - |e.armed|) + Ones(e.trapped) - Ones(s.trapped) == n
  {
    if n > 1 {
      StepVisitsInOrder(w, s, n - 2, n - 1);
      ExitIsTerminal(w, StepMoves(w, s, n - 2).k, StepMoves(w, s, n - 1).k);
    }
    if n > 0 {
      StepAccounts(w, s, n - 1);
    }
  }

  ghost predicate TrappedOn(w: World, s: Stepping, x: Word) {
    s.trapped && Live(w, s.k) && Pc(w, s.k) == x
  }

  /** During `s` a breakpoint is out of the text exactly when it has trapped earlier in the same command. */
  lemma {:induction false} LiftedExactly(w: World, s: Stepping, n: nat, x: Word)
    requires Live(w, StepMoves(w, s, n).k) && x in s.armed
    ensures x !in StepMoves(w, s, n).armed <==> exists i: nat :: i < n && TrappedOn(w, StepMoves(w, s, i), x)
  {
    if n > 0 {
      var e := StepMoves(w, s, n - 1);
      StepVisitsInOrder(w, s, n - 1, n);
      ExitIsTerminal(w, e.k, StepMoves(w, s, n).k);
      LiftedExactly(w, s, n - 1, x);
      if TrappedOn(w, e, x) {
        assert x !in StepMoves(w, s, n).armed;
      }
    }
  }

  /** The run executes the instruction at x at position i. */
  ghost predicate Executes(w: World, i: nat, x: Word) {
    Live(w, i) && Pc(w, i) == x
  }

  /** One step takes a breakpoint out, or finds it out, exactly when it executes its address. */
  lemma LiftedNext(w: World, e: Stepping, x: Word)
    requires Live(w, e.k)
    ensures var f := StepMove(w, e);
            && (f.k == e.k || f.k == e.k + 1)
            && (x !in f.armed <==> x !in e.armed || (f.k == e.k + 1 && Executes(w, e.k, x)))
  {
  }

  /** During `s` a breakpoint is out of the text exactly when its address has been executed since the start. */
  lemma {:induction false} LiftedWhenPassed(w: World, s: Stepping, n: nat, x: Word)
    requires Live(w, StepMoves(w, s, n).k) && x in s.armed && (s.trapped ==> Live(w, s.k) && Pc(w, s.k) in s.armed)
    ensures x !in StepMoves(w, s, n).armed <==> exists i: nat :: s.k <= i < StepMoves(w, s, n).k && Executes(w, i, x)
  {
    if n > 0 {
      var e, f := StepMoves(w, s, n - 1), StepMoves(w, s, n);
      StepVisitsInOrder(w, s, 0, n - 1);
      StepVisitsInOrder(w, s, n - 1, n);
      ExitIsTerminal(w, e.k, f.k);
      LiftedWhenPassed(w, s, n - 1, x);
      LiftedNext(w, e, x);
    }
  }

  /**
   * `s` goes past a breakpoint without trapping exactly when the run has executed its address since the command
   * started; otherwise the step from its address is the trap.
   */
  lemma StepPassesExactly(w: World, s: Stepping, n: nat)
    requires s.trapped ==> Live(w, s.k) && Pc(w, s.k) in s.armed
    requires var e := StepMoves(w, s, n); Live(w, e.k) && !e.trapped && Pc(w, e.k) in s.armed
    ensures var e, f := StepMoves(w, s, n), StepMoves(w, s, n + 1);
            && (f == Stepping(e.k + 1, false, e.armed) <==>
                exists i: nat :: s.k <= i < e.k && Executes(w, i, Pc(w, e.k)))
            && (f != Stepping(e.k + 1, false, e.armed) ==> f == e.(trapped := true))
  {
    LiftedWhenPassed(w, s, n, Pc(w, StepMoves(w, s, n).k));
  }

  // ---------------------------------------------------------------- next

  /** Where `n` is: position, whether it has just trapped, and the return address of a call being run through. */
  datatype Nexting = Nexting(k: nat, trapped: bool, returnTo: Option<Word>)

  /** What `n` decodes at a position: a breakpoint still in place reads as a one-byte non-call. */
  function Decoded(w: World, armed: set<Word>, k: nat): Option<Inst>
    requires Live(w, k)
  {
    if Pc(w, k) !in armed then DecodeAt(w.isa, w.text, Pc(w, k))
    else if Mapped(w.text, Pc(w, k), WINDOW) then Some(TRAP)
    else None
  }

  /** One machine step: a trap where a breakpoint is in place, else one instruction of the program. */
  function SingleStep(w: World, armed: set<Word>, s: Nexting): Nexting
    requires Live(w, s.k)
  {
    if Pc(w, s.k) in armed then s.(trapped := true) else s.(k := s.k + 1)
  }

  /** One turn of the loop of `n`. It does not move when trapped, exited or undecodable. */
  function NextMove(w: World, armed: set<Word>, s: Nexting): Nexting {
    if !Live(w, s.k) || s.trapped then s
    else match s.returnTo
         case Some(ret) =>
           if Pc(w, s.k) == ret then s.(returnTo := None) else SingleStep(w, armed, s)
         case None =>
           match Decoded(w, armed, s.k)
           case None => s
           case Some(inst) =>
             if inst.call then s.(returnTo := Some(Wrap(Pc(w, s.k) + inst.len))) else SingleStep(w, armed, s)
  }

  /** The address whose line the turn compares with the starting line, if it makes the comparison. */
  function NextQuery(w: World, armed: set<Word>, s: Nexting): Option<Word> {
    if !Live(w, s.k) || s.trapped then None
    else match s.returnTo
         case Some(ret) => if Pc(w, s.k) == ret then Some(ret) else None
         case None =>
           match Decoded(w, armed, s.k)
           case None => None
           case Some(inst) =>
             if inst.call || !Live(w, NextMove(w, armed, s).k) then None else Some(Wrap(Pc(w, s.k) + inst.len))
  }

  function NextMoves(w: World, armed: set<Word>, s: Nexting, n: nat): Nexting {
    if n == 0 then s else NextMove(w, armed, NextMoves(w, armed, s, n - 1))
  }

  lemma {:induction false} NextVisitsInOrder(w: World, armed: set<Word>, s: Nexting, m: nat, n: nat)
    requires m <= n
    ensures NextMoves(w, armed, s, m).k <= NextMoves(w, armed, s, n).k
    decreases n - m
  {
    if m < n {
      NextVisitsInOrder(w, armed, s, m, n - 1);
    }
  }

  /** A trap can only be at a breakpoint in place. */
  lemma {:induction false} NextTrapsAtArmed(w: World, armed: set<Word>, s: Nexting, n: nat)
    requires !s.trapped
    ensures var e := NextMoves(w, armed, s, n); e.trapped ==> Live(w, e.k) && Pc(w, e.k) in armed
  {
    if n > 0 {
      NextTrapsAtArmed(w, armed, s, n - 1);
    }
  }

  /**
   * A whole `n` goes past a breakpoint without trapping exactly when it is the one the command started on: of the
   * positions it has executed only those at the starting address carry a listed breakpoint, and only if the process
   * was trapped there at the start; and it never traps on that one.
   */
  lemma {:induction false} NextPassesStart(w: World, listed: set<Word>, k: nat, trapped: bool, n: nat)
    requires Live(w, k)
    ensures var e := NextMoves(w, listed - (if trapped then {Pc(w, k)} else {}), Nexting(k, false, None), n);
            && (forall j :: k <= j < e.k && Live(w, j) && Pc(w, j) in listed ==> trapped && Pc(w, j) == Pc(w, k))
            && (e.trapped ==> Live(w, e.k) && Pc(w, e.k) in listed && !(trapped && Pc(w, e.k) == Pc(w, k)))
  {
    if n > 0 {
      NextPassesStart(w, listed, k, trapped, n - 1);
    }
  }

  // ---------------------------------------------------------------- step-over and call depth

  ghost predicate IsCall(w: World, k: nat)
    requires Live(w, k)
  {
    DecodeAt(w.isa, w.text, Pc(w, k)).Some? && DecodeAt(w.isa, w.text, Pc(w, k)).value.call
  }

  function ReturnAddress(w: World, k: nat): Word
    requires Live(w, k) && DecodeAt(w.isa, w.text, Pc(w, k)).Some?
  {
    Wrap(Pc(w, k) + DecodeAt(w.isa, w.text, Pc(w, k)).value.len)
  }

  /** Control is at the return address of call c for the first time. */
  ghost predicate FirstReturn(w: World, c: nat, j: nat)
    requires c < j && Live(w, c) && Live(w, j) && IsCall(w, c)
  {
    Pc(w, j) == ReturnAddress(w, c) && forall i :: c < i < j && Live(w, i) ==> Pc(w, i) != ReturnAddress(w, c)
  }

  /** No breakpoint in place stops the run between c and j. */
  ghost predicate Unstopped(w: World, armed: set<Word>, c: nat, j: nat) {
    forall i :: c <= i < j && Live(w, i) ==> Pc(w, i) !in armed
  }

  /** Executing a plain instruction at i does not go deeper. */
  ghost predicate PlainLevel(w: World, armed: set<Word>, depth: nat -> int, i: nat) {
    Live(w, i) && Live(w, i + 1) && Pc(w, i) !in armed && DecodeAt(w.isa, w.text, Pc(w, i)).Some? && !IsCall(w, i) ==>
      depth(i + 1) <= depth(i)
  }

  /** Control first reaches the return address of call c at j, with no stop on the way. */
  ghost predicate ComesBack(w: World, armed: set<Word>, c: nat, j: nat) {
    c < j && Live(w, c) && Live(w, j) && IsCall(w, c) && FirstReturn(w, c, j) && Unstopped(w, armed, c, j)
  }

  /** When control first reaches the return address of call c, it is back in the caller of c. */
  ghost predicate CallLevel(w: World, armed: set<Word>, depth: nat -> int, c: nat, j: nat) {
    ComesBack(w, armed, c, j) ==> depth(j) <= depth(c)
  }

  /**
   * The stretch of the run from k to m keeps to the call depth, as far as a command that starts at k can tell: only
   * calls go deeper, and a call's site is not re-entered before the call returns. What happens below the starting
   * depth, such as recursion inside a function that is stepped over, is left free.
   */
  ghost predicate CallDiscipline(w: World, armed: set<Word>, depth: nat -> int, k: nat, m: nat) {
    && (forall i: nat :: k <= i < m && depth(i) <= depth(k) ==> PlainLevel(w, armed, depth, i))
    && (forall c: nat, j: nat :: k <= c < j <= m && depth(c) <= depth(k) ==> CallLevel(w, armed, depth, c, j))
  }

  /** A call is being run through: made at c, no deeper than k0, and not back before position k. */
  ghost predicate Calling(w: World, armed: set<Word>, depth: nat -> int, k0: nat, k: nat, ret: Word, c: nat) {
    && k0 <= c <= k && Live(w, c) && IsCall(w, c) && depth(c) <= depth(k0) && ret == ReturnAddress(w, c)
    && Unstopped(w, armed, c, k)
    && forall i :: c < i < k && Live(w, i) ==> Pc(w, i) != ret
  }

  ghost predicate DepthKept(w: World, armed: set<Word>, depth: nat -> int, k0: nat, s: Nexting) {
    || s.trapped
    || !Live(w, s.k)
    || match s.returnTo
       case None => k0 <= s.k && depth(s.k) <= depth(k0)
       case Some(ret) => exists c :: Calling(w, armed, depth, k0, s.k, ret, c)
  }

  lemma CallDoesNotReturnToItself(w: World, k: nat)
    requires Local(w.isa) && Live(w, k) && IsCall(w, k)
    ensures ReturnAddress(w, k) != Pc(w, k)
  {
    assert 1 <= DecodeAt(w.isa, w.text, Pc(w, k)).value.len <= 15;
  }

  /** `n` makes progress: within three turns it traps or executes an instruction, unless it cannot decode one. */
  lemma NextAdvances(w: World, armed: set<Word>, s: Nexting)
    requires Local(w.isa) && Live(w, s.k) && !s.trapped && Decoded(w, armed, s.k).Some?
    ensures var e := NextMoves(w, armed, s, 3); e.trapped || e.k > s.k
  {
    var s1 := NextMove(w, armed, s);
    var s2 := NextMove(w, armed, s1);
    assert NextMoves(w, armed, s, 0) == s;
    assert NextMoves(w, armed, s, 1) == s1;
    assert NextMoves(w, armed, s, 2) == s2;
    if Decoded(w, armed, s.k).value.call {
      CallDoesNotReturnToItself(w, s.k);
    }
  }

  /** While a call is run through, a turn traps, goes on or comes back at a kept depth. */
  lemma CallKeepsDepth(
      w: World, armed: set<Word>, depth: nat -> int, k0: nat, m: nat, s: Nexting, c: nat)
    requires Local(w.isa) && s.k <= m && CallDiscipline(w, armed, depth, k0, m)
    requires !s.trapped && Live(w, s.k) && s.returnTo.Some?
    requires Calling(w, armed, depth, k0, s.k, s.returnTo.value, c)
    ensures DepthKept(w, armed, depth, k0, NextMove(w, armed, s))
  {
    var ret := s.returnTo.value;
    CallDoesNotReturnToItself(w, c);
    if Pc(w, s.k) == ret {
      assert ComesBack(w, armed, c, s.k) && CallLevel(w, armed, depth, c, s.k);
    } else if Pc(w, s.k) !in armed {
      assert Calling(w, armed, depth, k0, s.k + 1, ret, c);
    }
  }

  lemma MoveKeepsDepth(
      w: World, armed: set<Word>, depth: nat -> int, k0: nat, m: nat, s: Nexting)
    requires Local(w.isa) && NextMove(w, armed, s).k <= m && CallDiscipline(w, armed, depth, k0, m)
    requires DepthKept(w, armed, depth, k0, s)
    ensures DepthKept(w, armed, depth, k0, NextMove(w, armed, s))
  {
    var e := NextMove(w, armed, s);
    if Live(w, s.k) && !s.trapped {
      if s.returnTo.Some? {
        var c: nat :| Calling(w, armed, depth, k0, s.k, s.returnTo.value, c);
        CallKeepsDepth(w, armed, depth, k0, m, s, c);
      } else if e.returnTo.Some? {
        assert Calling(w, armed, depth, k0, s.k, e.returnTo.value, s.k);
      } else if e.k == s.k + 1 {
        assert PlainLevel(w, armed, depth, s.k);
      }
    }
  }

  lemma {:induction false} NextKeepsDepth(w: World, armed: set<Word>, depth: nat -> int, k: nat, m: nat, n: nat)
    requires Local(w.isa) && NextMoves(w, armed, Nexting(k, false, None), n).k <= m
    requires CallDiscipline(w, armed, depth, k, m)
    ensures DepthKept(w, armed, depth, k, NextMoves(w, armed, Nexting(k, false, None), n))
  {
    if n > 0 {
      NextKeepsDepth(w, armed, depth, k, m, n - 1);
      MoveKeepsDepth(w, armed, depth, k, m, NextMoves(w, armed, Nexting(k, false, None), n - 1));
    }
  }

  /** If turn n of a command that starts at k compares lines, it leaves the process trapped, gone or no deeper. */
  ghost predicate Shallow(w: World, armed: set<Word>, depth: nat -> int, k: nat, n: nat) {
    NextQuery(w, armed, NextMoves(w, armed, Nexting(k, false, None), n)).Some? ==>
      var e := NextMoves(w, armed, Nexting(k, false, None), n + 1);
      e.trapped || !Live(w, e.k) || depth(e.k) <= depth(k)
  }

  /**
   * Step-over: `n` never stops deeper than it started unless a breakpoint trapped, when the stretch of the run that it
   * goes over keeps to the call depth.
   */
  lemma NextStaysShallow(w: World, armed: set<Word>, depth: nat -> int, k: nat, n: nat)
    requires Local(w.isa)
    requires CallDiscipline(w, armed, depth, k, NextMoves(w, armed, Nexting(k, false, None), n + 1).k)
    ensures Shallow(w, armed, depth, k, n)
  {
    NextKeepsDepth(w, armed, depth, k, NextMoves(w, armed, Nexting(k, false, None), n + 1).k, n + 1);
  }

  lemma RunsOn(w: World, armed: set<Word>, i: nat, ret: Word)
    requires Live(w, i) && Pc(w, i) !in armed && Pc(w, i) != ret
    ensures NextMove(w, armed, Nexting(i, false, Some(ret))) == Nexting(i + 1, false, Some(ret))
    ensures NextQuery(w, armed, Nexting(i, false, Some(ret))) == None
  {
  }

  lemma CallBegins(w: World, armed: set<Word>, c: nat)
    requires Live(w, c) && IsCall(w, c) && Pc(w, c) !in armed
    ensures NextMoves(w, armed, Nexting(c, false, None), 0) == Nexting(c, false, None)
    ensures NextMoves(w, armed, Nexting(c, false, None), 1) == Nexting(c, false, Some(ReturnAddress(w, c)))
    ensures NextQuery(w, armed, Nexting(c, false, None)) == None
  {
    assert NextMoves(w, armed, Nexting(c, false, None), 0) == Nexting(c, false, None);
  }

  /** After a call at c the walk is still running through it for as long as control has not reached its return. */
  lemma {:induction false} WalkThroughCall(w: World, armed: set<Word>, c: nat, i: nat)
    requires c <= i && Live(w, i) && Live(w, c) && IsCall(w, c) && Unstopped(w, armed, c, i) && Pc(w, c) !in armed
    requires Local(w.isa) && forall h :: c < h < i && Live(w, h) ==> Pc(w, h) != ReturnAddress(w, c)
    ensures NextMoves(w, armed, Nexting(c, false, None), 1 + i - c) == Nexting(i, false, Some(ReturnAddress(w, c)))
    decreases i - c
  {
    CallBegins(w, armed, c);
    if i > c {
      ExitIsTerminal(w, i - 1, i);
      WalkThroughCall(w, armed, c, i - 1);
      CallDoesNotReturnToItself(w, c);
      RunsOn(w, armed, i - 1, ReturnAddress(w, c));
    }
  }

  /** The first turns of `n` started on a call compare no lines. */
  lemma WalkWaits(w: World, armed: set<Word>, c: nat, j: nat, i: nat)
    requires Local(w.isa) && ComesBack(w, armed, c, j) && i < 1 + j - c
    ensures NextQuery(w, armed, NextMoves(w, armed, Nexting(c, false, None), i)) == None
  {
    if i > 0 {
      ExitIsTerminal(w, c + i - 1, j);
      WalkThroughCall(w, armed, c, c + i - 1);
      CallDoesNotReturnToItself(w, c);
      RunsOn(w, armed, c + i - 1, ReturnAddress(w, c));
    } else {
      CallBegins(w, armed, c);
    }
  }

  lemma {:induction false} NextMovesOn(w: World, armed: set<Word>, s: Nexting, m: nat, n: nat)
    requires n == m + 1
    ensures NextMoves(w, armed, s, n) == NextMove(w, armed, NextMoves(w, armed, s, m))
  {
  }

  /** Turn i of `n` started on a call takes it on to position c + i. */
  lemma {:induction false} CallTurn(w: World, armed: set<Word>, c: nat, j: nat, i: nat)
    requires Local(w.isa) && ComesBack(w, armed, c, j) && i < 1 + j - c
    ensures NextMove(w, armed, NextMoves(w, armed, Nexting(c, false, None), i)) ==
            Nexting(c + i, false, Some(ReturnAddress(w, c)))
    ensures Live(w, c + i)
  {
    ExitIsTerminal(w, c + i, j);
    WalkThroughCall(w, armed, c, c + i);
    NextMovesOn(w, armed, Nexting(c, false, None), i, 1 + (c + i) - c);
  }

  /** `n` started on a call first compares lines where control first reaches the return address. */
  lemma WalkReturns(w: World, armed: set<Word>, c: nat, j: nat)
    requires Local(w.isa) && ComesBack(w, armed, c, j)
    ensures var at := NextMoves(w, armed, Nexting(c, false, None), 1 + j - c);
            NextQuery(w, armed, at) == Some(ReturnAddress(w, c)) && NextMove(w, armed, at) == Nexting(j, false, None)
  {
    WalkThroughCall(w, armed, c, j);
  }

  ghost predicate KeepsLevels(w: World, armed: set<Word>, depth: nat -> int) {
    && (forall i: nat :: PlainLevel(w, armed, depth, i))
    && (forall c: nat, j: nat :: CallLevel(w, armed, depth, c, j))
  }

  /**
   * Exactly when step-over works: every `n` from every position stops trapped, gone or no deeper, if and only if every
   * plain instruction it can step keeps its level and every call it can step over first reaches its return address
   * when it returns.
   */
  lemma StepOverExactly(w: World, armed: set<Word>, depth: nat -> int)
    requires Local(w.isa)
    ensures (forall k: nat, n: nat :: Shallow(w, armed, depth, k, n)) <==> KeepsLevels(w, armed, depth)
  {
    if KeepsLevels(w, armed, depth) {
      forall k: nat, n: nat
        ensures Shallow(w, armed, depth, k, n)
      {
        NextStaysShallow(w, armed, depth, k, n);
      }
    }
    if forall k: nat, n: nat :: Shallow(w, armed, depth, k, n) {
      forall i: nat
        ensures PlainLevel(w, armed, depth, i)
      {
        assert Shallow(w, armed, depth, i, 0);
        assert NextMoves(w, armed, Nexting(i, false, None), 0) == Nexting(i, false, None);
      }
      forall c: nat, j: nat
        ensures CallLevel(w, armed, depth, c, j)
      {
        if ComesBack(w, armed, c, j) {
          WalkReturns(w, armed, c, j);
          assert Shallow(w, armed, depth, c, 1 + j - c);
        }
      }
    }
  }

  // ---------------------------------------------------------------- recursion

  function Registers(left: Word, frames: Word): Context {
    Context(map[0 := left, 1 := frames], map[])
  }

  function RecursiveStep(m: Memory, pc: Word, ctx: Context): State {
    var left, frames := RegisterOf(ctx, 0), RegisterOf(ctx, 1);
    if pc !in m then Exited
    else if m[pc] == 0xE8 then Running(5, Registers(left, Succ(frames)))
    else if m[pc] == 0x75 && left > 0 then Running(0, Registers(left - 1, frames))
    else if m[pc] == 0x75 then Running(1, ctx)
    else if m[pc] == 0xC3 && frames > 0 then Running(1, Registers(left, frames - 1))
    else Exited
  }

  function RecursiveDecode(m: Memory, pc: Word): Option<Inst> {
    if pc !in m then None
    else if m[pc] == INT3 then Some(TRAP)
    else Some(Inst(1, m[pc] == 0xE8, if m[pc] == 0xE8 then "CALL" else if m[pc] == 0x75 then "JNE" else "RET"))
  }

  /**
   * A recursive function at 5 whose only call of itself is at 0. Register 0 counts the calls still to be made and
   * register 1 the frames: E8 calls, 75 goes to the call site or to the return, C3 returns to 1 or ends the program.
   */
  function Recursive(calls: Word): World {
    World(
      Isa((m, pc) => 1, RecursiveStep, RecursiveDecode),
      Page(map[0 := 0xE8, 1 := 0xC3, 5 := 0x75]),
      Running(0, Registers(calls, 0)))
  }

  /** The number of frames on the stack. */
  function Frames(w: World, k: nat): int {
    if Live(w, k) then RegisterOf(Run(w, k).ctx, 1) else 0
  }

  lemma RecursiveRun()
    ensures var w := Recursive(1);
            && Run(w, 0) == Running(0, Registers(1, 0)) && Run(w, 1) == Running(5, Registers(1, 1))
            && Run(w, 2) == Running(0, Registers(0, 1)) && Run(w, 3) == Running(5, Registers(0, 2))
            && Run(w, 4) == Running(1, Registers(0, 2))
  {
    var w := Recursive(1);
    assert Run(w, 0) == Running(0, Registers(1, 0));
    assert Run(w, 1) == Running(5, Registers(1, 1));
    assert Run(w, 2) == Running(0, Registers(0, 1));
    assert Run(w, 3) == Running(5, Registers(0, 2));
  }

  lemma RecursiveIsTame(calls: Word)
    ensures Local(Recursive(calls).isa) && Clean(Recursive(calls))
  {
    var w := Recursive(calls);
    forall m: Memory, m': Memory, pc: Word | Agree(m, m', pc, w.isa.size(m, pc))
      ensures w.isa.decode(m', pc) == w.isa.decode(m, pc)
      ensures forall ctx :: w.isa.exec(m', pc, ctx) == w.isa.exec(m, pc, ctx)
    {
      assert pc <= pc < pc + 1;
    }
  }

  lemma RecursiveDecodes(calls: Word)
    ensures DecodeAt(Recursive(calls).isa, Recursive(calls).text, 0) == Some(Inst(1, true, "CALL"))
  {
    assert Mapped(Recursive(calls).text, 0, WINDOW);
  }

  lemma RecursiveCall()
    ensures var w := Recursive(1);
            && (forall k :: 0 <= k <= 4 ==> Live(w, k))
            && Pc(w, 0) == 0 && IsCall(w, 0) && ReturnAddress(w, 0) == 1 && ComesBack(w, {}, 0, 4)
  {
    RecursiveRun();
    RecursiveDecodes(1);
    var w := Recursive(1);
    assert Pc(w, 0) == 0 && Pc(w, 1) == 5 && Pc(w, 2) == 0 && Pc(w, 3) == 5 && Pc(w, 4) == 1;
    assert IsCall(w, 0) && ReturnAddress(w, 0) == 1;
  }

  lemma RecursiveFrames()
    ensures Frames(Recursive(1), 0) == 0 && Frames(Recursive(1), 4) == 2
  {
    RecursiveRun();
  }

  /**
   * Over the recursive call made at position 0 `n` first compares lines at position 4, where control is at the return
   * address two calls down. That call is what breaks the discipline.
   */
  lemma RecursionComparesDeeper()
    ensures var w, depth := Recursive(1), (k: nat) => Frames(Recursive(1), k);
            && Local(w.isa) && Clean(w)
            && (forall i: nat :: i < 5 ==> NextQuery(w, {}, NextMoves(w, {}, Nexting(0, false, None), i)) == None)
            && NextQuery(w, {}, NextMoves(w, {}, Nexting(0, false, None), 5)) == Some(1)
            && NextMoves(w, {}, Nexting(0, false, None), 6) == Nexting(4, false, None)
            && depth(0) == 0 && depth(4) == 2
            && !CallLevel(w, {}, depth, 0, 4)
  {
    RecursiveIsTame(1);
    RecursiveCall();
    RecursiveFrames();
    forall i: nat | i < 5
      ensures NextQuery(Recursive(1), {}, NextMoves(Recursive(1), {}, Nexting(0, false, None), i)) == None
    {
      WalkWaits(Recursive(1), {}, 0, 4, i);
    }
    WalkReturns(Recursive(1), {}, 0, 4);
  }
}
