/** The traced process and the list of int3 breakpoints patched into it (breakpoint.go, register.go). */
module Breakpoints {
  import opened Words
  import opened Native
  import opened Ideal
  import opened LineIndex

  datatype Kind = UserBp | InternalBp

  /** One breakpoint; original is the byte the trap replaced. */
  datatype BInfo = BInfo(original: Byte, file: string, line: int, pc: Word, kind: Kind)

  function Pcs(infos: seq<BInfo>): set<Word> {
    set i | i in infos :: i.pc
  }

  /** The breakpoints of one kind, in list order. */
  function OfKind(infos: seq<BInfo>, kind: Kind): seq<BInfo> {
    if infos == [] then []
    else
      var n := |infos| - 1;
      OfKind(infos[..n], kind) + if infos[n].kind == kind then [infos[n]] else []
  }

  lemma {:induction false} OfKindMember(infos: seq<BInfo>, kind: Kind, v: BInfo)
    ensures v in OfKind(infos, kind) <==> v in infos && v.kind == kind
  {
    if infos != [] {
      var n := |infos| - 1;
      OfKindMember(infos[..n], kind, v);
      assert infos == infos[..n] + [infos[n]];
    }
  }

  ghost predicate Right(w: World, v: BInfo) {
    v.pc in w.text && v.original == w.text[v.pc]
  }

  /** The list is right for the text: addresses distinct, originals the pristine bytes. */
  ghost predicate Recorded(w: World, infos: seq<BInfo>) {
    && (forall i, j :: 0 <= i < j < |infos| ==> infos[i].pc != infos[j].pc)
    && (forall v :: v in infos ==> Right(w, v))
  }

  ghost predicate AllPatchable(w: World, infos: seq<BInfo>) {
    forall v :: v in infos ==> Patchable(w, v.pc)
  }

  /** The list is right for the program: right for its text, on addresses that may carry a breakpoint. */
  ghost predicate Sound(w: World, infos: seq<BInfo>) {
    Recorded(w, infos) && AllPatchable(w, infos)
  }

  /** Each user breakpoint is where the line table puts its file and line. */
  ghost predicate Addressed(raw: seq<LineEntry>, infos: seq<BInfo>) {
    forall v :: v in infos && v.kind == UserBp ==> BreakAddress(Select(raw, v.file, v.line)) == Some(v.pc)
  }

  /** The machine state is that of position k of the undebugged run, on the instruction or just trapped on it. */
  ghost predicate Stands(w: World, s: State, k: nat, trapped: bool) {
    (trapped ==> Live(w, k)) && s == Concrete(w, k, trapped)
  }

  /** As Stands, on a list of patchable addresses, one of which the process has trapped on if it has. */
  ghost predicate Standing(w: World, infos: seq<BInfo>, s: State, k: nat, trapped: bool) {
    AllPatchable(w, infos) && Stands(w, s, k, trapped) && (trapped ==> Pc(w, k) in Pcs(infos))
  }

  /** Assumptions on the program. */
  ghost predicate Tame(w: World) {
    Local(w.isa) && Clean(w)
  }

  // ---------------------------------------------------------------- the process

  /** PTRACE_CONT: runs until a trap or the exit; None when still running after that many instructions. */
  function Resume(isa: Isa, text: Memory, s: State, patience: nat): Option<State>
    decreases patience
  {
    if s.Exited? then Some(s)
    else if s.pc in text && text[s.pc] == INT3 then Some(CpuStep(isa, text, s))
    else if patience == 0 then None
    else Resume(isa, text, CpuStep(isa, text, s), patience - 1)
  }

  /** Every request fails once the process has exited. */
  class Process {
    const isa: Isa
    var text: Memory
    var state: State

    constructor (isa: Isa, text: Memory, state: State)
      ensures this.isa == isa && this.text == text && this.state == state
    {
      this.isa, this.text, this.state := isa, text, state;
    }

    /** The text of a living process is the pristine one with a trap at each armed address. */
    ghost predicate Holds(w: World, armed: set<Word>)
      reads this
    {
      isa == w.isa && (state.Running? ==> text == Patched(w.text, armed))
    }

    method Peek(addr: Word) returns (r: Option<Byte>)
      ensures r == if state.Running? && addr in text then Some(text[addr]) else None
    {
      r := if state.Running? && addr in text then Some(text[addr]) else None;
    }

    method Poke(addr: Word, b: Byte) returns (ok: bool)
      modifies this`text
      ensures ok == (state.Running? && addr in old(text))
      ensures text == if ok then old(text)[addr := b] else old(text)
    {
      ok := state.Running? && addr in text;
      if ok {
        text := text[addr := b];
      }
    }

    method GetPc() returns (r: Option<Word>)
      ensures r == if state.Running? then Some(state.pc) else None
    {
      r := if state.Running? then Some(state.pc) else None;
    }

    method SetPc(pc: Word) returns (ok: bool)
      modifies this`state
      ensures ok == old(state).Running?
      ensures state == if ok then old(state).(pc := pc) else old(state)
    {
      ok := state.Running?;
      if ok {
        state := state.(pc := pc);
      }
    }

    method SingleStep() returns (ok: bool)
      modifies this`state
      ensures ok == old(state).Running?
      ensures state == if ok then CpuStep(isa, text, old(state)) else old(state)
    {
      ok := state.Running?;
      if ok {
        state := CpuStep(isa, text, state);
      }
    }

    /** Resume and wait. blocked: the wait has not returned within that many instructions. */
    method Cont(patience: nat) returns (ok: bool, blocked: bool)
      modifies this`state
      ensures ok == old(state).Running?
      ensures blocked == Resume(isa, text, old(state), patience).None?
      ensures !blocked ==> state == Resume(isa, text, old(state), patience).value
    {
      if state.Exited? {
        return false, false;
      }
      ok := true;
      var left := patience;
      while state.Running? && !(state.pc in text && text[state.pc] == INT3)
        invariant Resume(isa, text, old(state), patience) == Resume(isa, text, state, left)
        decreases left
      {
        if left == 0 {
          return true, true;
        }
        state := CpuStep(isa, text, state);
        left := left - 1;
      }
      if state.Running? {
        state := CpuStep(isa, text, state);
      }
      blocked := false;
    }
  }

  // ---------------------------------------------------------------- facts about positions

  lemma SoundSites(w: World, infos: seq<BInfo>, x: Word)
    requires Sound(w, infos) && x in Pcs(infos)
    ensures x in w.text && Patchable(w, x)
  {
  }

  /** In a sound state the pc - 1 test finds a breakpoint exactly when the process has just trapped. */
  lemma TrapTest(w: World, infos: seq<BInfo>, k: nat, trapped: bool)
    requires Sound(w, infos) && Live(w, k) && (trapped ==> Pc(w, k) in Pcs(infos))
    ensures Pred(Concrete(w, k, trapped).pc) in Pcs(infos) <==> trapped
    ensures trapped ==> Pred(Concrete(w, k, trapped).pc) == Pc(w, k)
  {
    SuccPred(Pc(w, k));
    if !trapped && Pred(Pc(w, k)) in Pcs(infos) {
      SoundSites(w, infos, Pred(Pc(w, k)));
    }
  }

  /** A processor step from an untrapped position. */
  lemma MachineStep(w: World, infos: seq<BInfo>, armed: set<Word>, k: nat)
    requires Tame(w) && Sound(w, infos) && armed <= Pcs(infos) && Live(w, k)
    ensures CpuStep(w.isa, Patched(w.text, armed), Run(w, k)) ==
            if Pc(w, k) in armed then Concrete(w, k, true) else Concrete(w, k + 1, false)
  {
    forall x | x in armed
      ensures Patchable(w, x) && x in w.text
    {
      SoundSites(w, infos, x);
    }
    if Pc(w, k) in armed {
      PatchedTrap(w, armed, Run(w, k));
    } else {
      PatchedStep(w, armed, k);
    }
  }

  /** Decoding patched text at an untrapped position. */
  lemma MachineDecode(w: World, infos: seq<BInfo>, armed: set<Word>, k: nat)
    requires Tame(w) && Sound(w, infos) && armed <= Pcs(infos) && Live(w, k)
    ensures DecodeAt(w.isa, Patched(w.text, armed), Pc(w, k)) == Decoded(w, armed, k)
  {
    forall x | x in armed
      ensures Patchable(w, x) && x in w.text
    {
      SoundSites(w, infos, x);
    }
    if Pc(w, k) in armed {
      PatchedTrap(w, armed, Run(w, k));
    } else {
      PatchedStep(w, armed, k);
    }
  }

  /** Resuming the patched program does what the ideal debugger's walk to the next breakpoint does. */
  lemma {:induction false} ResumeIsWalk(w: World, infos: seq<BInfo>, k: nat, patience: nat)
    requires Tame(w) && Sound(w, infos)
    ensures Resume(w.isa, Patched(w.text, Pcs(infos)), Run(w, k), patience) ==
            match ContinueWalk(w, Pcs(infos), k, patience)
            case Hit(j) => if Live(w, j) then Some(Concrete(w, j, true)) else None
            case Gone(j) => Some(Exited)
            case Pending => None
    decreases patience
  {
    ContinueFindsFirst(w, Pcs(infos), k, patience);
    if Live(w, k) {
      MachineStep(w, infos, Pcs(infos), k);
      if Pc(w, k) in Pcs(infos) {
        SoundSites(w, infos, Pc(w, k));
      } else {
        assert !(Pc(w, k) in w.text && w.text[Pc(w, k)] == INT3);
        if patience > 0 {
          ResumeIsWalk(w, infos, k + 1, patience - 1);
        }
      }
    }
  }

  // ---------------------------------------------------------------- the breakpoint list

  /** Backs up a process with a breakpoint at pc - 1 and takes it over that instruction with the patch lifted. */
  function StepOver(w: World, armed: set<Word>, s: State): State {
    if s.Running? && Pred(s.pc) in armed
    then CpuStep(w.isa, Patched(w.text, armed - {Pred(s.pc)}), s.(pc := Pred(s.pc)))
    else s
  }

  /** The step-over executes exactly one instruction of the undebugged run if the process has trapped, else none. */
  lemma StepOverIsNative(w: World, infos: seq<BInfo>, s: State, k: nat, trapped: bool)
    requires Tame(w) && Recorded(w, infos) && Standing(w, infos, s, k, trapped)
    ensures Standing(w, infos, StepOver(w, Pcs(infos), s), if trapped then k + 1 else k, false)
  {
    if Live(w, k) {
      TrapTest(w, infos, k, trapped);
      if trapped {
        MachineStep(w, infos, Pcs(infos) - {Pc(w, k)}, k);
      }
    }
  }

  datatype SetReply = Set(info: BInfo) | HasExisted | NotFoundLine | PtraceError

  /** What setting a breakpoint does to the list. */
  ghost predicate SetOutcome(
      w: World, before: seq<BInfo>, pc: Word, file: string, line: int, kind: Kind, live: bool,
      r: SetReply, after: seq<BInfo>)
  {
    if pc in Pcs(before) then r == HasExisted && after == before
    else if !live || pc !in w.text then r == PtraceError && after == before
    else r == Set(BInfo(w.text[pc], file, line, pc, kind)) && after == before + [r.info]
  }

  lemma AddSite(w: World, infos: seq<BInfo>, v: BInfo)
    requires Recorded(w, infos) && Right(w, v) && v.pc !in Pcs(infos)
    ensures AllPatchable(w, infos + [v]) <==> AllPatchable(w, infos) && Patchable(w, v.pc)
    ensures Recorded(w, infos + [v]) && Pcs(infos + [v]) == Pcs(infos) + {v.pc}
    ensures Patched(w.text, Pcs(infos))[v.pc := INT3] == Patched(w.text, Pcs(infos + [v]))
  {
    PatchedDisarm(w.text, Pcs(infos), v.pc);
  }

  /** The list without the internal breakpoints at the given addresses. */
  function Survivors(infos: seq<BInfo>, gone: set<Word>): seq<BInfo> {
    if infos == [] then []
    else
      var n := |infos| - 1;
      Survivors(infos[..n], gone)
      + if infos[n].kind == InternalBp && infos[n].pc in gone then [] else [infos[n]]
  }

  lemma {:induction false} SurvivorsOfNone(infos: seq<BInfo>)
    ensures Survivors(infos, {}) == infos
  {
    if infos != [] {
      SurvivorsOfNone(infos[..|infos| - 1]);
    }
  }

  lemma {:induction false} SurvivorsUnion(infos: seq<BInfo>, a: set<Word>, b: set<Word>)
    ensures Survivors(Survivors(infos, a), b) == Survivors(infos, a + b)
  {
    if infos != [] {
      var n := |infos| - 1;
      SurvivorsUnion(infos[..n], a, b);
      var front := Survivors(infos[..n], a);
      if infos[n].kind == InternalBp && infos[n].pc in a {
        assert Survivors(infos, a) == front;
      } else {
        assert (front + [infos[n]])[..|front|] == front;
      }
    }
  }

  lemma PcsOfKindNext(infos: seq<BInfo>, i: nat, kind: Kind)
    requires i < |infos|
    ensures Pcs(OfKind(infos[..i + 1], kind)) ==
            Pcs(OfKind(infos[..i], kind)) + if infos[i].kind == kind then {infos[i].pc} else {}
  {
    assert infos[..i + 1][..i] == infos[..i];
  }

  lemma {:induction false} SurvivorsOfRestart(infos: seq<BInfo>, gone: set<Word>)
    requires Pcs(OfKind(infos, InternalBp)) <= gone
    ensures Survivors(infos, gone) == OfKind(infos, UserBp)
  {
    if infos != [] {
      var n := |infos| - 1;
      assert infos[..n + 1] == infos;
      PcsOfKindNext(infos, n, InternalBp);
      SurvivorsOfRestart(infos[..n], gone);
    }
  }

  lemma PatchedArm(text: Memory, armed: set<Word>, x: Word)
    ensures x in text ==> Patched(text, armed)[x := INT3] == Patched(text, armed + {x})
  {
  }

  lemma {:induction false} SurvivorsKeepUsers(infos: seq<BInfo>, gone: set<Word>)
    ensures OfKind(Survivors(infos, gone), UserBp) == OfKind(infos, UserBp)
  {
    if infos != [] {
      var n := |infos| - 1;
      SurvivorsKeepUsers(infos[..n], gone);
      var front := Survivors(infos[..n], gone);
      if infos[n].kind == InternalBp && infos[n].pc in gone {
        assert Survivors(infos, gone) == front;
      } else {
        assert (front + [infos[n]])[..|front|] == front;
      }
    }
  }

  /** What the restart has done to the list and the text after i entries. */
  ghost predicate RestartedTo(
      walked: seq<BInfo>, i: nat, text: Memory, live: bool, infos: seq<BInfo>, now: Memory)
    requires i <= |walked|
  {
    var users := Pcs(OfKind(walked[..i], UserBp));
    && infos == Survivors(walked, Pcs(OfKind(walked[..i], InternalBp)))
    && users <= text.Keys && now == Patched(text, users) && (live || OfKind(walked[..i], UserBp) == [])
  }

  lemma RestartBegins(walked: seq<BInfo>, text: Memory, live: bool)
    ensures RestartedTo(walked, 0, text, live, walked, text)
  {
    SurvivorsOfNone(walked);
    assert walked[..0] == [];
    assert Pcs([]) == {} && Patched(text, {}) == text;
  }

  lemma RestartInternal(
      walked: seq<BInfo>, i: nat, text: Memory, live: bool, infos: seq<BInfo>, now: Memory)
    requires i < |walked| && RestartedTo(walked, i, text, live, infos, now) && walked[i].kind == InternalBp
    ensures RestartedTo(walked, i + 1, text, live, Survivors(infos, {walked[i].pc}), now)
  {
    assert walked[..i + 1][..i] == walked[..i];
    PcsOfKindNext(walked, i, InternalBp);
    assert OfKind(walked[..i + 1], UserBp) == OfKind(walked[..i], UserBp);
    SurvivorsUnion(walked, Pcs(OfKind(walked[..i], InternalBp)), {walked[i].pc});
  }

  lemma RestartUser(
      walked: seq<BInfo>, i: nat, text: Memory, live: bool, infos: seq<BInfo>, now: Memory)
    requires i < |walked| && RestartedTo(walked, i, text, live, infos, now) && walked[i].kind == UserBp
    requires live && walked[i].pc in now
    ensures RestartedTo(walked, i + 1, text, live, infos, now[walked[i].pc := INT3])
  {
    assert walked[..i + 1][..i] == walked[..i];
    PcsOfKindNext(walked, i, UserBp);
    assert OfKind(walked[..i + 1], InternalBp) == OfKind(walked[..i], InternalBp);
    PatchedArm(text, Pcs(OfKind(walked[..i], UserBp)), walked[i].pc);
  }

  /** One turn of the restart loop, or why it fails. */
  lemma RestartStep(
      walked: seq<BInfo>, i: nat, text: Memory, live: bool, infos: seq<BInfo>, now: Memory)
    requires i < |walked| && RestartedTo(walked, i, text, live, infos, now)
    ensures var v := walked[i];
            if v.kind == InternalBp then RestartedTo(walked, i + 1, text, live, Survivors(infos, {v.pc}), now)
            else if live && v.pc in now then RestartedTo(walked, i + 1, text, live, infos, now[v.pc := INT3])
            else OfKind(walked, UserBp) != [] && !(live && Pcs(OfKind(walked, UserBp)) <= text.Keys)
  {
    var v := walked[i];
    if v.kind == InternalBp {
      RestartInternal(walked, i, text, live, infos, now);
    } else if live && v.pc in now {
      RestartUser(walked, i, text, live, infos, now);
    } else {
      OfKindMember(walked, UserBp, v);
      assert v.pc in Pcs(OfKind(walked, UserBp));
    }
  }

  lemma RestartEnds(walked: seq<BInfo>, text: Memory, live: bool, infos: seq<BInfo>, now: Memory)
    requires RestartedTo(walked, |walked|, text, live, infos, now)
    ensures infos == OfKind(walked, UserBp) && now == Patched(text, Pcs(infos)) && Pcs(infos) <= text.Keys
    ensures live || infos == []
  {
    assert walked[..|walked|] == walked;
    SurvivorsOfRestart(walked, Pcs(OfKind(walked, InternalBp)));
  }

  class BP {
    var infos: seq<BInfo>

    constructor ()
      ensures infos == []
    {
      infos := [];
    }

    method FindBreakPoint(pc: Word) returns (r: Option<BInfo>)
      ensures r.None? <==> pc !in Pcs(infos)
      ensures r.Some? ==> r.value in infos && r.value.pc == pc
    {
      for i := 0 to |infos|
        invariant forall j :: 0 <= j < i ==> infos[j].pc != pc
      {
        if infos[i].pc == pc {
          return Some(infos[i]);
        }
      }
      r := None;
    }

    method EnableBreakPoint(p: Process, info: BInfo) returns (ok: bool)
      modifies p`text
      ensures ok == (p.state.Running? && info.pc in old(p.text))
      ensures p.text == if ok then old(p.text)[info.pc := INT3] else old(p.text)
    {
      ok := p.Poke(info.pc, INT3);
    }

    method DisableBreakPoint(p: Process, info: BInfo) returns (ok: bool)
      modifies p`text
      ensures ok == (p.state.Running? && info.pc in old(p.text))
      ensures p.text == if ok then old(p.text)[info.pc := info.original] else old(p.text)
    {
      ok := p.Poke(info.pc, info.original);
    }

    /** Patches pc and hands back the byte that was there; refuses an address already in the list. */
    method SetPcBreakPoint(p: Process, pc: Word) returns (r: Option<Byte>, existed: bool)
      modifies p`text
      ensures existed == (pc in Pcs(infos))
      ensures r == if !existed && p.state.Running? && pc in old(p.text) then Some(old(p.text)[pc]) else None
      ensures p.text == if r.Some? then old(p.text)[pc := INT3] else old(p.text)
    {
      var found := FindBreakPoint(pc);
      if found.Some? {
        return None, true;
      }
      existed := false;
      r := p.Peek(pc);
      if r.Some? {
        var ok := p.Poke(pc, INT3);
      }
    }

    method SetInternalBreakPoint(p: Process, pc: Word, ghost w: World) returns (r: SetReply)
      requires Recorded(w, infos) && p.Holds(w, Pcs(infos))
      modifies this, p`text
      ensures Recorded(w, infos) && p.Holds(w, Pcs(infos))
      ensures SetOutcome(w, old(infos), pc, "", 0, InternalBp, p.state.Running?, r, infos)
      ensures AllPatchable(w, infos) <==> AllPatchable(w, old(infos)) && (r.Set? ==> Patchable(w, pc))
    {
      var original, existed := SetPcBreakPoint(p, pc);
      if original.None? {
        return if existed then HasExisted else PtraceError;
      }
      var info := BInfo(original.value, "", 0, pc, InternalBp);
      AddSite(w, infos, info);
      infos := infos + [info];
      r := Set(info);
    }

    /** The address comes from the line index; a breakpoint already there or a failing ptrace leaves all unchanged. */
    method SetFileLineBreakPoint(bi: BI, p: Process, file: string, line: int, ghost w: World) returns (r: SetReply)
      requires bi.Valid() && Recorded(w, infos) && Addressed(bi.raw, infos) && p.Holds(w, Pcs(infos))
      modifies this, p`text
      ensures Recorded(w, infos) && Addressed(bi.raw, infos) && p.Holds(w, Pcs(infos))
      ensures AllPatchable(w, infos) <==> AllPatchable(w, old(infos)) && (r.Set? ==> Patchable(w, r.info.pc))
      ensures match BreakAddress(Select(bi.raw, file, line))
              case None => r == NotFoundLine && infos == old(infos)
              case Some(a) => SetOutcome(w, old(infos), a, file, line, UserBp, p.state.Running?, r, infos)
    {
      var a := bi.FileLineToPcForBreakPoint(file, line);
      if a.None? {
        return NotFoundLine;
      }
      var original, existed := SetPcBreakPoint(p, a.value);
      if original.None? {
        return if existed then HasExisted else PtraceError;
      }
      var info := BInfo(original.value, file, line, a.value, UserBp);
      AddSite(w, infos, info);
      infos := infos + [info];
      r := Set(info);
    }

    /**
     * If a breakpoint sits at pc - 1, backs up and executes one instruction with the patch lifted, then the patch is
     * back. Otherwise the process is left alone.
     */
    method SingleStepInstructionWithBreakpointCheck(p: Process, ghost w: World) returns (ok: bool)
      requires Recorded(w, infos) && p.Holds(w, Pcs(infos))
      modifies p
      ensures p.Holds(w, Pcs(infos))
      ensures ok == old(p.state).Running?
      ensures p.state == StepOver(w, Pcs(infos), old(p.state))
    {
      var pc := p.GetPc();
      if pc.None? {
        return false;
      }
      var info := FindBreakPoint(Pred(pc.value));
      if info.None? {
        return true;
      }
      ghost var x := info.value.pc;
      ok := DisableBreakPoint(p, info.value);
      PatchedDisarm(w.text, Pcs(infos), x);
      ok := p.SetPc(Pred(pc.value));
      ok := p.SingleStep();
      PatchedDisarm(w.text, Pcs(infos) - {x}, x);
      assert Pcs(infos) - {x} + {x} == Pcs(infos);
      var enabled := EnableBreakPoint(p, info.value);
    }

    method ClearInternalBreakPoint(pc: Word)
      modifies this
      ensures infos == Survivors(old(infos), {pc})
    {
      var kept: seq<BInfo> := [];
      for i := 0 to |infos|
        invariant infos == old(infos) && kept == Survivors(infos[..i], {pc})
      {
        assert infos[..i + 1][..i] == infos[..i];
        if !(infos[i].kind == InternalBp && infos[i].pc == pc) {
          kept := kept + [infos[i]];
        }
      }
      assert infos[..|infos|] == infos;
      infos := kept;
    }

    method RestartEntry(p: Process, v: BInfo) returns (ok: bool)
      modifies this, p`text
      ensures ok == (v.kind == UserBp ==> p.state.Running? && v.pc in old(p.text))
      ensures infos == if v.kind == InternalBp then Survivors(old(infos), {v.pc}) else old(infos)
      ensures p.text == if ok && v.kind == UserBp then old(p.text)[v.pc := INT3] else old(p.text)
    {
      ok := true;
      if v.kind == InternalBp {
        ClearInternalBreakPoint(v.pc);
      }
      if v.kind == UserBp {
        ok := EnableBreakPoint(p, v);
      }
    }

    /**
     * On a fresh process, keeps the user breakpoints in order and patches exactly those. The list is replaced while
     * the original one is being walked. Without a process the first user breakpoint fails; none is ever lost.
     */
    method SetBpWhenRestart(p: Process) returns (ok: bool)
      modifies this, p`text
      ensures ok <==> OfKind(old(infos), UserBp) == [] ||
                      (p.state.Running? && Pcs(OfKind(old(infos), UserBp)) <= old(p.text).Keys)
      ensures OfKind(infos, UserBp) == OfKind(old(infos), UserBp)
      ensures ok ==> infos == OfKind(old(infos), UserBp) && p.text == Patched(old(p.text), Pcs(infos))
    {
      var walked := infos;
      RestartBegins(walked, p.text, p.state.Running?);
      for i := 0 to |walked|
        invariant RestartedTo(walked, i, old(p.text), p.state.Running?, infos, p.text)
      {
        RestartStep(walked, i, old(p.text), p.state.Running?, infos, p.text);
        SurvivorsKeepUsers(walked, Pcs(OfKind(walked[..i], InternalBp)));
        var done := RestartEntry(p, walked[i]);
        if !done {
          return false;
        }
      }
      RestartEnds(walked, old(p.text), p.state.Running?, infos, p.text);
      SurvivorsKeepUsers(walked, Pcs(OfKind(walked[..|walked|], InternalBp)));
      ok := true;
    }
  }
}
