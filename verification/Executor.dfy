/** The b, bc, bl, c, s and n commands (prompt.go), each proved to refine the ideal debugger's walk. */
module Executor {
  import opened Words
  import opened Native
  import opened Ideal
  import opened LineIndex
  import opened Breakpoints
  import FrameRecords
  import FrameLookup
  import Backtrace

  /** How a command ends. Blocked: it is still waiting or looping when patience runs out. */
  datatype Report = Stopped | ExitedNow | Failed | Blocked

  datatype ClearReply = Cleared | NoSuchIndex | NoProcess

  /** The address the pc register holds at a position. */
  function RealPc(w: World, k: nat, trapped: bool): Word
    requires Live(w, k)
  {
    Concrete(w, k, trapped).pc
  }

  // ---------------------------------------------------------------- what the commands promise

  datatype Command =
    | DoBreak(file: string, line: int) | DoClear(n: int) | DoClearAll | DoList
    | DoContinue(patience: nat) | DoStep(patience: nat) | DoNext(patience: nat)

  /**
   * The patch invariant: the saved bytes are the pristine ones at distinct addresses, each user breakpoint is where the
   * line table puts it, and a living process has pristine text but for a trap at each armed address of the list.
   */
  ghost predicate Patches(
      w: World, raw: seq<LineEntry>, infos: seq<BInfo>, text: Memory, state: State, armed: set<Word>)
  {
    && Recorded(w, infos) && Addressed(raw, infos) && armed <= Pcs(infos)
    && (state.Running? ==> text == Patched(w.text, armed))
  }

  /** The state with a trap undone: pc moved back when the byte before it is one of the sites. */
  function Rewind(s: State, sites: set<Word>): State {
    if s.Running? && Pred(s.pc) in sites then s.(pc := Pred(s.pc)) else s
  }

  /** What a command reports. */
  datatype Answer =
    | NoAnswer
    | Broke(reply: SetReply)
    | Removed(outcome: ClearReply)
    | Listed(listed: seq<BInfo>)
    | Moved(report: Report, shown: Location)

  /**
   * The machine and the breakpoint list between two commands, the position they stand for, and what the command before
   * has reported.
   */
  datatype Snapshot =
    Snapshot(infos: seq<BInfo>, text: Memory, state: State, k: nat, trapped: bool, answer: Answer)

  /** A command that ran the process: a place printed at a stop is that of the pc register. */
  ghost predicate Printed(raw: seq<LineEntry>, s: Snapshot) {
    s.answer.Moved? && s.answer.report == Stopped ==> s.state.Running? && Closest(raw, s.state.pc, s.answer.shown)
  }

  /** The patch invariant at a snapshot, and a place printed is that of pc. */
  ghost predicate Sane(w: World, raw: seq<LineEntry>, s: Snapshot) {
    Patches(w, raw, s.infos, s.text, s.state, Pcs(s.infos)) && Printed(raw, s)
  }

  ghost predicate Faithful(w: World, s: Snapshot) {
    Standing(w, s.infos, s.state, s.k, s.trapped)
  }

  /** Up to entry i of a session only patchable addresses have been listed. */
  ghost predicate PatchableTo(w: World, log: seq<Snapshot>, i: nat)
    requires i < |log|
  {
    forall j :: 0 <= j <= i ==> AllPatchable(w, log[j].infos)
  }

  /** Entry i of a session is faithful, at a position no earlier than those before. */
  ghost predicate Transparent(w: World, log: seq<Snapshot>, i: nat)
    requires i < |log|
  {
    Faithful(w, log[i]) && forall j :: 0 <= j <= i ==> log[j].k <= log[i].k
  }

  /** after is before without the entry that `bl` prints as n; entries keep their order. */
  ghost predicate WithoutNth(before: seq<BInfo>, n: int, after: seq<BInfo>) {
    exists i :: 0 <= i < |before| && before[i].kind == UserBp && |OfKind(before[..i], UserBp)| == n - 1
                && after == before[..i] + before[i + 1..]
  }

  /** The line lookup may answer with this place where the process stands. */
  ghost predicate ShowsAt(w: World, raw: seq<LineEntry>, s: Stepping, place: Location) {
    (s.trapped ==> Live(w, s.k)) && (Live(w, s.k) ==> Closest(raw, RealPc(w, s.k, s.trapped), place))
  }

  /** The line lookup may answer with another place than start. */
  ghost predicate ShowsOther(w: World, raw: seq<LineEntry>, s: Stepping, start: Location) {
    exists other :: other != start && ShowsAt(w, raw, s, other)
  }

  /** e is n single steps on from first, all taken from places that show the starting line. */
  ghost predicate StepPath(w: World, raw: seq<LineEntry>, first: Stepping, start: Location, n: nat, e: Stepping) {
    && e == StepMoves(w, first, n)
    && forall i :: 0 <= i < n ==> ShowsAt(w, raw, StepMoves(w, first, i), start)
  }

  lemma StepPathNext(
      w: World, raw: seq<LineEntry>, first: Stepping, start: Location, n: nat, e: Stepping)
    requires StepPath(w, raw, first, start, n, e) && ShowsAt(w, raw, e, start)
    ensures StepPath(w, raw, first, start, n + 1, StepMove(w, e))
  {
  }

  /**
   * `s` took n single steps along the run from first to e. Every place it stepped from shows the starting line, and
   * it stopped because the last one shows another, or because the program is gone.
   */
  ghost predicate StepResult(
      w: World, raw: seq<LineEntry>, first: Stepping, patience: nat, r: Report, start: Location, n: nat, e: Stepping)
  {
    && ShowsAt(w, raw, first, start)
    && StepPath(w, raw, first, start, n, e)
    && (r == Stopped ==> Live(w, e.k) && ShowsOther(w, raw, e, start))
    && (r == ExitedNow <==> !Live(w, e.k))
    && (r == Blocked ==> n == patience)
    && r != Failed
  }

  /** What `c` does to a process that stands at position k. */
  ghost predicate ContinueFollows(
      w: World, armed: set<Word>, k: nat, trapped: bool, patience: nat, r: Report, k': nat, trapped': bool)
  {
    if !Live(w, k) then r == Failed && k' == k && !trapped'
    else match ContinueWalk(w, armed, if trapped then k + 1 else k, patience)
         case Hit(j) => r == Stopped && k' == j && trapped'
         case Gone(j) => r == (if trapped && j == k + 1 then Failed else ExitedNow) && k' == j && !trapped'
         case Pending => r == Blocked
  }

  /** What `s` does to a process that stands at first; after is the state it leaves. */
  ghost predicate StepFollows(
      w: World, raw: seq<LineEntry>, infos: seq<BInfo>, first: Stepping, after: State, patience: nat, r: Report,
      start: Location, n: nat, e: Stepping)
  {
    && (!Live(w, first.k) ==> r == Failed && e == first)
    && (Live(w, first.k) ==> StepResult(w, raw, first, patience, r, start, n, e))
    && Standing(w, infos, after, e.k, e.trapped)
  }

  /** What a turn of `n` that does not begin trapped leads to. */
  ghost predicate TurnResult(
      w: World, raw: seq<LineEntry>, armed: set<Word>, s: Nexting, start: Location, stop: Option<Report>)
  {
    var f, q := NextMove(w, armed, s), NextQuery(w, armed, s);
    match stop
    case None => Live(w, f.k) && (q.Some? ==> Closest(raw, q.value, start))
    case Some(Stopped) => Live(w, f.k) && q.Some? && exists other :: other != start && Closest(raw, q.value, other)
    case Some(ExitedNow) => !Live(w, f.k)
    case Some(Failed) => Live(w, s.k) && s.returnTo == None && Decoded(w, armed, s.k) == None
    case Some(Blocked) => false
  }

  /** e is n turns on from first, none of which began trapped or gave a reason to stop. */
  ghost predicate NextPath(
      w: World, raw: seq<LineEntry>, armed: set<Word>, first: Nexting, start: Location, n: nat, e: Nexting)
  {
    && e == NextMoves(w, armed, first, n)
    && forall i :: 0 <= i < n ==> !NextMoves(w, armed, first, i).trapped
                                  && TurnResult(w, raw, armed, NextMoves(w, armed, first, i), start, None)
  }

  lemma NextPathNext(
      w: World, raw: seq<LineEntry>, armed: set<Word>, first: Nexting, start: Location, n: nat, e: Nexting)
    requires NextPath(w, raw, armed, first, start, n, e) && !e.trapped && TurnResult(w, raw, armed, e, start, None)
    ensures NextPath(w, raw, armed, first, start, n + 1, NextMove(w, armed, e))
  {
  }

  /** `n` ends trapped at e, or one turn after e for the reason that turn gave. */
  ghost predicate NextResult(
      w: World, raw: seq<LineEntry>, armed: set<Word>, first: Nexting, patience: nat, r: Report, start: Location,
      n: nat, e: Nexting, f: Nexting)
  {
    && NextPath(w, raw, armed, first, start, n, e)
    && if e.trapped && r == Stopped then f == e
       else if r == Blocked then n == patience && f == e
       else !e.trapped && f == NextMove(w, armed, e) && TurnResult(w, raw, armed, e, start, Some(r))
  }

  /** What `n` does to a process that stands at position k; after is the state it leaves. */
  ghost predicate NextFollows(
      w: World, raw: seq<LineEntry>, infos: seq<BInfo>, k: nat, trapped: bool, after: State, patience: nat, r: Report,
      start: Location, n: nat, e: Nexting, f: Nexting)
    requires trapped ==> Live(w, k)
  {
    && (!Live(w, k) ==> r == Failed && f.k == k && !f.trapped)
    && (Live(w, k) ==>
          && Closest(raw, Pc(w, k), start)
          && NextResult(w, raw, Pcs(infos) - (if trapped then {Pc(w, k)} else {}), Nexting(k, false, None),
                        patience, r, start, n, e, f))
    && Standing(w, infos, after, f.k, f.trapped)
  }

  lemma NextStops(
      w: World, raw: seq<LineEntry>, armed: set<Word>, first: Nexting, patience: nat, r: Report, start: Location,
      n: nat, e: Nexting)
    requires NextPath(w, raw, armed, first, start, n, e)
    requires if e.trapped then r == Stopped else TurnResult(w, raw, armed, e, start, Some(r))
    ensures NextResult(w, raw, armed, first, patience, r, start, n, e, NextMove(w, armed, e))
  {
  }

  // ---------------------------------------------------------------- what each command does to a snapshot

  /** `b`: the list grows by the address the line table gives, or the error says why not; the process stays. */
  ghost predicate BreakEffect(w: World, raw: seq<LineEntry>, file: string, line: int, a: Snapshot, b: Snapshot) {
    && b.answer.Broke? && b.state == a.state && b.k == a.k && b.trapped == a.trapped
    && match BreakAddress(Select(raw, file, line))
       case None => b.answer.reply == NotFoundLine && b.infos == a.infos
       case Some(at) => SetOutcome(w, a.infos, at, file, line, UserBp, a.state.Running?, b.answer.reply, b.infos)
  }

  /** Removing breakpoints takes a process standing one past a removed one back onto it. */
  ghost predicate TakenOff(a: Snapshot, b: Snapshot) {
    b.state == Rewind(a.state, Pcs(a.infos) - Pcs(b.infos)) && b.k == a.k
  }

  /** `bc n`: the n-th listed entry goes; without a process or such an entry nothing changes. */
  ghost predicate ClearEffect(n: int, a: Snapshot, b: Snapshot) {
    && TakenOff(a, b)
    && b.answer == Removed(if a.state.Exited? then NoProcess
                           else if 1 <= n <= |OfKind(a.infos, UserBp)| then Cleared
                           else NoSuchIndex)
    && if b.answer == Removed(Cleared) then WithoutNth(a.infos, n, b.infos) else b.infos == a.infos
  }

  /** `bc all`: the internal entries stay; without a process nothing changes. */
  ghost predicate ClearAllEffect(a: Snapshot, b: Snapshot) {
    && TakenOff(a, b)
    && b.answer == Removed(if a.state.Exited? then NoProcess else Cleared)
    && b.infos == if a.state.Exited? then a.infos else OfKind(a.infos, InternalBp)
  }

  /** `bl`: the user entries in order, and nothing changes. */
  ghost predicate ListEffect(a: Snapshot, b: Snapshot) {
    b == a.(answer := Listed(OfKind(a.infos, UserBp)))
  }

  /** `c`: over the breakpoint behind, then on to the next trap or the exit. */
  ghost predicate ContinueEffect(w: World, raw: seq<LineEntry>, patience: nat, a: Snapshot, b: Snapshot) {
    && b.infos == a.infos && b.answer.Moved? && Printed(raw, b)
    && (var over := StepOver(w, Pcs(a.infos), a.state);
        var resumed := Resume(w.isa, Patched(w.text, Pcs(a.infos)), over, patience);
        if over.Exited? then b.answer.report == Failed && b.state == over
        else resumed == Some(b.state) && b.answer.report == if b.state.Running? then Stopped else ExitedNow)
    && (Tame(w) && Faithful(w, a) ==>
          ContinueFollows(w, Pcs(a.infos), a.k, a.trapped, patience, b.answer.report, b.k, b.trapped))
  }

  ghost predicate StepReaches(w: World, raw: seq<LineEntry>, patience: nat, a: Snapshot, b: Snapshot)
    requires b.answer.Moved?
  {
    exists from, n, e ::
      StepFollows(w, raw, a.infos, Stepping(a.k, a.trapped, Pcs(a.infos)), b.state, patience, b.answer.report,
                  from, n, e)
      && b.k == e.k && b.trapped == e.trapped
  }

  /** `s`: the walk of single steps out of the starting line. */
  ghost predicate StepEffect(w: World, raw: seq<LineEntry>, patience: nat, a: Snapshot, b: Snapshot) {
    && b.infos == a.infos && b.answer.Moved? && Printed(raw, b)
    && (a.state.Exited? <==> b.answer.report == Failed) && (a.state.Exited? ==> b.state == a.state)
    && (Tame(w) && Faithful(w, a) ==> StepReaches(w, raw, patience, a, b))
  }

  ghost predicate NextReaches(w: World, raw: seq<LineEntry>, patience: nat, a: Snapshot, b: Snapshot)
    requires b.answer.Moved? && Faithful(w, a)
  {
    exists start, n, e, f ::
      NextFollows(w, raw, a.infos, a.k, a.trapped, b.state, patience, b.answer.report, start, n, e, f)
      && b.k == f.k && b.trapped == f.trapped
  }

  /** `n`: the walk that steps over calls. */
  ghost predicate NextEffect(w: World, raw: seq<LineEntry>, patience: nat, a: Snapshot, b: Snapshot) {
    && b.infos == a.infos && b.answer.Moved? && Printed(raw, b)
    && (a.state.Exited? ==> b.answer.report == Failed && b.state == a.state)
    && (Tame(w) && Faithful(w, a) ==> NextReaches(w, raw, patience, a, b))
  }

  /** What a command that returned has done, from one snapshot to the next. */
  ghost predicate Effect(w: World, raw: seq<LineEntry>, cmd: Command, a: Snapshot, b: Snapshot) {
    match cmd
    case DoBreak(file, line) => BreakEffect(w, raw, file, line, a, b)
    case DoClear(n) => ClearEffect(n, a, b)
    case DoClearAll => ClearAllEffect(a, b)
    case DoList => ListEffect(a, b)
    case DoContinue(patience) => ContinueEffect(w, raw, patience, a, b)
    case DoStep(patience) => StepEffect(w, raw, patience, a, b)
    case DoNext(patience) => NextEffect(w, raw, patience, a, b)
  }

  // ---------------------------------------------------------------- facts about the list

  lemma PcsFront(armed: set<Word>, infos: seq<BInfo>, i: nat)
    requires i < |infos|
    ensures armed + Pcs(infos[i..]) == armed + Pcs(infos[i + 1..]) + {infos[i].pc}
  {
    assert infos[i..] == [infos[i]] + infos[i + 1..];
  }

  lemma PcsConcat(a: seq<BInfo>, b: seq<BInfo>)
    ensures Pcs(a + b) == Pcs(a) + Pcs(b)
  {
  }

  lemma {:induction false} OfKindConcat(a: seq<BInfo>, b: seq<BInfo>, kind: Kind)
    ensures OfKind(a + b, kind) == OfKind(a, kind) + OfKind(b, kind)
  {
    if b == [] {
      assert a + b == a;
    } else {
      var n := |b| - 1;
      assert (a + b)[..|a| + n] == a + b[..n];
      OfKindConcat(a, b[..n], kind);
    }
  }

  lemma OfKindWithout(infos: seq<BInfo>, i: nat, kind: Kind)
    requires i < |infos|
    ensures OfKind(infos, kind) ==
            OfKind(infos[..i], kind) + (if infos[i].kind == kind then [infos[i]] else []) + OfKind(infos[i + 1..], kind)
    ensures OfKind(infos[..i] + infos[i + 1..], kind) == OfKind(infos[..i], kind) + OfKind(infos[i + 1..], kind)
  {
    OfKindConcat(infos[..i + 1], infos[i + 1..], kind);
    assert infos[..i + 1] + infos[i + 1..] == infos;
    assert infos[..i + 1][..i] == infos[..i];
    OfKindConcat(infos[..i], infos[i + 1..], kind);
  }

  lemma {:induction false} OfKindDistinct(infos: seq<BInfo>, kind: Kind)
    requires forall i, j :: 0 <= i < j < |infos| ==> infos[i].pc != infos[j].pc
    ensures var r := OfKind(infos, kind); forall i, j :: 0 <= i < j < |r| ==> r[i].pc != r[j].pc
  {
    if infos != [] {
      var n := |infos| - 1;
      OfKindDistinct(infos[..n], kind);
      var front := OfKind(infos[..n], kind);
      forall i | 0 <= i < |front|
        ensures front[i].pc != infos[n].pc
      {
        OfKindMember(infos[..n], kind, front[i]);
        var j :| 0 <= j < n && infos[..n][j] == front[i];
        assert infos[j].pc != infos[n].pc;
      }
    }
  }

  lemma InternalsRecorded(w: World, infos: seq<BInfo>, kept: seq<BInfo>)
    requires Recorded(w, infos) && kept == OfKind(infos, InternalBp)
    ensures Recorded(w, kept) && forall v :: v in kept ==> v in infos
  {
    OfKindDistinct(infos, InternalBp);
    forall v | v in kept
      ensures v in infos && Right(w, v)
    {
      OfKindMember(infos, InternalBp, v);
    }
  }

  /** The address of entry i is at no other entry. */
  lemma Elsewhere(w: World, infos: seq<BInfo>, i: nat)
    requires Recorded(w, infos) && i < |infos|
    ensures infos[i].pc !in Pcs(OfKind(infos[..i], InternalBp)) && infos[i].pc !in Pcs(infos[i + 1..])
  {
    forall v | v in OfKind(infos[..i], InternalBp)
      ensures v.pc != infos[i].pc
    {
      OfKindMember(infos[..i], InternalBp, v);
      var j :| 0 <= j < i && infos[..i][j] == v;
      assert infos[j].pc != infos[i].pc;
    }
    forall v | v in infos[i + 1..]
      ensures v.pc != infos[i].pc
    {
      var j :| 0 <= j < |infos| - i - 1 && infos[i + 1..][j] == v;
      assert infos[i].pc != infos[i + 1 + j].pc;
    }
  }

  lemma SplitAt(w: World, infos: seq<BInfo>, i: nat)
    requires Recorded(w, infos) && i < |infos|
    ensures OfKind(infos[..i + 1], InternalBp) ==
            OfKind(infos[..i], InternalBp) + if infos[i].kind == InternalBp then [infos[i]] else []
    ensures var now, next := Pcs(OfKind(infos[..i], InternalBp)) + Pcs(infos[i..]),
                             Pcs(OfKind(infos[..i + 1], InternalBp)) + Pcs(infos[i + 1..]);
            && infos[i].pc in now
            && next == if infos[i].kind == UserBp then now - {infos[i].pc} else now
  {
    PcsOfKindNext(infos, i, InternalBp);
    assert infos[..i + 1][..i] == infos[..i];
    PcsFront({}, infos, i);
    Elsewhere(w, infos, i);
  }

  lemma RemainingPcs(infos: seq<BInfo>, i: nat)
    requires i < |infos|
    requires infos[i].pc !in Pcs(infos[..i] + infos[i + 1..])
    ensures Pcs(infos[..i] + infos[i + 1..]) == Pcs(infos) - {infos[i].pc}
  {
    assert infos == infos[..i] + [infos[i]] + infos[i + 1..];
    PcsConcat(infos[..i], [infos[i]]);
    PcsConcat(infos[..i] + [infos[i]], infos[i + 1..]);
    PcsConcat(infos[..i], infos[i + 1..]);
  }

  lemma RemoveSite(w: World, infos: seq<BInfo>, i: nat)
    requires Recorded(w, infos) && i < |infos|
    ensures Recorded(w, infos[..i] + infos[i + 1..])
    ensures forall v :: v in infos[..i] + infos[i + 1..] ==> v in infos
    ensures Pcs(infos[..i] + infos[i + 1..]) == Pcs(infos) - {infos[i].pc}
  {
    var r := infos[..i] + infos[i + 1..];
    forall j | 0 <= j < |r|
      ensures r[j] in infos && r[j].pc != infos[i].pc
    {
      assert r[j] == if j < i then infos[j] else infos[j + 1];
    }
    RemainingPcs(infos, i);
  }

  // ---------------------------------------------------------------- one machine step at a position

  /** Undoing the trap gives exactly state k of the undebugged run. */
  lemma RewindIsNative(w: World, infos: seq<BInfo>, s: State, k: nat, trapped: bool)
    requires Recorded(w, infos) && Standing(w, infos, s, k, trapped)
    ensures Rewind(s, Pcs(infos)) == Run(w, k)
    ensures Live(w, k) ==> (Pred(s.pc) in Pcs(infos) <==> trapped) && (trapped ==> Pred(s.pc) == Pc(w, k))
  {
    if Live(w, k) {
      TrapTest(w, infos, k, trapped);
    }
  }

  /** A process keeps its position when breakpoints are removed and it is taken off those. */
  lemma ClearedStands(
      w: World, infos: seq<BInfo>, kept: seq<BInfo>, s: State, k: nat, trapped: bool)
    requires Recorded(w, infos) && Standing(w, infos, s, k, trapped) && forall v :: v in kept ==> v in infos
    ensures Standing(w, kept, Rewind(s, Pcs(infos) - Pcs(kept)), k, trapped && Pc(w, k) in Pcs(kept))
  {
    RewindIsNative(w, infos, s, k, trapped);
    forall v | v in kept
      ensures Patchable(w, v.pc)
    {
      assert v in infos;
    }
  }

  /** One machine step from an untrapped position. */
  lemma AdvanceStands(w: World, infos: seq<BInfo>, armed: set<Word>, k: nat, s: State)
    requires Tame(w) && Recorded(w, infos) && Standing(w, infos, s, k, false) && Live(w, k) && armed <= Pcs(infos)
    ensures var next := CpuStep(w.isa, Patched(w.text, armed), s);
            if Pc(w, k) in armed then Standing(w, infos, next, k, true) else Standing(w, infos, next, k + 1, false)
  {
    MachineStep(w, infos, armed, k);
  }

  /** One turn of `s`: a trap is undone and its breakpoint lifted; then a machine step. */
  lemma StepStands(w: World, infos: seq<BInfo>, s: Stepping, state: State)
    requires Tame(w) && Recorded(w, infos) && Standing(w, infos, state, s.k, s.trapped) && state.Running?
    requires s.armed <= Pcs(infos)
    ensures var e := StepMove(w, s);
            && Live(w, s.k) && (Pred(state.pc) in Pcs(infos) <==> s.trapped)
            && e.armed == (if s.trapped then s.armed - {Pred(state.pc)} else s.armed)
            && Standing(w, infos, CpuStep(w.isa, Patched(w.text, e.armed), Rewind(state, Pcs(infos))), e.k, e.trapped)
  {
    RewindIsNative(w, infos, state, s.k, s.trapped);
    AdvanceStands(w, infos, StepMove(w, s).armed, s.k, Run(w, s.k));
  }

  lemma NextForward(
      w: World, raw: seq<LineEntry>, infos: seq<BInfo>, k: nat, trapped: bool, after: State, patience: nat, r: Report,
      start: Location, n: nat, e: Nexting, f: Nexting)
    requires trapped ==> Live(w, k)
    requires NextFollows(w, raw, infos, k, trapped, after, patience, r, start, n, e, f)
    ensures k <= f.k
  {
    NextVisitsInOrder(w, Pcs(infos) - (if trapped then {Pc(w, k)} else {}), Nexting(k, false, None), 0, n);
  }

  lemma StepEnds(
      w: World, raw: seq<LineEntry>, infos: seq<BInfo>, first: Stepping, after: State, patience: nat, r: Report,
      start: Location, n: nat, e: Stepping)
    requires Live(w, first.k) && ShowsAt(w, raw, first, start) && StepPath(w, raw, first, start, n, e)
    requires Standing(w, infos, after, e.k, e.trapped) && (r == Blocked ==> n == patience) && r != Failed
    requires r == ExitedNow <==> after.Exited?
    requires r == Stopped ==> ShowsOther(w, raw, e, start)
    ensures StepFollows(w, raw, infos, first, after, patience, r, start, n, e)
  {
  }

  /** A turn of `n` outside a call, decoding and stepping on patched text. */
  lemma PlainTurnStands(w: World, infos: seq<BInfo>, armed: set<Word>, s: Nexting, state: State)
    requires Tame(w) && Recorded(w, infos) && Standing(w, infos, state, s.k, false) && state.Running?
    requires armed <= Pcs(infos) && !s.trapped && s.returnTo == None
    ensures var inst := DecodeAt(w.isa, Patched(w.text, armed), state.pc);
            var next := CpuStep(w.isa, Patched(w.text, armed), state);
            var f, q := NextMove(w, armed, s), NextQuery(w, armed, s);
            && Live(w, s.k) && Decoded(w, armed, s.k) == inst
            && match inst
               case None => f == s && q == None
               case Some(i) =>
                 if i.call then f == s.(returnTo := Some(Wrap(state.pc + i.len))) && q == None
                 else && Standing(w, infos, next, f.k, f.trapped) && f.returnTo == None
                      && (next.Running? <==> Live(w, f.k))
                      && (next.Running? ==> q == Some(Wrap(state.pc + i.len)))
  {
    AdvanceStands(w, infos, armed, s.k, state);
    MachineDecode(w, infos, armed, s.k);
  }

  /** Stepping over the breakpoint behind and resuming is the walk to the first breakpoint ahead. */
  lemma ContinueStands(
      w: World, infos: seq<BInfo>, s: State, k: nat, trapped: bool, patience: nat)
      returns (k': nat, trapped': bool)
    requires Tame(w) && Recorded(w, infos) && Standing(w, infos, s, k, trapped)
    ensures var over := StepOver(w, Pcs(infos), s);
            var resumed := Resume(w.isa, Patched(w.text, Pcs(infos)), over, patience);
            && (resumed.Some? ==> Standing(w, infos, resumed.value, k', trapped'))
            && ContinueFollows(w, Pcs(infos), k, trapped, patience,
                 if over.Exited? then Failed else if resumed.None? then Blocked
                 else if resumed.value.Running? then Stopped else ExitedNow, k', trapped')
  {
    StepOverIsNative(w, infos, s, k, trapped);
    k', trapped' := if trapped then k + 1 else k, false;
    ResumeIsWalk(w, infos, k', patience);
    ContinueFindsFirst(w, Pcs(infos), k', patience);
    match ContinueWalk(w, Pcs(infos), k', patience) {
      case Hit(j) => k', trapped' := j, true;
      case Gone(j) => k' := j;
      case Pending =>
    }
  }

  lemma EffectPrints(w: World, raw: seq<LineEntry>, cmd: Command, a: Snapshot, b: Snapshot)
    requires Effect(w, raw, cmd, a, b)
    ensures Printed(raw, b)
  {
  }

  /** The log of a session so far. */
  ghost predicate Logged(w: World, raw: seq<LineEntry>, cmds: seq<Command>, log: seq<Snapshot>) {
    && 1 <= |log| <= |cmds| + 1
    && (forall j :: 0 <= j < |log| ==> Sane(w, raw, log[j]))
    && (forall j :: 0 <= j < |log| - 1 ==> Effect(w, raw, cmds[j], log[j], log[j + 1]))
    && (Tame(w) && Faithful(w, log[0]) ==>
          forall j: nat :: j < |log| && PatchableTo(w, log, j) ==> Transparent(w, log, j))
  }

  lemma PatchableGrows(w: World, log: seq<Snapshot>, s: Snapshot)
    requires log != []
    ensures forall i: nat :: i < |log| ==> (PatchableTo(w, log + [s], i) <==> PatchableTo(w, log, i))
    ensures PatchableTo(w, log + [s], |log|) ==> PatchableTo(w, log, |log| - 1) && AllPatchable(w, s.infos)
  {
    var all := log + [s];
    forall i: nat | i < |log|
      ensures PatchableTo(w, all, i) <==> PatchableTo(w, log, i)
    {
      assert forall j :: 0 <= j <= i ==> all[j] == log[j];
      if PatchableTo(w, all, i) {
        forall j | 0 <= j <= i
          ensures AllPatchable(w, log[j].infos)
        {
          assert AllPatchable(w, all[j].infos);
        }
      }
    }
    if PatchableTo(w, all, |log|) {
      assert AllPatchable(w, all[|log|].infos);
      forall j | 0 <= j < |log|
        ensures AllPatchable(w, log[j].infos)
      {
        assert AllPatchable(w, all[j].infos);
      }
    }
  }

  lemma TransparentGrows(w: World, log: seq<Snapshot>, s: Snapshot)
    requires log != []
    ensures forall i: nat :: i < |log| && Transparent(w, log, i) ==> Transparent(w, log + [s], i)
    ensures Transparent(w, log, |log| - 1) && Faithful(w, s) && log[|log| - 1].k <= s.k ==>
              Transparent(w, log + [s], |log|)
  {
  }

  lemma LoggedNext(w: World, raw: seq<LineEntry>, cmds: seq<Command>, log: seq<Snapshot>, s: Snapshot)
    requires Logged(w, raw, cmds, log) && |log| <= |cmds|
    requires var i := |log| - 1;
             && Patches(w, raw, s.infos, s.text, s.state, Pcs(s.infos)) && Effect(w, raw, cmds[i], log[i], s)
             && (Tame(w) && Faithful(w, log[i]) && AllPatchable(w, s.infos) ==> Faithful(w, s) && log[i].k <= s.k)
    ensures Logged(w, raw, cmds, log + [s])
  {
    var all := log + [s];
    PatchableGrows(w, log, s);
    TransparentGrows(w, log, s);
    EffectPrints(w, raw, cmds[|log| - 1], log[|log| - 1], s);
    forall j | 0 <= j < |all|
      ensures Sane(w, raw, all[j])
    {
      assert j < |log| ==> all[j] == log[j];
    }
    forall j | 0 <= j < |all| - 1
      ensures Effect(w, raw, cmds[j], all[j], all[j + 1])
    {
      if j < |log| - 1 {
        assert all[j] == log[j] && all[j + 1] == log[j + 1];
      }
    }
  }

  // ---------------------------------------------------------------- the commands

  class Target {
    const bp: BP
    const proc: Process
    const bi: BI

    constructor (bp: BP, proc: Process, bi: BI)
      ensures this.bp == bp && this.proc == proc && this.bi == bi
    {
      this.bp, this.proc, this.bi := bp, proc, bi;
    }

    /** A session begins on a process stopped in its first state, without breakpoints. */
    constructor Launch(isa: Isa, text: Memory, start: State, bi: BI)
      requires bi.Valid()
      ensures this.bi == bi && fresh(bp) && fresh(proc) && bp.infos == []
      ensures At(World(isa, text, start), 0, false)
    {
      bp := new BP();
      proc := new Process(isa, text, start);
      this.bi := bi;
      new;
      assert Patched(text, {}) == text;
    }

    /** The patch invariant, with the armed ones of the listed breakpoints in place. */
    ghost predicate InPlace(w: World, armed: set<Word>)
      reads this, bp, proc, bi
    {
      bi.Valid() && proc.isa == w.isa && Patches(w, bi.raw, bp.infos, proc.text, proc.state, armed)
    }

    /** Where the process is in the undebugged run. */
    ghost predicate On(w: World, k: nat, trapped: bool)
      reads this, bp, proc
    {
      Standing(w, bp.infos, proc.state, k, trapped)
    }

    /**
     * The state between commands: all listed breakpoints are in place, the process is at position k of the undebugged
     * run, and it counts as trapped only on one of those.
     */
    ghost predicate At(w: World, k: nat, trapped: bool)
      reads this, bp, proc, bi
    {
      InPlace(w, Pcs(bp.infos)) && On(w, k, trapped)
    }

    // -------------------------------------------------------------- b, bl

    /** Any address may be set; whether it is patchable decides whether the process may go on. */
    method Break(file: string, line: int, ghost w: World) returns (r: SetReply)
      requires InPlace(w, Pcs(bp.infos))
      modifies bp, proc`text
      ensures InPlace(w, Pcs(bp.infos)) && Pcs(old(bp.infos)) <= Pcs(bp.infos)
      ensures AllPatchable(w, bp.infos) <==> AllPatchable(w, old(bp.infos)) && (r.Set? ==> Patchable(w, r.info.pc))
      ensures match BreakAddress(Select(bi.raw, file, line))
              case None => r == NotFoundLine && bp.infos == old(bp.infos)
              case Some(a) => SetOutcome(w, old(bp.infos), a, file, line, UserBp, proc.state.Running?, r, bp.infos)
    {
      r := bp.SetFileLineBreakPoint(bi, proc, file, line, w);
    }

    /** The numbered user breakpoints; entry i is printed as i + 1. */
    method List() returns (listed: seq<BInfo>)
      ensures listed == OfKind(bp.infos, UserBp)
    {
      listed := [];
      for i := 0 to |bp.infos|
        invariant listed == OfKind(bp.infos[..i], UserBp)
      {
        assert bp.infos[..i + 1][..i] == bp.infos[..i];
        if bp.infos[i].kind == UserBp {
          listed := listed + [bp.infos[i]];
        }
      }
      assert bp.infos[..|bp.infos|] == bp.infos;
    }

    // -------------------------------------------------------------- bc

    /** Takes one breakpoint out of the text, and a process trapped on it back onto its instruction. */
    method Lift(v: BInfo, curPc: Word, ghost w: World, ghost armed: set<Word>)
      requires InPlace(w, armed) && v in bp.infos
      modifies proc
      ensures InPlace(w, armed - {v.pc})
      ensures proc.state ==
              if old(proc.state).Running? && v.pc == Pred(curPc) then old(proc.state).(pc := v.pc) else old(proc.state)
    {
      PatchedDisarm(w.text, armed, v.pc);
      var ok := bp.DisableBreakPoint(proc, v);
      if v.pc == Pred(curPc) {
        ok := proc.SetPc(v.pc);
      }
    }

    /** `bc all`: leaves the internal breakpoints, and takes a process trapped on a removed one off it. */
    method ClearAll(ghost w: World, ghost k: nat, ghost trapped: bool) returns (r: ClearReply)
      requires InPlace(w, Pcs(bp.infos))
      modifies bp, proc
      ensures InPlace(w, Pcs(bp.infos))
      ensures r == if old(proc.state).Running? then Cleared else NoProcess
      ensures bp.infos == if r == Cleared then OfKind(old(bp.infos), InternalBp) else old(bp.infos)
      ensures proc.state == Rewind(old(proc.state), Pcs(old(bp.infos)) - Pcs(bp.infos))
      ensures old(On(w, k, trapped)) ==> On(w, k, trapped && Pc(w, k) in Pcs(bp.infos))
    {
      if On(w, k, trapped) && !Live(w, k) {
        assert !trapped;
      }
      var curPc := proc.GetPc();
      if curPc.None? {
        return NoProcess;
      }
      var kept := LiftUsers(curPc.value, w);
      InternalsRecorded(w, bp.infos, kept);
      if old(On(w, k, trapped)) {
        ClearedStands(w, bp.infos, kept, old(proc.state), k, trapped);
      }
      bp.infos := kept;
      r := Cleared;
    }

    method LiftUsers(curPc: Word, ghost w: World) returns (kept: seq<BInfo>)
      requires InPlace(w, Pcs(bp.infos)) && proc.state.Running? && curPc == proc.state.pc
      modifies proc
      ensures kept == OfKind(bp.infos, InternalBp)
      ensures InPlace(w, Pcs(kept))
      ensures proc.state == Rewind(old(proc.state), Pcs(bp.infos) - Pcs(kept))
    {
      var infos := bp.infos;
      kept := [];
      ghost var armed := Pcs(infos);
      for i := 0 to |infos|
        invariant kept == OfKind(infos[..i], InternalBp)
        invariant armed == Pcs(kept) + Pcs(infos[i..])
        invariant InPlace(w, armed)
        invariant proc.state == Rewind(old(proc.state), Pcs(infos) - armed)
      {
        SplitAt(w, infos, i);
        if infos[i].kind == UserBp {
          Lift(infos[i], curPc, w, armed);
          armed := armed - {infos[i].pc};
        } else {
          kept := kept + [infos[i]];
        }
      }
      assert infos[..|infos|] == infos;
      assert armed == Pcs(kept);
    }

    /** `bc n`: takes out the n-th user breakpoint; an index that names none leaves everything as it is. */
    method ClearNth(n: int, ghost w: World, ghost k: nat, ghost trapped: bool) returns (r: ClearReply)
      requires InPlace(w, Pcs(bp.infos))
      modifies bp, proc
      ensures InPlace(w, Pcs(bp.infos))
      ensures r == if old(proc.state).Exited? then NoProcess
                   else if 1 <= n <= |OfKind(old(bp.infos), UserBp)| then Cleared
                   else NoSuchIndex
      ensures if r == Cleared then WithoutNth(old(bp.infos), n, bp.infos) else bp.infos == old(bp.infos)
      ensures proc.state == Rewind(old(proc.state), Pcs(old(bp.infos)) - Pcs(bp.infos))
      ensures old(On(w, k, trapped)) ==> On(w, k, trapped && Pc(w, k) in Pcs(bp.infos))
    {
      var curPc := proc.GetPc();
      if curPc.None? {
        return NoProcess;
      }
      var count := 0;
      for i := 0 to |bp.infos|
        invariant bp.infos == old(bp.infos) && proc.state == old(proc.state) && InPlace(w, Pcs(bp.infos))
        invariant count == |OfKind(bp.infos[..i], UserBp)|
        invariant n < 1 || count < n
      {
        assert bp.infos[..i + 1][..i] == bp.infos[..i];
        if bp.infos[i].kind == UserBp {
          count := count + 1;
          if count == n {
            RemoveAt(i, curPc.value, w, k, trapped);
            OfKindWithout(old(bp.infos), i, UserBp);
            return Cleared;
          }
        }
      }
      assert bp.infos[..|bp.infos|] == bp.infos;
      return NoSuchIndex;
    }

    method RemoveAt(i: nat, curPc: Word, ghost w: World, ghost k: nat, ghost trapped: bool)
      requires InPlace(w, Pcs(bp.infos)) && i < |bp.infos| && proc.state.Running? && curPc == proc.state.pc
      modifies bp, proc
      ensures bp.infos == old(bp.infos[..i] + bp.infos[i + 1..]) && InPlace(w, Pcs(bp.infos))
      ensures proc.state == Rewind(old(proc.state), Pcs(old(bp.infos)) - Pcs(bp.infos))
      ensures old(On(w, k, trapped)) ==> On(w, k, trapped && Pc(w, k) in Pcs(bp.infos))
    {
      var kept := bp.infos[..i] + bp.infos[i + 1..];
      RemoveSite(w, bp.infos, i);
      assert Pcs(bp.infos) - Pcs(kept) == {bp.infos[i].pc};
      if On(w, k, trapped) {
        ClearedStands(w, bp.infos, kept, proc.state, k, trapped);
      }
      Lift(bp.infos[i], curPc, w, Pcs(bp.infos));
      bp.infos := kept;
    }

    // -------------------------------------------------------------- c

    /**
     * Takes a process that stands one past a breakpoint over it, resumes, and shows the line of the pc register at the
     * next trap. A process that follows the undebugged run stops trapped at the first breakpoint ahead.
     */
    method Continue(patience: nat, ghost w: World, ghost k: nat, ghost trapped: bool)
      returns (r: Report, shown: Location, ghost k': nat, ghost trapped': bool)
      requires InPlace(w, Pcs(bp.infos))
      modifies proc
      ensures InPlace(w, Pcs(bp.infos))
      ensures var over := StepOver(w, Pcs(bp.infos), old(proc.state));
              var resumed := Resume(w.isa, Patched(w.text, Pcs(bp.infos)), over, patience);
              if over.Exited? then r == Failed && proc.state == over
              else if resumed.None? then r == Blocked
              else proc.state == resumed.value && r == if proc.state.Running? then Stopped else ExitedNow
      ensures r == Stopped ==> Closest(bi.raw, proc.state.pc, shown)
      ensures Tame(w) && old(On(w, k, trapped)) ==>
                ContinueFollows(w, Pcs(bp.infos), k, trapped, patience, r, k', trapped')
                && (r != Blocked ==> On(w, k', trapped'))
    {
      shown, k', trapped' := NOWHERE, k, false;
      if Tame(w) && On(w, k, trapped) {
        k', trapped' := ContinueStands(w, bp.infos, proc.state, k, trapped, patience);
      }
      var ok := bp.SingleStepInstructionWithBreakpointCheck(proc, w);
      if !ok {
        return Failed, shown, k', trapped';
      }
      var blocked;
      ok, blocked := proc.Cont(patience);
      if !ok {
        return Failed, shown, k', trapped';
      }
      if blocked {
        return Blocked, shown, k', trapped';
      }
      var pc := proc.GetPc();
      if pc.None? {
        return ExitedNow, shown, k', trapped';
      }
      shown := bi.PcToFileLine(pc.value);
      r := Stopped;
    }

    // -------------------------------------------------------------- deferred re-enables

    /** Runs the deferred re-enables, last one first. */
    method RunDeferred(deferred: seq<BInfo>, ghost w: World, ghost armed: set<Word>)
      requires InPlace(w, armed)
      requires forall v :: v in deferred ==> v in bp.infos
      modifies proc`text
      ensures InPlace(w, armed + Pcs(deferred))
    {
      var i := |deferred|;
      assert Pcs(deferred[i..]) == {};
      while i > 0
        invariant i <= |deferred|
        invariant InPlace(w, armed + Pcs(deferred[i..]))
      {
        i := i - 1;
        PcsFront(armed, deferred, i);
        Rearm(deferred[i], w, armed + Pcs(deferred[i + 1..]));
      }
      assert deferred[0..] == deferred;
    }

    method Rearm(v: BInfo, ghost w: World, ghost armed: set<Word>)
      requires InPlace(w, armed) && v in bp.infos
      modifies proc`text
      ensures InPlace(w, armed + {v.pc})
    {
      PatchedDisarm(w.text, armed, v.pc);
      var ok := bp.EnableBreakPoint(proc, v);
    }

    // -------------------------------------------------------------- s

    /**
     * Steps until the line of the pc register is no longer the starting one, which is then printed. A process that
     * follows the undebugged run ends n single steps on, all taken from places that show the starting line.
     */
    method Step(patience: nat, ghost w: World, ghost k: nat, ghost trapped: bool)
      returns (r: Report, shown: Location, ghost from: Location, ghost n: nat, ghost e: Stepping)
      requires InPlace(w, Pcs(bp.infos))
      modifies proc
      ensures r != Blocked ==> InPlace(w, Pcs(bp.infos))
      ensures r == Blocked ==> exists armed :: InPlace(w, armed)
      ensures r == Failed <==> old(proc.state).Exited?
      ensures r == Failed ==> proc.state == old(proc.state)
      ensures r == Stopped ==> proc.state.Running? && Closest(bi.raw, proc.state.pc, shown)
      ensures Tame(w) && old(On(w, k, trapped)) ==>
                StepFollows(w, bi.raw, bp.infos, Stepping(k, trapped, Pcs(bp.infos)), proc.state, patience,
                            r, from, n, e)
    {
      shown, from, n, e := NOWHERE, NOWHERE, 0, Stepping(k, trapped, Pcs(bp.infos));
      var pc := proc.GetPc();
      if pc.None? {
        return Failed, shown, from, n, e;
      }
      var start := bi.PcToFileLine(pc.value);
      from := start;
      var deferred;
      assert On(w, k, trapped) ==> Live(w, k) && ShowsAt(w, bi.raw, e, start);
      r, shown, deferred, n, e := StepLoop(patience, start, w, e);
      if Tame(w) && old(On(w, k, trapped)) {
        StepEnds(w, bi.raw, bp.infos, Stepping(k, trapped, Pcs(bp.infos)), proc.state, patience, r, start, n, e);
      }
      if r != Blocked {
        RunDeferred(deferred, w, Pcs(bp.infos) - Pcs(deferred));
        assert Pcs(bp.infos) - Pcs(deferred) + Pcs(deferred) == Pcs(bp.infos);
      }
    }

    /** The loop of `s`; deferred are the re-enables left for the return of the command. */
    method StepLoop(patience: nat, start: Location, ghost w: World, ghost first: Stepping)
      returns (r: Report, shown: Location, deferred: seq<BInfo>, ghost n: nat, ghost e: Stepping)
      requires InPlace(w, Pcs(bp.infos)) && proc.state.Running?
      modifies proc
      ensures forall v :: v in deferred ==> v in bp.infos
      ensures InPlace(w, Pcs(bp.infos) - Pcs(deferred)) && r != Failed
      ensures r == Stopped ==> proc.state.Running? && Closest(bi.raw, proc.state.pc, shown)
      ensures (r == ExitedNow <==> proc.state.Exited?) && (r == Blocked ==> n == patience)
      ensures Tame(w) && old(On(w, first.k, first.trapped)) && first.armed == Pcs(bp.infos) ==>
                && StepPath(w, bi.raw, first, start, n, e) && (r == Stopped ==> ShowsOther(w, bi.raw, e, start))
                && On(w, e.k, e.trapped) && e.armed == Pcs(bp.infos) - Pcs(deferred)
    {
      ghost var follows := Tame(w) && On(w, first.k, first.trapped) && first.armed == Pcs(bp.infos);
      shown, deferred, n, e := NOWHERE, [], 0, first;
      for left := patience downto 0
        invariant proc.state.Running? && n + left == patience
        invariant forall v :: v in deferred ==> v in bp.infos
        invariant InPlace(w, Pcs(bp.infos) - Pcs(deferred))
        invariant follows ==>
                    && StepPath(w, bi.raw, first, start, n, e)
                    && On(w, e.k, e.trapped) && e.armed == Pcs(bp.infos) - Pcs(deferred)
      {
        var stop;
        stop, shown, deferred := StepTurn(start, deferred, w, e);
        if stop == Some(Stopped) {
          return Stopped, shown, deferred, n, e;
        }
        if follows {
          StepPathNext(w, bi.raw, first, start, n, e);
        }
        e := StepMove(w, e);
        n := n + 1;
        if stop.Some? {
          return ExitedNow, shown, deferred, n, e;
        }
      }
      r := Blocked;
    }

    /** Stops where the line is another, else makes one step. */
    method StepTurn(start: Location, deferred: seq<BInfo>, ghost w: World, ghost s: Stepping)
      returns (stop: Option<Report>, shown: Location, deferred': seq<BInfo>)
      requires InPlace(w, Pcs(bp.infos) - Pcs(deferred)) && proc.state.Running?
      requires forall v :: v in deferred ==> v in bp.infos
      modifies proc
      ensures InPlace(w, Pcs(bp.infos) - Pcs(deferred')) && forall v :: v in deferred' ==> v in bp.infos
      ensures stop == None || stop == Some(Stopped) ==> proc.state.Running?
      ensures stop == None || stop == Some(Stopped) || (stop == Some(ExitedNow) && proc.state.Exited?)
      ensures stop == Some(Stopped) ==> Closest(bi.raw, proc.state.pc, shown)
      ensures Tame(w) && old(On(w, s.k, s.trapped)) && s.armed == Pcs(bp.infos) - Pcs(deferred) ==>
                var e := if stop == Some(Stopped) then s else StepMove(w, s);
                && On(w, e.k, e.trapped) && e.armed == Pcs(bp.infos) - Pcs(deferred')
                && if stop == Some(Stopped) then ShowsOther(w, bi.raw, s, start) else ShowsAt(w, bi.raw, s, start)
    {
      stop, shown := None, NOWHERE;
      var pc := proc.GetPc();
      var here := bi.PcToFileLine(pc.value);
      assert On(w, s.k, s.trapped) ==> Live(w, s.k) && ShowsAt(w, bi.raw, s, here);
      if here != start {
        shown := bi.PcToFileLine(pc.value);
        return Some(Stopped), shown, deferred;
      }
      deferred' := StepOnce(pc.value, deferred, w, s);
      if proc.state.Exited? {
        stop := Some(ExitedNow);
      }
    }

    /** One turn: if a breakpoint sits at pc - 1, lift it and back up; then a single step. */
    method StepOnce(pc: Word, deferred: seq<BInfo>, ghost w: World, ghost s: Stepping) returns (deferred': seq<BInfo>)
      requires InPlace(w, Pcs(bp.infos) - Pcs(deferred)) && proc.state.Running? && pc == proc.state.pc
      requires forall v :: v in deferred ==> v in bp.infos
      modifies proc
      ensures InPlace(w, Pcs(bp.infos) - Pcs(deferred'))
      ensures forall v :: v in deferred' ==> v in bp.infos
      ensures Tame(w) && old(On(w, s.k, s.trapped)) && s.armed == Pcs(bp.infos) - Pcs(deferred) ==>
                var e := StepMove(w, s);
                On(w, e.k, e.trapped) && e.armed == Pcs(bp.infos) - Pcs(deferred')
    {
      if Tame(w) && On(w, s.k, s.trapped) && s.armed == Pcs(bp.infos) - Pcs(deferred) {
        StepStands(w, bp.infos, s, proc.state);
      }
      deferred' := LiftBehind(pc, deferred, w);
      SingleStep(w, Pcs(bp.infos) - Pcs(deferred'));
    }

    method SingleStep(ghost w: World, ghost armed: set<Word>)
      requires InPlace(w, armed) && proc.state.Running?
      modifies proc`state
      ensures proc.state == CpuStep(w.isa, Patched(w.text, armed), old(proc.state))
    {
      var ok := proc.SingleStep();
    }

    /** If a breakpoint sits at pc - 1, lifts it, backs up, and leaves its re-enable for later. */
    method LiftBehind(pc: Word, deferred: seq<BInfo>, ghost w: World) returns (deferred': seq<BInfo>)
      requires InPlace(w, Pcs(bp.infos) - Pcs(deferred)) && proc.state.Running? && pc == proc.state.pc
      requires forall v :: v in deferred ==> v in bp.infos
      modifies proc
      ensures InPlace(w, Pcs(bp.infos) - Pcs(deferred'))
      ensures forall v :: v in deferred' ==> v in bp.infos
      ensures proc.state == Rewind(old(proc.state), Pcs(bp.infos))
      ensures Pcs(bp.infos) - Pcs(deferred') ==
              Pcs(bp.infos) - Pcs(deferred) - (if Pred(pc) in Pcs(bp.infos) then {Pred(pc)} else {})
    {
      deferred' := deferred;
      var info := bp.FindBreakPoint(Pred(pc));
      if info.Some? {
        Lift(info.value, pc, w, Pcs(bp.infos) - Pcs(deferred));
        PcsConcat(deferred, [info.value]);
        deferred' := deferred + [info.value];
        assert Pcs([info.value]) == {Pred(pc)};
        assert Pcs(bp.infos) - Pcs(deferred') == Pcs(bp.infos) - Pcs(deferred) - {Pred(pc)};
      }
    }

    // -------------------------------------------------------------- n

    /**
     * Steps over and prints the line of the pc register at the stop. The breakpoint behind pc stays lifted until the
     * command returns. For a process that follows the undebugged run, n turns that found nothing to stop for lead to
     * e, and the command ends there or one turn later, at f.
     */
    method Next(patience: nat, ghost w: World, ghost k: nat, ghost trapped: bool)
      returns (r: Report, shown: Location, ghost start: Location, ghost n: nat, ghost e: Nexting, ghost f: Nexting)
      requires InPlace(w, Pcs(bp.infos))
      modifies proc
      ensures r != Blocked ==> InPlace(w, Pcs(bp.infos))
      ensures r == Blocked ==> exists armed :: InPlace(w, armed)
      ensures old(proc.state).Exited? ==> r == Failed && proc.state == old(proc.state)
      ensures r == Stopped ==> proc.state.Running? && Closest(bi.raw, proc.state.pc, shown)
      ensures Tame(w) && old(On(w, k, trapped)) ==>
                NextFollows(w, bi.raw, bp.infos, k, trapped, proc.state, patience, r, start, n, e, f)
    {
      shown, n, e, f, start := NOWHERE, 0, Nexting(k, trapped, None), Nexting(k, trapped, None), NOWHERE;
      var pc := proc.GetPc();
      if pc.None? {
        r := Failed;
        return;
      }
      if Tame(w) && On(w, k, trapped) {
        RewindIsNative(w, bp.infos, proc.state, k, trapped);
      }
      assert Pcs(bp.infos) - Pcs([]) == Pcs(bp.infos);
      var deferred := LiftBehind(pc.value, [], w);
      r, shown, start, n, e, f := NextFrom(patience, w, deferred, k);
      assert InPlace(w, Pcs(bp.infos) - Pcs(deferred));
      if r != Blocked {
        RunDeferred(deferred, w, Pcs(bp.infos) - Pcs(deferred));
        assert Pcs(bp.infos) - Pcs(deferred) + Pcs(deferred) == Pcs(bp.infos);
      }
    }

    /** The part of `n` that runs with the breakpoint behind pc lifted. */
    method NextFrom(patience: nat, ghost w: World, ghost deferred: seq<BInfo>, ghost k: nat)
      returns (r: Report, shown: Location, ghost start: Location, ghost n: nat, ghost e: Nexting, ghost f: Nexting)
      requires InPlace(w, Pcs(bp.infos) - Pcs(deferred)) && proc.state.Running?
      modifies proc`state
      ensures r == Stopped ==> proc.state.Running? && Closest(bi.raw, proc.state.pc, shown)
      ensures Closest(bi.raw, old(proc.state).pc, start)
      ensures Tame(w) && old(On(w, k, false)) ==>
                && NextResult(w, bi.raw, Pcs(bp.infos) - Pcs(deferred), Nexting(k, false, None),
                              patience, r, start, n, e, f)
                && On(w, f.k, f.trapped)
    {
      shown := NOWHERE;
      var pc := proc.GetPc();
      var line := bi.PcToFileLine(pc.value);
      start := line;
      r, n, e, f := NextLoop(patience, line, w, Pcs(bp.infos) - Pcs(deferred), Nexting(k, false, None));
      if r == Stopped {
        pc := proc.GetPc();
        shown := bi.PcToFileLine(pc.value);
      }
    }

    method NextLoop(patience: nat, start: Location, ghost w: World, ghost armed: set<Word>, ghost first: Nexting)
      returns (r: Report, ghost n: nat, ghost e: Nexting, ghost f: Nexting)
      requires InPlace(w, armed) && proc.state.Running? && first.returnTo == None
      modifies proc`state
      ensures r == Stopped ==> proc.state.Running?
      ensures Tame(w) && old(On(w, first.k, first.trapped)) ==>
                NextResult(w, bi.raw, armed, first, patience, r, start, n, e, f) && On(w, f.k, f.trapped)
    {
      ghost var follows := Tame(w) && On(w, first.k, first.trapped);
      n, e, f := 0, first, first;
      var calling: Option<Word> := None;
      for left := patience downto 0
        invariant proc.state.Running? && n + left == patience && f == e
        invariant follows ==>
                    NextPath(w, bi.raw, armed, first, start, n, e) && On(w, e.k, e.trapped) && e.returnTo == calling
      {
        var stop;
        stop, calling := NextTurn(calling, start, w, armed, e);
        f := NextMove(w, armed, e);
        if stop.Some? {
          if follows {
            NextStops(w, bi.raw, armed, first, patience, stop.value, start, n, e);
          }
          return stop.value, n, e, f;
        }
        if follows {
          NextPathNext(w, bi.raw, armed, first, start, n, e);
        }
        e := f;
        n := n + 1;
      }
      r := Blocked;
    }

    /** One turn of the loop; calling is the return address of a call being run through. */
    method NextTurn(
        calling: Option<Word>, start: Location, ghost w: World, ghost armed: set<Word>, ghost s: Nexting)
      returns (stop: Option<Report>, calling': Option<Word>)
      requires InPlace(w, armed) && proc.state.Running?
      modifies proc`state
      ensures stop == None || stop == Some(Stopped) ==> proc.state.Running?
      ensures Tame(w) && old(On(w, s.k, s.trapped)) && s.returnTo == calling ==>
                var f := NextMove(w, armed, s);
                && On(w, f.k, f.trapped) && f.returnTo == calling'
                && if s.trapped then stop == Some(Stopped) else TurnResult(w, bi.raw, armed, s, start, stop)
    {
      var pc := proc.GetPc();
      if Tame(w) && On(w, s.k, s.trapped) {
        RewindIsNative(w, bp.infos, proc.state, s.k, s.trapped);
      }
      var info := bp.FindBreakPoint(Pred(pc.value));
      if info.Some? {
        return Some(Stopped), calling;
      }
      stop, calling' := NextMachineTurn(pc.value, calling, start, w, armed, s);
    }

    method NextMachineTurn(
        pc: Word, calling: Option<Word>, start: Location, ghost w: World, ghost armed: set<Word>, ghost s: Nexting)
      returns (stop: Option<Report>, calling': Option<Word>)
      requires InPlace(w, armed) && proc.state.Running? && pc == proc.state.pc
      modifies proc`state
      ensures stop == None || stop == Some(Stopped) ==> proc.state.Running?
      ensures Tame(w) && old(On(w, s.k, false)) && !s.trapped && s.returnTo == calling ==>
                var f := NextMove(w, armed, s);
                && On(w, f.k, f.trapped) && f.returnTo == calling'
                && TurnResult(w, bi.raw, armed, s, start, stop)
    {
      if Tame(w) && On(w, s.k, false) {
        AdvanceStands(w, bp.infos, armed, s.k, proc.state);
      }
      stop, calling' := None, calling;
      if calling.Some? && pc != calling.value {
        SingleStep(w, armed);
        if proc.state.Exited? {
          stop := Some(ExitedNow);
        }
      } else if calling.Some? {
        calling' := None;
        stop := CompareLine(pc, start);
      } else {
        stop, calling' := NextPlainTurn(pc, start, w, armed, s);
      }
    }

    /** The turn outside a call: decode, and step unless it is one. */
    method NextPlainTurn(pc: Word, start: Location, ghost w: World, ghost armed: set<Word>, ghost s: Nexting)
      returns (stop: Option<Report>, calling: Option<Word>)
      requires InPlace(w, armed) && proc.state.Running? && pc == proc.state.pc
      modifies proc`state
      ensures stop == None || stop == Some(Stopped) ==> proc.state.Running?
      ensures Tame(w) && old(On(w, s.k, false)) && !s.trapped && s.returnTo == None ==>
                var f := NextMove(w, armed, s);
                && On(w, f.k, f.trapped) && f.returnTo == calling
                && TurnResult(w, bi.raw, armed, s, start, stop)
    {
      if Tame(w) && On(w, s.k, false) && !s.trapped && s.returnTo == None {
        PlainTurnStands(w, bp.infos, armed, s, proc.state);
      }
      stop, calling := None, None;
      var inst := DecodeAt(proc.isa, proc.text, pc);
      if inst.None? {
        return Some(Failed), None;
      }
      if inst.value.call {
        return None, Some(Wrap(pc + inst.value.len));
      }
      SingleStep(w, armed);
      if proc.state.Exited? {
        stop := Some(ExitedNow);
      } else {
        stop := CompareLine(Wrap(pc + inst.value.len), start);
      }
    }

    method CompareLine(q: Word, start: Location) returns (stop: Option<Report>)
      requires bi.Valid()
      ensures stop == None || stop == Some(Stopped)
      ensures stop == None ==> Closest(bi.raw, q, start)
      ensures stop == Some(Stopped) ==> exists other :: other != start && Closest(bi.raw, q, other)
    {
      var line := bi.PcToFileLine(q);
      stop := if line != start then Some(Stopped) else None;
    }

    // -------------------------------------------------------------- bt, p

    /** The pc with a trap undone. */
    method CurrentPc() returns (pc: Option<Word>)
      ensures pc == if proc.state.Running? then Some(Rewind(proc.state, Pcs(bp.infos)).pc) else None
    {
      pc := proc.GetPc();
      if pc.Some? {
        var info := bp.FindBreakPoint(Pred(pc.value));
        if info.Some? {
          pc := Some(Pred(pc.value));
        }
      }
    }

    /** The place of the current instruction, then one frame for each caller; end is None without a process. */
    method Bt(functions: seq<Backtrace.Function>, patience: nat)
      returns (top: Location, frames: seq<Backtrace.Frame>, end: Option<Backtrace.End>)
      requires bi.Valid()
      ensures end.Some? <==> proc.state.Running?
      ensures proc.state.Running? ==>
                var walk := Backtrace.WalkStack(
                  proc.state.ctx.data, functions, RegisterOf(proc.state.ctx, DWARF_RBP), patience);
                && Closest(bi.raw, Rewind(proc.state, Pcs(bp.infos)).pc, top)
                && end == Some(walk.end) && |frames| == |walk.callers|
                && forall i :: 0 <= i < |frames| ==> Backtrace.Labels(bi.raw, functions, walk.callers[i], frames[i])
    {
      var pc := CurrentPc();
      if pc.None? {
        return NOWHERE, [], None;
      }
      top := bi.PcToFileLine(pc.value);
      var ctx := proc.state.ctx;
      var e;
      frames, e := Backtrace.PrintFrames(bi, functions, ctx.data, RegisterOf(ctx, DWARF_RBP), patience);
      end := Some(e);
    }

    /** The frame `p` looks a variable up in; the pc column keeps the raw register. None without a process. */
    method CurrentFrame(entries: seq<FrameRecords.Entry>) returns (r: Option<FrameLookup.FrameResult>)
      ensures r == if proc.state.Exited? then None
                   else Some(FrameLookup.FrameAt(
                     entries, Rewind(proc.state, Pcs(bp.infos)).pc, FrameLookup.Registers(
                       proc.state.pc, RegisterOf(proc.state.ctx, DWARF_RSP), RegisterOf(proc.state.ctx, DWARF_RBP))))
    {
      var pc := CurrentPc();
      if pc.None? {
        return None;
      }
      var ctx := proc.state.ctx;
      var regs := FrameLookup.Registers(proc.state.pc, RegisterOf(ctx, DWARF_RSP), RegisterOf(ctx, DWARF_RBP));
      var frame := FrameLookup.FindFrameInformation(entries, pc.value, regs);
      r := Some(frame);
    }

    // -------------------------------------------------------------- a whole session

    ghost predicate Snaps(s: Snapshot)
      reads this, bp, proc
    {
      s.infos == bp.infos && s.text == proc.text && s.state == proc.state
    }

    /**
     * A command has returned: the patch invariant holds, and a process that followed the undebugged run still does, no
     * earlier than before, as long as only patchable addresses are listed.
     */
    ghost predicate Ends(w: World, before: Snapshot, after: Snapshot)
      reads this, bp, proc, bi
    {
      && InPlace(w, Pcs(bp.infos)) && Snaps(after)
      && (Tame(w) && Faithful(w, before) && AllPatchable(w, after.infos) ==>
            Faithful(w, after) && before.k <= after.k)
    }

    /** One command. Nothing is said of one that has not returned. */
    method Execute(cmd: Command, ghost w: World, ghost before: Snapshot)
      returns (blocked: bool, answer: Answer, ghost after: Snapshot)
      requires InPlace(w, Pcs(bp.infos)) && Snaps(before)
      modifies bp, proc
      ensures !blocked ==> Ends(w, before, after) && after.answer == answer && Effect(w, bi.raw, cmd, before, after)
      ensures blocked ==> cmd.DoContinue? || cmd.DoStep? || cmd.DoNext?
    {
      blocked := false;
      match cmd {
        case DoBreak(file, line) => answer, after := RunBreak(file, line, w, before);
        case DoClear(n) => answer, after := RunClear(n, w, before);
        case DoClearAll => answer, after := RunClearAll(w, before);
        case DoList => answer, after := RunList(w, before);
        case DoContinue(patience) => blocked, answer, after := RunContinue(patience, w, before);
        case DoStep(patience) => blocked, answer, after := RunStep(patience, w, before);
        case DoNext(patience) => blocked, answer, after := RunNext(patience, w, before);
      }
    }

    method RunBreak(file: string, line: int, ghost w: World, ghost before: Snapshot)
      returns (answer: Answer, ghost after: Snapshot)
      requires InPlace(w, Pcs(bp.infos)) && Snaps(before)
      modifies bp, proc`text
      ensures Ends(w, before, after) && after.answer == answer
      ensures BreakEffect(w, bi.raw, file, line, before, after)
    {
      var reply := Break(file, line, w);
      answer := Broke(reply);
      after := Snapshot(bp.infos, proc.text, proc.state, before.k, before.trapped, answer);
    }

    method RunClear(n: int, ghost w: World, ghost before: Snapshot) returns (answer: Answer, ghost after: Snapshot)
      requires InPlace(w, Pcs(bp.infos)) && Snaps(before)
      modifies bp, proc
      ensures Ends(w, before, after) && after.answer == answer && ClearEffect(n, before, after)
    {
      var reply := ClearNth(n, w, before.k, before.trapped);
      answer := Removed(reply);
      ghost var trapped := before.trapped && Live(w, before.k) && Pc(w, before.k) in Pcs(bp.infos);
      after := Snapshot(bp.infos, proc.text, proc.state, before.k, trapped, answer);
    }

    method RunClearAll(ghost w: World, ghost before: Snapshot) returns (answer: Answer, ghost after: Snapshot)
      requires InPlace(w, Pcs(bp.infos)) && Snaps(before)
      modifies bp, proc
      ensures Ends(w, before, after) && after.answer == answer && ClearAllEffect(before, after)
    {
      var reply := ClearAll(w, before.k, before.trapped);
      answer := Removed(reply);
      ghost var trapped := before.trapped && Live(w, before.k) && Pc(w, before.k) in Pcs(bp.infos);
      after := Snapshot(bp.infos, proc.text, proc.state, before.k, trapped, answer);
    }

    method RunList(ghost w: World, ghost before: Snapshot) returns (answer: Answer, ghost after: Snapshot)
      requires InPlace(w, Pcs(bp.infos)) && Snaps(before)
      ensures Ends(w, before, after) && after.answer == answer && ListEffect(before, after)
    {
      var listed := List();
      answer := Listed(listed);
      after := before.(answer := answer);
    }

    method RunContinue(patience: nat, ghost w: World, ghost before: Snapshot)
      returns (blocked: bool, answer: Answer, ghost after: Snapshot)
      requires InPlace(w, Pcs(bp.infos)) && Snaps(before)
      modifies proc
      ensures !blocked ==> Ends(w, before, after) && after.answer == answer
      ensures !blocked ==> ContinueEffect(w, bi.raw, patience, before, after)
    {
      ghost var k, trapped := before.k, before.trapped;
      ghost var k', trapped';
      var r, shown;
      r, shown, k', trapped' := Continue(patience, w, k, trapped);
      ContinueFindsFirst(w, Pcs(bp.infos), if trapped then k + 1 else k, patience);
      blocked, answer := r == Blocked, Moved(r, shown);
      after := Snapshot(bp.infos, proc.text, proc.state, k', trapped', answer);
    }

    method RunStep(patience: nat, ghost w: World, ghost before: Snapshot)
      returns (blocked: bool, answer: Answer, ghost after: Snapshot)
      requires InPlace(w, Pcs(bp.infos)) && Snaps(before)
      modifies proc
      ensures !blocked ==> Ends(w, before, after) && after.answer == answer
      ensures !blocked ==> StepEffect(w, bi.raw, patience, before, after)
    {
      ghost var k, trapped := before.k, before.trapped;
      ghost var from, n, e;
      var r, shown;
      r, shown, from, n, e := Step(patience, w, k, trapped);
      StepVisitsInOrder(w, Stepping(k, trapped, Pcs(bp.infos)), 0, n);
      blocked, answer := r == Blocked, Moved(r, shown);
      after := Snapshot(bp.infos, proc.text, proc.state, e.k, e.trapped, answer);
    }

    method RunNext(patience: nat, ghost w: World, ghost before: Snapshot)
      returns (blocked: bool, answer: Answer, ghost after: Snapshot)
      requires InPlace(w, Pcs(bp.infos)) && Snaps(before)
      modifies proc
      ensures !blocked ==> Ends(w, before, after) && after.answer == answer
      ensures !blocked ==> NextEffect(w, bi.raw, patience, before, after)
    {
      ghost var k, trapped := before.k, before.trapped;
      ghost var start, n, e, f;
      var r, shown;
      r, shown, start, n, e, f := Next(patience, w, k, trapped);
      if Tame(w) && Faithful(w, before) {
        NextForward(w, bi.raw, bp.infos, k, trapped, proc.state, patience, r, start, n, e, f);
      }
      blocked, answer := r == Blocked, Moved(r, shown);
      after := Snapshot(bp.infos, proc.text, proc.state, f.k, f.trapped, answer);
    }

    /**
     * A session. Each command that returns has done to the list, the process and the terminal what it is for. After
     * each the patch invariant holds, whatever the program and the addresses are, and a place printed is that of pc.
     * As long as only patchable addresses have been listed, the state is one of the undebugged run, at positions that
     * never go back.
     */
    method Session(cmds: seq<Command>, ghost w: World, ghost k: nat, ghost trapped: bool)
      returns (blocked: bool, ghost log: seq<Snapshot>)
      requires InPlace(w, Pcs(bp.infos))
      modifies bp, proc
      ensures 1 <= |log| <= |cmds| + 1 && (blocked <==> |log| <= |cmds|)
      ensures log[0] == Snapshot(old(bp.infos), old(proc.text), old(proc.state), k, trapped, NoAnswer)
      ensures forall i :: 0 <= i < |log| ==> Sane(w, bi.raw, log[i])
      ensures forall i :: 0 <= i < |log| - 1 ==> Effect(w, bi.raw, cmds[i], log[i], log[i + 1])
      ensures Tame(w) && old(On(w, k, trapped)) ==>
                forall i: nat :: i < |log| && PatchableTo(w, log, i) ==> Transparent(w, log, i)
      ensures !blocked ==>
                var last := log[|cmds|]; (last.infos, last.text, last.state) == (bp.infos, proc.text, proc.state)
    {
      log := [Snapshot(bp.infos, proc.text, proc.state, k, trapped, NoAnswer)];
      ghost var first := log[0];
      for i := 0 to |cmds|
        invariant |log| == i + 1 && log[0] == first && InPlace(w, Pcs(bp.infos)) && Snaps(log[i])
        invariant Logged(w, bi.raw, cmds, log)
      {
        var answer;
        ghost var after;
        blocked, answer, after := Execute(cmds[i], w, log[i]);
        if blocked {
          return;
        }
        LoggedNext(w, bi.raw, cmds, log, after);
        log := log + [after];
      }
      blocked := false;
    }
  }

  // ---------------------------------------------------------------- what the commands mean

  /** Text with every original byte put back. */
  function Restored(text: Memory, infos: seq<BInfo>): Memory {
    if infos == [] then text
    else
      var n := |infos| - 1;
      Restored(text, infos[..n])[infos[n].pc := infos[n].original]
  }

  lemma {:induction false} RestoredAt(text: Memory, infos: seq<BInfo>, a: Word)
    ensures a in Restored(text, infos) <==> a in text || a in Pcs(infos)
    ensures a !in Pcs(infos) && a in text ==> Restored(text, infos)[a] == text[a]
    ensures a in Pcs(infos) ==> exists v :: v in infos && v.pc == a && Restored(text, infos)[a] == v.original
  {
    if infos != [] {
      var n := |infos| - 1;
      assert infos == infos[..n] + [infos[n]];
      PcsConcat(infos[..n], [infos[n]]);
      RestoredAt(text, infos[..n], a);
      if a == infos[n].pc {
        assert infos[n] in infos;
      }
    }
  }

  /** Whatever the session, putting the original bytes back gives the pristine text. */
  lemma RestoredIsPristine(w: World, raw: seq<LineEntry>, s: Snapshot)
    requires Sane(w, raw, s) && s.state.Running?
    ensures Restored(s.text, s.infos) == w.text
  {
    forall a: Word
      ensures a in Restored(s.text, s.infos) <==> a in w.text
      ensures a in w.text ==> Restored(s.text, s.infos)[a] == w.text[a]
    {
      RestoredAt(s.text, s.infos, a);
      if a in Pcs(s.infos) {
        var v :| v in s.infos && v.pc == a && Restored(s.text, s.infos)[a] == v.original;
        assert Right(w, v);
      }
    }
  }

  /**
   * A faithful state hides nothing: putting the original bytes back gives the pristine text, and undoing the trap
   * gives exactly state k of the undebugged run.
   */
  lemma FaithfulIsNative(w: World, raw: seq<LineEntry>, s: Snapshot)
    requires Sane(w, raw, s) && Faithful(w, s)
    ensures Rewind(s.state, Pcs(s.infos)) == Run(w, s.k)
    ensures Live(w, s.k) ==> Restored(s.text, s.infos) == w.text
  {
    RewindIsNative(w, s.infos, s.state, s.k, s.trapped);
    if Live(w, s.k) {
      RestoredIsPristine(w, raw, s);
    }
  }

  /** In the register file that `p` looks a frame up with, 6 and 7 are the DWARF registers and 16 is the raw pc. */
  lemma RegisterFile(ctx: Context, pc: Word, n: Word)
    ensures var regs := FrameLookup.Registers(pc, RegisterOf(ctx, DWARF_RSP), RegisterOf(ctx, DWARF_RBP));
            FrameLookup.Register(regs, n) == if n == 6 || n == 7 then RegisterOf(ctx, n) else if n == 16 then pc else 0
  {
  }

  /**
   * `n` never stops deeper in the call stack than it started unless it trapped on a breakpoint, when the stretch of the
   * run it went over keeps to the call depth.
   */
  lemma NextNeverDeeper(
      w: World, raw: seq<LineEntry>, armed: set<Word>, depth: nat -> int, k: nat, patience: nat, start: Location,
      n: nat, e: Nexting, f: Nexting)
    requires Tame(w) && CallDiscipline(w, armed, depth, k, f.k)
    requires NextResult(w, raw, armed, Nexting(k, false, None), patience, Stopped, start, n, e, f)
    ensures f.trapped || (Live(w, f.k) && depth(f.k) <= depth(k))
  {
    if !e.trapped {
      NextStaysShallow(w, armed, depth, k, n);
    }
  }

  /**
   * From `b` to the display after `c`: stopped on the breakpoint of a file and line, the place shown is that file and
   * line, when rows at the same address agree and no row starts at the byte after the trap.
   */
  lemma StopShowsRequestedLine(
      w: World, raw: seq<LineEntry>, f: string, l: int, k: nat, shown: Location)
    requires Unambiguous(raw) && Live(w, k)
    requires BreakAddress(Select(raw, f, l)) == Some(Pc(w, k)) && Pc(w, k) + 1 < TWO_64
    requires forall i :: 0 <= i < |raw| && raw[i].file.Some? ==> raw[i].address != Pc(w, k) + 1
    requires Closest(raw, RealPc(w, k, true), shown)
    ensures shown == Location(f, l)
  {
    BreakLocationRoundTrip(raw, f, l, Pc(w, k), Pc(w, k) + 1, shown);
  }

  /**
   * In any session: whenever a command stops with a listed user breakpoint behind pc, the place it prints is the file
   * and line that `bl` lists for that breakpoint, when rows at the same address agree and no row starts at pc.
   */
  lemma StopShowsListedLine(w: World, raw: seq<LineEntry>, s: Snapshot, v: BInfo)
    requires Sane(w, raw, s) && s.answer.Moved? && s.answer.report == Stopped && Unambiguous(raw)
    requires v in s.infos && v.kind == UserBp && s.state.pc == v.pc + 1
    requires forall i :: 0 <= i < |raw| && raw[i].file.Some? ==> raw[i].address != s.state.pc
    ensures s.answer.shown == Location(v.file, v.line)
  {
    BreakLocationRoundTrip(raw, v.file, v.line, v.pc, s.state.pc, s.answer.shown);
  }

  /**
   * Restarting on a fresh process of the same program always succeeds and gives the patch invariant, with the user
   * breakpoints in place and no others; on patchable addresses the process stands at the beginning of the run.
   */
  lemma RestartIsFaithful(w: World, raw: seq<LineEntry>, infos: seq<BInfo>)
    requires Recorded(w, infos) && Addressed(raw, infos)
    ensures var users := OfKind(infos, UserBp);
            var s := Snapshot(users, Patched(w.text, Pcs(users)), w.start, 0, false, NoAnswer);
            Pcs(users) <= w.text.Keys && Sane(w, raw, s) && (AllPatchable(w, infos) ==> Faithful(w, s))
  {
    OfKindDistinct(infos, UserBp);
    forall v | v in OfKind(infos, UserBp)
      ensures v in infos && Right(w, v)
    {
      OfKindMember(infos, UserBp, v);
    }
  }

  lemma DropMiddle(front: seq<BInfo>, v: BInfo, back: seq<BInfo>)
    ensures var s := front + [v] + back;
            |front| + 1 <= |s| && s[..|front|] == front && s[|front| + 1..] == back
  {
  }

  lemma ClearedAt(before: seq<BInfo>, i: nat)
    requires i < |before| && before[i].kind == UserBp
    ensures var m, after := |OfKind(before[..i], UserBp)|, before[..i] + before[i + 1..];
            && m < |OfKind(before, UserBp)|
            && OfKind(after, UserBp) == OfKind(before, UserBp)[..m] + OfKind(before, UserBp)[m + 1..]
            && OfKind(after, InternalBp) == OfKind(before, InternalBp)
  {
    OfKindWithout(before, i, UserBp);
    OfKindWithout(before, i, InternalBp);
    DropMiddle(OfKind(before[..i], UserBp), before[i], OfKind(before[i + 1..], UserBp));
  }

  /** `bc n` removes exactly the n-th line that `bl` prints. */
  lemma ClearMatchesList(before: seq<BInfo>, n: int, after: seq<BInfo>)
    requires WithoutNth(before, n, after)
    ensures 1 <= n <= |OfKind(before, UserBp)|
    ensures OfKind(after, UserBp) == OfKind(before, UserBp)[..n - 1] + OfKind(before, UserBp)[n..]
    ensures OfKind(after, InternalBp) == OfKind(before, InternalBp)
  {
    var i: nat :| i < |before| && before[i].kind == UserBp && |OfKind(before[..i], UserBp)| == n - 1
                  && after == before[..i] + before[i + 1..];
    ClearedAt(before, i);
  }
}
