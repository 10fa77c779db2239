/** The `bt` command: following saved frame pointers up the stack (prompt.go, findFunctionIncludePc of bininfo.go). */
module Backtrace {
  import opened Words
  import opened Native
  import opened LineIndex

  datatype Function = Function(name: string, low: Word, high: Word)

  /** The first function whose range holds pc. */
  function FunctionAt(functions: seq<Function>, pc: Word): Option<Function> {
    if functions == [] then None
    else if functions[0].low <= pc < functions[0].high then Some(functions[0])
    else FunctionAt(functions[1..], pc)
  }

  /** An 8-byte little-endian word of memory. */
  function WordAt(data: Memory, a: nat): Word
    requires Mapped(data, a, 8)
  {
    var bytes := seq(8, i requires 0 <= i < 8 => data[a + i]);
    LittleEndianWord(bytes);
    LittleEndian(bytes)
  }

  /** The 16 bytes at a frame pointer: the caller's frame pointer, then the return address. */
  function PairAt(data: Memory, rbp: Word): Option<(Word, Word)> {
    if Mapped(data, rbp, 16) then Some((WordAt(data, rbp), WordAt(data, rbp + 8))) else None
  }

  datatype End = Complete | Unreadable | NoFunction | StillWalking

  /** The return addresses the walk reports from a frame pointer, and how it ends. */
  datatype Walk = Walk(callers: seq<Word>, end: End)

  function WalkStack(data: Memory, functions: seq<Function>, rbp: Word, patience: nat): Walk
    decreases patience
  {
    if rbp == 0 then Walk([], Complete)
    else if patience == 0 then Walk([], StillWalking)
    else if PairAt(data, rbp).None? then Walk([], Unreadable)
    else
      var (saved, ret) := PairAt(data, rbp).value;
      if FunctionAt(functions, Pred(ret)).None? then Walk([], NoFunction)
      else
        var above := WalkStack(data, functions, saved, patience - 1);
        Walk([ret] + above.callers, above.end)
  }

  /** One printed line: the place and the function of the instruction before a return address. */
  datatype Frame = Frame(place: Location, name: string)

  ghost predicate Labels(raw: seq<LineEntry>, functions: seq<Function>, ret: Word, f: Frame) {
    && Closest(raw, Pred(ret), f.place)
    && FunctionAt(functions, Pred(ret)).Some? && f.name == FunctionAt(functions, Pred(ret)).value.name
  }

  method FindFunctionIncludePc(functions: seq<Function>, pc: Word) returns (r: Option<Function>)
    ensures r == FunctionAt(functions, pc)
  {
    for i := 0 to |functions|
      invariant FunctionAt(functions, pc) == FunctionAt(functions[i..], pc)
    {
      assert functions[i..][1..] == functions[i + 1..];
      if functions[i].low <= pc < functions[i].high {
        return Some(functions[i]);
      }
    }
    r := None;
  }

  function Below(seen: seq<Word>, walk: Walk): Walk {
    Walk(seen + walk.callers, walk.end)
  }

  lemma BelowStep(seen: seq<Word>, ret: Word, walk: Walk)
    ensures Below(seen + [ret], walk) == Below(seen, Walk([ret] + walk.callers, walk.end))
  {
    assert seen + [ret] + walk.callers == seen + ([ret] + walk.callers);
  }

  /** The loop of `bt`, after the line of the pc itself. */
  method PrintFrames(bi: BI, functions: seq<Function>, data: Memory, start: Word, patience: nat)
    returns (frames: seq<Frame>, end: End)
    requires bi.Valid()
    ensures var walk := WalkStack(data, functions, start, patience);
            && end == walk.end && |frames| == |walk.callers|
            && forall i :: 0 <= i < |frames| ==> Labels(bi.raw, functions, walk.callers[i], frames[i])
  {
    frames := [];
    var rbp := start;
    var left := patience;
    ghost var seen: seq<Word> := [];
    while rbp != 0
      invariant |frames| == |seen|
      invariant forall i :: 0 <= i < |frames| ==> Labels(bi.raw, functions, seen[i], frames[i])
      invariant WalkStack(data, functions, start, patience) == Below(seen, WalkStack(data, functions, rbp, left))
      decreases left
    {
      if left == 0 {
        return frames, StillWalking;
      }
      var pair := PairAt(data, rbp);
      if pair.None? {
        return frames, Unreadable;
      }
      var (saved, ret) := pair.value;
      var place := bi.PcToFileLine(Pred(ret));
      var f := FindFunctionIncludePc(functions, Pred(ret));
      if f.None? {
        return frames, NoFunction;
      }
      BelowStep(seen, ret, WalkStack(data, functions, saved, left - 1));
      frames := frames + [Frame(place, f.value.name)];
      seen := seen + [ret];
      rbp, left := saved, left - 1;
    }
    end := Complete;
  }

  // ---------------------------------------------------------------- the stack recovered

  /** The call stack laid out in memory: at each frame pointer the caller's frame pointer, then the return address. */
  ghost predicate LaidOut(data: Memory, rbp: Word, callers: seq<Word>)
    decreases |callers|
  {
    if callers == [] then rbp == 0
    else
      && rbp != 0 && PairAt(data, rbp).Some?
      && PairAt(data, rbp).value.1 == callers[0]
      && LaidOut(data, PairAt(data, rbp).value.0, callers[1..])
  }

  /**
   * The walk completes with a list of return addresses if and only if that list is the call stack laid out in memory,
   * innermost first, every caller lies in a known function, and patience covers its length.
   */
  lemma {:induction false} WalkRecoversStack(
      data: Memory, functions: seq<Function>, rbp: Word, patience: nat, callers: seq<Word>)
    ensures WalkStack(data, functions, rbp, patience) == Walk(callers, Complete) <==>
            && LaidOut(data, rbp, callers) && |callers| <= patience
            && forall i :: 0 <= i < |callers| ==> FunctionAt(functions, Pred(callers[i])).Some?
    decreases patience
  {
    if rbp != 0 && patience > 0 && PairAt(data, rbp).Some? {
      var (next, ret) := PairAt(data, rbp).value;
      if callers != [] && callers[0] == ret {
        WalkRecoversStack(data, functions, next, patience - 1, callers[1..]);
        assert callers == [ret] + callers[1..];
      }
    }
  }

  // ---------------------------------------------------------------- the stack in bytes

  /** The first function of the list that holds an address is the one found, and none is found only if none holds it. */
  lemma {:induction false} FunctionAtLaw(functions: seq<Function>, pc: Word)
    ensures FunctionAt(functions, pc) == None <==>
              forall i :: 0 <= i < |functions| ==> !(functions[i].low <= pc < functions[i].high)
    ensures forall i :: 0 <= i < |functions| && functions[i].low <= pc < functions[i].high
                        && (forall j :: 0 <= j < i ==> !(functions[j].low <= pc < functions[j].high)) ==>
              FunctionAt(functions, pc) == Some(functions[i])
  {
    if functions != [] {
      FunctionAtLaw(functions[1..], pc);
      assert functions == [functions[0]] + functions[1..];
    }
  }

  /** A frame on the stack: where its frame pointer points, and the return address above the saved one. */
  datatype StackFrame = StackFrame(rbp: Word, ret: Word)

  /** The 8 bytes at a hold v, lowest byte first. */
  ghost predicate WordIn(data: Memory, a: nat, v: Word) {
    a + 8 <= TWO_64 && forall b: nat :: b < 8 ==> a + b in data && data[a + b] == ToLittleEndian(v, 8)[b]
  }

  function NextPointer(frames: seq<StackFrame>): Word {
    if frames == [] then 0 else frames[0].rbp
  }

  /** Each frame pointer points at the next one, 0 at the end, with the return address in the word above. */
  ghost predicate StackIn(data: Memory, frames: seq<StackFrame>) {
    forall i :: 0 <= i < |frames| ==>
      && frames[i].rbp != 0
      && WordIn(data, frames[i].rbp, NextPointer(frames[i + 1..]))
      && WordIn(data, frames[i].rbp + 8, frames[i].ret)
  }

  function Returns(frames: seq<StackFrame>): seq<Word> {
    seq(|frames|, i requires 0 <= i < |frames| => frames[i].ret)
  }

  lemma WordInRead(data: Memory, a: nat, v: Word)
    requires WordIn(data, a, v)
    ensures Mapped(data, a, 8) && WordAt(data, a) == v
  {
    forall x: Word | a <= x < a + 8
      ensures x in data
    {
      var b: nat := x - a;
      assert ToLittleEndian(v, 8)[b] == data[a + b];
    }
    var bytes := seq(8, i requires 0 <= i < 8 => data[a + i]);
    assert bytes == ToLittleEndian(v, 8);
    Pow256Values();
    LittleEndianInverse(v, 8);
  }

  lemma PairInRead(data: Memory, rbp: Word, saved: Word, ret: Word)
    requires WordIn(data, rbp, saved) && WordIn(data, rbp + 8, ret)
    ensures PairAt(data, rbp) == Some((saved, ret))
  {
    WordInRead(data, rbp, saved);
    WordInRead(data, rbp + 8, ret);
    assert Mapped(data, rbp, 16);
  }

  lemma StackInTail(data: Memory, frames: seq<StackFrame>)
    requires StackIn(data, frames) && frames != []
    ensures StackIn(data, frames[1..])
    ensures PairAt(data, frames[0].rbp) == Some((NextPointer(frames[1..]), frames[0].ret))
  {
    forall i | 0 <= i < |frames[1..]|
      ensures frames[1..][i].rbp != 0
      ensures WordIn(data, frames[1..][i].rbp, NextPointer(frames[1..][i + 1..]))
      ensures WordIn(data, frames[1..][i].rbp + 8, frames[1..][i].ret)
    {
      assert frames[1..][i] == frames[i + 1] && frames[1..][i + 1..] == frames[i + 1 + 1..];
    }
    assert frames[0 + 1..] == frames[1..];
    PairInRead(data, frames[0].rbp, NextPointer(frames[1..]), frames[0].ret);
  }

  lemma WalkOneFrame(
      data: Memory, functions: seq<Function>, rbp: Word, saved: Word, ret: Word, rest: seq<Word>, patience: nat)
    requires rbp != 0 && patience > 0 && PairAt(data, rbp) == Some((saved, ret))
    requires FunctionAt(functions, Pred(ret)).Some?
    requires WalkStack(data, functions, saved, patience - 1) == Walk(rest, Complete)
    ensures WalkStack(data, functions, rbp, patience) == Walk([ret] + rest, Complete)
  {
  }

  lemma HeldAbove(functions: seq<Function>, ret: Word, g: Function)
    requires ret > 0 && g in functions && g.low <= ret - 1 < g.high
    ensures FunctionAt(functions, Pred(ret)).Some?
  {
    FunctionAtLaw(functions, ret - 1);
    var i :| 0 <= i < |functions| && functions[i] == g;
  }

  /**
   * For any stack in memory, byte by byte, whose return addresses follow an instruction of some function, the walk
   * from the innermost frame pointer is exactly those return addresses, innermost first, and completes.
   */
  lemma {:induction false} WalkOverBytes(
      data: Memory, functions: seq<Function>, frames: seq<StackFrame>, patience: nat)
    requires StackIn(data, frames) && |frames| <= patience
    requires forall i :: 0 <= i < |frames| ==> frames[i].ret > 0
    requires forall i :: 0 <= i < |frames| ==> exists g :: g in functions && g.low <= frames[i].ret - 1 < g.high
    ensures WalkStack(data, functions, NextPointer(frames), patience) == Walk(Returns(frames), Complete)
  {
    if frames != [] {
      StackInTail(data, frames);
      forall i | 0 <= i < |frames[1..]|
        ensures frames[1..][i].ret > 0
        ensures exists g :: g in functions && g.low <= frames[1..][i].ret - 1 < g.high
      {
        assert frames[1..][i] == frames[i + 1];
      }
      WalkOverBytes(data, functions, frames[1..], patience - 1);
      var first := frames[0];
      var g :| g in functions && g.low <= first.ret - 1 < g.high;
      HeldAbove(functions, first.ret, g);
      WalkOneFrame(data, functions, first.rbp, NextPointer(frames[1..]), first.ret, Returns(frames[1..]), patience);
      assert [first.ret] + Returns(frames[1..]) == Returns(frames);
    } else {
      assert Returns(frames) == [];
    }
  }

  lemma {:induction false} FirstHolder(functions: seq<Function>, pc: Word)
    requires FunctionAt(functions, pc).Some?
    ensures exists i :: 0 <= i < |functions| && FunctionAt(functions, pc) == Some(functions[i])
                        && functions[i].low <= pc < functions[i].high
                        && forall j :: 0 <= j < i ==> !(functions[j].low <= pc < functions[j].high)
  {
    if !(functions[0].low <= pc < functions[0].high) {
      FirstHolder(functions[1..], pc);
      var i :| 0 <= i < |functions[1..]| && FunctionAt(functions, pc) == Some(functions[1..][i])
               && functions[1..][i].low <= pc < functions[1..][i].high
               && forall j :: 0 <= j < i ==> !(functions[1..][j].low <= pc < functions[1..][j].high);
      assert functions[i + 1] == functions[1..][i];
      forall j | 0 <= j < i + 1
        ensures !(functions[j].low <= pc < functions[j].high)
      {
        assert j > 0 ==> functions[j] == functions[1..][j - 1];
      }
    }
  }

  /** A frame printed for a return address shows the place and the function of the address before it. */
  lemma LabelsLaw(raw: seq<LineEntry>, functions: seq<Function>, ret: Word, f: Frame)
    requires Labels(raw, functions, ret, f) && ret > 0
    ensures Closest(raw, ret - 1, f.place)
    ensures exists i :: 0 <= i < |functions| && f.name == functions[i].name
                        && functions[i].low <= ret - 1 < functions[i].high
                        && forall j :: 0 <= j < i ==> !(functions[j].low <= ret - 1 < functions[j].high)
  {
    FirstHolder(functions, ret - 1);
  }

  // ---------------------------------------------------------------- chains that end

  /** The frame pointer the loop goes on with after reporting the frame at rbp, if it gets that far. */
  function Above(data: Memory, functions: seq<Function>, rbp: Word): (above: Option<Word>)
    ensures above.Some? ==> rbp in data
  {
    if rbp == 0 || PairAt(data, rbp).None? || FunctionAt(functions, Pred(PairAt(data, rbp).value.1)).None? then None
    else Some(PairAt(data, rbp).value.0)
  }

  /** The frame pointer after n frames. */
  function Pointer(data: Memory, functions: seq<Function>, rbp: Word, n: nat): Option<Word> {
    if n == 0 then Some(rbp)
    else match Pointer(data, functions, rbp, n - 1)
         case None => None
         case Some(p) => Above(data, functions, p)
  }

  /** The chain of frame pointers comes back to one it has been at. */
  ghost predicate Repeats(data: Memory, functions: seq<Function>, rbp: Word, i: nat, j: nat) {
    i < j && Pointer(data, functions, rbp, i).Some?
    && Pointer(data, functions, rbp, i) == Pointer(data, functions, rbp, j)
  }

  lemma {:induction false} PointerFront(data: Memory, functions: seq<Function>, rbp: Word, n: nat)
    requires Above(data, functions, rbp).Some?
    ensures Pointer(data, functions, rbp, n + 1) ==
            Pointer(data, functions, Above(data, functions, rbp).value, n)
  {
    if n > 0 {
      PointerFront(data, functions, rbp, n - 1);
    }
  }

  lemma {:induction false} PointerPrefix(data: Memory, functions: seq<Function>, rbp: Word, m: nat, n: nat)
    requires m <= n && Pointer(data, functions, rbp, n).Some?
    ensures Pointer(data, functions, rbp, m).Some?
    decreases n - m
  {
    if m < n {
      PointerPrefix(data, functions, rbp, m, n - 1);
    }
  }

  /** The walk is still going when patience runs out exactly when the chain has a next frame pointer there. */
  lemma {:induction false} StillWalkingAt(data: Memory, functions: seq<Function>, rbp: Word, patience: nat)
    ensures WalkStack(data, functions, rbp, patience).end == StillWalking <==>
            var p := Pointer(data, functions, rbp, patience); p.Some? && p.value != 0
    decreases patience
  {
    if patience > 0 {
      if Above(data, functions, rbp).Some? {
        PointerFront(data, functions, rbp, patience - 1);
        StillWalkingAt(data, functions, Above(data, functions, rbp).value, patience - 1);
      } else {
        assert Pointer(data, functions, rbp, 1) == None;
        if Pointer(data, functions, rbp, patience).Some? {
          PointerPrefix(data, functions, rbp, 1, patience);
        }
      }
    }
  }

  lemma {:induction false} PointerShift(
      data: Memory, functions: seq<Function>, rbp: Word, i: nat, j: nat, n: nat)
    requires Repeats(data, functions, rbp, i, j)
    ensures Pointer(data, functions, rbp, i + n) == Pointer(data, functions, rbp, j + n)
  {
    if n > 0 {
      PointerShift(data, functions, rbp, i, j, n - 1);
    }
  }

  /** A chain that repeats has a frame pointer after any number of frames. */
  lemma {:induction false} RepeatingGoesOn(data: Memory, functions: seq<Function>, rbp: Word, i: nat, j: nat, n: nat)
    requires Repeats(data, functions, rbp, i, j)
    ensures Pointer(data, functions, rbp, n).Some?
    decreases n
  {
    if n <= j {
      PointerPrefix(data, functions, rbp, n, j);
    } else {
      RepeatingGoesOn(data, functions, rbp, i, j, n - (j - i));
      PointerShift(data, functions, rbp, i, j, n - j);
    }
  }

  /** The frame pointers of the first n frames. */
  ghost function Visited(data: Memory, functions: seq<Function>, rbp: Word, n: nat): set<Word>
    requires Pointer(data, functions, rbp, n).Some?
  {
    if n == 0 then {}
    else
      Visited(data, functions, rbp, n - 1) + {Pointer(data, functions, rbp, n - 1).value}
  }

  lemma {:induction false} VisitedEarlier(data: Memory, functions: seq<Function>, rbp: Word, n: nat, x: Word)
    requires Pointer(data, functions, rbp, n).Some? && x in Visited(data, functions, rbp, n)
    ensures exists i: nat :: i < n && Pointer(data, functions, rbp, i) == Some(x)
  {
    if Pointer(data, functions, rbp, n - 1) != Some(x) {
      VisitedEarlier(data, functions, rbp, n - 1, x);
    }
  }

  lemma VisitedRepeats(data: Memory, functions: seq<Function>, rbp: Word, n: nat, x: Word)
    requires Pointer(data, functions, rbp, n) == Some(x) && x in Visited(data, functions, rbp, n)
    ensures exists i, j :: Repeats(data, functions, rbp, i, j)
  {
    VisitedEarlier(data, functions, rbp, n, x);
    var i: nat :| i < n && Pointer(data, functions, rbp, i) == Some(x);
    assert Repeats(data, functions, rbp, i, n);
  }

  /** Frame pointers that do not repeat are as many different mapped addresses. */
  lemma {:induction false} VisitedMapped(data: Memory, functions: seq<Function>, rbp: Word, n: nat)
    requires Pointer(data, functions, rbp, n).Some?
    requires forall i, j :: !Repeats(data, functions, rbp, i, j)
    ensures Visited(data, functions, rbp, n) <= data.Keys && |Visited(data, functions, rbp, n)| == n
  {
    if n > 0 {
      VisitedMapped(data, functions, rbp, n - 1);
      var x := Pointer(data, functions, rbp, n - 1).value;
      if x in Visited(data, functions, rbp, n - 1) {
        VisitedRepeats(data, functions, rbp, n - 1, x);
        assert false;
      }
    }
  }

  lemma Pigeonhole(a: set<Word>, b: set<Word>)
    requires a <= b
    ensures |a| <= |b|
  {
    assert |b| == |a| + |b - a| by {
      assert b == a + (b - a);
    }
  }

  /**
   * The walk ends if and only if no frame pointer of the chain repeats; and then it ends within as many frames as
   * there are mapped addresses.
   */
  lemma WalkEndsExactly(data: Memory, functions: seq<Function>, rbp: Word)
    ensures (exists patience: nat :: WalkStack(data, functions, rbp, patience).end != StillWalking)
            <==> forall i, j :: !Repeats(data, functions, rbp, i, j)
    ensures (forall i, j :: !Repeats(data, functions, rbp, i, j)) ==>
              WalkStack(data, functions, rbp, |data.Keys| + 1).end != StillWalking
  {
    if forall i, j :: !Repeats(data, functions, rbp, i, j) {
      var n := |data.Keys| + 1;
      StillWalkingAt(data, functions, rbp, n);
      if Pointer(data, functions, rbp, n).Some? {
        VisitedMapped(data, functions, rbp, n);
        Pigeonhole(Visited(data, functions, rbp, n), data.Keys);
      }
    } else {
      var i: nat, j: nat :| Repeats(data, functions, rbp, i, j);
      forall patience: nat
        ensures WalkStack(data, functions, rbp, patience).end == StillWalking
      {
        RepeatingGoesOn(data, functions, rbp, i, j, patience + 1);
        StillWalkingAt(data, functions, rbp, patience);
      }
    }
  }

  /** A frame pointer saved as itself makes the walk go on for ever. */
  lemma {:induction false} SelfLinkedFrameNeverEnds(data: Memory, functions: seq<Function>, rbp: Word, patience: nat)
    requires rbp != 0 && PairAt(data, rbp).Some? && PairAt(data, rbp).value.0 == rbp
    requires FunctionAt(functions, Pred(PairAt(data, rbp).value.1)).Some?
    ensures WalkStack(data, functions, rbp, patience).end == StillWalking
    ensures |WalkStack(data, functions, rbp, patience).callers| == patience
  {
    if patience > 0 {
      SelfLinkedFrameNeverEnds(data, functions, rbp, patience - 1);
    }
  }
}
