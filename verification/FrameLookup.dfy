/** From a pc to the frame base and the address of a variable (findFrameInformation of bininfo.go, `p` of prompt.go). */
module FrameLookup {
  import opened Words
  import opened Buffers
  import opened Leb128
  import opened FrameRecords
  import opened CallFrame

  datatype Registers = Registers(rip: Word, rsp: Word, rbp: Word)

  datatype FrameError =
    | NotCovered | DuplicateFde | NoCie | BadInstruction | RegisterTooLarge | RegisterNull | InvalidRule

  datatype FrameResult = Found(base: Word, columns: Columns) | Failed(error: FrameError)

  // ---------------------------------------------------------------- what the lookup computes

  /** The range test of the search: closed at the top, the end computed in 64-bit arithmetic. */
  predicate Covers(f: Fde, pc: Word) {
    f.begin <= pc <= Wrap(f.begin + f.size)
  }

  function CoveringOne(e: Entry, pc: Word): seq<Fde> {
    if e.FdeEntry? && Covers(e.fde, pc) then [e.fde] else []
  }

  function Covering(entries: seq<Entry>, pc: Word): (fs: seq<Fde>)
    ensures forall f :: f in fs ==> Covers(f, pc)
  {
    if entries == [] then []
    else Covering(entries[..|entries| - 1], pc) + CoveringOne(entries[|entries| - 1], pc)
  }

  /** The rules at pc: the CIE program, then the FDE program from the start of its range until it passes pc. */
  function Unwind(cie: Cie, fde: Fde, pc: Word): Option<Columns> {
    match RunAll(cie, Progress(0, BLANK), cie.initial)
    case None => None
    case Some(st) =>
      match RunUntil(cie, Progress(fde.begin, st.columns), fde.instructions, pc)
      case None => None
      case Some(last) => Some(last.columns)
  }

  /** The register file as filled in from ptrace: DWARF numbers 6, 7 and 16, all others 0. */
  function Register(regs: Registers, n: Word): Word {
    if n == 16 then regs.rip else if n == 7 then regs.rsp else if n == 6 then regs.rbp else 0
  }

  function Base(c: Columns, regs: Registers): FrameResult {
    if c.cfa.rule != RuleCFA then Failed(InvalidRule)
    else if c.cfa.reg >= 17 then Failed(RegisterTooLarge)
    else if Register(regs, c.cfa.reg) == 0 then Failed(RegisterNull)
    else Found(Wrap(Register(regs, c.cfa.reg) + c.cfa.offset), c)
  }

  function FrameAt(entries: seq<Entry>, pc: Word, regs: Registers): FrameResult {
    var fs := Covering(entries, pc);
    if |fs| > 1 then Failed(DuplicateFde)
    else if fs == [] then Failed(NotCovered)
    else if fs[0].cie.None? then Failed(NoCie)
    else match Unwind(fs[0].cie.value, fs[0], pc)
         case None => Failed(BadInstruction)
         case Some(c) => Base(c, regs)
  }

  lemma CoveringPrefix(entries: seq<Entry>, i: nat, pc: Word)
    requires i < |entries|
    ensures Covering(entries[..i + 1], pc) == Covering(entries[..i], pc) + CoveringOne(entries[i], pc)
  {
    assert entries[..i + 1][..i] == entries[..i];
  }

  lemma {:induction false} CoveringGrows(entries: seq<Entry>, i: nat, pc: Word)
    requires i <= |entries|
    ensures |Covering(entries[..i], pc)| <= |Covering(entries, pc)|
    decreases |entries| - i
  {
    if i < |entries| {
      CoveringPrefix(entries, i, pc);
      CoveringGrows(entries, i + 1, pc);
    } else {
      assert entries[..i] == entries;
    }
  }

  method FindFde(entries: seq<Entry>, pc: Word) returns (fde: Option<Fde>, duplicate: bool)
    ensures duplicate <==> |Covering(entries, pc)| > 1
    ensures !duplicate ==> Covering(entries, pc) == match fde case None => [] case Some(f) => [f]
  {
    fde := None;
    for i := 0 to |entries|
      invariant Covering(entries[..i], pc) == match fde case None => [] case Some(f) => [f]
    {
      CoveringPrefix(entries, i, pc);
      if entries[i].FdeEntry? && Covers(entries[i].fde, pc) {
        if fde != None {
          CoveringGrows(entries, i + 1, pc);
          return None, true;
        }
        fde := Some(entries[i].fde);
      }
    }
    assert entries[..|entries|] == entries;
    duplicate := false;
  }

  method RunUnwindPrograms(cie: Cie, fde: Fde, pc: Word) returns (c: Option<Columns>)
    ensures c == Unwind(cie, fde, pc)
  {
    var frame := new Frame(cie);
    var initial := new Buffer(cie.initial);
    var ok := ExecCIEInstructions(frame, initial);
    if !ok {
      return None;
    }
    frame.loc := fde.begin;
    frame.address := pc;
    var instructions := new Buffer(fde.instructions);
    ok := ExecFDEInstructions(frame, instructions);
    c := if ok then Some(Columns(frame.cfa, frame.regsRule)) else None;
  }

  method FindFrameInformation(entries: seq<Entry>, pc: Word, regs: Registers) returns (r: FrameResult)
    ensures r == FrameAt(entries, pc, regs)
  {
    var fde, duplicate := FindFde(entries, pc);
    if duplicate {
      return Failed(DuplicateFde);
    }
    if fde == None {
      return Failed(NotCovered);
    }
    if fde.value.cie == None {
      return Failed(NoCie);
    }
    var c := RunUnwindPrograms(fde.value.cie.value, fde.value, pc);
    r := if c == None then Failed(BadInstruction) else Base(c.value, regs);
  }

  // ---------------------------------------------------------------- the closed upper bound

  /** The half-open range an FDE describes. */
  predicate InRange(f: Fde, pc: Word) {
    f.begin <= pc < f.begin + f.size
  }

  predicate EndsAt(e: Entry, pc: Word) {
    e.FdeEntry? && e.fde.begin + e.fde.size == pc
  }

  /** Ranges that stay below 2^64 and do not overlap. */
  ghost predicate DisjointRanges(entries: seq<Entry>) {
    && (forall i :: 0 <= i < |entries| && entries[i].FdeEntry? ==> entries[i].fde.begin + entries[i].fde.size < TWO_64)
    && (forall i, j, pc: Word :: 0 <= i < j < |entries| && entries[i].FdeEntry? && entries[j].FdeEntry? ==>
          !(InRange(entries[i].fde, pc) && InRange(entries[j].fde, pc)))
  }

  /** At a pc outside the half-open range of an entry, only the closed end covers it. */
  lemma EndCovers(e: Entry, pc: Word)
    requires e.FdeEntry? ==> e.fde.begin + e.fde.size < TWO_64 && !InRange(e.fde, pc)
    ensures CoveringOne(e, pc) == [] <==> !EndsAt(e, pc)
  {
  }

  lemma {:induction false} CoveringNone(entries: seq<Entry>, pc: Word)
    ensures Covering(entries, pc) == [] <==>
            forall k :: 0 <= k < |entries| ==> CoveringOne(entries[k], pc) == []
  {
    if entries != [] {
      CoveringNone(entries[..|entries| - 1], pc);
    }
  }

  lemma {:induction false} CoveringSingle(entries: seq<Entry>, pc: Word, i: nat)
    requires i < |entries|
    requires forall k :: 0 <= k < |entries| && k != i ==> CoveringOne(entries[k], pc) == []
    ensures Covering(entries, pc) == CoveringOne(entries[i], pc)
  {
    var n := |entries| - 1;
    var front := entries[..n];
    if i < n {
      forall k | 0 <= k < n && k != i ensures CoveringOne(front[k], pc) == [] {
        assert front[k] == entries[k];
      }
      CoveringSingle(front, pc, i);
    } else {
      forall k | 0 <= k < n ensures CoveringOne(front[k], pc) == [] {
        assert front[k] == entries[k];
      }
      CoveringNone(front, pc);
    }
  }

  lemma {:induction false} CoveringAtLeast(entries: seq<Entry>, pc: Word, i: nat)
    requires i < |entries| && CoveringOne(entries[i], pc) != []
    ensures |Covering(entries, pc)| >= 1
  {
    var n := |entries| - 1;
    if i < n {
      CoveringAtLeast(entries[..n], pc, i);
    }
  }

  lemma {:induction false} CoveringSeveral(entries: seq<Entry>, pc: Word, i: nat, k: nat)
    requires i < k < |entries| && CoveringOne(entries[i], pc) != [] && CoveringOne(entries[k], pc) != []
    ensures |Covering(entries, pc)| >= 2
  {
    var n := |entries| - 1;
    if k < n {
      CoveringSeveral(entries[..n], pc, i, k);
    } else {
      CoveringAtLeast(entries[..n], pc, i);
    }
  }

  lemma CoveringOnly(entries: seq<Entry>, pc: Word, i: nat)
    requires i < |entries| && CoveringOne(entries[i], pc) != []
    ensures Covering(entries, pc) == [entries[i].fde] <==>
            forall k :: 0 <= k < |entries| && k != i ==> CoveringOne(entries[k], pc) == []
    ensures Covering(entries, pc) != [entries[i].fde] ==> |Covering(entries, pc)| >= 2
  {
    if k :| 0 <= k < |entries| && k != i && CoveringOne(entries[k], pc) != [] {
      CoveringSeveral(entries, pc, if i < k then i else k, if i < k then k else i);
    } else {
      CoveringSingle(entries, pc, i);
    }
  }

  /**
   * For a pc described by exactly one FDE the search succeeds, with that FDE, if and only if no other FDE ends
   * exactly at pc; otherwise it reports a duplicate.
   */
  lemma {:induction false} SearchInside(entries: seq<Entry>, pc: Word, i: nat)
    requires DisjointRanges(entries)
    requires i < |entries| && entries[i].FdeEntry? && InRange(entries[i].fde, pc)
    ensures Covering(entries, pc) == [entries[i].fde] <==>
            forall k :: 0 <= k < |entries| && k != i ==> !EndsAt(entries[k], pc)
    ensures Covering(entries, pc) != [entries[i].fde] ==>
            forall regs :: FrameAt(entries, pc, regs) == Failed(DuplicateFde)
  {
    CoveringOnly(entries, pc, i);
    forall k | 0 <= k < |entries| && k != i
      ensures CoveringOne(entries[k], pc) == [] <==> !EndsAt(entries[k], pc)
    {
      if entries[k].FdeEntry? {
        var f, g := entries[i].fde, entries[k].fde;
        assert !(InRange(f, pc) && InRange(g, pc)) by {
          if k < i { assert entries[k].FdeEntry? && entries[i].FdeEntry?; }
        }
      }
    }
  }

  /** A pc no FDE describes is still given a frame exactly when some FDE ends there. */
  lemma SearchOutside(entries: seq<Entry>, pc: Word)
    requires DisjointRanges(entries)
    requires forall k :: 0 <= k < |entries| && entries[k].FdeEntry? ==> !InRange(entries[k].fde, pc)
    ensures Covering(entries, pc) == [] <==> forall k :: 0 <= k < |entries| ==> !EndsAt(entries[k], pc)
  {
    CoveringNone(entries, pc);
    forall k | 0 <= k < |entries|
      ensures CoveringOne(entries[k], pc) == [] <==> !EndsAt(entries[k], pc)
    {
      EndCovers(entries[k], pc);
    }
  }

  /**
   * A pc no FDE describes, where entry i ends: the search succeeds, with that entry, if and only if no other one ends
   * there; otherwise it reports a duplicate.
   */
  lemma SearchPastEnd(entries: seq<Entry>, pc: Word, i: nat)
    requires DisjointRanges(entries) && i < |entries| && EndsAt(entries[i], pc)
    requires forall k :: 0 <= k < |entries| && entries[k].FdeEntry? ==> !InRange(entries[k].fde, pc)
    ensures Covering(entries, pc) == [entries[i].fde] <==>
            forall k :: 0 <= k < |entries| && k != i ==> !EndsAt(entries[k], pc)
    ensures Covering(entries, pc) != [entries[i].fde] ==>
              forall regs :: FrameAt(entries, pc, regs) == Failed(DuplicateFde)
  {
    forall k | 0 <= k < |entries|
      ensures CoveringOne(entries[k], pc) == [] <==> !EndsAt(entries[k], pc)
    {
      EndCovers(entries[k], pc);
    }
    CoveringOnly(entries, pc, i);
  }

  /** The program that sets the CFA to the stack pointer plus 8. */
  lemma ShortProgram(cie: Cie)
    requires cie.initial == [0x0c, 7, 8]
    ensures RunAll(cie, Progress(0, BLANK), cie.initial) == Some(Progress(0, Columns(DWRule(8, 7, RuleCFA), map[])))
  {
    var i, st := DefCfa(7, 8), Progress(0, BLANK);
    assert Encode(i) + [] == cie.initial;
    FetchInvertsEncode(i, []);
    assert RunAll(cie, Apply(cie, st, i), []) == Some(Apply(cie, st, i));
  }

  lemma OneFrame(fde: Fde, pc: Word, regs: Registers)
    requires Covering([FdeEntry(fde)], pc) == [fde] && regs.rsp != 0
    requires fde.cie.Some? && fde.cie.value.initial == [0x0c, 7, 8] && fde.instructions == []
    ensures FrameAt([FdeEntry(fde)], pc, regs) == Found(Wrap(regs.rsp + 8), Columns(DWRule(8, 7, RuleCFA), map[]))
  {
    ShortProgram(fde.cie.value);
  }

  /** One function from 0x1000 to 0x1100: the pc one past its end is given a frame. */
  lemma PastEndGetsFrame(regs: Registers)
    requires regs.rsp != 0
    ensures var cie := Cie(0, 3, [0], 1, -8, 16, [0x0c, 7, 8]);
            var entries := [FdeEntry(Fde(16, 0x1000, 0x100, [], Some(cie)))];
            && DisjointRanges(entries) && !InRange(entries[0].fde, 0x1100)
            && FrameAt(entries, 0x1100, regs) == Found(Wrap(regs.rsp + 8), Columns(DWRule(8, 7, RuleCFA), map[]))
  {
    var fde := Fde(16, 0x1000, 0x100, [], Some(Cie(0, 3, [0], 1, -8, 16, [0x0c, 7, 8])));
    assert EndsAt(FdeEntry(fde), 0x1100);
    SearchPastEnd([FdeEntry(fde)], 0x1100, 0);
    OneFrame(fde, 0x1100, regs);
  }

  /** Two functions back to back: at the first instruction of the second the lookup fails. */
  lemma AdjacentFunctionsClash(cie: Option<Cie>, regs: Registers)
    ensures var entries := [FdeEntry(Fde(16, 0x1000, 0x100, [], cie)), FdeEntry(Fde(16, 0x1100, 0x100, [], cie))];
            DisjointRanges(entries) && FrameAt(entries, 0x1100, regs) == Failed(DuplicateFde)
  {
    var entries := [FdeEntry(Fde(16, 0x1000, 0x100, [], cie)), FdeEntry(Fde(16, 0x1100, 0x100, [], cie))];
    assert EndsAt(entries[0], 0x1100);
    assert InRange(entries[1].fde, 0x1100);
    SearchInside(entries, 0x1100, 1);
  }

  // ---------------------------------------------------------------- end to end

  /** A record whose instruction bytes are all supported instructions. */
  ghost predicate Programmed(r: Record) {
    && WellFormed(r)
    && Program(if r.CieRecord? then r.initial else r.instructions).Some?
  }

  function ProgramOf(r: Record): seq<Instr>
    requires Program(if r.CieRecord? then r.initial else r.instructions).Some?
  {
    Program(if r.CieRecord? then r.initial else r.instructions).value
  }

  /** The state in which an FDE's program starts: what its CIE's program leaves, at the start of the range. */
  function InitialState(cie: Record, fde: Record): Progress
    requires cie.CieRecord? && fde.FdeRecord? && Program(cie.initial).Some?
  {
    Progress(fde.begin, Fold(EntryOf(cie).cie, Progress(0, BLANK), ProgramOf(cie)).columns)
  }

  /** The unwind table of section 6.4.1 of DWARF version 3 for one FDE and its CIE. */
  function UnwindTable(cie: Record, fde: Record): seq<Row>
    requires cie.CieRecord? && fde.FdeRecord? && Program(cie.initial).Some? && Program(fde.instructions).Some?
  {
    Table(EntryOf(cie).cie, InitialState(cie, fde), ProgramOf(fde))
  }

  lemma UnwindIsTableLookup(cie: Record, fde: Record, f: Fde, pc: Word)
    requires cie.CieRecord? && fde.FdeRecord? && Programmed(cie) && Programmed(fde)
    requires f == EntryOf(fde).fde.(cie := Some(EntryOf(cie).cie)) && f.begin <= pc
    requires Settled(UnwindTable(cie, fde))
    ensures Unwind(EntryOf(cie).cie, f, pc) == Lookup(UnwindTable(cie, fde), pc)
  {
    var c := EntryOf(cie).cie;
    RunAllIsFold(c, Progress(0, BLANK), c.initial);
    RunUntilIsFold(c, InitialState(cie, fde), f.instructions, pc);
    EarlyStopIsTableLookup(c, InitialState(cie, fde), ProgramOf(fde), pc);
  }

  /**
   * From section bytes to frame base. Serialise any well-formed records, parse the section, and look up a pc that
   * FDE record i describes: the frame base is the CFA of the last row of that FDE's unwind table at or below pc,
   * built from the nearest preceding CIE.
   */
  lemma FrameBaseFromSection(rs: seq<Record>, i: nat, n: nat, pc: Word, regs: Registers)
    requires forall r :: r in rs ==> WellFormed(r)
    requires i < |rs| && rs[i].FdeRecord? && NearestCie(rs, i) == Some(n)
    requires Programmed(rs[i]) && Programmed(rs[n])
    requires DisjointRanges(Link(rs, None))
    requires rs[i].begin <= pc < rs[i].begin + rs[i].size
    requires forall k :: 0 <= k < |rs| && k != i ==> !EndsAt(Link(rs, None)[k], pc)
    requires Settled(UnwindTable(rs[n], rs[i]))
    ensures var section := ParseSection(SerialiseAll(rs), None);
            && section.Entries?
            && Lookup(UnwindTable(rs[n], rs[i]), pc).Some?
            && FrameAt(section.entries, pc, regs) == Base(Lookup(UnwindTable(rs[n], rs[i]), pc).value, regs)
  {
    SectionRoundTrip(rs, None);
    LinkIsNearest(rs, None, i);
    var entries := Link(rs, None);
    var f := entries[i].fde;
    SearchInside(entries, pc, i);
    UnwindIsTableLookup(rs[n], rs[i], f, pc);
    RunUntilIsFold(EntryOf(rs[n]).cie, InitialState(rs[n], rs[i]), f.instructions, pc);
    RunAllIsFold(EntryOf(rs[n]).cie, Progress(0, BLANK), EntryOf(rs[n]).cie.initial);
  }

  // ---------------------------------------------------------------- the address of a variable

  const DW_OP_FBREG: Byte := 0x91

  /** The address a DW_OP_fbreg location denotes; None for an empty or unsupported expression. */
  function FbregAddress(location: seq<Byte>, base: Word): Option<Word> {
    if location == [] || location[0] != DW_OP_FBREG then None
    else Some(Wrap(base + SignedLeb(location[1..]).value))
  }

  lemma SignedSum(base: Word, num: Int64)
    ensures Wrap(WrapSigned(Signed(base) + num)) == Wrap(base + num)
  {
  }

  method VariableAddress(location: seq<Byte>, base: Word) returns (address: Option<Word>)
    ensures address == FbregAddress(location, base)
  {
    var buf := new Buffer(location);
    var opcode := buf.ReadByte();
    if opcode == None || opcode.value != DW_OP_FBREG {
      return None;
    }
    var num, _, _ := DecodeSLEB128(buf);
    address := Some(Wrap(WrapSigned(Signed(base) + num)));
    SignedSum(base, num);
  }

  /** A variable located at offset v from the frame base is found at CFA + v, for every int64 v. */
  lemma VariableAtOffset(v: Int64, base: Word)
    ensures FbregAddress([DW_OP_FBREG] + EncodeSigned(v), base) == Some(Wrap(base + v))
  {
    assert ([DW_OP_FBREG] + EncodeSigned(v))[1..] == EncodeSigned(v) + [];
    SignedRoundTrip(v, []);
  }

  /** An empty location or one that does not begin with DW_OP_fbreg, 0x91, has no address. */
  lemma VariableElsewhere(location: seq<Byte>, base: Word)
    ensures FbregAddress(location, base) == None <==> location == [] || location[0] != 0x91
  {
  }
}
