/** What each call frame instruction does to a row, said on its bytes, and the frames that common programs give. */
module FrameLaws {
  import opened Words
  import opened Buffers
  import opened Leb128
  import opened FrameRecords
  import opened CallFrame
  import opened FrameLookup

  // ---------------------------------------------------------------- one instruction

  /** Both loops, at these bytes, go on after them from another state. */
  ghost predicate Does(cie: Cie, st: Progress, code: seq<Byte>, next: Progress) {
    && (forall rest {:trigger RunAll(cie, st, code + rest)} :: RunAll(cie, st, code + rest) == RunAll(cie, next, rest))
    && (forall rest, address: Word {:trigger RunUntil(cie, st, code + rest, address)} :: st.loc <= address ==>
          RunUntil(cie, st, code + rest, address) == RunUntil(cie, next, rest, address))
  }

  lemma {:induction false} Fetched(cie: Cie, st: Progress, code: seq<Byte>, i: Instr)
    requires code != [] && forall rest :: Fetch(code + rest) == Got(i, rest)
    ensures Does(cie, st, code, Apply(cie, st, i))
  {
    forall rest
      ensures RunAll(cie, st, code + rest) == RunAll(cie, Apply(cie, st, i), rest)
    {
      assert Fetch(code + rest) == Got(i, rest);
    }
    forall rest, address: Word | st.loc <= address
      ensures RunUntil(cie, st, code + rest, address) == RunUntil(cie, Apply(cie, st, i), rest, address)
    {
      assert Fetch(code + rest) == Got(i, rest);
    }
  }

  lemma {:induction false} Encoded(cie: Cie, st: Progress, i: Instr)
    requires Valid(i)
    ensures Does(cie, st, Encode(i), Apply(cie, st, i))
  {
    EncodeNonempty(i);
    forall rest
      ensures Fetch(Encode(i) + rest) == Got(i, rest)
    {
      FetchInvertsEncode(i, rest);
    }
    Fetched(cie, st, Encode(i), i);
  }

  /** A loop with nothing left, or past its address, is done. */
  lemma {:induction false} Finished(cie: Cie, st: Progress, s: seq<Byte>, address: Word)
    ensures RunAll(cie, st, []) == Some(st)
    ensures s == [] || st.loc > address ==> RunUntil(cie, st, s, address) == Some(st)
  {
  }

  /** DW_CFA_nop. */
  lemma {:induction false} NopLaw(cie: Cie, st: Progress)
    ensures Does(cie, st, [0x00], st)
  {
    Encoded(cie, st, Nop);
  }

  /** DW_CFA_def_cfa_offset_sf: the CFA offset is the operand times the data alignment factor, in int64. */
  lemma {:induction false} DefCfaOffsetSfLaw(cie: Cie, st: Progress, k: Int64, offset: Int64)
    requires offset == WrapSigned(k * cie.dataAlign)
    ensures Does(cie, st, [0x13] + EncodeSigned(k),
                 Progress(st.loc, Columns(DWRule(offset, st.columns.cfa.reg, st.columns.cfa.rule), st.columns.regs)))
    ensures -0x8000_0000_0000_0000 <= k * cie.dataAlign < 0x8000_0000_0000_0000 ==> offset == k * cie.dataAlign
  {
    Encoded(cie, st, DefCfaOffsetSf(k));
    if -0x8000_0000_0000_0000 <= k * cie.dataAlign < 0x8000_0000_0000_0000 {
      WrapSignedSame(k * cie.dataAlign);
    }
  }

  /** DW_CFA_offset_extended: the rule of one register, at the operand times the data alignment factor. */
  lemma {:induction false} OffsetExtendedLaw(cie: Cie, st: Progress, r: Word, k: Word, offset: Int64)
    requires offset == WrapSigned(Signed(k) * cie.dataAlign)
    ensures Does(cie, st, [0x05] + EncodeUnsigned(r) + EncodeUnsigned(k),
                 Progress(st.loc, Columns(st.columns.cfa, st.columns.regs[r := DWRule(offset, 0, RuleOffset)])))
    ensures k < 0x8000_0000_0000_0000 && -0x8000_0000_0000_0000 <= k * cie.dataAlign < 0x8000_0000_0000_0000 ==>
              offset == k * cie.dataAlign
  {
    Encoded(cie, st, OffsetExtended(r, k));
    assert [0x05 as Byte] + EncodeUnsigned(r) + EncodeUnsigned(k) == Encode(OffsetExtended(r, k));
    if k < 0x8000_0000_0000_0000 && -0x8000_0000_0000_0000 <= k * cie.dataAlign < 0x8000_0000_0000_0000 {
      WrapSignedSame(k * cie.dataAlign);
    }
  }

  /** DW_CFA_def_cfa: register plus offset. */
  lemma {:induction false} DefCfaLaw(cie: Cie, st: Progress, r: Word, o: Word)
    ensures Does(cie, st, [0x0c] + EncodeUnsigned(r) + EncodeUnsigned(o),
                 Progress(st.loc, Columns(DWRule(Signed(o), r, RuleCFA), st.columns.regs)))
  {
    Encoded(cie, st, DefCfa(r, o));
    assert [0x0c as Byte] + EncodeUnsigned(r) + EncodeUnsigned(o) == Encode(DefCfa(r, o));
  }

  /** DW_CFA_def_cfa_register: the new register, the old offset, and no longer a CFA rule. */
  lemma {:induction false} DefCfaRegisterLaw(cie: Cie, st: Progress, r: Word)
    ensures Does(cie, st, [0x0d] + EncodeUnsigned(r),
                 Progress(st.loc, Columns(DWRule(st.columns.cfa.offset, r, RuleUndefined), st.columns.regs)))
  {
    Encoded(cie, st, DefCfaRegister(r));
  }

  /** DW_CFA_restore: the register in the low six bits becomes undefined. */
  lemma {:induction false} RestoreLaw(cie: Cie, st: Progress, r: nat)
    requires r < 64
    ensures Does(cie, st, [0xc0 + r],
                 Progress(st.loc, Columns(st.columns.cfa, st.columns.regs[r := DWRule(0, 0, RuleUndefined)])))
  {
    Encoded(cie, st, Restore(r));
  }

  lemma {:induction false} HalfBytes(d: nat)
    requires d < 65536
    ensures Encode(AdvanceLoc2(d)) == [0x03, d % 256, d / 256]
  {
    assert ToLittleEndian(d / 256, 1) == [d / 256 % 256] + [];
  }

  lemma {:induction false} Moved(cie: Cie, st: Progress, i: Instr, loc: Word)
    requires IsAdvance(i) && loc == Wrap(st.loc + Delta(i) * cie.codeAlign)
    ensures Apply(cie, st, i) == Progress(loc, st.columns)
  {
  }

  /** DW_CFA_advance_loc: the location moves by the operand times the code alignment factor, the rules stay. */
  lemma {:induction false} AdvanceLaw(cie: Cie, st: Progress, d: nat, loc: Word)
    requires d < 64 && loc == Wrap(st.loc + d * cie.codeAlign)
    ensures Does(cie, st, [0x40 + d], Progress(loc, st.columns))
  {
    Moved(cie, st, AdvanceLoc(d), loc);
    Encoded(cie, st, AdvanceLoc(d));
  }

  /** DW_CFA_advance_loc1. */
  lemma {:induction false} AdvanceLaw1(cie: Cie, st: Progress, d: Byte, loc: Word)
    requires loc == Wrap(st.loc + d * cie.codeAlign)
    ensures Does(cie, st, [0x02, d], Progress(loc, st.columns))
  {
    Moved(cie, st, AdvanceLoc1(d), loc);
    Encoded(cie, st, AdvanceLoc1(d));
  }

  /** DW_CFA_advance_loc2: the operand is two bytes, the low one first. */
  lemma {:induction false} AdvanceLaw2(cie: Cie, st: Progress, d: nat, loc: Word)
    requires d < 65536 && loc == Wrap(st.loc + d * cie.codeAlign)
    ensures Does(cie, st, [0x03, d % 256, d / 256], Progress(loc, st.columns))
  {
    HalfBytes(d);
    Moved(cie, st, AdvanceLoc2(d), loc);
    Encoded(cie, st, AdvanceLoc2(d));
  }

  /** Opcodes of the supported instructions, other than the two compact ones. */
  const OPCODES: set<Byte> := {0x00, 0x02, 0x03, 0x05, 0x0c, 0x0d, 0x13}

  /** The loops fail exactly at an opcode that is not supported, such as the compact offset, or a cut advance by one. */
  lemma {:induction false} UnsupportedLaw(cie: Cie, st: Progress, s: seq<Byte>)
    requires s != []
    ensures Fetch(s) == Bad <==>
              0x80 <= s[0] < 0xc0 || (s[0] < 0x40 && s[0] !in OPCODES) || (s[0] == 0x02 && |s| == 1)
    ensures Fetch(s) == Bad ==> RunAll(cie, st, s) == None
    ensures Fetch(s) == Bad ==> forall address: Word :: st.loc <= address ==> RunUntil(cie, st, s, address) == None
  {
  }

  // ---------------------------------------------------------------- whole lookups

  /** Entry k is an FDE whose range, closed at the top and computed in 64 bits, holds pc. */
  predicate ClosedHolds(entries: seq<Entry>, k: nat, pc: Word) {
    k < |entries| && entries[k].FdeEntry?
    && entries[k].fde.begin <= pc <= (entries[k].fde.begin + entries[k].fde.size) % 0x1_0000_0000_0000_0000
  }

  predicate OneHolds(entries: seq<Entry>, i: nat, pc: Word) {
    ClosedHolds(entries, i, pc) && forall k :: 0 <= k < |entries| && k != i ==> !ClosedHolds(entries, k, pc)
  }

  lemma {:induction false} OneCovers(entries: seq<Entry>, i: nat, pc: Word)
    requires OneHolds(entries, i, pc)
    ensures Covering(entries, pc) == [entries[i].fde]
  {
    forall k: nat | k < |entries| && k != i
      ensures CoveringOne(entries[k], pc) == []
    {
      assert !ClosedHolds(entries, k, pc);
    }
    CoveringSingle(entries, pc, i);
  }

  /** A pc in no closed range is not covered. */
  lemma {:induction false} NoneHolds(entries: seq<Entry>, pc: Word, regs: Registers)
    requires forall k :: 0 <= k < |entries| ==> !ClosedHolds(entries, k, pc)
    ensures FrameAt(entries, pc, regs) == Failed(NotCovered)
  {
    forall k | 0 <= k < |entries|
      ensures CoveringOne(entries[k], pc) == []
    {
      assert !ClosedHolds(entries, k, pc);
    }
    CoveringNone(entries, pc);
  }

  /** A pc in two closed ranges has a duplicate FDE. */
  lemma {:induction false} TwoHold(entries: seq<Entry>, i: nat, k: nat, pc: Word, regs: Registers)
    requires i < k && ClosedHolds(entries, i, pc) && ClosedHolds(entries, k, pc)
    ensures FrameAt(entries, pc, regs) == Failed(DuplicateFde)
  {
    CoveringSeveral(entries, pc, i, k);
  }

  /** A pc in exactly one: a missing CIE, then programs that fail, then the CFA rule of the row they give. */
  lemma {:induction false} OneHoldsLaw(entries: seq<Entry>, i: nat, pc: Word, regs: Registers)
    requires OneHolds(entries, i, pc)
    ensures var fde := entries[i].fde;
            FrameAt(entries, pc, regs) ==
            if fde.cie == None then Failed(NoCie)
            else if Unwind(fde.cie.value, fde, pc) == None then Failed(BadInstruction)
            else Base(Unwind(fde.cie.value, fde, pc).value, regs)
  {
    OneCovers(entries, i, pc);
  }

  /** The programs fail exactly at an unsupported instruction of the CIE, or of the FDE before it passes pc. */
  lemma {:induction false} UnwindFails(cie: Cie, fde: Fde, pc: Word)
    ensures Unwind(cie, fde, pc) == None <==>
            || Program(cie.initial) == None
            || (Program(fde.instructions) == None
                && var initial := Fold(cie, Progress(0, BLANK), Program(cie.initial).value).columns;
                   FoldUntil(cie, Progress(fde.begin, initial), Prefix(fde.instructions), pc).loc <= pc)
  {
    RunAllIsFold(cie, Progress(0, BLANK), cie.initial);
    if Program(cie.initial).Some? {
      var st := Fold(cie, Progress(0, BLANK), Program(cie.initial).value);
      RunUntilIsFold(cie, Progress(fde.begin, st.columns), fde.instructions, pc);
    }
  }

  /** A section of one FDE that holds pc. */
  lemma {:induction false} Alone(fde: Fde, pc: Word, regs: Registers)
    requires fde.begin + fde.size < TWO_64 && fde.begin <= pc <= fde.begin + fde.size && fde.cie.Some?
    requires Unwind(fde.cie.value, fde, pc).Some?
    ensures FrameAt([FdeEntry(fde)], pc, regs) == Base(Unwind(fde.cie.value, fde, pc).value, regs)
  {
    assert OneHolds([FdeEntry(fde)], 0, pc);
    OneHoldsLaw([FdeEntry(fde)], 0, pc, regs);
  }

  /** The registers a CFA may be based on: 6, 7 and 16 are known, the others up to 16 are not. */
  lemma {:induction false} CfaRegisterLaw(fde: Fde, cie: Cie, r: Word, o: Word, pc: Word, regs: Registers)
    requires cie.initial == [0x0c] + EncodeUnsigned(r) + EncodeUnsigned(o)
    requires fde.instructions == [] && fde.cie == Some(cie)
    requires fde.begin + fde.size < TWO_64 && fde.begin <= pc <= fde.begin + fde.size
    ensures var known := if r == 6 then regs.rbp else if r == 7 then regs.rsp else if r == 16 then regs.rip else 0;
            FrameAt([FdeEntry(fde)], pc, regs) ==
            if r > 16 then Failed(RegisterTooLarge)
            else if known == 0 then Failed(RegisterNull)
            else Found(Wrap(known + Signed(o)), Columns(DWRule(Signed(o), r, RuleCFA), map[]))
  {
    var c := Columns(DWRule(Signed(o), r, RuleCFA), map[]);
    DefCfaLaw(cie, Progress(0, BLANK), r, o);
    assert cie.initial + [] == cie.initial;
    assert RunAll(cie, Progress(0, BLANK), cie.initial) == RunAll(cie, Progress(0, c), []);
    Finished(cie, Progress(0, c), [], pc);
    Finished(cie, Progress(fde.begin, c), [], pc);
    Alone(fde, pc, regs);
  }

  /** After DW_CFA_def_cfa_register there is no frame base any more. */
  lemma {:induction false} CfaRuleLost(fde: Fde, cie: Cie, r: Word, pc: Word, regs: Registers)
    requires cie.initial == [0x0d] + EncodeUnsigned(r) && fde.instructions == [] && fde.cie == Some(cie)
    requires fde.begin + fde.size < TWO_64 && fde.begin <= pc <= fde.begin + fde.size
    ensures FrameAt([FdeEntry(fde)], pc, regs) == Failed(InvalidRule)
  {
    var c := Columns(DWRule(0, r, RuleUndefined), map[]);
    DefCfaRegisterLaw(cie, Progress(0, BLANK), r);
    assert cie.initial + [] == cie.initial;
    assert RunAll(cie, Progress(0, BLANK), cie.initial) == RunAll(cie, Progress(0, c), []);
    Finished(cie, Progress(0, c), [], pc);
    Finished(cie, Progress(fde.begin, c), [], pc);
    Alone(fde, pc, regs);
  }

  lemma {:induction false} GoesOn(
      cie: Cie, st: Progress, code: seq<Byte>, next: Progress, rest: seq<Byte>, s: seq<Byte>, address: Word)
    requires Does(cie, st, code, next) && s == code + rest && st.loc <= address
    ensures RunUntil(cie, st, s, address) == RunUntil(cie, next, rest, address)
  {
  }

  lemma {:induction false} UnitDistance(from: Word, d: nat, align: nat, loc: Word)
    requires align == 1 && loc == from + d
    ensures loc == Wrap(from + d * align)
  {
    assert d * align == d;
    WrapUnique(loc, 0, loc);
  }

  lemma {:induction false} Advances(
      cie: Cie, st: Progress, d: nat, next: Progress, rest: seq<Byte>, s: seq<Byte>, pc: Word)
    requires cie.codeAlign == 1 && d < 64 && s == [0x40 + d] + rest && st.loc <= pc
    requires next.loc == st.loc + d && next.columns == st.columns
    ensures RunUntil(cie, st, s, pc) == RunUntil(cie, next, rest, pc)
  {
    UnitDistance(st.loc, d, cie.codeAlign, next.loc);
    AdvanceLaw(cie, st, d, next.loc);
    GoesOn(cie, st, [0x40 + d], next, rest, s, pc);
  }

  /** The push of one word: from there the CFA offset is 16. */
  lemma {:induction false} PushRules(cie: Cie, loc: Word, pc: Word)
    requires cie.dataAlign == -8 && loc <= pc
    ensures RunUntil(cie, Progress(loc, Columns(DWRule(8, 7, RuleCFA), map[])), [0x13, 0x7e], pc) ==
            Some(Progress(loc, Columns(DWRule(16, 7, RuleCFA), map[])))
  {
    var st, next := Progress(loc, Columns(DWRule(8, 7, RuleCFA), map[])),
                    Progress(loc, Columns(DWRule(16, 7, RuleCFA), map[]));
    DefCfaOffsetSfLaw(cie, st, -2, 16);
    GoesOn(cie, st, [0x13] + EncodeSigned(-2), next, [], [0x13, 0x7e], pc);
    Finished(cie, next, [], pc);
  }

  /** The rules of a function whose prologue, d bytes long, pushes one word: the CFA offset is 8 before it, 16 after. */
  lemma {:induction false} PrologueRules(fde: Fde, cie: Cie, d: nat, pc: Word)
    requires cie.initial == [0x0c, 7, 8] && cie.codeAlign == 1 && cie.dataAlign == -8
    requires 0 < d < 64 && fde.instructions == [0x40 + d, 0x13, 0x7e] && fde.begin <= pc && fde.begin + d < TWO_64
    ensures Unwind(cie, fde, pc) == Some(Columns(DWRule(if pc < fde.begin + d then 8 else 16, 7, RuleCFA), map[]))
  {
    var before := Columns(DWRule(8, 7, RuleCFA), map[]);
    ShortProgram(cie);
    Advances(cie, Progress(fde.begin, before), d, Progress(fde.begin + d, before), [0x13, 0x7e],
             fde.instructions, pc);
    if pc < fde.begin + d {
      Finished(cie, Progress(fde.begin + d, before), [0x13, 0x7e], pc);
    } else {
      PushRules(cie, fde.begin + d, pc);
    }
  }

  /** Its frame base is 8 above the stack pointer before the push and 16 above it afterwards. */
  lemma {:induction false} PrologueFrame(fde: Fde, cie: Cie, d: nat, pc: Word, regs: Registers)
    requires cie.initial == [0x0c, 7, 8] && cie.codeAlign == 1 && cie.dataAlign == -8
    requires 0 < d < 64 && fde.instructions == [0x40 + d, 0x13, 0x7e] && fde.cie == Some(cie)
    requires fde.begin + fde.size < TWO_64 && fde.begin + d < TWO_64 && fde.begin <= pc < fde.begin + fde.size
    requires regs.rsp != 0
    ensures FrameAt([FdeEntry(fde)], pc, regs).Found?
    ensures FrameAt([FdeEntry(fde)], pc, regs).base == Wrap(regs.rsp + if pc < fde.begin + d then 8 else 16)
  {
    PrologueRules(fde, cie, d, pc);
    Alone(fde, pc, regs);
  }
}
