/** The call frame instruction interpreter (cfa.go; section 6.4 of DWARF version 3). */
module CallFrame {
  import opened Words
  import opened Buffers
  import opened Leb128
  import opened FrameRecords

  datatype Rule =
    | RuleUndefined | RuleSameVal | RuleOffset | RuleValOffset | RuleRegister
    | RuleExpression | RuleValExpression | RuleArchitectural | RuleCFA | RuleFramePointer

  datatype DWRule = DWRule(offset: Int64, reg: Word, rule: Rule)

  /** The rules of one row of the unwind table. */
  datatype Columns = Columns(cfa: DWRule, regs: map<Word, DWRule>)

  datatype Progress = Progress(loc: Word, columns: Columns)

  const BLANK: Columns := Columns(DWRule(0, 0, RuleUndefined), map[])

  // ---------------------------------------------------------------- abstract syntax

  /** The instructions the interpreter supports. */
  datatype Instr =
    | Nop
    | AdvanceLoc(delta6: nat)
    | AdvanceLoc1(delta8: Byte)
    | AdvanceLoc2(delta16: nat)
    | OffsetExtended(reg: Word, factored: Word)
    | DefCfa(cfaReg: Word, cfaOffset: Word)
    | DefCfaRegister(newReg: Word)
    | DefCfaOffsetSf(factoredOffset: Int64)
    | Restore(reg6: Word)

  predicate Valid(i: Instr) {
    match i
    case AdvanceLoc(d) => d < 64
    case AdvanceLoc2(d) => d < 65536
    case Restore(r) => r < 64
    case _ => true
  }

  predicate IsAdvance(i: Instr) {
    i.AdvanceLoc? || i.AdvanceLoc1? || i.AdvanceLoc2?
  }

  function Delta(i: Instr): nat
    requires IsAdvance(i)
  {
    match i
    case AdvanceLoc(d) => d
    case AdvanceLoc1(d) => d
    case AdvanceLoc2(d) => d
  }

  /** An offset operand scaled by the data alignment factor, in int64 arithmetic. */
  function Scaled(cie: Cie, factored: Int64): Int64 {
    WrapSigned(factored * cie.dataAlign)
  }

  function Distance(cie: Cie, delta: nat): nat {
    delta * cie.codeAlign
  }

  function Advanced(cie: Cie, loc: Word, delta: nat): Word {
    Wrap(loc + Distance(cie, delta))
  }

  /** Restoring a register makes it undefined, and naming a new CFA register makes the CFA rule undefined. */
  function Ruled(cie: Cie, c: Columns, i: Instr): Columns {
    match i
    case OffsetExtended(reg, factored) =>
      c.(regs := c.regs[reg := DWRule(Scaled(cie, Signed(factored)), 0, RuleOffset)])
    case DefCfa(reg, offset) => c.(cfa := DWRule(Signed(offset), reg, RuleCFA))
    case DefCfaRegister(reg) => c.(cfa := c.cfa.(reg := reg, rule := RuleUndefined))
    case DefCfaOffsetSf(factored) => c.(cfa := c.cfa.(offset := Scaled(cie, factored)))
    case Restore(reg) => c.(regs := c.regs[reg := DWRule(0, 0, RuleUndefined)])
    case _ => c
  }

  function Apply(cie: Cie, st: Progress, i: Instr): Progress {
    Progress(if IsAdvance(i) then Advanced(cie, st.loc, Delta(i)) else st.loc, Ruled(cie, st.columns, i))
  }

  function Fold(cie: Cie, st: Progress, prog: seq<Instr>): Progress
    decreases |prog|
  {
    if prog == [] then st else Fold(cie, Apply(cie, st, prog[0]), prog[1..])
  }

  /** Runs instructions until the location passes the address. */
  function FoldUntil(cie: Cie, st: Progress, prog: seq<Instr>, address: Word): Progress
    decreases |prog|
  {
    if st.loc > address || prog == [] then st
    else FoldUntil(cie, Apply(cie, st, prog[0]), prog[1..], address)
  }

  // ---------------------------------------------------------------- byte code

  datatype Fetched = Got(instr: Instr, rest: seq<Byte>) | Bad

  function Half(s: seq<Byte>): (d: nat)
    ensures d < 65536
  {
    if |s| < 2 then 0
    else
      LittleEndianWord(s[..2]);
      LittleEndian(s[..2])
  }

  /** The instruction at the front of the bytes. An operand cut short by the end of the buffer reads as 0. */
  function Fetch(s: seq<Byte>): (f: Fetched)
    ensures f.Got? ==> |f.rest| < |s| && Valid(f.instr)
  {
    if s == [] then Bad
    else
      var tail := s[1..];
      var first := Unsigned(tail);
      var second := Unsigned(first.rest);
      if s[0] / 64 == 1 then Got(AdvanceLoc(s[0] % 64), tail)
      else if s[0] / 64 == 3 then Got(Restore(s[0] % 64), tail)
      else if s[0] == 0x00 then Got(Nop, tail)
      else if s[0] == 0x02 && tail != [] then Got(AdvanceLoc1(tail[0]), tail[1..])
      else if s[0] == 0x03 then Got(AdvanceLoc2(Half(tail)), Drop(tail, 2))
      else if s[0] == 0x05 then Got(OffsetExtended(first.value, second.value), second.rest)
      else if s[0] == 0x0c then Got(DefCfa(first.value, second.value), second.rest)
      else if s[0] == 0x0d then Got(DefCfaRegister(first.value), first.rest)
      else if s[0] == 0x13 then Got(DefCfaOffsetSf(SignedLeb(tail).value), SignedLeb(tail).rest)
      else Bad
  }

  function Encode(i: Instr): (s: seq<Byte>)
    requires Valid(i)
  {
    match i
    case Nop => [0x00]
    case AdvanceLoc(d) => [64 + d]
    case AdvanceLoc1(d) => [0x02, d]
    case AdvanceLoc2(d) => [0x03] + ToLittleEndian(d, 2)
    case OffsetExtended(reg, offset) => [0x05] + (EncodeUnsigned(reg) + EncodeUnsigned(offset))
    case DefCfa(reg, offset) => [0x0c] + (EncodeUnsigned(reg) + EncodeUnsigned(offset))
    case DefCfaRegister(reg) => [0x0d] + EncodeUnsigned(reg)
    case DefCfaOffsetSf(offset) => [0x13] + EncodeSigned(offset)
    case Restore(reg) => [192 + reg]
  }

  function EncodeAll(prog: seq<Instr>): seq<Byte>
    requires forall i :: i in prog ==> Valid(i)
  {
    if prog == [] then [] else Encode(prog[0]) + EncodeAll(prog[1..])
  }

  /** All the instructions of a byte string, if every one is supported. */
  function Program(s: seq<Byte>): Option<seq<Instr>>
    decreases |s|
  {
    if s == [] then Some([])
    else match Fetch(s)
         case Bad => None
         case Got(i, rest) =>
           match Program(rest)
           case None => None
           case Some(prog) => Some([i] + prog)
  }

  /** The instructions before the first unsupported one. */
  function Prefix(s: seq<Byte>): (prog: seq<Instr>)
    ensures Program(s).Some? ==> Program(s).value == prog
    decreases |s|
  {
    if s == [] then []
    else match Fetch(s)
         case Bad => []
         case Got(i, rest) => [i] + Prefix(rest)
  }

  function RunAll(cie: Cie, st: Progress, s: seq<Byte>): Option<Progress>
    decreases |s|
  {
    if s == [] then Some(st)
    else match Fetch(s)
         case Bad => None
         case Got(i, rest) => RunAll(cie, Apply(cie, st, i), rest)
  }

  function RunUntil(cie: Cie, st: Progress, s: seq<Byte>, address: Word): Option<Progress>
    decreases |s|
  {
    if st.loc > address || s == [] then Some(st)
    else match Fetch(s)
         case Bad => None
         case Got(i, rest) => RunUntil(cie, Apply(cie, st, i), rest, address)
  }

  // ---------------------------------------------------------------- the interpreter

  class Frame {
    const cie: Cie
    var address: Word
    var loc: Word
    var cfa: DWRule
    var regsRule: map<Word, DWRule>

    function Now(): Progress
      reads this
    {
      Progress(loc, Columns(cfa, regsRule))
    }

    constructor (cie: Cie)
      ensures this.cie == cie && Now() == Progress(0, BLANK) && address == 0
    {
      this.cie := cie;
      address, loc := 0, 0;
      cfa, regsRule := DWRule(0, 0, RuleUndefined), map[];
    }
  }

  lemma FetchTwo(s: seq<Byte>)
    requires s != []
    ensures var first := Unsigned(s[1..]); var second := Unsigned(first.rest);
            && (s[0] == 0x05 ==> Fetch(s) == Got(OffsetExtended(first.value, second.value), second.rest))
            && (s[0] == 0x0c ==> Fetch(s) == Got(DefCfa(first.value, second.value), second.rest))
  {
  }

  lemma FetchOne(s: seq<Byte>)
    requires s != []
    ensures s[0] == 0x0d ==> Fetch(s) == Got(DefCfaRegister(Unsigned(s[1..]).value), Unsigned(s[1..]).rest)
    ensures s[0] == 0x13 ==> Fetch(s) == Got(DefCfaOffsetSf(SignedLeb(s[1..]).value), SignedLeb(s[1..]).rest)
  {
  }

  /** The instructions that take LEB128 operands; decoding errors are ignored. */
  method ExecWithOperands(op: Byte, frame: Frame, buf: Buffer)
    requires buf.Valid() && op in {0x05, 0x0c, 0x0d, 0x13}
    modifies frame, buf
    ensures buf.Valid() && frame.address == old(frame.address)
    ensures match Fetch([op] + old(buf.Rest()))
            case Bad => false
            case Got(i, rest) => buf.Rest() == rest && frame.Now() == Apply(frame.cie, old(frame.Now()), i)
  {
    ghost var s := [op] + buf.Rest();
    assert s[1..] == buf.Rest();
    FetchOne(s);
    FetchTwo(s);
    if op == 0x05 {
      var reg, _, _ := DecodeULEB128(buf);
      var offset, _, _ := DecodeULEB128(buf);
      var rule := DWRule(Scaled(frame.cie, Signed(offset)), 0, RuleOffset);
      frame.regsRule := frame.regsRule[reg := rule];
    } else if op == 0x0c {
      var reg, _, _ := DecodeULEB128(buf);
      var offset, _, _ := DecodeULEB128(buf);
      frame.cfa := DWRule(Signed(offset), reg, RuleCFA);
    } else if op == 0x0d {
      var reg, _, _ := DecodeULEB128(buf);
      frame.cfa := frame.cfa.(reg := reg, rule := RuleUndefined);
    } else {
      var offset, _, _ := DecodeSLEB128(buf);
      frame.cfa := frame.cfa.(offset := Scaled(frame.cie, offset));
    }
  }

  /** False is the error return; on success exactly one instruction has been consumed and applied. */
  method ExecSingleInstruction(frame: Frame, buf: Buffer) returns (ok: bool)
    requires buf.Valid()
    modifies frame, buf
    ensures buf.Valid() && frame.address == old(frame.address)
    ensures match Fetch(old(buf.Rest()))
            case Bad => !ok && frame.Now() == old(frame.Now())
            case Got(i, rest) =>
              ok && buf.Rest() == rest && frame.Now() == Apply(frame.cie, old(frame.Now()), i)
  {
    ghost var s := buf.Rest();
    var op := buf.ReadByte();
    if op == None {
      return false;
    }
    assert s == [op.value] + buf.Rest();
    var high := op.value / 64;
    if high != 0 {
      buf.UnreadByte();
      assert buf.Rest() == s;
    }
    if high == 1 {
      var b := buf.ReadByte();
      frame.loc := Advanced(frame.cie, frame.loc, b.value % 64);
    } else if high == 3 {
      var b := buf.ReadByte();
      frame.regsRule := frame.regsRule[b.value % 64 := DWRule(0, 0, RuleUndefined)];
    } else if op.value in {0x05, 0x0c, 0x0d, 0x13} {
      ExecWithOperands(op.value, frame, buf);
    } else if op.value == 0x02 {
      var delta := buf.ReadByte();
      if delta == None {
        return false;
      }
      frame.loc := Advanced(frame.cie, frame.loc, delta.value);
    } else if op.value == 0x03 {
      var read := buf.ReadLittleEndian(2);
      var delta := match read case None => 0 case Some(v) => v;
      frame.loc := Advanced(frame.cie, frame.loc, delta);
    } else if op.value != 0x00 {
      return false;
    }
    ok := true;
  }

  method ExecCIEInstructions(frame: Frame, buf: Buffer) returns (ok: bool)
    requires buf.Valid()
    modifies frame, buf
    ensures frame.address == old(frame.address)
    ensures match RunAll(frame.cie, old(frame.Now()), old(buf.Rest()))
            case None => !ok
            case Some(st) => ok && frame.Now() == st
  {
    while buf.Len() > 0
      invariant buf.Valid() && frame.address == old(frame.address)
      invariant RunAll(frame.cie, old(frame.Now()), old(buf.Rest())) == RunAll(frame.cie, frame.Now(), buf.Rest())
      decreases |buf.Rest()|
    {
      var done := ExecSingleInstruction(frame, buf);
      if !done {
        return false;
      }
    }
    ok := true;
  }

  method ExecFDEInstructions(frame: Frame, buf: Buffer) returns (ok: bool)
    requires buf.Valid()
    modifies frame, buf
    ensures frame.address == old(frame.address)
    ensures match RunUntil(frame.cie, old(frame.Now()), old(buf.Rest()), frame.address)
            case None => !ok
            case Some(st) => ok && frame.Now() == st
  {
    while frame.address >= frame.loc && buf.Len() > 0
      invariant buf.Valid() && frame.address == old(frame.address)
      invariant RunUntil(frame.cie, old(frame.Now()), old(buf.Rest()), frame.address)
             == RunUntil(frame.cie, frame.Now(), buf.Rest(), frame.address)
      decreases |buf.Rest()|
    {
      var done := ExecSingleInstruction(frame, buf);
      if !done {
        return false;
      }
    }
    ok := true;
  }

  // ---------------------------------------------------------------- byte code against abstract syntax

  lemma HalfInverse(s: seq<Byte>, d: nat, rest: seq<Byte>)
    requires d < 65536 && s == ToLittleEndian(d, 2) + rest
    ensures Half(s) == d && Drop(s, 2) == rest
  {
    assert s[..2] == ToLittleEndian(d, 2);
    Pow256Values();
    LittleEndianInverse(d, 2);
  }

  lemma FetchSimple(i: Instr, s: seq<Byte>, rest: seq<Byte>)
    requires Valid(i) && s == Encode(i) + rest
    requires i.Nop? || IsAdvance(i) || i.Restore?
    ensures Fetch(s) == Got(i, rest)
  {
    if i.AdvanceLoc1? {
      assert s[1..] == [i.delta8] + rest;
    } else if i.AdvanceLoc2? {
      assert s[1..] == ToLittleEndian(i.delta16, 2) + rest;
      HalfInverse(s[1..], i.delta16, rest);
    } else {
      assert s[1..] == rest;
    }
  }

  lemma FetchOpcode(op: Byte, operands: seq<Byte>, s: seq<Byte>, rest: seq<Byte>)
    requires s == [op] + operands + rest
    ensures s != [] && s[0] == op && s[1..] == operands + rest
  {
  }

  lemma TwoOperands(s: seq<Byte>, a: Word, b: Word, rest: seq<Byte>)
    requires s != [] && s[1..] == EncodeUnsigned(a) + EncodeUnsigned(b) + rest
    ensures Unsigned(s[1..]).value == a
    ensures Unsigned(Unsigned(s[1..]).rest).value == b && Unsigned(Unsigned(s[1..]).rest).rest == rest
  {
    assert s[1..] == EncodeUnsigned(a) + (EncodeUnsigned(b) + rest);
    UnsignedRoundTrip(a, EncodeUnsigned(b) + rest);
    UnsignedRoundTrip(b, rest);
  }

  lemma FetchOperands(i: Instr, s: seq<Byte>, rest: seq<Byte>)
    requires i.OffsetExtended? || i.DefCfa? || i.DefCfaRegister? || i.DefCfaOffsetSf?
    requires s == Encode(i) + rest
    ensures Fetch(s) == Got(i, rest)
  {
    match i {
      case OffsetExtended(reg, offset) =>
        FetchOpcode(0x05, EncodeUnsigned(reg) + EncodeUnsigned(offset), s, rest);
        TwoOperands(s, reg, offset, rest);
        FetchTwo(s);
      case DefCfa(reg, offset) =>
        FetchOpcode(0x0c, EncodeUnsigned(reg) + EncodeUnsigned(offset), s, rest);
        TwoOperands(s, reg, offset, rest);
        FetchTwo(s);
      case DefCfaRegister(reg) =>
        FetchOpcode(0x0d, EncodeUnsigned(reg), s, rest);
        UnsignedRoundTrip(reg, rest);
        FetchOne(s);
      case DefCfaOffsetSf(offset) =>
        FetchOpcode(0x13, EncodeSigned(offset), s, rest);
        SignedRoundTrip(offset, rest);
        FetchOne(s);
    }
  }

  /** Fetching the bytes of any supported instruction gives that instruction and consumes exactly its bytes. */
  lemma FetchInvertsEncode(i: Instr, rest: seq<Byte>)
    requires Valid(i)
    ensures Fetch(Encode(i) + rest) == Got(i, rest)
  {
    if i.OffsetExtended? || i.DefCfa? || i.DefCfaRegister? || i.DefCfaOffsetSf? {
      FetchOperands(i, Encode(i) + rest, rest);
    } else {
      FetchSimple(i, Encode(i) + rest, rest);
    }
  }

  lemma EncodeNonempty(i: Instr)
    requires Valid(i)
    ensures Encode(i) != []
  {
  }

  lemma {:induction false} ProgramInvertsEncode(prog: seq<Instr>)
    requires forall i :: i in prog ==> Valid(i)
    ensures Program(EncodeAll(prog)) == Some(prog)
  {
    if prog != [] {
      FetchInvertsEncode(prog[0], EncodeAll(prog[1..]));
      ProgramInvertsEncode(prog[1..]);
      EncodeNonempty(prog[0]);
      assert EncodeAll(prog) != [];
      assert [prog[0]] + prog[1..] == prog;
    }
  }

  /** On every byte string the CIE loop succeeds exactly when all instructions are supported, and then folds them. */
  lemma {:induction false} RunAllIsFold(cie: Cie, st: Progress, s: seq<Byte>)
    ensures RunAll(cie, st, s) ==
            match Program(s) case None => None case Some(prog) => Some(Fold(cie, st, prog))
    decreases |s|
  {
    if s != [] && Fetch(s).Got? {
      RunAllIsFold(cie, Apply(cie, st, Fetch(s).instr), Fetch(s).rest);
    }
  }

  /**
   * On every byte string the FDE loop is the fold of the instructions before the first unsupported one, stopped when
   * the location passes the address. It fails exactly when it gets to an unsupported instruction before that.
   */
  lemma {:induction false} RunUntilIsFold(cie: Cie, st: Progress, s: seq<Byte>, address: Word)
    ensures var last := FoldUntil(cie, st, Prefix(s), address);
            RunUntil(cie, st, s, address) ==
            if last.loc > address || Program(s).Some? then Some(last) else None
    decreases |s|
  {
    if s != [] && Fetch(s).Got? && st.loc <= address {
      RunUntilIsFold(cie, Apply(cie, st, Fetch(s).instr), Fetch(s).rest, address);
      assert ([Fetch(s).instr] + Prefix(Fetch(s).rest))[1..] == Prefix(Fetch(s).rest);
    }
  }

  // ---------------------------------------------------------------- early stop against the full table

  datatype Row = Row(start: Word, columns: Columns)

  /** The whole table: a row is closed at every advance and the last one at the end of the program. */
  function Table(cie: Cie, st: Progress, prog: seq<Instr>): seq<Row>
    decreases |prog|
  {
    if prog == [] then [Row(st.loc, st.columns)]
    else (if IsAdvance(prog[0]) then [Row(st.loc, st.columns)] else []) + Table(cie, Apply(cie, st, prog[0]), prog[1..])
  }

  /** One more than the index of the last row that starts at or below pc; 0 when there is none. */
  function LastAtMost(rows: seq<Row>, pc: Word): (n: nat)
    ensures n <= |rows|
    ensures n > 0 ==> rows[n - 1].start <= pc
    ensures forall k :: n <= k < |rows| ==> rows[k].start > pc
  {
    if rows == [] then 0
    else if rows[|rows| - 1].start <= pc then |rows|
    else LastAtMost(rows[..|rows| - 1], pc)
  }

  /** The number of rows before the first one that starts above pc. */
  function Leading(rows: seq<Row>, pc: Word): (n: nat)
    ensures n <= |rows|
    ensures forall k :: 0 <= k < n ==> rows[k].start <= pc
    ensures n < |rows| ==> rows[n].start > pc
  {
    if rows == [] || rows[0].start > pc then 0 else 1 + Leading(rows[1..], pc)
  }

  /** The columns of the last row that starts at or below pc. */
  function Lookup(rows: seq<Row>, pc: Word): Option<Columns> {
    var n := LastAtMost(rows, pc);
    if n == 0 then None else Some(rows[n - 1].columns)
  }

  lemma LookupIsLast(rows: seq<Row>, pc: Word)
    ensures Lookup(rows, pc).None? <==> forall k :: 0 <= k < |rows| ==> rows[k].start > pc
    ensures Lookup(rows, pc).Some? ==>
              exists k :: 0 <= k < |rows| && rows[k].start <= pc && Lookup(rows, pc).value == rows[k].columns
                          && forall j :: k < j < |rows| ==> rows[j].start > pc
  {
    var n := LastAtMost(rows, pc);
    assert n > 0 ==> rows[n - 1].start <= pc;
  }

  /** Row j lies above the first row and a later row m starts lower again. */
  predicate Falls(rows: seq<Row>, j: nat, m: nat) {
    j < m < |rows| && rows[j].start > rows[0].start && rows[j].start > rows[m].start
  }

  ghost predicate Settled(rows: seq<Row>) {
    forall j, m :: !Falls(rows, j, m)
  }

  /** The row before the first one above pc is the last one at or below pc. */
  predicate SameRow(rows: seq<Row>, pc: Word) {
    Leading(rows, pc) == LastAtMost(rows, pc)
  }

  /** The two choices of a row agree at every pc from the first row on if and only if the rows are settled. */
  lemma LeadingIsLast(rows: seq<Row>)
    requires rows != []
    ensures (forall pc: Word :: rows[0].start <= pc ==> SameRow(rows, pc)) <==> Settled(rows)
  {
    forall j: nat, m: nat | Falls(rows, j, m)
      ensures exists pc: Word :: rows[0].start <= pc && !SameRow(rows, pc)
    {
      var pc := if rows[m].start < rows[0].start then rows[0].start else rows[m].start;
      assert !SameRow(rows, pc);
    }
    forall pc: Word | rows[0].start <= pc && !SameRow(rows, pc)
      ensures !Settled(rows)
    {
      var f, n := Leading(rows, pc), LastAtMost(rows, pc);
      assert f > 0 && rows[f - 1].start <= pc;
      assert Falls(rows, f, n - 1);
    }
  }

  /** No advance carries the location past 2^64. */
  predicate NonWrapping(cie: Cie, st: Progress, prog: seq<Instr>)
    decreases |prog|
  {
    prog == [] ||
    ((IsAdvance(prog[0]) ==> st.loc + Distance(cie, Delta(prog[0])) < TWO_64)
     && NonWrapping(cie, Apply(cie, st, prog[0]), prog[1..]))
  }

  lemma StepForward(cie: Cie, st: Progress, prog: seq<Instr>)
    requires prog != [] && NonWrapping(cie, st, prog)
    ensures var next := Apply(cie, st, prog[0]);
            && st.loc <= next.loc
            && (IsAdvance(prog[0]) ==> next.columns == st.columns)
            && (!IsAdvance(prog[0]) ==> next.loc == st.loc)
  {
  }

  lemma {:induction false} TableStarts(cie: Cie, st: Progress, prog: seq<Instr>)
    requires NonWrapping(cie, st, prog)
    ensures forall k :: 0 <= k < |Table(cie, st, prog)| ==> st.loc <= Table(cie, st, prog)[k].start
    decreases |prog|
  {
    if prog != [] {
      StepForward(cie, st, prog);
      TableStarts(cie, Apply(cie, st, prog[0]), prog[1..]);
    }
  }

  lemma {:induction false} TableFront(cie: Cie, st: Progress, prog: seq<Instr>)
    ensures Table(cie, st, prog) != [] && Table(cie, st, prog)[0].start == st.loc
    decreases |prog|
  {
    if prog != [] {
      TableFront(cie, Apply(cie, st, prog[0]), prog[1..]);
    }
  }

  /**
   * Whatever the program does to the location, stopping as soon as it passes pc gives the rules of the row before
   * the first row that starts above pc.
   */
  lemma {:induction false} EarlyStopIsLeading(cie: Cie, st: Progress, prog: seq<Instr>, pc: Word)
    requires st.loc <= pc
    ensures var rows := Table(cie, st, prog);
            Leading(rows, pc) > 0 && FoldUntil(cie, st, prog, pc).columns == rows[Leading(rows, pc) - 1].columns
    decreases |prog|
  {
    var rows := Table(cie, st, prog);
    TableFront(cie, st, prog);
    if prog != [] {
      var next := Apply(cie, st, prog[0]);
      var tail := Table(cie, next, prog[1..]);
      TableFront(cie, next, prog[1..]);
      if IsAdvance(prog[0]) {
        assert rows[1..] == tail;
      } else {
        assert rows == tail;
      }
      if next.loc <= pc {
        EarlyStopIsLeading(cie, next, prog[1..], pc);
      }
    }
  }

  /** So it finds the row that a lookup in the full table finds, at every pc from the start on, if that is settled. */
  lemma EarlyStopIsTableLookup(cie: Cie, st: Progress, prog: seq<Instr>, pc: Word)
    requires Settled(Table(cie, st, prog)) && st.loc <= pc
    ensures Lookup(Table(cie, st, prog), pc) == Some(FoldUntil(cie, st, prog, pc).columns)
  {
    TableFront(cie, st, prog);
    LeadingIsLast(Table(cie, st, prog));
    assert SameRow(Table(cie, st, prog), pc);
    EarlyStopIsLeading(cie, st, prog, pc);
  }

  /** A program whose location never wraps has a settled table. */
  lemma {:induction false} NonWrappingIsSettled(cie: Cie, st: Progress, prog: seq<Instr>)
    requires NonWrapping(cie, st, prog)
    ensures Settled(Table(cie, st, prog))
    ensures forall j, m :: 0 <= j <= m < |Table(cie, st, prog)| ==>
              Table(cie, st, prog)[j].start <= Table(cie, st, prog)[m].start
    decreases |prog|
  {
    if prog != [] {
      NonWrappingIsSettled(cie, Apply(cie, st, prog[0]), prog[1..]);
      TableStarts(cie, Apply(cie, st, prog[0]), prog[1..]);
      StepForward(cie, st, prog);
    }
  }

  /**
   * A table that is not settled: the second advance wraps the location back to 0. The interpreter has stopped at
   * the first row past pc while the lookup finds the later row.
   */
  lemma WrappingLocationsDiffer(cie: Cie, st: Progress)
    requires cie.codeAlign == TWO_63 && st == Progress(0, BLANK)
    ensures var prog := [AdvanceLoc(1), DefCfa(7, 16), AdvanceLoc(1)];
            !Settled(Table(cie, st, prog)) &&
            Lookup(Table(cie, st, prog), 5) != Some(FoldUntil(cie, st, prog, 5).columns)
  {
    var prog := [AdvanceLoc(1), DefCfa(7, 16), AdvanceLoc(1)];
    var s1 := Apply(cie, st, prog[0]);
    var s2 := Apply(cie, s1, prog[1]);
    var s3 := Apply(cie, s2, prog[2]);
    assert s1.loc == TWO_63 && s3.loc == 0;
    assert prog[1..][1..][1..] == [];
    assert Table(cie, s3, []) == [Row(0, s3.columns)];
    assert Table(cie, s2, prog[1..][1..]) == [Row(TWO_63, s2.columns), Row(0, s3.columns)];
    assert Table(cie, s1, prog[1..]) == [Row(TWO_63, s2.columns), Row(0, s3.columns)];
    assert Table(cie, st, prog) == [Row(0, st.columns), Row(TWO_63, s2.columns), Row(0, s3.columns)];
    assert s3.columns.cfa.rule == RuleCFA;
    assert Falls(Table(cie, st, prog), 1, 2);
  }
}
