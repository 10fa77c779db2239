/** Parsing .debug_frame into CIE and FDE records (frame.go and ParseFrameSection of bininfo.go). */
module FrameRecords {
  import opened Words
  import opened Buffers
  import opened Leb128

  datatype Cie = Cie(
    length: nat,
    version: Byte,
    augmentation: seq<Byte>,
    codeAlign: Word,
    dataAlign: Int64,
    returnRegister: Word,
    initial: seq<Byte>)

  datatype Fde = Fde(length: nat, begin: Word, size: Word, instructions: seq<Byte>, cie: Option<Cie>)

  datatype Entry = CieEntry(cie: Cie) | FdeEntry(fde: Fde)

  /** Eof is the io.EOF error; Crash is a run-time panic (an index or slice out of range). */
  datatype ParseOutcome = Parsed(entry: Entry, rest: seq<Byte>) | Eof | Crash

  const CIE_ID: seq<Byte> := [0xff, 0xff, 0xff, 0xff]

  // ---------------------------------------------------------------- what one parse does

  function CieOf(len: nat, data: seq<Byte>): Option<Cie>
    requires data != []
  {
    match CStringSpan(data[1..])
    case None => None
    case Some(n) =>
      var augmentation := data[1..][..n];
      var code := Unsigned(data[1..][n..]);
      var align := SignedLeb(code.rest);
      var reg := Unsigned(align.rest);
      if code.ok && align.ok && reg.ok
      then Some(Cie(len, data[0], augmentation, code.value, align.value, reg.value, reg.rest))
      else None
  }

  function FdeOf(len: nat, data: seq<Byte>): Fde
    requires |data| >= 16
  {
    LittleEndianWord(data[..8]);
    LittleEndianWord(data[8..16]);
    Fde(len, LittleEndian(data[..8]), LittleEndian(data[8..16]), data[16..], None)
  }

  function ParseBody(len: nat, tag: seq<Byte>, input: seq<Byte>, rest: seq<Byte>): ParseOutcome {
    if tag == CIE_ID then
      if input == [] then Crash
      else match CieOf(len, input)
           case None => Eof
           case Some(cie) => Parsed(CieEntry(cie), rest)
    else if |input| < 16 then Crash
    else Parsed(FdeEntry(FdeOf(len, input)), rest)
  }

  /** The length field less the 4 bytes of the tag, in 32-bit arithmetic; a cut field reads as 0. */
  function PayloadLength(s: seq<Byte>): nat {
    Wrap32((if |s| < 4 then 0 else LittleEndian(s[..4])) - 4)
  }

  /** One record off the front of s; short reads give what is left. */
  function ParseEntry(s: seq<Byte>): (o: ParseOutcome)
    ensures o.Parsed? ==> |o.rest| < |s|
    ensures s == [] ==> o == Eof
  {
    if s == [] then Eof
    else
      var len := PayloadLength(s);
      var tag := Take(Drop(s, 4), 4);
      var body := Drop(Drop(s, 4), 4);
      ParseBody(len, tag, Take(body, len), Drop(body, len))
  }

  method ParseCommonInformationEntry(len: nat, data: seq<Byte>) returns (r: Option<Cie>)
    requires data != []
    ensures r == CieOf(len, data)
  {
    var buf := new Buffer(data);
    var version := buf.Next(1);
    var augmentation := buf.ReadCString();
    if augmentation == None {
      return None;
    }
    var code, _, ok1 := DecodeULEB128(buf);
    if !ok1 {
      return None;
    }
    var align, _, ok2 := DecodeSLEB128(buf);
    if !ok2 {
      return None;
    }
    var reg, _, ok3 := DecodeULEB128(buf);
    if !ok3 {
      return None;
    }
    r := Some(Cie(len, version[0], augmentation.value, code, align, reg, buf.Rest()));
  }

  method ParseFrameInformation(buf: Buffer) returns (o: ParseOutcome)
    requires buf.Valid()
    modifies buf
    ensures buf.Valid()
    ensures o == ParseEntry(old(buf.Rest()))
    ensures o.Parsed? ==> buf.Rest() == o.rest
  {
    if buf.Len() == 0 {
      return Eof;
    }
    var field := buf.ReadLittleEndian(4);
    var len := match field case None => 0 case Some(v) => v;
    var tag := buf.Next(4);
    len := Wrap32(len - 4);
    var input := buf.Next(len);
    if tag == CIE_ID {
      if input == [] {
        return Crash;
      }
      var cie := ParseCommonInformationEntry(len, input);
      if cie == None {
        return Eof;
      }
      o := Parsed(CieEntry(cie.value), buf.Rest());
    } else {
      if |input| < 16 {
        return Crash;
      }
      o := Parsed(FdeEntry(FdeOf(len, input)), buf.Rest());
    }
  }

  // ---------------------------------------------------------------- the section loop

  datatype Section = Entries(entries: seq<Entry>) | Panic

  /** An FDE gets the CIE parsed last, whatever its own pointer says. */
  function Attach(e: Entry, current: Option<Cie>): Entry {
    match e
    case CieEntry(_) => e
    case FdeEntry(fde) => FdeEntry(fde.(cie := current))
  }

  function Latest(e: Entry, current: Option<Cie>): Option<Cie> {
    if e.CieEntry? then Some(e.cie) else current
  }

  function Prepend(es: seq<Entry>, section: Section): Section {
    if section.Panic? then Panic else Entries(es + section.entries)
  }

  function ParseSection(s: seq<Byte>, current: Option<Cie>): Section
    decreases |s|
  {
    match ParseEntry(s)
    case Eof => Entries([])
    case Crash => Panic
    case Parsed(e, rest) => Prepend([Attach(e, current)], ParseSection(rest, Latest(e, current)))
  }

  lemma PrependTwice(entries: seq<Entry>, e: Entry, section: Section)
    ensures Prepend(entries, Prepend([e], section)) == Prepend(entries + [e], section)
  {
    if section.Entries? {
      assert entries + ([e] + section.entries) == entries + [e] + section.entries;
    }
  }

  lemma {:induction false} SectionStep(s: seq<Byte>, entries: seq<Entry>, current: Option<Cie>)
    ensures Prepend(entries, ParseSection(s, current)) ==
            match ParseEntry(s)
            case Eof => Entries(entries)
            case Crash => Panic
            case Parsed(e, rest) => Prepend(entries + [Attach(e, current)], ParseSection(rest, Latest(e, current)))
  {
    var o := ParseEntry(s);
    if o.Parsed? {
      PrependTwice(entries, Attach(o.entry, current), ParseSection(o.rest, Latest(o.entry, current)));
    }
  }

  /** The parse loop. A CIE that runs out of bytes reads as end of file and silently ends the section. */
  method ParseFrameSection(data: seq<Byte>) returns (section: Section)
    ensures section == ParseSection(data, None)
  {
    var buf := new Buffer(data);
    var entries: seq<Entry> := [];
    var current: Option<Cie> := None;
    while true
      invariant buf.Valid() && fresh(buf)
      invariant ParseSection(data, None) == Prepend(entries, ParseSection(buf.Rest(), current))
      decreases |buf.Rest()|
    {
      SectionStep(buf.Rest(), entries, current);
      var o := ParseFrameInformation(buf);
      match o {
        case Eof => return Entries(entries);
        case Crash => return Panic;
        case Parsed(e, _) =>
          entries := entries + [Attach(e, current)];
          current := Latest(e, current);
      }
    }
  }

  // ---------------------------------------------------------------- round trip with the standard's layout

  /** Records as section 7.23 of DWARF version 3 lays them out (32-bit format, 8-byte addresses). */
  datatype Record =
    | CieRecord(version: Byte, augmentation: seq<Byte>, codeAlign: Word, dataAlign: Int64,
                returnRegister: Word, initial: seq<Byte>)
    | FdeRecord(pointer: nat, begin: Word, size: Word, instructions: seq<Byte>)

  function Payload(r: Record): (s: seq<Byte>)
    ensures r.FdeRecord? ==> |s| == 16 + |r.instructions|
  {
    match r
    case CieRecord(version, augmentation, code, align, reg, initial) =>
      [version]
      + (augmentation + [0] + (EncodeUnsigned(code) + (EncodeSigned(align) + (EncodeUnsigned(reg) + initial))))
    case FdeRecord(_, begin, size, instructions) =>
      ToLittleEndian(begin, 8) + ToLittleEndian(size, 8) + instructions
  }

  ghost predicate WellFormed(r: Record) {
    && |Payload(r)| + 4 < TWO_32
    && (r.CieRecord? ==> 0 !in r.augmentation)
    && (r.FdeRecord? ==> r.pointer < TWO_32 - 1)
  }

  function Tag(r: Record): (s: seq<Byte>)
    ensures |s| == 4
  {
    if r.CieRecord? then CIE_ID else ToLittleEndian(r.pointer, 4)
  }

  function Serialise(r: Record): seq<Byte> {
    ToLittleEndian(|Payload(r)| + 4, 4) + Tag(r) + Payload(r)
  }

  function SerialiseAll(rs: seq<Record>): seq<Byte> {
    if rs == [] then [] else Serialise(rs[0]) + SerialiseAll(rs[1..])
  }

  /** The record as the parser represents it, before an FDE is given its CIE. */
  function EntryOf(r: Record): Entry {
    match r
    case CieRecord(version, augmentation, code, align, reg, initial) =>
      CieEntry(Cie(|Payload(r)|, version, augmentation + [0], code, align, reg, initial))
    case FdeRecord(_, begin, size, instructions) =>
      FdeEntry(Fde(|Payload(r)|, begin, size, instructions, None))
  }

  lemma CiePayloadRoundTrip(r: Record)
    requires r.CieRecord? && 0 !in r.augmentation
    ensures CieOf(|Payload(r)|, Payload(r)) == Some(EntryOf(r).cie)
  {
    var data := Payload(r);
    var afterReg := r.initial;
    var afterAlign := EncodeUnsigned(r.returnRegister) + afterReg;
    var afterCode := EncodeSigned(r.dataAlign) + afterAlign;
    var afterText := EncodeUnsigned(r.codeAlign) + afterCode;
    assert data[1..] == r.augmentation + [0] + afterText;
    CStringSpanAppend(r.augmentation, afterText);
    assert data[1..][..|r.augmentation| + 1] == r.augmentation + [0];
    assert data[1..][|r.augmentation| + 1..] == afterText;
    UnsignedRoundTrip(r.codeAlign, afterCode);
    SignedRoundTrip(r.dataAlign, afterAlign);
    UnsignedRoundTrip(r.returnRegister, afterReg);
  }

  lemma WordInverse(v: Word)
    ensures LittleEndian(ToLittleEndian(v, 8)) == v
  {
    Pow256Values();
    LittleEndianInverse(v, 8);
  }

  lemma FdePayloadRoundTrip(r: Record)
    requires r.FdeRecord?
    ensures FdeOf(|Payload(r)|, Payload(r)) == EntryOf(r).fde
  {
    var data := Payload(r);
    assert data[..8] == ToLittleEndian(r.begin, 8);
    assert data[8..16] == ToLittleEndian(r.size, 8);
    assert data[16..] == r.instructions;
    WordInverse(r.begin);
    WordInverse(r.size);
  }

  /** A pointer other than 0xffffffff is not mistaken for the CIE marker. */
  lemma PointerIsNoMarker(pointer: nat)
    requires pointer < TWO_32 - 1
    ensures ToLittleEndian(pointer, 4) != CIE_ID
  {
    Pow256Values();
    LittleEndianInverse(pointer, 4);
    assert LittleEndian(CIE_ID) == TWO_32 - 1 by {
      assert CIE_ID[1..] == [0xff, 0xff, 0xff] && CIE_ID[1..][1..] == [0xff, 0xff];
      assert [0xff as Byte, 0xff][1..] == [0xff];
      assert [0xff as Byte][1..] == [];
    }
  }

  lemma {:induction false} Header(s: seq<Byte>, length: seq<Byte>, tag: seq<Byte>, payload: seq<Byte>, rest: seq<Byte>)
    requires |length| == 4 && |tag| == 4 && LittleEndian(length) == |payload| + 4 < TWO_32
    requires s == length + tag + payload + rest
    ensures ParseEntry(s) == ParseBody(|payload|, tag, payload, rest)
  {
    assert s[..4] == length;
    assert s[4..] == tag + payload + rest;
    assert s[4..][4..] == payload + rest;
    assert (payload + rest)[|payload|..] == rest;
    assert Wrap32(LittleEndian(s[..4]) - 4) == |payload|;
  }

  lemma LengthInverse(v: nat)
    requires v < TWO_32
    ensures LittleEndian(ToLittleEndian(v, 4)) == v
  {
    Pow256Values();
    LittleEndianInverse(v, 4);
  }

  lemma BodyRoundTrip(r: Record, rest: seq<Byte>)
    requires WellFormed(r)
    ensures ParseBody(|Payload(r)|, Tag(r), Payload(r), rest) == Parsed(EntryOf(r), rest)
  {
    if r.CieRecord? {
      CiePayloadRoundTrip(r);
    } else {
      PointerIsNoMarker(r.pointer);
      FdePayloadRoundTrip(r);
    }
  }

  /** One well-formed record comes back unchanged and exactly its 4 + length bytes are consumed. */
  lemma EntryRoundTrip(r: Record, rest: seq<Byte>)
    requires WellFormed(r)
    ensures ParseEntry(Serialise(r) + rest) == Parsed(EntryOf(r), rest)
    ensures |Serialise(r)| == 4 + (4 + |Payload(r)|)
  {
    LengthInverse(|Payload(r)| + 4);
    Header(Serialise(r) + rest, ToLittleEndian(|Payload(r)| + 4, 4), Tag(r), Payload(r), rest);
    BodyRoundTrip(r, rest);
  }

  /** The entries a list of records should give: in order, each FDE with the latest CIE before it. */
  function Link(rs: seq<Record>, current: Option<Cie>): (es: seq<Entry>)
    ensures |es| == |rs|
  {
    if rs == [] then []
    else [Attach(EntryOf(rs[0]), current)] + Link(rs[1..], Latest(EntryOf(rs[0]), current))
  }

  /** Serialising any list of well-formed records and running the parse loop gives the same records in order. */
  lemma {:induction false} SectionRoundTrip(rs: seq<Record>, current: Option<Cie>)
    requires forall r :: r in rs ==> WellFormed(r)
    ensures ParseSection(SerialiseAll(rs), current) == Entries(Link(rs, current))
  {
    if rs != [] {
      EntryRoundTrip(rs[0], SerialiseAll(rs[1..]));
      SectionRoundTrip(rs[1..], Latest(EntryOf(rs[0]), current));
    }
  }

  // ---------------------------------------------------------------- malformed records

  /** How many bytes end a LEB128 number. */
  function Ends(s: seq<Byte>): nat {
    if s == [] then 0 else (if s[0] < 128 then 1 else 0) + Ends(s[1..])
  }

  lemma {:induction false} SpanEnds(s: seq<Byte>)
    ensures Span(s).None? <==> Ends(s) == 0
    ensures Span(s).Some? ==> Ends(s) == 1 + Ends(s[Span(s).value..])
  {
    if s != [] && s[0] >= 128 {
      SpanEnds(s[1..]);
      if Span(s[1..]).Some? {
        assert s[1..][Span(s[1..]).value..] == s[Span(s).value..];
      }
    }
  }

  /** A CIE needs its three numbers: it is cut short exactly when fewer than three of them end. */
  lemma {:induction false} CieCut(len: nat, version: Byte, text: seq<Byte>, rest: seq<Byte>)
    requires 0 !in text
    ensures CieOf(len, [version] + text + [0] + rest) == None <==> Ends(rest) < 3
  {
    var data := [version] + text + [0] + rest;
    assert data[1..] == text + [0] + rest;
    CStringSpanAppend(text, rest);
    assert data[1..][|text| + 1..] == rest;
    SpanEnds(rest);
    SpanEnds(Unsigned(rest).rest);
    SpanEnds(SignedLeb(Unsigned(rest).rest).rest);
  }

  lemma {:induction false} NoTerminator(s: seq<Byte>)
    requires 0 !in s
    ensures CStringSpan(s) == None
  {
    if s != [] {
      NoTerminator(s[1..]);
    }
  }

  /** So does its augmentation: without a terminator the CIE is cut short. */
  lemma {:induction false} CieUnterminated(len: nat, data: seq<Byte>)
    requires data != [] && 0 !in data[1..]
    ensures CieOf(len, data) == None
  {
    NoTerminator(data[1..]);
  }

  lemma {:induction false} LengthWraps(v: nat)
    ensures Wrap32(v - 4) == (v + 0xffff_fffc) % 0x1_0000_0000
  {
    assert v + 0xffff_fffc == v - 4 + 0x1_0000_0000;
  }

  lemma {:induction false} Parts(s: seq<Byte>, length: seq<Byte>, tag: seq<Byte>, body: seq<Byte>)
    requires |length| == 4 && |tag| == 4 && s == length + tag + body
    ensures s != [] && Take(Drop(s, 4), 4) == tag && Drop(Drop(s, 4), 4) == body
    ensures PayloadLength(s) == (LittleEndian(length) + 0xffff_fffc) % 0x1_0000_0000
  {
    assert s[..4] == length && s[4..] == tag + body;
    assert (tag + body)[..4] == tag && (tag + body)[4..] == body;
    LengthWraps(LittleEndian(length));
  }

  lemma {:induction false} EntryByParts(s: seq<Byte>, n: nat, tag: seq<Byte>, body: seq<Byte>)
    requires s != [] && n == PayloadLength(s) && tag == Take(Drop(s, 4), 4) && body == Drop(Drop(s, 4), 4)
    ensures ParseEntry(s) == ParseBody(n, tag, Take(body, n), Drop(body, n))
  {
  }

  lemma {:induction false} TakeDrop(body: seq<Byte>, n: nat, input: seq<Byte>)
    requires input == if n <= |body| then body[..n] else body
    ensures Take(body, n) == input && Drop(body, n) == body[|input|..]
  {
  }

  lemma {:induction false} BodyLaw(n: nat, tag: seq<Byte>, input: seq<Byte>, rest: seq<Byte>)
    ensures ParseBody(n, tag, input, rest) ==
            if tag == [0xff, 0xff, 0xff, 0xff] then
              if input == [] then Crash
              else if CieOf(n, input) == None then Eof
              else Parsed(CieEntry(CieOf(n, input).value), rest)
            else if |input| < 16 then Crash
            else Parsed(FdeEntry(FdeOf(n, input)), rest)
  {
  }

  /**
   * One record of any bytes: the length field counts the 4 bytes after it, 32 bits wide, and what is missing at the
   * end of the section is missing from the record.
   */
  lemma {:induction false} RecordLaw(length: seq<Byte>, tag: seq<Byte>, body: seq<Byte>, n: nat, input: seq<Byte>)
    requires |length| == 4 && |tag| == 4 && n == (LittleEndian(length) + 0xffff_fffc) % 0x1_0000_0000
    requires input == if n <= |body| then body[..n] else body
    ensures ParseEntry(length + tag + body) ==
            if tag == [0xff, 0xff, 0xff, 0xff] then
              if input == [] then Crash
              else if CieOf(n, input) == None then Eof
              else Parsed(CieEntry(CieOf(n, input).value), body[|input|..])
            else if |input| < 16 then Crash
            else Parsed(FdeEntry(FdeOf(n, input)), body[|input|..])
  {
    var s := length + tag + body;
    Parts(s, length, tag, body);
    EntryByParts(s, n, tag, body);
    TakeDrop(body, n, input);
    BodyLaw(n, tag, input, body[|input|..]);
  }

  /** A nonempty section of fewer than 8 bytes crashes the parser. */
  lemma {:induction false} ShortSection(s: seq<Byte>)
    requires 0 < |s| < 8
    ensures ParseEntry(s) == Crash
  {
    assert |Take(Drop(s, 4), 4)| < 4;
  }

  lemma {:induction false} SectionFront(r: Record, rest: seq<Byte>, current: Option<Cie>)
    requires WellFormed(r)
    ensures ParseSection(Serialise(r) + rest, current) ==
            Prepend([Attach(EntryOf(r), current)], ParseSection(rest, Latest(EntryOf(r), current)))
  {
    EntryRoundTrip(r, rest);
  }

  /**
   * What follows the well-formed records decides how the section ends: nothing, or a CIE cut short, ends it silently
   * with the records so far; a record too short crashes the parser and loses them all.
   */
  lemma {:induction false} TailDecides(rs: seq<Record>, tail: seq<Byte>, current: Option<Cie>)
    requires forall r :: r in rs ==> WellFormed(r)
    ensures ParseEntry(tail) == Eof ==> ParseSection(SerialiseAll(rs) + tail, current) == Entries(Link(rs, current))
    ensures ParseEntry(tail) == Crash ==> ParseSection(SerialiseAll(rs) + tail, current) == Panic
  {
    if rs == [] {
      assert SerialiseAll(rs) + tail == tail;
    } else {
      var rest := SerialiseAll(rs[1..]) + tail;
      assert SerialiseAll(rs) + tail == Serialise(rs[0]) + rest;
      SectionFront(rs[0], rest, current);
      TailDecides(rs[1..], tail, Latest(EntryOf(rs[0]), current));
    }
  }

  // ---------------------------------------------------------------- CIE pointers

  /** The byte offset of record i in the section. */
  function Offset(rs: seq<Record>, i: nat): nat
    requires i <= |rs|
  {
    if i == 0 then 0 else |Serialise(rs[0])| + Offset(rs[1..], i - 1)
  }

  function NearestCie(rs: seq<Record>, i: nat): (n: Option<nat>)
    requires i <= |rs|
    ensures n.Some? ==> n.value < i && rs[n.value].CieRecord?
    ensures n.Some? ==> forall j :: n.value < j < i ==> rs[j].FdeRecord?
    ensures n.None? ==> forall j :: 0 <= j < i ==> rs[j].FdeRecord?
  {
    if i == 0 then None
    else if rs[i - 1].CieRecord? then Some(i - 1)
    else NearestCie(rs, i - 1)
  }

  /** The CIE found by parsing the section at the byte offset an FDE's CIE pointer gives. */
  function Resolve(section: seq<Byte>, pointer: nat): Option<Cie> {
    if pointer > |section| then None
    else match ParseEntry(section[pointer..])
         case Parsed(CieEntry(cie), _) => Some(cie)
         case _ => None
  }

  lemma DropSum(front: seq<Byte>, back: seq<Byte>, n: nat)
    requires n <= |back|
    ensures (front + back)[|front| + n..] == back[n..]
  {
  }

  lemma {:induction false} OffsetSplits(rs: seq<Record>, i: nat)
    requires i <= |rs|
    ensures Offset(rs, i) <= |SerialiseAll(rs)| && SerialiseAll(rs)[Offset(rs, i)..] == SerialiseAll(rs[i..])
  {
    if i > 0 {
      OffsetSplits(rs[1..], i - 1);
      assert rs[1..][i - 1..] == rs[i..];
      DropSum(Serialise(rs[0]), SerialiseAll(rs[1..]), Offset(rs[1..], i - 1));
    }
  }

  lemma ResolveAtRecord(rs: seq<Record>, i: nat)
    requires forall r :: r in rs ==> WellFormed(r)
    requires i < |rs| && rs[i].CieRecord?
    ensures Resolve(SerialiseAll(rs), Offset(rs, i)) == Some(EntryOf(rs[i]).cie)
  {
    OffsetSplits(rs, i);
    assert rs[i..][0] == rs[i] && rs[i..][1..] == rs[i + 1..];
    EntryRoundTrip(rs[i], SerialiseAll(rs[i + 1..]));
  }

  lemma {:induction false} NearestOfTail(rs: seq<Record>, i: nat)
    requires 0 < i <= |rs|
    ensures NearestCie(rs, i) ==
            match NearestCie(rs[1..], i - 1)
            case None => if rs[0].CieRecord? then Some(0) else None
            case Some(n) => Some(n + 1)
  {
    if i > 1 {
      NearestOfTail(rs, i - 1);
    }
  }

  /** The threading of the current CIE gives each FDE the nearest CIE before it. */
  lemma {:induction false} LinkIsNearest(rs: seq<Record>, current: Option<Cie>, i: nat)
    requires i < |rs| && rs[i].FdeRecord?
    ensures Link(rs, current)[i] ==
            Attach(EntryOf(rs[i]),
                   match NearestCie(rs, i) case None => current case Some(n) => Some(EntryOf(rs[n]).cie))
  {
    if i > 0 {
      LinkIsNearest(rs[1..], Latest(EntryOf(rs[0]), current), i - 1);
      NearestOfTail(rs, i);
    }
  }

  /**
   * CIE pointers are never followed, yet whenever each FDE points at the nearest CIE before it, every parsed FDE
   * carries exactly the CIE its pointer denotes. For a single FDE pointing at some CIE record j, the parser's
   * choice is right if and only if that record has the same contents as the nearest one.
   */
  lemma LinkingFollowsPointers(rs: seq<Record>, i: nat, j: nat)
    requires forall r :: r in rs ==> WellFormed(r)
    requires i < |rs| && rs[i].FdeRecord?
    requires j < |rs| && rs[j].CieRecord? && rs[i].pointer == Offset(rs, j)
    ensures ParseSection(SerialiseAll(rs), None).Entries?
    ensures var parsed := ParseSection(SerialiseAll(rs), None).entries;
            && |parsed| == |rs| && parsed[i].FdeEntry?
            && (parsed[i].fde.cie == Resolve(SerialiseAll(rs), rs[i].pointer)
                <==>
                NearestCie(rs, i).Some? && EntryOf(rs[NearestCie(rs, i).value]) == EntryOf(rs[j]))
            && (NearestCie(rs, i) == Some(j) ==>
                parsed[i].fde.cie == Resolve(SerialiseAll(rs), rs[i].pointer))
  {
    SectionRoundTrip(rs, None);
    LinkIsNearest(rs, None, i);
    ResolveAtRecord(rs, j);
  }

  /** Two CIEs followed by an FDE that points at the first: the FDE is given the second. */
  lemma LinkingIgnoresPointers() returns (rs: seq<Record>)
    ensures forall r :: r in rs ==> WellFormed(r)
    ensures |rs| == 3 && rs[2].FdeRecord? && rs[0].CieRecord? && rs[2].pointer == Offset(rs, 0)
    ensures var parsed := ParseSection(SerialiseAll(rs), None);
            && parsed.Entries? && |parsed.entries| == 3 && parsed.entries[2].FdeEntry?
            && parsed.entries[2].fde.cie != Resolve(SerialiseAll(rs), rs[2].pointer)
  {
    rs := [CieRecord(3, [], 1, 0, 16, []), CieRecord(3, [], 4, 0, 16, []), FdeRecord(0, 0, 0, [])];
    assert EncodeUnsigned(1) == [1] && EncodeUnsigned(4) == [4] && EncodeUnsigned(16) == [16] && EncodeSigned(0) == [0];
    assert EntryOf(rs[0]).cie.codeAlign == 1 && EntryOf(rs[1]).cie.codeAlign == 4;
    assert NearestCie(rs, 2) == Some(1);
    LinkingFollowsPointers(rs, 2, 0);
  }
}
