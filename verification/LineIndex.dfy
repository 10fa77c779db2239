/** The file/line index built from the line programs, and its two lookups (bininfo.go). */
module LineIndex {
  import opened Words

  /** A row of a line program. Rows without a file are not indexed. */
  datatype LineEntry = LineEntry(file: Option<string>, line: int, address: Word, prologueEnd: bool)

  datatype Location = Location(file: string, line: int)

  const NOWHERE: Location := Location("", 0)

  type SourceMap = map<string, map<int, seq<LineEntry>>>

  // ---------------------------------------------------------------- specification by linear scan

  predicate On(e: LineEntry, f: string, l: int) {
    e.file == Some(f) && e.line == l
  }

  /** The rows of one file and line, in program order. */
  function Select(raw: seq<LineEntry>, f: string, l: int): (rows: seq<LineEntry>) {
    if raw == [] then []
    else
      var n := |raw| - 1;
      Select(raw[..n], f, l) + if On(raw[n], f, l) then [raw[n]] else []
  }

  function RowsOf(sources: SourceMap, f: string, l: int): seq<LineEntry> {
    if f in sources && l in sources[f] then sources[f][l] else []
  }

  /** No row lost, duplicated, misfiled or reordered. */
  ghost predicate Indexes(sources: SourceMap, raw: seq<LineEntry>) {
    forall f, l :: RowsOf(sources, f, l) == Select(raw, f, l)
  }

  /** Row i is indexed and its address is the greatest indexed address not above pc. */
  ghost predicate IsNearest(raw: seq<LineEntry>, pc: Word, i: nat) {
    && i < |raw| && raw[i].file.Some? && raw[i].address <= pc
    && forall j :: 0 <= j < |raw| && raw[j].file.Some? && raw[j].address <= pc ==> raw[j].address <= raw[i].address
  }

  /** r is an answer the lookup may give for pc: the place of a nearest row, or the empty place when there is none. */
  ghost predicate Closest(raw: seq<LineEntry>, pc: Word, r: Location) {
    || (exists i: nat :: IsNearest(raw, pc, i) && On(raw[i], r.file, r.line))
    || (r == NOWHERE && forall i :: 0 <= i < |raw| && raw[i].file.Some? ==> raw[i].address > pc)
  }

  function FirstPrologueEnd(rows: seq<LineEntry>): (k: Option<nat>)
    ensures k.Some? ==> k.value < |rows| && rows[k.value].prologueEnd
    ensures k.Some? ==> forall j :: 0 <= j < k.value ==> !rows[j].prologueEnd
    ensures k.None? ==> forall j :: 0 <= j < |rows| ==> !rows[j].prologueEnd
  {
    if rows == [] then None
    else if rows[0].prologueEnd then Some(0)
    else match FirstPrologueEnd(rows[1..]) case None => None case Some(k) => Some(k + 1)
  }

  function MinAddress(rows: seq<LineEntry>): (a: Word)
    requires rows != []
    ensures exists k :: 0 <= k < |rows| && rows[k].address == a
    ensures forall k :: 0 <= k < |rows| ==> a <= rows[k].address
  {
    var n := |rows| - 1;
    if n == 0 then rows[0].address
    else
      var least := MinAddress(rows[..n]);
      if least > rows[n].address then rows[n].address else least
  }

  /** Where a breakpoint on rows goes: the first end of prologue, else the least address unless that is 0. */
  function BreakAddress(rows: seq<LineEntry>): Option<Word> {
    if rows == [] then None
    else match FirstPrologueEnd(rows)
         case Some(k) => Some(rows[k].address)
         case None => if MinAddress(rows) == 0 then None else Some(MinAddress(rows))
  }

  /** Row i is the first one of its file and line to end a prologue. */
  predicate FirstEnd(raw: seq<LineEntry>, f: string, l: int, i: nat) {
    i < |raw| && On(raw[i], f, l) && raw[i].prologueEnd
    && forall j :: 0 <= j < i && On(raw[j], f, l) ==> !raw[j].prologueEnd
  }

  /** Where a breakpoint on a file and line goes, said over the raw rows. */
  ghost predicate BreaksAt(raw: seq<LineEntry>, f: string, l: int, r: Option<Word>) {
    && (forall i: nat :: FirstEnd(raw, f, l, i) ==> r == Some(raw[i].address))
    && ((forall i: nat :: !FirstEnd(raw, f, l, i)) ==>
          && (r == None <==> (forall i :: 0 <= i < |raw| ==> !On(raw[i], f, l))
                             || exists i :: 0 <= i < |raw| && On(raw[i], f, l) && raw[i].address == 0)
          && (r.Some? ==>
                && (exists i :: 0 <= i < |raw| && On(raw[i], f, l) && raw[i].address == r.value)
                && forall i :: 0 <= i < |raw| && On(raw[i], f, l) ==> r.value <= raw[i].address))
  }

  lemma {:induction false} SelectMember(raw: seq<LineEntry>, f: string, l: int, e: LineEntry)
    ensures e in Select(raw, f, l) <==> e in raw && On(e, f, l)
  {
    if raw != [] {
      var n := |raw| - 1;
      SelectMember(raw[..n], f, l, e);
      assert raw == raw[..n] + [raw[n]];
    }
  }

  lemma SelectAppend(raw: seq<LineEntry>, e: LineEntry, f: string, l: int)
    ensures Select(raw + [e], f, l) == Select(raw, f, l) + if On(e, f, l) then [e] else []
  {
    assert (raw + [e])[..|raw|] == raw;
  }

  /** Selecting is row by row: none is lost, repeated or moved. */
  lemma {:induction false} SelectConcat(a: seq<LineEntry>, b: seq<LineEntry>, f: string, l: int)
    ensures Select(a + b, f, l) == Select(a, f, l) + Select(b, f, l)
  {
    if b == [] {
      assert a + b == a;
    } else {
      var front, e := b[..|b| - 1], b[|b| - 1];
      SelectConcat(a, front, f, l);
      assert a + b == a + front + [e] && b == front + [e];
      SelectAppend(a + front, e, f, l);
      SelectAppend(front, e, f, l);
    }
  }

  lemma SelectOne(e: LineEntry, f: string, l: int)
    ensures Select([e], f, l) == if On(e, f, l) then [e] else []
  {
    SelectAppend([], e, f, l);
    assert [] + [e] == [e];
  }

  lemma {:induction false} EndIffFirst(raw: seq<LineEntry>, f: string, l: int)
    ensures (exists i: nat :: FirstEnd(raw, f, l, i)) <==>
            exists j :: 0 <= j < |raw| && On(raw[j], f, l) && raw[j].prologueEnd
  {
    if raw != [] {
      var n := |raw| - 1;
      EndIffFirst(raw[..n], f, l);
      if i: nat :| FirstEnd(raw[..n], f, l, i) {
        assert FirstEnd(raw, f, l, i);
      } else if On(raw[n], f, l) && raw[n].prologueEnd {
        assert forall j :: 0 <= j < n ==> raw[..n][j] == raw[j];
        assert FirstEnd(raw, f, l, n);
      }
    }
  }

  lemma FirstAfter(front: seq<LineEntry>, e: LineEntry, back: seq<LineEntry>)
    requires e.prologueEnd && forall j :: 0 <= j < |front| ==> !front[j].prologueEnd
    ensures FirstPrologueEnd(front + [e] + back) == Some(|front|)
  {
    var rows := front + [e] + back;
    assert rows[|front|] == e;
    forall j | 0 <= j < |front|
      ensures !rows[j].prologueEnd
    {
      assert rows[j] == front[j];
    }
  }

  /** The first end of prologue in the program is the first one among the selected rows. */
  lemma FirstEndSelected(raw: seq<LineEntry>, f: string, l: int, i: nat)
    requires FirstEnd(raw, f, l, i)
    ensures FirstPrologueEnd(Select(raw, f, l)).Some?
    ensures Select(raw, f, l)[FirstPrologueEnd(Select(raw, f, l)).value] == raw[i]
  {
    var front, back := raw[..i], raw[i + 1..];
    assert raw == front + [raw[i]] + back;
    SelectConcat(front + [raw[i]], back, f, l);
    SelectAppend(front, raw[i], f, l);
    forall j | 0 <= j < |Select(front, f, l)|
      ensures !Select(front, f, l)[j].prologueEnd
    {
      SelectMember(front, f, l, Select(front, f, l)[j]);
    }
    FirstAfter(Select(front, f, l), raw[i], Select(back, f, l));
  }

  lemma EndSelected(raw: seq<LineEntry>, f: string, l: int)
    requires FirstPrologueEnd(Select(raw, f, l)).Some?
    ensures exists i: nat :: FirstEnd(raw, f, l, i)
  {
    var e := Select(raw, f, l)[FirstPrologueEnd(Select(raw, f, l)).value];
    SelectMember(raw, f, l, e);
    var j :| 0 <= j < |raw| && raw[j] == e;
    EndIffFirst(raw, f, l);
  }

  lemma LeastOverRows(raw: seq<LineEntry>, f: string, l: int)
    requires Select(raw, f, l) != []
    ensures exists i :: 0 <= i < |raw| && On(raw[i], f, l) && raw[i].address == MinAddress(Select(raw, f, l))
    ensures forall i :: 0 <= i < |raw| && On(raw[i], f, l) ==> MinAddress(Select(raw, f, l)) <= raw[i].address
  {
    var rows := Select(raw, f, l);
    var k: nat :| k < |rows| && rows[k].address == MinAddress(rows);
    SelectMember(raw, f, l, rows[k]);
    forall i | 0 <= i < |raw| && On(raw[i], f, l)
      ensures MinAddress(rows) <= raw[i].address
    {
      SelectMember(raw, f, l, raw[i]);
    }
  }

  lemma NoEndBreaks(raw: seq<LineEntry>, f: string, l: int)
    requires FirstPrologueEnd(Select(raw, f, l)).None? && forall i: nat :: !FirstEnd(raw, f, l, i)
    ensures BreaksAt(raw, f, l, BreakAddress(Select(raw, f, l)))
  {
    if Select(raw, f, l) != [] {
      LeastOverRows(raw, f, l);
    } else {
      forall i | 0 <= i < |raw|
        ensures !On(raw[i], f, l)
      {
        SelectMember(raw, f, l, raw[i]);
      }
    }
  }

  /** The first end of prologue of a line is where its breakpoint goes; without one the least address, unless 0. */
  lemma BreakAddressOverRows(raw: seq<LineEntry>, f: string, l: int)
    ensures BreaksAt(raw, f, l, BreakAddress(Select(raw, f, l)))
  {
    var rows := Select(raw, f, l);
    if i: nat :| FirstEnd(raw, f, l, i) {
      FirstEndSelected(raw, f, l, i);
      forall j: nat | FirstEnd(raw, f, l, j)
        ensures j == i
      {
      }
    } else {
      assert FirstPrologueEnd(rows).None? by {
        if FirstPrologueEnd(rows).Some? {
          EndSelected(raw, f, l);
        }
      }
      NoEndBreaks(raw, f, l);
    }
  }

  // ---------------------------------------------------------------- the nearest-line scan in one iteration order

  /** The running result of the scan: the greatest address at most pc so far, and the place of a row that has it. */
  datatype Candidate = Candidate(address: Option<Word>, place: Location)

  const NO_CANDIDATE: Candidate := Candidate(None, NOWHERE)

  /** A row at pc ends the scan. */
  datatype Scanned = Exact(place: Location) | SoFar(best: Candidate)

  function Closer(e: LineEntry, place: Location, pc: Word, best: Candidate): Candidate {
    if e.address <= pc && (best.address.None? || e.address > best.address.value) then Candidate(Some(e.address), place)
    else best
  }

  function RowsScan(rows: seq<LineEntry>, place: Location, pc: Word, best: Candidate): Scanned {
    if rows == [] then SoFar(best)
    else
      var n := |rows| - 1;
      match RowsScan(rows[..n], place, pc, best)
      case Exact(p) => Exact(p)
      case SoFar(b) => if rows[n].address == pc then Exact(place) else SoFar(Closer(rows[n], place, pc, b))
  }

  function KeysScan(sources: SourceMap, keys: seq<Location>, pc: Word): Scanned {
    if keys == [] then SoFar(NO_CANDIDATE)
    else
      var n := |keys| - 1;
      match KeysScan(sources, keys[..n], pc)
      case Exact(p) => Exact(p)
      case SoFar(b) => RowsScan(RowsOf(sources, keys[n].file, keys[n].line), keys[n], pc, b)
  }

  /** An order in which the nested maps may be iterated: the files, and the lines of each. */
  datatype Order = Order(files: seq<string>, lines: map<string, seq<int>>)

  ghost predicate Lists<K(!new)>(s: seq<K>, keys: set<K>) {
    (forall k :: k in s <==> k in keys) && forall i, j :: 0 <= i < j < |s| ==> s[i] != s[j]
  }

  ghost predicate Visits(sources: SourceMap, o: Order) {
    && Lists(o.files, sources.Keys)
    && o.lines.Keys == sources.Keys
    && forall f :: f in sources ==> Lists(o.lines[f], sources[f].Keys)
  }

  function LinesOf(f: string, lines: seq<int>): seq<Location> {
    if lines == [] then [] else LinesOf(f, lines[..|lines| - 1]) + [Location(f, lines[|lines| - 1])]
  }

  function KeysOf(files: seq<string>, lines: map<string, seq<int>>): seq<Location>
    requires forall f :: f in files ==> f in lines
  {
    if files == [] then []
    else
      var n := |files| - 1;
      KeysOf(files[..n], lines) + LinesOf(files[n], lines[files[n]])
  }

  /** What the lookup answers when the maps are iterated in this order. */
  function Answer(sources: SourceMap, o: Order, pc: Word): Location
    requires forall f :: f in o.files ==> f in o.lines
  {
    match KeysScan(sources, KeysOf(o.files, o.lines), pc)
    case Exact(p) => p
    case SoFar(best) => best.place
  }

  lemma {:induction false} ExactStays(sources: SourceMap, a: seq<Location>, b: seq<Location>, pc: Word)
    requires KeysScan(sources, a, pc).Exact?
    ensures KeysScan(sources, a + b, pc) == KeysScan(sources, a, pc)
  {
    if b == [] {
      assert a + b == a;
    } else {
      var n := |b| - 1;
      ExactStays(sources, a, b[..n], pc);
      assert (a + b)[..|a| + n] == a + b[..n];
    }
  }

  lemma {:induction false} LinesSplit(f: string, lines: seq<int>, j: nat)
    requires j <= |lines|
    ensures LinesOf(f, lines) == LinesOf(f, lines[..j]) + LinesOf(f, lines[j..])
  {
    var n := |lines| - 1;
    if j == |lines| {
      assert lines[..j] == lines;
    } else {
      LinesSplit(f, lines[..n], j);
      assert lines[..n][..j] == lines[..j] && lines[..n][j..] == lines[j..][..n - j];
    }
  }

  lemma KeysLast(files: seq<string>, lines: map<string, seq<int>>, f: string)
    requires f in lines && forall g :: g in files ==> g in lines
    ensures forall g :: g in files + [f] ==> g in lines
    ensures KeysOf(files + [f], lines) == KeysOf(files, lines) + LinesOf(f, lines[f])
  {
    assert (files + [f])[..|files|] == files;
  }

  lemma KnownParts(a: seq<string>, b: seq<string>, lines: map<string, seq<int>>)
    requires forall f :: f in a + b ==> f in lines
    ensures forall f :: f in a ==> f in lines
    ensures forall f :: f in b ==> f in lines
  {
    forall f | f in a || f in b
      ensures f in lines
    {
      assert f in a + b;
    }
  }

  lemma Associative(a: seq<Location>, b: seq<Location>, c: seq<Location>)
    ensures a + b + c == a + (b + c)
  {
  }

  lemma {:induction false} KeysConcat(a: seq<string>, b: seq<string>, lines: map<string, seq<int>>)
    requires forall f :: f in a ==> f in lines
    requires forall f :: f in b ==> f in lines
    ensures forall f :: f in a + b ==> f in lines
    ensures KeysOf(a + b, lines) == KeysOf(a, lines) + KeysOf(b, lines)
  {
    if b == [] {
      assert a + b == a;
    } else {
      var front, f := b[..|b| - 1], b[|b| - 1];
      assert b == front + [f] && a + b == a + front + [f];
      KnownParts(front, [f], lines);
      KeysConcat(a, front, lines);
      KeysLast(a + front, lines, f);
      KeysLast(front, lines, f);
      Associative(KeysOf(a, lines), KeysOf(front, lines), LinesOf(f, lines[f]));
    }
  }

  lemma KeysSplit(files: seq<string>, lines: map<string, seq<int>>, i: nat)
    requires i <= |files| && forall f :: f in files ==> f in lines
    ensures KeysOf(files, lines) == KeysOf(files[..i], lines) + KeysOf(files[i..], lines)
  {
    assert files == files[..i] + files[i..];
    KnownParts(files[..i], files[i..], lines);
    KeysConcat(files[..i], files[i..], lines);
  }

  lemma KeysNext(files: seq<string>, lines: map<string, seq<int>>, i: nat)
    requires i < |files| && forall f :: f in files ==> f in lines
    ensures KeysOf(files[..i + 1], lines) == KeysOf(files[..i], lines) + LinesOf(files[i], lines[files[i]])
  {
    assert files[..i + 1][..i] == files[..i];
  }

  lemma Regroup(
      a: seq<Location>, b: seq<Location>, c: seq<Location>, d: seq<Location>, e: seq<Location>)
    ensures a + (b + c + d) + e == a + b + c + (d + e)
  {
  }

  /** The keys before line j of file i, that line, and the rest. */
  lemma KeysAt(o: Order, i: nat, j: nat) returns (rest: seq<Location>)
    requires i < |o.files| && (forall f :: f in o.files ==> f in o.lines) && j < |o.lines[o.files[i]]|
    ensures var f := o.files[i];
            KeysOf(o.files, o.lines) ==
            KeysOf(o.files[..i], o.lines) + LinesOf(f, o.lines[f][..j]) + [Location(f, o.lines[f][j])] + rest
  {
    var f := o.files[i];
    var lines := o.lines[f];
    KeysSplit(o.files, o.lines, i + 1);
    KeysNext(o.files, o.lines, i);
    LinesSplit(f, lines, j + 1);
    assert lines[..j + 1][..j] == lines[..j];
    rest := LinesOf(f, lines[j + 1..]) + KeysOf(o.files[i + 1..], o.lines);
    Regroup(KeysOf(o.files[..i], o.lines), LinesOf(f, lines[..j]), [Location(f, lines[j])],
            LinesOf(f, lines[j + 1..]), KeysOf(o.files[i + 1..], o.lines));
  }

  /** The scan of one more line. */
  lemma ScanNext(
      sources: SourceMap, before: seq<Location>, f: string, lines: seq<int>, j: nat, pc: Word, best: Candidate)
    requires j < |lines| && KeysScan(sources, before + LinesOf(f, lines[..j]), pc) == SoFar(best)
    ensures KeysScan(sources, before + LinesOf(f, lines[..j + 1]), pc) ==
            RowsScan(RowsOf(sources, f, lines[j]), Location(f, lines[j]), pc, best)
  {
    var keys, key := before + LinesOf(f, lines[..j]), Location(f, lines[j]);
    assert lines[..j + 1][..j] == lines[..j];
    assert before + LinesOf(f, lines[..j + 1]) == keys + [key];
    assert (keys + [key])[..|keys|] == keys;
  }

  /** An exact row under line j of file i ends the scan with that place, when nothing before it did. */
  lemma ExactAt(sources: SourceMap, o: Order, i: nat, j: nat, pc: Word, best: Candidate)
    requires i < |o.files| && (forall f :: f in o.files ==> f in o.lines) && j < |o.lines[o.files[i]]|
    requires var f := o.files[i];
             var l := o.lines[f][j];
             && KeysScan(sources, KeysOf(o.files[..i], o.lines) + LinesOf(f, o.lines[f][..j]), pc) == SoFar(best)
             && RowsScan(RowsOf(sources, f, l), Location(f, l), pc, best).Exact?
    ensures var f := o.files[i];
            Answer(sources, o, pc) ==
            RowsScan(RowsOf(sources, f, o.lines[f][j]), Location(f, o.lines[f][j]), pc, best).place
  {
    var f := o.files[i];
    var before, key := KeysOf(o.files[..i], o.lines) + LinesOf(f, o.lines[f][..j]), Location(f, o.lines[f][j]);
    var rest := KeysAt(o, i, j);
    assert (before + [key])[..|before|] == before;
    ExactStays(sources, before + [key], rest, pc);
  }

  lemma {:induction false} RowsExact(rows: seq<LineEntry>, i: nat, place: Location, pc: Word, best: Candidate)
    requires i <= |rows| && RowsScan(rows[..i], place, pc, best).Exact?
    ensures RowsScan(rows, place, pc, best) == RowsScan(rows[..i], place, pc, best)
    decreases |rows|
  {
    var n := |rows| - 1;
    if i == |rows| {
      assert rows[..i] == rows;
    } else {
      assert rows[..n][..i] == rows[..i];
      RowsExact(rows[..n], i, place, pc, best);
    }
  }

  // ---------------------------------------------------------------- the scan finds a nearest row

  ghost predicate Improves(rows: seq<LineEntry>, place: Location, pc: Word, best: Candidate, next: Candidate) {
    && (best.address.Some? ==> next.address.Some? && best.address.value <= next.address.value)
    && (forall k :: 0 <= k < |rows| && rows[k].address <= pc ==>
          next.address.Some? && rows[k].address <= next.address.value)
    && (next == best
        || (next.place == place
            && exists k :: 0 <= k < |rows| && rows[k].address <= pc && next.address == Some(rows[k].address)))
  }

  lemma {:induction false} RowsScanImproves(rows: seq<LineEntry>, place: Location, pc: Word, best: Candidate)
    ensures RowsScan(rows, place, pc, best).Exact? <==> exists k :: 0 <= k < |rows| && rows[k].address == pc
    ensures match RowsScan(rows, place, pc, best)
            case Exact(p) => p == place
            case SoFar(next) => Improves(rows, place, pc, best, next)
  {
    if rows != [] {
      var n := |rows| - 1;
      RowsScanImproves(rows[..n], place, pc, best);
      assert rows == rows[..n] + [rows[n]];
    }
  }

  ghost predicate HasAddress(sources: SourceMap, f: string, l: int, k: nat, a: Word) {
    k < |RowsOf(sources, f, l)| && RowsOf(sources, f, l)[k].address == a
  }

  lemma RowIsRaw(sources: SourceMap, raw: seq<LineEntry>, f: string, l: int, k: nat) returns (i: nat)
    requires Indexes(sources, raw) && k < |RowsOf(sources, f, l)|
    ensures i < |raw| && raw[i] == RowsOf(sources, f, l)[k] && On(raw[i], f, l)
  {
    var e := RowsOf(sources, f, l)[k];
    SelectMember(raw, f, l, e);
    assert e in Select(raw, f, l);
    i :| 0 <= i < |raw| && raw[i] == e;
  }

  lemma RawIsRow(sources: SourceMap, raw: seq<LineEntry>, i: nat) returns (k: nat)
    requires Indexes(sources, raw) && i < |raw| && raw[i].file.Some?
    ensures HasAddress(sources, raw[i].file.value, raw[i].line, k, raw[i].address)
  {
    var f, l := raw[i].file.value, raw[i].line;
    SelectMember(raw, f, l, raw[i]);
    k :| 0 <= k < |RowsOf(sources, f, l)| && RowsOf(sources, f, l)[k] == raw[i];
  }

  /** The candidate is right for all rows of the keys visited. */
  ghost predicate Best(sources: SourceMap, pc: Word, keys: seq<Location>, best: Candidate) {
    && (best.address.None? ==> best.place == NOWHERE)
    && (best.address.Some? ==>
          best.address.value <= pc
          && exists k :: HasAddress(sources, best.place.file, best.place.line, k, best.address.value))
    && (forall key, k, a: Word :: key in keys && HasAddress(sources, key.file, key.line, k, a) && a <= pc ==>
          best.address.Some? && a <= best.address.value)
  }

  lemma BestStep(
      sources: SourceMap, pc: Word, keys: seq<Location>, key: Location, best: Candidate, next: Candidate)
    requires Best(sources, pc, keys, best)
    requires Improves(RowsOf(sources, key.file, key.line), key, pc, best, next)
    ensures Best(sources, pc, keys + [key], next)
  {
    var rows := RowsOf(sources, key.file, key.line);
    if next != best {
      var k :| 0 <= k < |rows| && next.address == Some(rows[k].address);
      assert HasAddress(sources, key.file, key.line, k, next.address.value);
    }
  }

  ghost predicate ScanRight(sources: SourceMap, keys: seq<Location>, pc: Word, r: Scanned) {
    match r
    case Exact(p) => exists k :: HasAddress(sources, p.file, p.line, k, pc)
    case SoFar(best) => Best(sources, pc, keys, best)
  }

  lemma KeyRight(
      sources: SourceMap, pc: Word, keys: seq<Location>, key: Location, best: Candidate)
    requires Best(sources, pc, keys, best)
    ensures ScanRight(sources, keys + [key], pc, RowsScan(RowsOf(sources, key.file, key.line), key, pc, best))
  {
    var rows := RowsOf(sources, key.file, key.line);
    RowsScanImproves(rows, key, pc, best);
    match RowsScan(rows, key, pc, best) {
      case Exact(_) =>
        var k: nat :| k < |rows| && rows[k].address == pc;
        assert HasAddress(sources, key.file, key.line, k, pc);
      case SoFar(next) =>
        BestStep(sources, pc, keys, key, best, next);
    }
  }

  lemma {:induction false} KeysScanRight(sources: SourceMap, keys: seq<Location>, pc: Word)
    ensures ScanRight(sources, keys, pc, KeysScan(sources, keys, pc))
  {
    if keys != [] {
      var n := |keys| - 1;
      KeysScanRight(sources, keys[..n], pc);
      if KeysScan(sources, keys[..n], pc).SoFar? {
        KeyRight(sources, pc, keys[..n], keys[n], KeysScan(sources, keys[..n], pc).best);
        assert keys == keys[..n] + [keys[n]];
      }
    }
  }

  lemma KeysComplete(sources: SourceMap, o: Order, f: string, l: int)
    requires Visits(sources, o) && f in sources && l in sources[f]
    ensures Location(f, l) in KeysOf(o.files, o.lines)
  {
    var i :| 0 <= i < |o.files| && o.files[i] == f;
    var j :| 0 <= j < |o.lines[f]| && o.lines[f][j] == l;
    var rest := KeysAt(o, i, j);
  }

  lemma ExactIsClosest(sources: SourceMap, raw: seq<LineEntry>, pc: Word, r: Location, k: nat)
    requires Indexes(sources, raw) && HasAddress(sources, r.file, r.line, k, pc)
    ensures Closest(raw, pc, r)
  {
    var i := RowIsRaw(sources, raw, r.file, r.line, k);
    assert IsNearest(raw, pc, i);
  }

  lemma BestIsClosest(sources: SourceMap, raw: seq<LineEntry>, o: Order, pc: Word, best: Candidate)
    requires Indexes(sources, raw) && Visits(sources, o) && Best(sources, pc, KeysOf(o.files, o.lines), best)
    ensures Closest(raw, pc, best.place)
  {
    forall j | 0 <= j < |raw| && raw[j].file.Some? && raw[j].address <= pc
      ensures best.address.Some? && raw[j].address <= best.address.value
    {
      var k := RawIsRow(sources, raw, j);
      KeysComplete(sources, o, raw[j].file.value, raw[j].line);
      assert Location(raw[j].file.value, raw[j].line) in KeysOf(o.files, o.lines);
    }
    if best.address.Some? {
      var k :| HasAddress(sources, best.place.file, best.place.line, k, best.address.value);
      var i := RowIsRaw(sources, raw, best.place.file, best.place.line, k);
      assert IsNearest(raw, pc, i);
    }
  }

  /** Whatever the order, the answer is the place of a nearest row. */
  lemma AnswerIsClosest(sources: SourceMap, raw: seq<LineEntry>, o: Order, pc: Word)
    requires Indexes(sources, raw) && Visits(sources, o)
    ensures Closest(raw, pc, Answer(sources, o, pc))
  {
    var keys := KeysOf(o.files, o.lines);
    KeysScanRight(sources, keys, pc);
    match KeysScan(sources, keys, pc) {
      case Exact(p) =>
        var k :| HasAddress(sources, p.file, p.line, k, pc);
        ExactIsClosest(sources, raw, pc, p, k);
      case SoFar(best) =>
        BestIsClosest(sources, raw, o, pc, best);
    }
  }

  // ---------------------------------------------------------------- the index

  /** The keys of a map in the order of one iteration, which is not fixed. */
  method AnyOrder<K(==,!new)>(keys: set<K>) returns (s: seq<K>)
    ensures Lists(s, keys)
  {
    s := [];
    var left := keys;
    while left != {}
      invariant left <= keys && Lists(s, keys - left)
      decreases left
    {
      var k :| k in left;
      s, left := s + [k], left - {k};
    }
    assert keys - left == keys;
  }

  /** The innermost loop: one list of rows. */
  method ScanRows(rows: seq<LineEntry>, place: Location, pc: Word, best: Candidate) returns (r: Scanned)
    ensures r == RowsScan(rows, place, pc, best)
  {
    var next := best;
    for i := 0 to |rows|
      invariant RowsScan(rows[..i], place, pc, best) == SoFar(next)
    {
      assert rows[..i + 1][..i] == rows[..i];
      if rows[i].address == pc {
        RowsExact(rows, i + 1, place, pc, best);
        return Exact(place);
      }
      if rows[i].address <= pc && (next.address.None? || rows[i].address > next.address.value) {
        next := Candidate(Some(rows[i].address), place);
      }
    }
    assert rows[..|rows|] == rows;
    r := SoFar(next);
  }

  class BI {
    var sources: SourceMap
    ghost var raw: seq<LineEntry>

    ghost predicate Valid()
      reads this
    {
      Indexes(sources, raw)
    }

    constructor ()
      ensures Valid() && raw == []
    {
      sources := map[];
      raw := [];
    }

    /** The line-entry loop for one compile unit; the index accumulates over units. */
    method AddCompileUnit(unit: seq<LineEntry>)
      requires Valid()
      modifies this
      ensures Valid() && raw == old(raw) + unit
    {
      for i := 0 to |unit|
        invariant Valid() && raw == old(raw) + unit[..i]
      {
        AddLineEntry(unit[i]);
        assert unit[..i] + [unit[i]] == unit[..i + 1];
      }
      assert unit[..|unit|] == unit;
    }

    method AddLineEntry(e: LineEntry)
      requires Valid()
      modifies this
      ensures Valid() && raw == old(raw) + [e]
    {
      ghost var before := sources;
      if e.file.Some? {
        var f := e.file.value;
        if f !in sources {
          sources := sources[f := map[]];
        }
        var rows := if e.line in sources[f] then sources[f][e.line] else [];
        sources := sources[f := sources[f][e.line := rows + [e]]];
      }
      forall f, l
        ensures RowsOf(sources, f, l) == Select(raw + [e], f, l)
      {
        SelectAppend(raw, e, f, l);
        assert RowsOf(before, f, l) == Select(raw, f, l);
      }
      raw := raw + [e];
    }

    /** fileLineToPcForBreakPoint; None stands for NotFoundSourceLineErr. */
    method FileLineToPcForBreakPoint(file: string, line: int) returns (r: Option<Word>)
      requires Valid()
      ensures r == BreakAddress(Select(raw, file, line)) && BreaksAt(raw, file, line, r)
    {
      BreakAddressOverRows(raw, file, line);
      if file !in sources || line !in sources[file] || sources[file][line] == [] {
        assert RowsOf(sources, file, line) == Select(raw, file, line);
        return None;
      }
      var rows := sources[file][line];
      assert rows == RowsOf(sources, file, line);
      for i := 0 to |rows|
        invariant forall j :: 0 <= j < i ==> !rows[j].prologueEnd
      {
        if rows[i].prologueEnd {
          return Some(rows[i].address);
        }
      }
      var addr: Word := 0;
      for i := 0 to |rows|
        invariant i > 0 ==> addr == MinAddress(rows[..i])
      {
        assert i > 0 ==> rows[..i + 1][..i] == rows[..i];
        if i == 0 {
          addr := rows[i].address;
        } else if addr > rows[i].address {
          addr := rows[i].address;
        }
      }
      assert rows[..|rows|] == rows;
      r := if addr == 0 then None else Some(addr);
    }

    /** pcTofileLine: scans the nested maps in whatever order they are iterated. */
    method PcToFileLine(pc: Word) returns (r: Location)
      requires Valid()
      ensures Closest(raw, pc, r)
      ensures exists o :: Visits(sources, o) && r == Answer(sources, o, pc)
    {
      var o := SomeOrder();
      r := ScanInOrder(pc, o);
      AnswerIsClosest(sources, raw, o, pc);
    }

    method SomeOrder() returns (o: Order)
      ensures Visits(sources, o)
    {
      var files := AnyOrder(sources.Keys);
      var lines: map<string, seq<int>> := map[];
      for i := 0 to |files|
        invariant lines.Keys == set f | f in files[..i]
        invariant forall f :: f in lines ==> f in sources && Lists(lines[f], sources[f].Keys)
      {
        var order := AnyOrder(sources[files[i]].Keys);
        lines := lines[files[i] := order];
        assert files[..i + 1] == files[..i] + [files[i]];
      }
      assert files[..|files|] == files;
      o := Order(files, lines);
    }

    /** The outer loop, over files. */
    method ScanInOrder(pc: Word, o: Order) returns (r: Location)
      requires Visits(sources, o)
      ensures r == Answer(sources, o, pc)
    {
      var best := NO_CANDIDATE;
      for i := 0 to |o.files|
        invariant KeysScan(sources, KeysOf(o.files[..i], o.lines), pc) == SoFar(best)
      {
        var scanned := ScanFile(pc, o, i, best);
        if scanned.Exact? {
          return scanned.place;
        }
        best := scanned.best;
      }
      assert o.files[..|o.files|] == o.files;
      r := best.place;
    }

    /** The lines of one file; an exact match ends the whole scan. */
    method ScanFile(pc: Word, o: Order, i: nat, best: Candidate) returns (r: Scanned)
      requires Visits(sources, o) && i < |o.files|
      requires KeysScan(sources, KeysOf(o.files[..i], o.lines), pc) == SoFar(best)
      ensures match r
              case Exact(place) => place == Answer(sources, o, pc)
              case SoFar(next) => KeysScan(sources, KeysOf(o.files[..i + 1], o.lines), pc) == SoFar(next)
    {
      var f := o.files[i];
      var lines, next := o.lines[f], best;
      ghost var before := KeysOf(o.files[..i], o.lines);
      assert before + LinesOf(f, lines[..0]) == before;
      for j := 0 to |lines|
        invariant KeysScan(sources, before + LinesOf(f, lines[..j]), pc) == SoFar(next)
      {
        ScanNext(sources, before, f, lines, j, pc, next);
        var scanned := ScanRows(sources[f][lines[j]], Location(f, lines[j]), pc, next);
        if scanned.Exact? {
          ExactAt(sources, o, i, j, pc, next);
          return scanned;
        }
        next := scanned.best;
      }
      assert lines[..|lines|] == lines;
      KeysNext(o.files, o.lines, i);
      r := SoFar(next);
    }
  }

  // ---------------------------------------------------------------- what the answers mean

  /** The least address that is not 0. */
  ghost predicate IsLeastNonzero(rows: seq<LineEntry>, a: Word) {
    && a != 0
    && (exists k :: 0 <= k < |rows| && rows[k].address == a)
    && forall k :: 0 <= k < |rows| && rows[k].address != 0 ==> a <= rows[k].address
  }

  /**
   * Without an end of prologue, a breakpoint goes to the least nonzero address of its line if and only if the line
   * has rows and none of them has address 0; a single row at address 0 makes the line not found.
   */
  lemma BreakAtLeastNonzero(rows: seq<LineEntry>)
    requires FirstPrologueEnd(rows).None?
    ensures (BreakAddress(rows).Some? && IsLeastNonzero(rows, BreakAddress(rows).value))
            <==> rows != [] && forall k :: 0 <= k < |rows| ==> rows[k].address != 0
    ensures BreakAddress(rows).None? <==> rows == [] || exists k :: 0 <= k < |rows| && rows[k].address == 0
  {
    if rows != [] {
      var k :| 0 <= k < |rows| && rows[k].address == MinAddress(rows);
    }
  }

  /** A line with rows at addresses 0 and 5 has a least nonzero address, yet no breakpoint can be set on it. */
  lemma ZeroAddressHidesLine()
    ensures var rows := [LineEntry(Some("f"), 1, 0, false), LineEntry(Some("f"), 1, 5, false)];
            IsLeastNonzero(rows, 5) && BreakAddress(rows) == None
  {
    var rows := [LineEntry(Some("f"), 1, 0, false), LineEntry(Some("f"), 1, 5, false)];
    assert rows[1].address == 5 && rows[0].address == 0;
    assert FirstPrologueEnd(rows).None?;
    BreakAtLeastNonzero(rows);
  }

  predicate SameAddress(d: LineEntry, e: LineEntry) {
    d.file.Some? && e.file.Some? && d.address == e.address
  }

  function Place(e: LineEntry): Location
    requires e.file.Some?
  {
    Location(e.file.value, e.line)
  }

  /** Rows at the same address name the same file and line. */
  ghost predicate Unambiguous(raw: seq<LineEntry>) {
    forall i, j | 0 <= i < |raw| && 0 <= j < |raw| && SameAddress(raw[i], raw[j]) :: Place(raw[i]) == Place(raw[j])
  }

  /** At every pc all iteration orders give the same answer. */
  ghost predicate Determined(sources: SourceMap) {
    forall pc: Word, o, o' :: Visits(sources, o) && Visits(sources, o') ==>
      Answer(sources, o, pc) == Answer(sources, o', pc)
  }

  lemma ClosestUnique(raw: seq<LineEntry>, pc: Word, r: Location, r': Location)
    requires Unambiguous(raw) && Closest(raw, pc, r) && Closest(raw, pc, r')
    ensures r == r'
  {
    if i: nat :| IsNearest(raw, pc, i) && On(raw[i], r.file, r.line) {
      var j: nat :| IsNearest(raw, pc, j) && On(raw[j], r'.file, r'.line);
      assert SameAddress(raw[i], raw[j]);
    }
  }

  /** Some sequence of the keys that begins with the given one. */
  ghost function From<K(!new)>(keys: set<K>, first: K): (s: seq<K>)
    requires first in keys
    ensures Lists(s, keys) && s[0] == first
    decreases |keys|
  {
    var rest := keys - {first};
    if rest == {} then
      assert keys == {first};
      [first]
    else
      var k :| k in rest;
      [first] + From(rest, k)
  }

  ghost function Sequence<K(!new)>(keys: set<K>): (s: seq<K>)
    ensures Lists(s, keys)
  {
    if keys == {} then []
    else
      var k :| k in keys;
      From(keys, k)
  }

  /** An order that comes to the given file and line first. */
  ghost function First(sources: SourceMap, place: Location): (o: Order)
    requires place.file in sources && place.line in sources[place.file]
    ensures Visits(sources, o) && o.files[0] == place.file && o.lines[place.file][0] == place.line
  {
    Order(From(sources.Keys, place.file),
          map f | f in sources ::
            if f == place.file then From(sources[f].Keys, place.line) else Sequence(sources[f].Keys))
  }

  /** Every indexed row is the answer at its own address in some iteration order. */
  lemma AnswerOfRow(sources: SourceMap, raw: seq<LineEntry>, i: nat) returns (o: Order)
    requires Indexes(sources, raw) && i < |raw| && raw[i].file.Some?
    ensures Visits(sources, o) && Answer(sources, o, raw[i].address) == Place(raw[i])
  {
    var place := Place(raw[i]);
    var k := RawIsRow(sources, raw, i);
    o := First(sources, place);
    assert KeysOf(o.files[..0], o.lines) + LinesOf(place.file, o.lines[place.file][..0]) == [];
    RowsScanImproves(RowsOf(sources, place.file, place.line), place, raw[i].address, NO_CANDIDATE);
    ExactAt(sources, o, 0, 0, raw[i].address, NO_CANDIDATE);
  }

  /** The answer is independent of the iteration order at every pc exactly when the rows are unambiguous. */
  lemma OrderIndependent(sources: SourceMap, raw: seq<LineEntry>)
    requires Indexes(sources, raw)
    ensures Determined(sources) <==> Unambiguous(raw)
  {
    if Unambiguous(raw) {
      forall pc: Word, o, o' | Visits(sources, o) && Visits(sources, o')
        ensures Answer(sources, o, pc) == Answer(sources, o', pc)
      {
        AnswerIsClosest(sources, raw, o, pc);
        AnswerIsClosest(sources, raw, o', pc);
        ClosestUnique(raw, pc, Answer(sources, o, pc), Answer(sources, o', pc));
      }
    } else {
      var i, j :| 0 <= i < |raw| && 0 <= j < |raw| && SameAddress(raw[i], raw[j]) && Place(raw[i]) != Place(raw[j]);
      var o := AnswerOfRow(sources, raw, i);
      var o' := AnswerOfRow(sources, raw, j);
    }
  }

  /**
   * A breakpoint address leads back to its file and line, and so does the address after it, where the process stops
   * on the trap, when no row starts there.
   */
  lemma BreakLocationRoundTrip(
      raw: seq<LineEntry>, f: string, l: int, a: Word, pc: Word, r: Location)
    requires Unambiguous(raw)
    requires BreakAddress(Select(raw, f, l)) == Some(a)
    requires pc == a || (pc == a + 1 && forall i :: 0 <= i < |raw| && raw[i].file.Some? ==> raw[i].address != pc)
    requires Closest(raw, pc, r)
    ensures r == Location(f, l)
  {
    var rows := Select(raw, f, l);
    var k: nat :| k < |rows| && rows[k].address == a;
    SelectMember(raw, f, l, rows[k]);
    assert rows[k] in raw;
    var i :| 0 <= i < |raw| && raw[i] == rows[k];
    assert IsNearest(raw, pc, i) && On(raw[i], f, l);
    ClosestUnique(raw, pc, Location(f, l), r);
  }
}
