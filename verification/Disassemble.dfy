/** The disassembly listing with original bytes laid over the traps (disassemble.go). */
module Disassemble {
  import opened Words
  import opened Native
  import opened Breakpoints

  /** The instruction decoder, on the bytes from an address to the end of the range. */
  type Decoder = seq<Byte> -> Option<Inst>

  /** s and s' are long enough and agree on their first n bytes. */
  ghost predicate SameHead(s: seq<Byte>, s': seq<Byte>, n: nat) {
    n <= |s| && n <= |s'| && forall i :: 0 <= i < n ==> s[i] == s'[i]
  }

  /** s' begins with the bytes of the instruction at the front of s. */
  ghost predicate SameInstruction(decode: Decoder, s: seq<Byte>, s': seq<Byte>) {
    decode(s).Some? && SameHead(s, s', decode(s).value.len)
  }

  /** A decoded instruction depends on nothing after its own bytes. */
  ghost predicate PrefixDecoder(decode: Decoder) {
    forall s, s' {:trigger SameInstruction(decode, s, s')} :: SameInstruction(decode, s, s') ==> decode(s') == decode(s)
  }

  // ---------------------------------------------------------------- the linear sweep

  /** Where an instruction lies in the buffer; the byte slices of the listing share that buffer. */
  datatype Span = Span(off: nat, inst: Inst)

  datatype Listing = Listing(mem: seq<Byte>, spans: seq<Span>)

  /** The buffer with the original byte back when a breakpoint sits at this offset. */
  function Restore(mem: seq<Byte>, off: nat, base: nat, originals: map<Word, Byte>): (m: seq<Byte>)
    requires off < |mem|
    ensures |m| == |mem|
  {
    if base + off in originals then mem[off := originals[base + off]] else mem
  }

  function Then(spans: seq<Span>, rest: Option<Listing>): Option<Listing> {
    if rest.None? then None else Some(rest.value.(spans := spans + rest.value.spans))
  }

  /** Decode, move on by the length, and restore only the bytes at the offsets reached. */
  function Sweep(decode: Decoder, mem: seq<Byte>, off: nat, base: nat, originals: map<Word, Byte>): Option<Listing>
    requires off <= |mem|
    decreases |mem| - off
  {
    if off == |mem| then Some(Listing(mem, []))
    else
      var m := Restore(mem, off, base, originals);
      match decode(m[off..])
      case None => None
      case Some(inst) =>
        if !(1 <= inst.len <= |m| - off) then None
        else Then([Span(off, inst)], Sweep(decode, m, off + inst.len, base, originals))
  }

  lemma ThenThen(a: seq<Span>, b: seq<Span>, rest: Option<Listing>)
    ensures Then(a, Then(b, rest)) == Then(a + b, rest)
    ensures Then([], rest) == rest
  {
    if rest.Some? {
      assert a + (b + rest.value.spans) == a + b + rest.value.spans;
      assert [] + rest.value.spans == rest.value.spans;
    }
  }

  /** The originals of a breakpoint list; a later entry for the same address replaces an earlier one. */
  function Originals(infos: seq<BInfo>): map<Word, Byte> {
    if infos == [] then map[]
    else
      var n := |infos| - 1;
      Originals(infos[..n])[infos[n].pc := infos[n].original]
  }

  /** The n bytes of text at low. */
  function Range(text: Memory, low: Word, n: nat): seq<Byte>
    requires Mapped(text, low, n)
  {
    seq(n, i requires 0 <= i < n => text[low + i])
  }

  // ---------------------------------------------------------------- what the listing shows

  predicate StartsAt(spans: seq<Span>, i: nat) {
    exists k :: 0 <= k < |spans| && spans[k].off == i
  }

  /** The instructions lie end to end from off to end, so addresses are running sums of lengths. */
  predicate Tiles(spans: seq<Span>, off: nat, end: nat) {
    if spans == [] then off == end
    else spans[0].off == off && 1 <= spans[0].inst.len && Tiles(spans[1..], off + spans[0].inst.len, end)
  }

  lemma {:induction false} TilesForward(spans: seq<Span>, off: nat, end: nat)
    requires Tiles(spans, off, end)
    ensures off <= end
  {
    if spans != [] {
      TilesForward(spans[1..], off + spans[0].inst.len, end);
    }
  }

  lemma {:induction false} TilesStart(spans: seq<Span>, off: nat, end: nat, i: nat)
    requires Tiles(spans, off, end) && StartsAt(spans, i)
    ensures off <= i < end
  {
    var k :| 0 <= k < |spans| && spans[k].off == i;
    TilesForward(spans[1..], off + spans[0].inst.len, end);
    if k > 0 {
      assert spans[1..][k - 1].off == i;
      TilesStart(spans[1..], off + spans[0].inst.len, end, i);
    }
  }

  lemma StartsSplit(span: Span, rest: seq<Span>, i: nat)
    ensures StartsAt([span] + rest, i) <==> i == span.off || StartsAt(rest, i)
  {
    if i == span.off {
      assert ([span] + rest)[0].off == i;
    }
    if k :| 0 <= k < |rest| && rest[k].off == i {
      assert ([span] + rest)[k + 1].off == i;
    }
  }

  /** One turn of a successful sweep. */
  lemma SweepTurn(decode: Decoder, mem: seq<Byte>, off: nat, base: nat, originals: map<Word, Byte>)
      returns (m: seq<Byte>, inst: Inst, rest: Listing)
    requires off < |mem| && Sweep(decode, mem, off, base, originals).Some?
    ensures m == Restore(mem, off, base, originals) && decode(m[off..]) == Some(inst) && 1 <= inst.len <= |m| - off
    ensures Sweep(decode, m, off + inst.len, base, originals) == Some(rest)
    ensures Sweep(decode, mem, off, base, originals) == Some(Listing(rest.mem, [Span(off, inst)] + rest.spans))
  {
    m := Restore(mem, off, base, originals);
    inst := decode(m[off..]).value;
    rest := Sweep(decode, m, off + inst.len, base, originals).value;
  }

  lemma {:induction false} SweepTiles(decode: Decoder, mem: seq<Byte>, off: nat, base: nat, originals: map<Word, Byte>)
    requires off <= |mem| && Sweep(decode, mem, off, base, originals).Some?
    ensures var listing := Sweep(decode, mem, off, base, originals).value;
            |listing.mem| == |mem| && Tiles(listing.spans, off, |mem|)
    decreases |mem| - off
  {
    if off < |mem| {
      var m, inst, rest := SweepTurn(decode, mem, off, base, originals);
      SweepTiles(decode, m, off + inst.len, base, originals);
      assert ([Span(off, inst)] + rest.spans)[1..] == rest.spans;
    }
  }

  /** The buffer after the sweep: originals where instructions start, the bytes that were there everywhere else. */
  lemma {:induction false} FinalByte(
      decode: Decoder, mem: seq<Byte>, off: nat, base: nat, originals: map<Word, Byte>, i: nat)
    requires off <= |mem| && i < |mem| && Sweep(decode, mem, off, base, originals).Some?
    ensures var listing := Sweep(decode, mem, off, base, originals).value;
            && |listing.mem| == |mem|
            && listing.mem[i] ==
               if StartsAt(listing.spans, i) && base + i in originals then originals[base + i] else mem[i]
    decreases |mem| - off
  {
    SweepTiles(decode, mem, off, base, originals);
    if off < |mem| {
      var m, inst, rest := SweepTurn(decode, mem, off, base, originals);
      assert m[i] == if i == off && base + i in originals then originals[base + i] else mem[i];
      FinalByte(decode, m, off + inst.len, base, originals, i);
      StartsSplit(Span(off, inst), rest.spans, i);
    }
  }

  // ---------------------------------------------------------------- when a listing exists

  /** The bytes from off on as the decoder gets them: the one at off restored, later traps still there. */
  function Seen(mem: seq<Byte>, off: nat, base: nat, originals: map<Word, Byte>): seq<Byte>
    requires off < |mem|
  {
    [if base + off in originals then originals[base + off] else mem[off]] + mem[off + 1..]
  }

  /** The decoder gives each instruction of the list where it lies. */
  ghost predicate Decodes(
      decode: Decoder, mem: seq<Byte>, base: nat, originals: map<Word, Byte>, spans: seq<Span>)
  {
    forall k :: 0 <= k < |spans| ==>
      spans[k].off < |mem| && decode(Seen(mem, spans[k].off, base, originals)) == Some(spans[k].inst)
  }

  /** shown is mem with the originals where instructions start on a breakpoint. */
  ghost predicate Overlaid(
      mem: seq<Byte>, base: nat, originals: map<Word, Byte>, spans: seq<Span>, shown: seq<Byte>)
  {
    |shown| == |mem|
    && forall i: nat :: i < |mem| ==>
         shown[i] == if StartsAt(spans, i) && base + i in originals then originals[base + i] else mem[i]
  }

  /** A listing of mem: instructions end to end over all of it, each decoded where it lies, and the bytes displayed. */
  ghost predicate Shows(
      decode: Decoder, mem: seq<Byte>, base: nat, originals: map<Word, Byte>, spans: seq<Span>, shown: seq<Byte>)
  {
    && Tiles(spans, 0, |mem|) && Decodes(decode, mem, base, originals, spans)
    && Overlaid(mem, base, originals, spans, shown)
  }

  ghost predicate NoListing(decode: Decoder, mem: seq<Byte>, base: nat, originals: map<Word, Byte>) {
    forall spans, shown :: !Shows(decode, mem, base, originals, spans, shown)
  }

  lemma RestoreSeen(mem: seq<Byte>, off: nat, base: nat, originals: map<Word, Byte>)
    requires off < |mem|
    ensures Restore(mem, off, base, originals)[off..] == Seen(mem, off, base, originals)
    ensures forall o :: off < o < |mem| ==>
              Seen(Restore(mem, off, base, originals), o, base, originals) == Seen(mem, o, base, originals)
  {
    var m := Restore(mem, off, base, originals);
    forall o | off < o < |mem|
      ensures Seen(m, o, base, originals) == Seen(mem, o, base, originals)
    {
      assert m[o + 1..] == mem[o + 1..];
    }
  }

  lemma {:induction false} TilesInside(spans: seq<Span>, off: nat, end: nat, k: nat)
    requires Tiles(spans, off, end) && k < |spans|
    ensures off <= spans[k].off < end
  {
    assert StartsAt(spans, spans[k].off);
    TilesStart(spans, off, end, spans[k].off);
  }

  lemma DecodesTail(
      decode: Decoder, mem: seq<Byte>, base: nat, originals: map<Word, Byte>, spans: seq<Span>, off: nat)
    requires spans != [] && off < |mem| && Tiles(spans, off, |mem|) && Decodes(decode, mem, base, originals, spans)
    ensures Decodes(decode, Restore(mem, off, base, originals), base, originals, spans[1..])
  {
    var tail, m, next := spans[1..], Restore(mem, off, base, originals), off + spans[0].inst.len;
    RestoreSeen(mem, off, base, originals);
    forall k | 0 <= k < |tail|
      ensures tail[k].off < |m| && decode(Seen(m, tail[k].off, base, originals)) == Some(tail[k].inst)
    {
      TilesInside(tail, next, |mem|, k);
      assert tail[k] == spans[k + 1];
    }
  }

  lemma SweepOn(
      decode: Decoder, mem: seq<Byte>, off: nat, base: nat, originals: map<Word, Byte>, inst: Inst, tail: seq<Span>)
    requires off < |mem| && decode(Restore(mem, off, base, originals)[off..]) == Some(inst)
    requires 1 <= inst.len <= |mem| - off
    requires var rest := Sweep(decode, Restore(mem, off, base, originals), off + inst.len, base, originals);
             rest.Some? && rest.value.spans == tail
    ensures Sweep(decode, mem, off, base, originals).Some?
    ensures Sweep(decode, mem, off, base, originals).value.spans == [Span(off, inst)] + tail
  {
  }

  /** Instructions that tile the buffer and decode where they lie are what the sweep finds. */
  lemma {:induction false} SweepSucceeds(
      decode: Decoder, mem: seq<Byte>, off: nat, base: nat, originals: map<Word, Byte>, spans: seq<Span>)
    requires off <= |mem| && Tiles(spans, off, |mem|) && Decodes(decode, mem, base, originals, spans)
    ensures Sweep(decode, mem, off, base, originals).Some?
    ensures Sweep(decode, mem, off, base, originals).value.spans == spans
    decreases |mem| - off
  {
    if spans != [] {
      var inst, m := spans[0].inst, Restore(mem, off, base, originals);
      TilesForward(spans[1..], off + inst.len, |mem|);
      DecodesTail(decode, mem, base, originals, spans, off);
      RestoreSeen(mem, off, base, originals);
      assert decode(Seen(mem, off, base, originals)) == Some(inst);
      SweepSucceeds(decode, m, off + inst.len, base, originals, spans[1..]);
      SweepOn(decode, mem, off, base, originals, inst, spans[1..]);
      assert [Span(off, inst)] + spans[1..] == spans;
    }
  }

  lemma {:induction false} SweepDecodes(
      decode: Decoder, mem: seq<Byte>, off: nat, base: nat, originals: map<Word, Byte>)
    requires off <= |mem| && Sweep(decode, mem, off, base, originals).Some?
    ensures Decodes(decode, mem, base, originals, Sweep(decode, mem, off, base, originals).value.spans)
    decreases |mem| - off
  {
    if off < |mem| {
      var m, inst, rest := SweepTurn(decode, mem, off, base, originals);
      SweepDecodes(decode, m, off + inst.len, base, originals);
      SweepTiles(decode, m, off + inst.len, base, originals);
      RestoreSeen(mem, off, base, originals);
      var spans := [Span(off, inst)] + rest.spans;
      forall k | 0 <= k < |spans|
        ensures spans[k].off < |mem| && decode(Seen(mem, spans[k].off, base, originals)) == Some(spans[k].inst)
      {
        if k > 0 {
          TilesInside(rest.spans, off + inst.len, |mem|, k - 1);
          assert spans[k] == rest.spans[k - 1];
        }
      }
    }
  }

  lemma SweepOverlays(decode: Decoder, mem: seq<Byte>, base: nat, originals: map<Word, Byte>)
    requires Sweep(decode, mem, 0, base, originals).Some?
    ensures var listing := Sweep(decode, mem, 0, base, originals).value;
            Overlaid(mem, base, originals, listing.spans, listing.mem)
  {
    SweepTiles(decode, mem, 0, base, originals);
    forall i: nat | i < |mem|
      ensures var listing := Sweep(decode, mem, 0, base, originals).value;
              listing.mem[i] ==
              if StartsAt(listing.spans, i) && base + i in originals then originals[base + i] else mem[i]
    {
      FinalByte(decode, mem, 0, base, originals, i);
    }
  }

  /** A listing is found exactly when there is one; and there is at most one. */
  lemma SweepExactly(
      decode: Decoder, mem: seq<Byte>, base: nat, originals: map<Word, Byte>, spans: seq<Span>, shown: seq<Byte>)
    ensures Sweep(decode, mem, 0, base, originals) == Some(Listing(shown, spans)) <==>
            Shows(decode, mem, base, originals, spans, shown)
  {
    if Sweep(decode, mem, 0, base, originals) == Some(Listing(shown, spans)) {
      SweepTiles(decode, mem, 0, base, originals);
      SweepDecodes(decode, mem, 0, base, originals);
      SweepOverlays(decode, mem, base, originals);
    }
    if Shows(decode, mem, base, originals, spans, shown) {
      SweepSucceeds(decode, mem, 0, base, originals, spans);
      SweepOverlays(decode, mem, base, originals);
      assert shown == Sweep(decode, mem, 0, base, originals).value.mem;
    }
  }

  // ---------------------------------------------------------------- the loops

  /** The sweep loop: restores bytes of the buffer as it goes and records where each instruction lies in it. */
  method SweepInPlace(decode: Decoder, mem: array<Byte>, base: nat, originals: map<Word, Byte>)
    returns (spans: Option<seq<Span>>)
    modifies mem
    ensures match Sweep(decode, old(mem[..]), 0, base, originals)
            case None => spans.None?
            case Some(listing) => spans.Some? && listing == Listing(mem[..], spans.value)
  {
    ghost var whole := Sweep(decode, mem[..], 0, base, originals);
    var off := 0;
    var done: seq<Span> := [];
    ThenThen([], [], whole);
    while off < mem.Length
      invariant off <= mem.Length
      invariant whole == Then(done, Sweep(decode, mem[..], off, base, originals))
      decreases mem.Length - off
    {
      ghost var before := mem[..];
      if base + off in originals {
        mem[off] := originals[base + off];
      }
      assert mem[..] == Restore(before, off, base, originals);
      var inst := decode(mem[..][off..]);
      if inst.None? || !(1 <= inst.value.len <= mem.Length - off) {
        return None;
      }
      var span := Span(off, inst.value);
      ThenThen(done, [span], Sweep(decode, mem[..], off + inst.value.len, base, originals));
      done := done + [span];
      off := off + inst.value.len;
    }
    spans := Some(done);
  }

  /**
   * spans is None for an empty range, one that cannot be read, or bytes that do not decode. The length is computed in
   * 64-bit arithmetic, so highpc below lowpc asks for a range up to the end of the address space or beyond.
   */
  method DisassembleRange(decode: Decoder, text: Memory, infos: seq<BInfo>, low: Word, high: Word)
    returns (mem: array<Byte>, spans: Option<seq<Span>>)
    ensures var n := Wrap(high - low);
            if n == 0 || !Mapped(text, low, n) then spans.None?
            else var listing := Sweep(decode, Range(text, low, n), 0, low, Originals(infos));
                 if listing.None? then spans.None?
                 else spans.Some? && listing.value == Listing(mem[..], spans.value)
    ensures spans.Some? ==>
              && 0 < Wrap(high - low) && Mapped(text, low, Wrap(high - low))
              && Shows(decode, Range(text, low, Wrap(high - low)), low, Originals(infos), spans.value, mem[..])
    ensures spans.None? && 0 < Wrap(high - low) && Mapped(text, low, Wrap(high - low)) ==>
              NoListing(decode, Range(text, low, Wrap(high - low)), low, Originals(infos))
  {
    var n := Wrap(high - low);
    if n == 0 || !Mapped(text, low, n) {
      mem := new Byte[0];
      return mem, None;
    }
    var bytes := Range(text, low, n);
    mem := new Byte[n](i requires 0 <= i < n => bytes[i]);
    assert mem[..] == bytes;
    var originals: map<Word, Byte> := map[];
    for i := 0 to |infos|
      invariant originals == Originals(infos[..i])
    {
      assert infos[..i + 1][..i] == infos[..i];
      originals := originals[infos[i].pc := infos[i].original];
    }
    assert infos[..|infos|] == infos;
    spans := SweepInPlace(decode, mem, low, originals);
    forall ss, shown
      ensures Sweep(decode, bytes, 0, low, originals) == Some(Listing(shown, ss)) <==>
              Shows(decode, bytes, low, originals, ss, shown)
    {
      SweepExactly(decode, bytes, low, originals, ss, shown);
    }
  }

  // ---------------------------------------------------------------- traps hidden

  /** Pristine bytes with a trap at every site. */
  function Trapped(pristine: seq<Byte>, base: nat, originals: map<Word, Byte>): (r: seq<Byte>)
    ensures |r| == |pristine|
  {
    seq(|pristine|, i requires 0 <= i < |pristine| => if base + i in originals then INT3 else pristine[i])
  }

  /** Offset i carries a breakpoint. */
  predicate Site(base: nat, originals: map<Word, Byte>, i: nat) {
    base + i in originals
  }

  /** The originals are the pristine bytes. */
  ghost predicate TrueOriginals(pristine: seq<Byte>, base: nat, originals: map<Word, Byte>) {
    forall i: nat :: i < |pristine| && Site(base, originals, i) ==> originals[base + i] == pristine[i]
  }

  /** A buffer that shows the decoded instruction's bytes at off takes the same turn. */
  lemma SameTurn(
      decode: Decoder, shown: seq<Byte>, mem: seq<Byte>, off: nat, base: nat, originals: map<Word, Byte>,
      inst: Inst, spans: seq<Span>)
    requires PrefixDecoder(decode) && off < |shown| == |mem|
    requires decode(shown[off..]) == Some(inst) && 1 <= inst.len <= |mem| - off
    requires var m := Restore(mem, off, base, originals);
             && SameHead(shown[off..], m[off..], inst.len)
             && Sweep(decode, m, off + inst.len, base, originals).Some?
             && Sweep(decode, m, off + inst.len, base, originals).value.spans == spans
    ensures var m := Restore(mem, off, base, originals);
            Sweep(decode, mem, off, base, originals) ==
            Some(Listing(Sweep(decode, m, off + inst.len, base, originals).value.mem, [Span(off, inst)] + spans))
  {
    assert SameInstruction(decode, shown[off..], Restore(mem, off, base, originals)[off..]);
  }

  /** The bytes a sweep has passed do not change any more. */
  lemma HeadSettled(
      decode: Decoder, m: seq<Byte>, off: nat, base: nat, originals: map<Word, Byte>, n: nat, pristine: seq<Byte>)
    requires off + n <= |m| == |pristine| && Sweep(decode, m, off + n, base, originals).Some?
    requires var listing := Sweep(decode, m, off + n, base, originals).value;
             |listing.mem| == |m| && forall i :: off <= i < |m| ==> listing.mem[i] == pristine[i]
    ensures SameHead(m[off..], pristine[off..], n)
  {
    SweepTiles(decode, m, off + n, base, originals);
    var spans := Sweep(decode, m, off + n, base, originals).value.spans;
    forall i | 0 <= i < n
      ensures m[off..][i] == pristine[off..][i]
    {
      FinalByte(decode, m, off + n, base, originals, off + i);
      if StartsAt(spans, off + i) {
        TilesStart(spans, off + n, |m|, off + i);
      }
    }
  }

  /** If the buffer ends up pristine from off on, the pristine text sweeps to the same instructions. */
  lemma {:induction false} PristineSweep(
      decode: Decoder, mem: seq<Byte>, off: nat, base: nat, originals: map<Word, Byte>, pristine: seq<Byte>)
    requires PrefixDecoder(decode) && off <= |mem| == |pristine| && Sweep(decode, mem, off, base, originals).Some?
    requires var listing := Sweep(decode, mem, off, base, originals).value;
             |listing.mem| == |mem| && forall i :: off <= i < |mem| ==> listing.mem[i] == pristine[i]
    ensures Sweep(decode, pristine, off, base, map[]) ==
            Some(Listing(pristine, Sweep(decode, mem, off, base, originals).value.spans))
    decreases |mem| - off
  {
    if off < |mem| {
      var m, inst, rest := SweepTurn(decode, mem, off, base, originals);
      SweepTiles(decode, m, off + inst.len, base, originals);
      PristineSweep(decode, m, off + inst.len, base, originals, pristine);
      HeadSettled(decode, m, off, base, originals, inst.len, pristine);
      SameTurn(decode, m, pristine, off, base, map[], inst, rest.spans);
    }
  }

  /**
   * When the sweep of patched text succeeds, the listing's bytes are the pristine bytes if and only if an instruction
   * starts at every breakpoint whose trap changed a byte; and then it is the listing of the unpatched text.
   */
  lemma ListingIsPristine(
      decode: Decoder, pristine: seq<Byte>, base: nat, originals: map<Word, Byte>, listing: Listing)
    requires PrefixDecoder(decode) && TrueOriginals(pristine, base, originals)
    requires Sweep(decode, Trapped(pristine, base, originals), 0, base, originals) == Some(listing)
    ensures Tiles(listing.spans, 0, |pristine|)
    ensures listing.mem == pristine <==>
            forall i: nat :: i < |pristine| && Site(base, originals, i) && pristine[i] != INT3 ==>
              StartsAt(listing.spans, i)
    ensures listing.mem == pristine ==> Sweep(decode, pristine, 0, base, map[]) == Some(listing)
  {
    var mem := Trapped(pristine, base, originals);
    SweepTiles(decode, mem, 0, base, originals);
    forall i: nat | i < |pristine|
      ensures listing.mem[i] == pristine[i] <==>
              !(Site(base, originals, i) && pristine[i] != INT3 && !StartsAt(listing.spans, i))
    {
      FinalByte(decode, mem, 0, base, originals, i);
    }
    if listing.mem == pristine {
      PristineSweep(decode, mem, 0, base, originals, pristine);
    }
  }

  /** mem is pristine before off and patched from there on. */
  ghost predicate HalfRestored(mem: seq<Byte>, pristine: seq<Byte>, off: nat, base: nat, originals: map<Word, Byte>) {
    |mem| == |pristine|
    && forall i: nat :: i < |mem| ==> mem[i] == if i >= off && Site(base, originals, i) then INT3 else pristine[i]
  }

  lemma HalfNext(
      mem: seq<Byte>, pristine: seq<Byte>, off: nat, next: nat, base: nat, originals: map<Word, Byte>)
    requires TrueOriginals(pristine, base, originals) && HalfRestored(mem, pristine, off, base, originals)
    requires off < next <= |pristine| && forall i: nat :: off < i < next ==> !Site(base, originals, i)
    ensures var m := Restore(mem, off, base, originals);
            HalfRestored(m, pristine, next, base, originals) && SameHead(pristine[off..], m[off..], next - off)
  {
    assert Site(base, originals, off) ==> originals[base + off] == pristine[off];
  }

  /** Sites where instructions start are not inside the first one, and the later ones are starts of the rest. */
  lemma LaterSites(
      rest: seq<Span>, off: nat, inst: Inst, end: nat, base: nat, originals: map<Word, Byte>)
    requires Tiles(rest, off + inst.len, end)
    requires forall i: nat :: off <= i < end && Site(base, originals, i) ==> StartsAt([Span(off, inst)] + rest, i)
    ensures forall i: nat :: off < i < end && Site(base, originals, i) ==> i >= off + inst.len && StartsAt(rest, i)
  {
    forall i: nat | off < i < end && Site(base, originals, i)
      ensures i >= off + inst.len && StartsAt(rest, i)
    {
      StartsSplit(Span(off, inst), rest, i);
      TilesStart(rest, off + inst.len, end, i);
    }
  }

  lemma {:induction false} SweepHidesTraps(
      decode: Decoder, mem: seq<Byte>, pristine: seq<Byte>, off: nat, base: nat, originals: map<Word, Byte>)
    requires PrefixDecoder(decode) && TrueOriginals(pristine, base, originals)
    requires off <= |pristine| && HalfRestored(mem, pristine, off, base, originals)
    requires Sweep(decode, pristine, off, base, map[]).Some?
    requires forall i: nat :: off <= i < |pristine| && Site(base, originals, i) ==>
               StartsAt(Sweep(decode, pristine, off, base, map[]).value.spans, i)
    ensures Sweep(decode, mem, off, base, originals) == Sweep(decode, pristine, off, base, map[])
    decreases |pristine| - off
  {
    if off == |pristine| {
      assert mem == pristine;
    } else {
      var p, inst, rest := SweepTurn(decode, pristine, off, base, map[]);
      var m, next := Restore(mem, off, base, originals), off + inst.len;
      SweepTiles(decode, pristine, next, base, map[]);
      LaterSites(rest.spans, off, inst, |pristine|, base, originals);
      HalfNext(mem, pristine, off, next, base, originals);
      SweepHidesTraps(decode, m, pristine, next, base, originals);
      SameTurn(decode, pristine, mem, off, base, originals, inst, rest.spans);
    }
  }

  /**
   * When every breakpoint in the range sits where an instruction of the pristine sweep starts, the listing of the
   * patched text is the listing of the pristine text.
   */
  lemma ListingHidesTraps(
      decode: Decoder, pristine: seq<Byte>, base: nat, originals: map<Word, Byte>)
    requires PrefixDecoder(decode) && TrueOriginals(pristine, base, originals)
    requires Sweep(decode, pristine, 0, base, map[]).Some?
    requires forall i: nat :: i < |pristine| && Site(base, originals, i) ==>
               StartsAt(Sweep(decode, pristine, 0, base, map[]).value.spans, i)
    ensures Sweep(decode, Trapped(pristine, base, originals), 0, base, originals) ==
            Sweep(decode, pristine, 0, base, map[])
  {
    SweepHidesTraps(decode, Trapped(pristine, base, originals), pristine, 0, base, originals);
  }

  lemma {:induction false} OriginalsOfSound(w: World, infos: seq<BInfo>)
    requires forall v :: v in infos ==> Right(w, v)
    ensures Originals(infos).Keys == Pcs(infos)
    ensures forall a :: a in Originals(infos) ==> a in w.text && Originals(infos)[a] == w.text[a]
  {
    if infos != [] {
      var n := |infos| - 1;
      OriginalsOfSound(w, infos[..n]);
      assert infos == infos[..n] + [infos[n]];
      assert Right(w, infos[n]);
    }
  }

  /** On a sound breakpoint list, the bytes the debugger reads are trapped pristine text with true originals. */
  lemma RangeIsTrapped(w: World, infos: seq<BInfo>, low: Word, n: nat)
    requires Recorded(w, infos) && Mapped(w.text, low, n)
    ensures Mapped(Patched(w.text, Pcs(infos)), low, n)
    ensures Range(Patched(w.text, Pcs(infos)), low, n) == Trapped(Range(w.text, low, n), low, Originals(infos))
    ensures TrueOriginals(Range(w.text, low, n), low, Originals(infos))
  {
    OriginalsOfSound(w, infos);
  }

  /** Without breakpoints, instructions that tile the bytes and decode where they lie are the listing. */
  lemma PlainSweep(decode: Decoder, mem: seq<Byte>, base: nat, spans: seq<Span>)
    requires Tiles(spans, 0, |mem|)
    requires forall k :: 0 <= k < |spans| ==>
               spans[k].off < |mem| && decode(mem[spans[k].off..]) == Some(spans[k].inst)
    ensures Sweep(decode, mem, 0, base, map[]) == Some(Listing(mem, spans))
  {
    forall o: nat | o < |mem|
      ensures Seen(mem, o, base, map[]) == mem[o..]
    {
    }
    SweepExactly(decode, mem, base, map[], spans, mem);
  }

  /**
   * At any stop, whatever instructions tile the unpatched bytes of a range and decode where they lie, the listing of
   * the patched process is exactly those over those bytes, when every breakpoint in the range is where one starts.
   */
  lemma ListingAtStop(decode: Decoder, w: World, infos: seq<BInfo>, low: Word, n: nat, spans: seq<Span>)
    requires PrefixDecoder(decode) && Recorded(w, infos) && Mapped(w.text, low, n) && Tiles(spans, 0, n)
    requires forall k :: 0 <= k < |spans| ==>
               spans[k].off < n && decode(Range(w.text, low, n)[spans[k].off..]) == Some(spans[k].inst)
    requires forall v :: v in infos && low <= v.pc < low + n ==> StartsAt(spans, v.pc - low)
    ensures Mapped(Patched(w.text, Pcs(infos)), low, n)
    ensures Shows(decode, Range(Patched(w.text, Pcs(infos)), low, n), low, Originals(infos), spans,
                  Range(w.text, low, n))
  {
    var pristine := Range(w.text, low, n);
    RangeIsTrapped(w, infos, low, n);
    OriginalsOfSound(w, infos);
    PlainSweep(decode, pristine, low, spans);
    ListingHidesTraps(decode, pristine, low, Originals(infos));
    SweepExactly(decode, Trapped(pristine, low, Originals(infos)), low, Originals(infos), spans, pristine);
  }

  // ---------------------------------------------------------------- the decoder of n

  /** `n` decodes one instruction with the decoder of the listing. */
  ghost predicate Matches(isa: Isa, decode: Decoder) {
    forall m: Memory, pc: Word, n: nat :: Mapped(m, pc, n) && decode(Range(m, pc, n)).Some? ==>
      isa.decode(m, pc) == decode(Range(m, pc, n))
  }

  lemma RangeTail(text: Memory, low: Word, n: nat, off: nat)
    requires Mapped(text, low, n) && off < n
    ensures low + off < TWO_64 && Mapped(text, low + off, n - off)
    ensures Range(text, low, n)[off..] == Range(text, low + off, n - off)
  {
  }

  lemma FirstIsDecoded(isa: Isa, decode: Decoder, text: Memory, pc: Word, n: nat, inst: Inst)
    requires Matches(isa, decode) && Mapped(text, pc, n) && decode(Range(text, pc, n)) == Some(inst)
    ensures DecodeAt(isa, text, pc) == if Mapped(text, pc, WINDOW) then Some(inst) else None
  {
  }

  /**
   * Each instruction of the listing of unpatched text is the one `n` decodes at that address, except that `n` fails
   * when less than a window of text follows.
   */
  lemma {:induction false} ListedIsDecoded(
      isa: Isa, decode: Decoder, text: Memory, low: Word, n: nat, off: nat, k: nat)
    requires Matches(isa, decode) && off <= n && Mapped(text, low, n)
    requires var listing := Sweep(decode, Range(text, low, n), off, low, map[]);
             listing.Some? && k < |listing.value.spans|
    ensures var span := Sweep(decode, Range(text, low, n), off, low, map[]).value.spans[k];
            && low + span.off < TWO_64
            && DecodeAt(isa, text, low + span.off) ==
               if Mapped(text, low + span.off, WINDOW) then Some(span.inst) else None
    decreases n - off
  {
    var m, inst, rest := SweepTurn(decode, Range(text, low, n), off, low, map[]);
    if k > 0 {
      ListedIsDecoded(isa, decode, text, low, n, off + inst.len, k - 1);
    } else {
      RangeTail(text, low, n, off);
      FirstIsDecoded(isa, decode, text, low + off, n - off, inst);
    }
  }
}
