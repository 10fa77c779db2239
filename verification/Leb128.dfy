/** LEB128 variable-length integers (frame.go; section 7.6 of DWARF version 3). */
module Leb128 {
  import opened Words
  import opened Buffers

  /** Number of bytes of the LEB128 number at the front: through the first byte whose high bit is clear. */
  function Span(s: seq<Byte>): (n: Option<nat>)
    ensures n.Some? ==> 1 <= n.value <= |s|
  {
    if s == [] then None
    else if s[0] < 128 then Some(1)
    else Shift(Span(s[1..]), 1)
  }

  /** The unbounded value of the 7-bit groups, least significant first. */
  function Groups(s: seq<Byte>): nat {
    if s == [] then 0 else s[0] % 128 + 128 * Groups(s[1..])
  }

  /** The sign bit of the last byte of a signed LEB128 number. */
  predicate Negative(b: Byte) {
    b / 64 % 2 == 1
  }

  /** The unbounded two's-complement value of the 7-bit groups: bit 6 of the last group is the sign. */
  function SignedGroups(s: seq<Byte>): int
    requires s != []
  {
    Groups(s) - if Negative(s[|s| - 1]) then Pow2(7 * |s|) else 0
  }

  /** What a decode of the front of s gives: value, reported length, error flag, and the unread bytes. */
  datatype Decoded<+V> = Decoded(value: V, len: nat, ok: bool, rest: seq<Byte>)

  function Unsigned(s: seq<Byte>): Decoded<Word> {
    match Span(s)
    case None => Decoded(0, 0, false, [])
    case Some(n) => Decoded(Wrap(Groups(s[..n])), Wrap32(n), true, s[n..])
  }

  function SignedLeb(s: seq<Byte>): Decoded<Int64> {
    match Span(s)
    case None => Decoded(0, 0, false, [])
    case Some(n) => Decoded(WrapSigned(SignedGroups(s[..n])), Wrap32(n), true, s[n..])
  }

  lemma {:induction false} GroupsBound(s: seq<Byte>)
    ensures Groups(s) < Pow2(7 * |s|)
  {
    if s != [] {
      GroupsBound(s[1..]);
      Pow2Of7(7 * |s[1..]|);
    }
  }

  lemma {:induction false} NextGroup(first: nat, groups: nat, g: nat, p: nat)
    ensures first + 128 * (groups + g * p) == first + 128 * groups + g * (128 * p)
  {
    assert 128 * (g * p) == g * (128 * p);
  }

  lemma {:induction false} GroupsAppend(s: seq<Byte>, b: Byte)
    ensures Groups(s + [b]) == Groups(s) + b % 128 * Pow2(7 * |s|)
  {
    if s == [] {
      assert s + [b] == [b];
      assert [b][1..] == [];
    } else {
      GroupsAppend(s[1..], b);
      assert (s + [b])[1..] == s[1..] + [b];
      Pow2Of7(7 * |s[1..]|);
      NextGroup(s[0] % 128, Groups(s[1..]), b % 128, Pow2(7 * |s[1..]|));
    }
  }

  lemma {:induction false} OrNextGroup(total: nat, g: Word, shift: nat)
    requires total < Pow2(shift)
    ensures Or(Wrap(total), Shl(g, shift)) == Wrap(total + g * Pow2(shift))
  {
    if shift < 64 {
      Pow2Below64(shift);
      WrapUnique(total, 0, total);
    }
    OrShifted(Wrap(total), g, shift);
    WrapSum(total, g * Pow2(shift));
  }

  /** One step of the accumulation: or-ing the next group, shifted, keeps the running sum modulo 2^64. */
  lemma {:induction false} Accumulate(s: seq<Byte>, b: Byte)
    ensures Or(Wrap(Groups(s)), Shl(b % 128, 7 * |s|)) == Wrap(Groups(s + [b]))
  {
    GroupsBound(s);
    OrNextGroup(Groups(s), b % 128, 7 * |s|);
    GroupsAppend(s, b);
  }

  lemma {:induction false} SpanPrefix(s: seq<Byte>, i: nat)
    requires i < |s| && Span(s) == Shift(Span(s[i..]), i)
    ensures s[i] < 128 ==> Span(s) == Some(i + 1)
    ensures s[i] >= 128 ==> Span(s) == Shift(Span(s[i + 1..]), i + 1)
  {
    assert s[i..][1..] == s[i + 1..];
  }

  method DecodeULEB128(buf: Buffer) returns (res: Word, len: nat, ok: bool)
    requires buf.Valid()
    modifies buf
    ensures buf.Valid()
    ensures Decoded(res, len, ok, buf.Rest()) == Unsigned(old(buf.Rest()))
  {
    ghost var s := buf.Rest();
    ghost var i := 0;
    res := 0;
    len := 0;
    var shift := 0;
    while true
      invariant buf.Valid() && i <= |s| && buf.Rest() == s[i..]
      invariant Span(s) == Shift(Span(s[i..]), i)
      invariant shift == 7 * i && len == Wrap32(i)
      invariant res == Wrap(Groups(s[..i]))
      decreases |s| - i
    {
      var b := buf.ReadByte();
      if b == None {
        return 0, 0, false;
      }
      len := Wrap32(len + 1);
      Wrap32Next(i);
      Accumulate(s[..i], b.value);
      SpanPrefix(s, i);
      assert s[..i] + [b.value] == s[..i + 1];
      res := Or(res, Shl(b.value % 128, shift));
      i := i + 1;
      if b.value < 128 {
        break;
      }
      shift := shift + 7;
    }
    ok := true;
  }

  /** For shifts below 64, -(1 << shift) is the word with every bit from the shift upwards set. */
  function NegativeMask(shift: nat): Word {
    Wrap(0 - Shl(1, shift))
  }

  lemma {:induction false} NoExtension(acc: Word, shift: nat)
    requires shift >= 64
    ensures Or(acc, NegativeMask(shift)) == acc
  {
    ShlLarge(1, shift);
    OrZero(acc);
  }

  lemma {:induction false} NegativeWrap(res: Word, total: nat, mask: nat, p: nat)
    requires total < p && 2 * p <= TWO_64 && mask + p == TWO_64 && res == Wrap(total)
    ensures res + mask == Wrap(total - p)
    ensures Wrap(0 - Wrap(p)) == mask
  {
    WrapUnique(total, 0, total);
    WrapUnique(total - p, -1, total + mask);
    WrapUnique(p, 0, p);
    WrapUnique(0 - p, -1, mask);
  }

  lemma {:induction false} SignExtendBelow(res: Word, total: nat, shift: nat, p: nat, q: nat)
    requires shift < 64 && p == Pow2(shift) && q == Pow2(64 - shift) && q * p == TWO_64
    requires total < p && res == Wrap(total)
    ensures Or(res, NegativeMask(shift)) == Wrap(total - p)
  {
    assert q >= 2 by { assert q == 2 * Pow2(63 - shift); }
    MulMonotone(2, q, p);
    Distribute(q - 1, 1, p);
    OrDisjoint(res, q - 1, shift);
    NegativeWrap(res, total, (q - 1) * p, p);
  }

  lemma {:induction false} SignExtend(res: Word, total: nat, shift: nat)
    requires total < Pow2(shift) && res == Wrap(total)
    ensures Or(res, NegativeMask(shift)) == Wrap(total - Pow2(shift))
  {
    if shift < 64 {
      SplitOf64(shift);
      SignExtendBelow(res, total, shift, Pow2(shift), Pow2(64 - shift));
    } else {
      NoExtension(res, shift);
      var k := PastBit63(-1, shift);
      WrapPlusMultiple(total, -1 * Pow2(shift), k);
    }
  }

  /** The guard only fails for numbers of at least 2^32 bytes. */
  lemma {:induction false} LongWhenGuardFails(n: nat, len: nat)
    requires n > 0 && len == Wrap32(n) && 7 * n >= 8 * len
    ensures n >= TWO_32
  {
  }

  lemma {:induction false} FinishFrom(total: nat, acc: Word, n: nat, len: nat, negative: bool)
    requires n > 0 && total < Pow2(7 * n) && acc == Wrap(total) && len == Wrap32(n)
    ensures Wrap(if negative then total - Pow2(7 * n) else total) ==
            if 7 * n < 8 * len && negative then Or(acc, NegativeMask(7 * n)) else acc
  {
    SignExtend(acc, total, 7 * n);
    if 7 * n >= 8 * len {
      LongWhenGuardFails(n, len);
      NoExtension(acc, 7 * n);
    }
  }

  /**
   * The guard on the sign extension compares 7n bits with 8 times the 32-bit byte count. It only fails once
   * that count has wrapped, and the missing extension then lies past bit 63.
   */
  lemma {:induction false} FinishSigned(s: seq<Byte>, acc: Word, len: nat)
    requires s != [] && acc == Wrap(Groups(s)) && len == Wrap32(|s|)
    ensures Wrap(SignedGroups(s)) ==
            if 7 * |s| < 8 * len && Negative(s[|s| - 1]) then Or(acc, NegativeMask(7 * |s|)) else acc
  {
    GroupsBound(s);
    FinishFrom(Groups(s), acc, |s|, len, Negative(s[|s| - 1]));
  }

  method DecodeSLEB128(buf: Buffer) returns (res: Int64, len: nat, ok: bool)
    requires buf.Valid()
    modifies buf
    ensures buf.Valid()
    ensures Decoded(res, len, ok, buf.Rest()) == SignedLeb(old(buf.Rest()))
  {
    ghost var s := buf.Rest();
    ghost var i := 0;
    var acc: Word := 0;
    len := 0;
    var shift := 0;
    var b: Byte := 0;
    while true
      invariant buf.Valid() && i <= |s| && buf.Rest() == s[i..]
      invariant Span(s) == Shift(Span(s[i..]), i)
      invariant shift == 7 * i && len == Wrap32(i)
      invariant acc == Wrap(Groups(s[..i]))
      decreases |s| - i
    {
      var r := buf.ReadByte();
      if r == None {
        return 0, 0, false;
      }
      b := r.value;
      len := Wrap32(len + 1);
      Wrap32Next(i);
      Accumulate(s[..i], b);
      SpanPrefix(s, i);
      assert s[..i] + [b] == s[..i + 1];
      acc := Or(acc, Shl(b % 128, shift));
      i := i + 1;
      shift := shift + 7;
      if b < 128 {
        break;
      }
    }
    FinishSigned(s[..i], acc, len);
    if shift < 8 * len && Negative(b) {
      acc := Or(acc, NegativeMask(shift));
    }
    res := Signed(acc);
    ok := true;
  }

  /** Canonical (shortest) encodings. */
  function EncodeUnsigned(v: nat): (s: seq<Byte>) {
    if v < 128 then [v] else [128 + v % 128] + EncodeUnsigned(v / 128)
  }

  function EncodeSigned(v: int): (s: seq<Byte>)
    ensures s != []
    decreases if v < 0 then -v else v
  {
    if -64 <= v < 64 then [v % 128] else [128 + v % 128] + EncodeSigned(v / 128)
  }

  lemma {:induction false} EncodeUnsignedGroups(v: nat, rest: seq<Byte>)
    ensures var e := EncodeUnsigned(v);
            Span(e + rest) == Some(|e|) && Groups(e) == v
  {
    var e := EncodeUnsigned(v);
    if v < 128 {
      assert e[1..] == [];
    } else {
      EncodeUnsignedGroups(v / 128, rest);
      assert (e + rest)[1..] == EncodeUnsigned(v / 128) + rest;
      assert e[1..] == EncodeUnsigned(v / 128);
    }
  }

  lemma {:induction false} SignedGroupsSingle(v: int)
    requires -64 <= v < 64
    ensures SignedGroups([v % 128]) == v
  {
    var e: seq<Byte> := [v % 128];
    assert e[1..] == [];
    assert Groups(e) == e[0] % 128;
    Pow2Of7(0);
  }

  lemma {:induction false} SignedGroupsFront(b: Byte, tail: seq<Byte>)
    requires tail != []
    ensures SignedGroups([b] + tail) == b % 128 + 128 * SignedGroups(tail)
  {
    var e := [b] + tail;
    assert e[1..] == tail && e[|e| - 1] == tail[|tail| - 1];
    Pow2Of7(7 * |tail|);
  }

  lemma {:induction false} EncodeSignedGroups(v: int, rest: seq<Byte>)
    ensures var e := EncodeSigned(v);
            Span(e + rest) == Some(|e|) && SignedGroups(e) == v
    decreases if v < 0 then -v else v
  {
    var e := EncodeSigned(v);
    if -64 <= v < 64 {
      SignedGroupsSingle(v);
    } else {
      var tail := EncodeSigned(v / 128);
      EncodeSignedGroups(v / 128, rest);
      assert (e + rest)[1..] == tail + rest;
      SignedGroupsFront(128 + v % 128, tail);
    }
  }

  /** Decoding inverts the canonical unsigned encoding over all of uint64 and leaves the suffix unread. */
  lemma {:induction false} UnsignedRoundTrip(v: Word, rest: seq<Byte>)
    ensures var d := Unsigned(EncodeUnsigned(v) + rest);
            d.ok && d.value == v && d.rest == rest && d.len == Wrap32(|EncodeUnsigned(v)|)
  {
    var e := EncodeUnsigned(v);
    EncodeUnsignedGroups(v, rest);
    assert (e + rest)[..|e|] == e;
    assert (e + rest)[|e|..] == rest;
  }

  /** Decoding inverts the canonical signed encoding over all of int64 and leaves the suffix unread. */
  lemma {:induction false} SignedRoundTrip(v: Int64, rest: seq<Byte>)
    ensures var d := SignedLeb(EncodeSigned(v) + rest);
            d.ok && d.value == v && d.rest == rest && d.len == Wrap32(|EncodeSigned(v)|)
  {
    var e := EncodeSigned(v);
    EncodeSignedGroups(v, rest);
    assert (e + rest)[..|e|] == e;
    assert (e + rest)[|e|..] == rest;
    WrapSignedSame(v);
  }

  /** The encodings that section 7.6 of DWARF version 3 gives as examples. */
  lemma {:induction false} StandardExamples()
    ensures EncodeUnsigned(2) == [2] && EncodeUnsigned(127) == [127]
    ensures EncodeUnsigned(128) == [0x80, 1] && EncodeUnsigned(129) == [0x81, 1] && EncodeUnsigned(130) == [0x82, 1]
    ensures EncodeUnsigned(12857) == [57 + 0x80, 100]
    ensures EncodeSigned(2) == [2] && EncodeSigned(-2) == [0x7e]
    ensures EncodeSigned(127) == [0xff, 0] && EncodeSigned(-127) == [0x81, 0x7f]
    ensures EncodeSigned(128) == [0x80, 1] && EncodeSigned(-128) == [0x80, 0x7f]
    ensures EncodeSigned(129) == [0x81, 1] && EncodeSigned(-129) == [0xff, 0x7e]
  {
  }

  /** A number is cut short exactly when every byte left has its high bit set; it reads as 0 and uses them all up. */
  lemma {:induction false} CutNumber(s: seq<Byte>)
    ensures Unsigned(s).ok <==> exists i :: 0 <= i < |s| && s[i] < 128
    ensures SignedLeb(s).ok == Unsigned(s).ok
    ensures !Unsigned(s).ok ==> Unsigned(s) == Decoded(0, 0, false, []) && SignedLeb(s) == Decoded(0, 0, false, [])
  {
    if s != [] && s[0] >= 128 {
      CutNumber(s[1..]);
      assert s == [s[0]] + s[1..];
    }
  }
}
