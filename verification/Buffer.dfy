/** Go's bytes.Buffer as the parsers use it: a byte string and a read offset moved in place. */
module Buffers {
  import opened Words

  function Take(s: seq<Byte>, n: nat): seq<Byte> {
    if n <= |s| then s[..n] else s
  }

  function Drop(s: seq<Byte>, n: nat): seq<Byte> {
    if n <= |s| then s[n..] else []
  }

  function Shift(span: Option<nat>, count: nat): Option<nat> {
    match span
    case None => None
    case Some(n) => Some(n + count)
  }

  /** Length of the 0-terminated string at the front, terminator included. */
  function CStringSpan(s: seq<Byte>): (n: Option<nat>)
    ensures n.Some? ==> 1 <= n.value <= |s|
  {
    if s == [] then None
    else if s[0] == 0 then Some(1)
    else Shift(CStringSpan(s[1..]), 1)
  }

  class Buffer {
    var data: seq<Byte>
    var off: nat

    ghost predicate Valid()
      reads this
    {
      off <= |data|
    }

    /** The unread part. */
    function Rest(): seq<Byte>
      reads this
      requires Valid()
    {
      data[off..]
    }

    function Len(): (n: nat)
      reads this
      requires Valid()
      ensures n == |Rest()|
    {
      |data| - off
    }

    constructor (contents: seq<Byte>)
      ensures Valid() && Rest() == contents
    {
      data := contents;
      off := 0;
    }

    /** None stands for io.EOF. */
    method ReadByte() returns (r: Option<Byte>)
      requires Valid()
      modifies this
      ensures Valid() && data == old(data)
      ensures old(Rest()) == [] ==> r == None && off == old(off)
      ensures old(Rest()) != [] ==>
                r == Some(old(Rest())[0]) && Rest() == old(Rest())[1..] && off == old(off) + 1
    {
      if off == |data| {
        return None;
      }
      r := Some(data[off]);
      off := off + 1;
    }

    /** Undoes the ReadByte just made. */
    method UnreadByte()
      requires Valid() && off > 0
      modifies this
      ensures Valid() && data == old(data) && off == old(off) - 1
    {
      off := off - 1;
    }

    /** The next n bytes, or all that are left when fewer remain. */
    method Next(n: nat) returns (r: seq<Byte>)
      requires Valid()
      modifies this
      ensures Valid()
      ensures r == Take(old(Rest()), n) && Rest() == Drop(old(Rest()), n)
    {
      var m := if n <= |data| - off then n else |data| - off;
      r := data[off..off + m];
      off := off + m;
    }

    /** binary.Read of an n-byte little-endian integer; a short buffer is drained and gives None. */
    method ReadLittleEndian(n: nat) returns (r: Option<nat>)
      requires Valid() && 1 <= n
      modifies this
      ensures Valid()
      ensures Rest() == Drop(old(Rest()), n)
      ensures r == if |old(Rest())| < n then None else Some(LittleEndian(old(Rest())[..n]))
    {
      var bytes := Next(n);
      r := if |bytes| < n then None else Some(LittleEndian(bytes));
    }

    /** ReadString(0): the bytes up to and including the first 0; None (io.EOF) drains the buffer. */
    method ReadCString() returns (r: Option<seq<Byte>>)
      requires Valid()
      modifies this
      ensures Valid()
      ensures match CStringSpan(old(Rest()))
              case None => r == None && Rest() == []
              case Some(n) => r == Some(old(Rest())[..n]) && Rest() == old(Rest())[n..]
    {
      ghost var s := Rest();
      var start := off;
      while off < |data|
        invariant Valid() && start <= off && data == old(data)
        invariant forall i :: start <= i < off ==> data[i] != 0
        invariant CStringSpan(s) == Shift(CStringSpan(data[off..]), off - start)
        decreases |data| - off
      {
        var c := data[off];
        assert data[off..][1..] == data[off + 1..];
        off := off + 1;
        if c == 0 {
          assert s[..off - start] == data[start..off];
          return Some(data[start..off]);
        }
      }
      return None;
    }
  }

  lemma {:induction false} CStringSpanAppend(text: seq<Byte>, rest: seq<Byte>)
    requires 0 !in text
    ensures CStringSpan(text + [0] + rest) == Some(|text| + 1)
  {
    var s := text + [0] + rest;
    if text == [] {
      assert s[0] == 0;
    } else {
      assert s[0] == text[0];
      assert s[1..] == text[1..] + [0] + rest;
      CStringSpanAppend(text[1..], rest);
    }
  }
}
