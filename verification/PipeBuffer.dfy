/** A pipe's 4096-byte buffer: reads take from the front and shift the rest down in place. */
module PipeBuffer {
  import opened Options

  const PIPE_MAX: nat := 4096
  const U32: nat := 0x1_0000_0000

  type Byte = bv8

  /** `a + b` in 32-bit unsigned arithmetic. */
  function Sum32(a: nat, b: nat): nat {
    (a + b) % U32
  }

  /** A call: a count of bytes, and for a write the bytes at the caller's address. */
  datatype Call = Read(count: nat) | Write(bytes: seq<Byte>, count: nat)

  function Min(a: nat, b: nat): nat {
    if a < b then a else b
  }

  /** What a call does to the contents of an open pipe; None is an error return. */
  function Moved(contents: seq<Byte>, c: Call): Option<seq<Byte>>
    requires |contents| <= PIPE_MAX
  {
    match c
    case Read(count) => if count <= |contents| then Some(contents[..count]) else None
    case Write(bytes, count) =>
      if Sum32(|contents|, count) > PIPE_MAX then None
      else Some(bytes[..Min(|bytes|, Min(count, PIPE_MAX - |contents|))])
  }

  function After(contents: seq<Byte>, c: Call): (r: seq<Byte>)
    requires |contents| <= PIPE_MAX
    ensures |r| <= PIPE_MAX
  {
    match Moved(contents, c)
    case None => contents
    case Some(b) => if c.Read? then contents[|b|..] else contents + b
  }

  function Received(contents: seq<Byte>, c: Call): seq<Byte>
    requires |contents| <= PIPE_MAX
  {
    if c.Read? && Moved(contents, c).Some? then Moved(contents, c).value else []
  }

  function Sent(contents: seq<Byte>, c: Call): seq<Byte>
    requires |contents| <= PIPE_MAX
  {
    if c.Write? && Moved(contents, c).Some? then Moved(contents, c).value else []
  }

  class Pipe {
    const data: array<Byte>
    var readPos: nat
    var writePos: nat
    var used: nat
    var readOpen: bool
    var writeOpen: bool

    ghost predicate Valid()
      reads this
    {
      data.Length == PIPE_MAX && readPos == 0 && writePos == used <= PIPE_MAX
    }

    ghost function Contents(): seq<Byte>
      requires Valid()
      reads this, data
    {
      data[..used]
    }

    constructor ()
      ensures Valid() && Contents() == [] && readOpen && writeOpen && fresh(data)
    {
      data := new Byte[PIPE_MAX];
      readPos, writePos, used, readOpen, writeOpen := 0, 0, 0, true, true;
    }

    /** pipe_read through a descriptor that is a read end or not. */
    method ReadBytes(count: nat, isReadEnd: bool, out: array<Byte>) returns (moved: Option<nat>)
      requires Valid() && count < U32 && out != data
      requires readOpen && isReadEnd && count <= used ==> count <= out.Length
      modifies this, data, out
      ensures Valid() && readOpen == old(readOpen) && writeOpen == old(writeOpen)
      ensures
        if readOpen && isReadEnd && Moved(old(Contents()), Read(count)).Some? then
          && moved == Some(count)
          && out[..count] == Received(old(Contents()), Read(count))
          && Contents() == After(old(Contents()), Read(count))
        else moved == None && Contents() == old(Contents()) && out[..] == old(out[..])
    {
      if !readOpen || !isReadEnd {
        return None;
      }
      var start := readPos;
      if Sum32(start, count) > used {
        return None;
      }
      var i := CopyOut(count, out);
      ShiftDown(i, count);
      used := used - count;
      writePos := writePos - count;
      moved := Some(count);
    }

    /** The first loop of pipe_read. */
    method CopyOut(count: nat, out: array<Byte>) returns (i: nat)
      requires Valid() && count <= used && out != data && out.Length >= count
      modifies out
      ensures i == count && out[..count] == data[..count]
    {
      var j := 0;
      i := readPos;
      while i < readPos + used && i - readPos != count
        invariant i == j <= count && out[..j] == data[..j]
      {
        out[j] := data[i];
        i, j := i + 1, j + 1;
      }
    }

    /** The second loop of pipe_read: what is left moves to the start. */
    method ShiftDown(from: nat, j: nat)
      requires Valid() && from == j <= used
      modifies data
      ensures data[..used - j] == old(data[j..used])
    {
      var i := from;
      while i < readPos + used
        invariant j <= i <= used
        invariant forall k :: 0 <= k < i - j ==> data[k] == old(data[k + j])
        invariant forall k :: i <= k < used ==> data[k] == old(data[k])
      {
        data[i - j] := data[i];
        i := i + 1;
      }
    }

    /** pipe_write through a descriptor that is a write end or not. Only the bytes that fit are read from the
        caller's buffer, whatever the count. */
    method WriteBytes(bytes: array<Byte>, count: nat, isWriteEnd: bool) returns (moved: Option<nat>)
      requires Valid() && count < U32 && bytes != data && Min(count, PIPE_MAX - writePos) <= bytes.Length
      modifies this, data
      ensures Valid() && readOpen == old(readOpen) && writeOpen == old(writeOpen)
      ensures
        var call := Write(old(bytes[..]), count);
        if writeOpen && isWriteEnd && Moved(old(Contents()), call).Some? then
          && moved == Some(Min(count, PIPE_MAX - |old(Contents())|))
          && moved == Some(|Sent(old(Contents()), call)|)
          && Contents() == After(old(Contents()), call)
        else moved == None && Contents() == old(Contents())
    {
      if !writeOpen || !isWriteEnd {
        return None;
      }
      var start := writePos;
      if Sum32(start, count) > PIPE_MAX {
        return None;
      }
      var i, j := start, 0;
      while i < PIPE_MAX && j != count
        invariant unchanged(this) && i == start + j <= PIPE_MAX && j <= count
        invariant data[..i] == old(data[..start]) + bytes[..j]
      {
        data[i] := bytes[j];
        i, j := i + 1, j + 1;
      }
      used := used + j;
      writePos := i;
      moved := Some(j);
    }
  }

  // ---------------------------------------------------------------- first in, first out

  function ContentsAfter(calls: seq<Call>): (r: seq<Byte>)
    ensures |r| <= PIPE_MAX
  {
    if calls == [] then [] else After(ContentsAfter(calls[..|calls| - 1]), calls[|calls| - 1])
  }

  function AllSent(calls: seq<Call>): seq<Byte> {
    if calls == [] then []
    else AllSent(calls[..|calls| - 1]) + Sent(ContentsAfter(calls[..|calls| - 1]), calls[|calls| - 1])
  }

  function AllReceived(calls: seq<Call>): seq<Byte> {
    if calls == [] then []
    else AllReceived(calls[..|calls| - 1]) + Received(ContentsAfter(calls[..|calls| - 1]), calls[|calls| - 1])
  }

  /** Whatever the calls, the bytes received so far followed by the buffer are the bytes sent so far. */
  lemma {:induction false} Fifo(calls: seq<Call>)
    ensures AllReceived(calls) + ContentsAfter(calls) == AllSent(calls)
  {
    hide After, Received, Sent;
    if calls != [] {
      var k := |calls| - 1;
      Fifo(calls[..k]);
      var b, c := ContentsAfter(calls[..k]), calls[k];
      CallConserves(b, c);
      Regroup(AllReceived(calls[..k]), Received(b, c), After(b, c), b, Sent(b, c));
    }
  }

  /** One call loses and invents no byte. */
  lemma CallConserves(b: seq<Byte>, c: Call)
    requires |b| <= PIPE_MAX
    ensures Received(b, c) + After(b, c) == b + Sent(b, c)
  {
  }

  lemma Regroup(r: seq<Byte>, x: seq<Byte>, y: seq<Byte>, b: seq<Byte>, z: seq<Byte>)
    requires x + y == b + z
    ensures (r + x) + y == (r + b) + z
  {
    assert (r + x) + y == r + (x + y);
  }

  /** A read gets its bytes exactly if as many have been sent and not yet received, and gets the next ones of
      all that were sent, in their order. */
  lemma ReadSucceedsExactly(calls: seq<Call>, count: nat)
    ensures var before, after, sent := AllReceived(calls), AllReceived(calls + [Read(count)]), AllSent(calls);
      && |before| <= |sent|
      && (Moved(ContentsAfter(calls), Read(count)).Some? <==> count <= |sent| - |before|)
      && AllSent(calls + [Read(count)]) == sent
      && after == before + if count <= |sent| - |before| then sent[|before|..|before| + count] else []
  {
    hide AllReceived, AllSent, ContentsAfter, Moved;
    var r, b, s := AllReceived(calls), ContentsAfter(calls), AllSent(calls);
    Fifo(calls);
    OneMoreCall(calls, Read(count));
    ReadMoves(b, count);
    assert s == r + b;
    if count <= |b| {
      FrontOf(r, b, count);
    } else {
      assert r + [] == r;
    }
    assert s + [] == s;
  }

  lemma OneMoreCall(calls: seq<Call>, c: Call)
    ensures AllReceived(calls + [c]) == AllReceived(calls) + Received(ContentsAfter(calls), c)
    ensures AllSent(calls + [c]) == AllSent(calls) + Sent(ContentsAfter(calls), c)
  {
    assert (calls + [c])[..|calls|] == calls;
  }

  lemma ReadMoves(b: seq<Byte>, count: nat)
    requires |b| <= PIPE_MAX
    ensures Moved(b, Read(count)).Some? <==> count <= |b|
    ensures Received(b, Read(count)) == if count <= |b| then b[..count] else []
    ensures Sent(b, Read(count)) == []
  {
  }

  lemma FrontOf(r: seq<Byte>, b: seq<Byte>, count: nat)
    requires count <= |b|
    ensures (r + b)[|r|..|r| + count] == b[..count]
  {
  }

  /** A write moves all of its bytes or is refused, exactly if position plus count does not reach 2^32. */
  lemma WriteIsWhole(contents: seq<Byte>, bytes: seq<Byte>)
    requires |contents| <= PIPE_MAX && |bytes| < U32
    ensures (Moved(contents, Write(bytes, |bytes|)) == if |contents| + |bytes| <= PIPE_MAX then Some(bytes) else None)
      <==> |contents| + |bytes| < U32
  {
    assert bytes[..|bytes|] == bytes;
    if U32 <= |contents| + |bytes| {
      assert (|contents| + |bytes|) % U32 == |contents| + |bytes| - U32;
    }
  }
}
