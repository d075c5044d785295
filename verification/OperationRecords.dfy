/** The binary records of the hash-table input: what the generator prints, and what read_op makes of it. */
module OperationRecords {
  import opened Options

  const PUT: nat := 0
  const GET: nat := 1
  const DEL: nat := 2

  type Bytes = seq<nat>

  ghost predicate AreBytes(s: Bytes) {
    forall i :: 0 <= i < |s| ==> s[i] < 256
  }

  datatype Op = Op(id: nat, key: nat, opType: nat, data: Bytes)

  /** Fields fit their C types; only PUT records carry data. */
  ghost predicate Printable(op: Op) {
    && op.id < Power(8) && op.key < Power(8) && op.opType <= DEL
    && |op.data| < Power(4) && AreBytes(op.data) && (op.opType != PUT ==> op.data == [])
  }

  // ---------------------------------------------------------------- little-endian numbers

  function Power(k: nat): nat {
    if k == 0 then 1 else 256 * Power(k - 1)
  }

  function Print(n: nat, k: nat): (s: Bytes)
    ensures |s| == k && AreBytes(s)
  {
    if k == 0 then [] else [n % 256] + Print(n / 256, k - 1)
  }

  function Value(s: Bytes): nat {
    if s == [] then 0 else s[0] + 256 * Value(s[1..])
  }

  lemma {:induction false} ValueOfPrint(n: nat, k: nat)
    requires n < Power(k)
    ensures Value(Print(n, k)) == n
  {
    if k > 0 {
      ValueOfPrint(n / 256, k - 1);
      assert Print(n, k)[1..] == Print(n / 256, k - 1);
    }
  }

  lemma {:induction false} PrintOfValue(s: Bytes)
    requires AreBytes(s)
    ensures Print(Value(s), |s|) == s && Value(s) < Power(|s|)
  {
    if s != [] {
      PrintOfValue(s[1..]);
      assert s == [s[0]] + s[1..];
    }
  }

  lemma {:induction false} ValueOfZeros(s: Bytes)
    requires forall i :: 0 <= i < |s| ==> s[i] == 0
    ensures Value(s) == 0
  {
    if s != [] {
      ValueOfZeros(s[1..]);
    }
  }

  lemma SmallFits(n: nat)
    ensures n <= DEL ==> n < Power(4)
  {
    assert Power(4) == 256 * (256 * (256 * (256 * Power(0))));
  }

  // ---------------------------------------------------------------- records

  /** create_put and create_get_del. */
  function Encode(op: Op): Bytes {
    Print(op.id, 8) + Print(op.key, 8) + Print(op.opType, 4)
    + if op.opType == PUT then Print(|op.data|, 4) + op.data else []
  }

  function EncodeAll(ops: seq<Op>): Bytes {
    if ops == [] then [] else Encode(ops[0]) + EncodeAll(ops[1..])
  }

  /** Byte `i` of a number, counted from the low end. */
  function Digit(n: nat, i: nat): nat {
    if i == 0 then n % 256 else Digit(n / 256, i - 1)
  }

  lemma {:induction false} PrintedDigit(n: nat, k: nat, i: nat)
    requires i < k
    ensures Print(n, k)[i] == Digit(n, i)
  {
    if i > 0 {
      PrintedDigit(n / 256, k - 1, i - 1);
    }
  }

  /** The record byte by byte: id, key and type at the offsets 0, 8 and 16, all with the low byte first, and for
      a PUT the length at 20 and the data from 24 on. */
  lemma RecordLayout(op: Op, i: nat)
    requires i < |Encode(op)|
    ensures |Encode(op)| == if op.opType == PUT then 24 + |op.data| else 20
    ensures Encode(op)[i] ==
      if i < 8 then Digit(op.id, i)
      else if i < 16 then Digit(op.key, i - 8)
      else if i < 20 then Digit(op.opType, i - 16)
      else if i < 24 then Digit(|op.data|, i - 20)
      else op.data[i - 24]
  {
    hide Print, Power, Digit;
    if i < 8 {
      PrintedDigit(op.id, 8, i);
    } else if i < 16 {
      PrintedDigit(op.key, 8, i - 8);
    } else if i < 20 {
      PrintedDigit(op.opType, 4, i - 16);
    } else if i < 24 {
      PrintedDigit(|op.data|, 4, i - 20);
    }
  }

  /** The mapped file; behind its end the mapping reads as zero. */
  function Window(file: Bytes, pos: nat, n: nat): (s: Bytes)
    ensures |s| == n
  {
    seq(n, i requires 0 <= i => if pos + i < |file| then file[pos + i] else 0)
  }

  /** A successful read, the end of the input, or the failed assertion on an unknown type. */
  datatype Outcome = Got(op: Op, next: nat) | End(next: nat) | Unknown

  /** read_op at position `curr`. */
  function ReadAt(file: Bytes, curr: nat): Outcome {
    var id, key := Value(Window(file, curr, 8)), Value(Window(file, curr + 8, 8));
    var opType, len := Value(Window(file, curr + 16, 4)), Value(Window(file, curr + 20, 4));
    if opType == GET || opType == DEL then
      if curr + 20 > |file| then End(curr + 20) else Got(Op(id, key, opType, []), curr + 20)
    else if opType == PUT then
      if curr + 24 + len > |file| then End(curr + 24 + len)
      else Got(Op(id, key, opType, file[curr + 24..curr + 24 + len]), curr + 24 + len)
    else Unknown
  }

  lemma WindowIs(file: Bytes, pos: nat, s: Bytes)
    requires pos + |s| <= |file| && file[pos..pos + |s|] == s
    ensures Window(file, pos, |s|) == s
  {
    forall i | 0 <= i < |s| ensures Window(file, pos, |s|)[i] == s[i] {
      assert file[pos..pos + |s|][i] == file[pos + i];
    }
  }

  lemma SliceOfSlice(file: Bytes, lo: nat, hi: nat, i: nat, j: nat)
    requires lo <= hi <= |file| && i <= j <= hi - lo
    ensures file[lo..hi][i..j] == file[lo + i..lo + j]
  {
    var r := file[lo..hi];
    forall k | 0 <= k < j - i ensures r[i..j][k] == file[lo + i..lo + j][k] {
      assert r[i + k] == file[lo + (i + k)];
    }
  }

  /** A field in the middle of a record that lies in the file. */
  lemma FieldIs(file: Bytes, pos: nat, a: Bytes, b: Bytes, c: Bytes)
    requires pos + |a| + |b| + |c| <= |file| && file[pos..pos + |a| + |b| + |c|] == a + b + c
    ensures Window(file, pos + |a|, |b|) == b
    ensures file[pos + |a| + |b|..pos + |a| + |b| + |c|] == c
  {
    hide Window;
    var r, n := a + b + c, |a| + |b|;
    SliceOfSlice(file, pos, pos + n + |c|, |a|, n);
    SliceOfSlice(file, pos, pos + n + |c|, n, n + |c|);
    assert r[|a|..n] == b && r[n..n + |c|] == c;
    WindowIs(file, pos + |a|, b);
  }

  lemma HeadIs(file: Bytes, curr: nat, op: Op, rest: Bytes)
    requires Printable(op) && curr + 20 + |rest| <= |file|
    requires file[curr..curr + 20 + |rest|] == Print(op.id, 8) + Print(op.key, 8) + Print(op.opType, 4) + rest
    ensures Value(Window(file, curr, 8)) == op.id && Value(Window(file, curr + 8, 8)) == op.key
    ensures Value(Window(file, curr + 16, 4)) == op.opType
    ensures file[curr + 20..curr + 20 + |rest|] == rest
  {
    hide Window, Value, Print, Power;
    var a, b, c := Print(op.id, 8), Print(op.key, 8), Print(op.opType, 4);
    assert a + b + c + rest == [] + a + (b + c + rest);
    FieldIs(file, curr, [], a, b + c + rest);
    assert a + b + c + rest == a + b + (c + rest);
    FieldIs(file, curr, a, b, c + rest);
    assert a + b + c + rest == (a + b) + c + rest;
    FieldIs(file, curr, a + b, c, rest);
    ValueOfPrint(op.id, 8);
    ValueOfPrint(op.key, 8);
    SmallFits(op.opType);
    ValueOfPrint(op.opType, 4);
  }

  /** Parsing undoes printing, wherever the record lies. */
  lemma ReadsPrinted(file: Bytes, curr: nat, op: Op)
    requires Printable(op) && curr + |Encode(op)| <= |file| && file[curr..curr + |Encode(op)|] == Encode(op)
    ensures ReadAt(file, curr) == Got(op, curr + |Encode(op)|)
  {
    hide Window, Value, Print, Power;
    if op.opType == PUT {
      var n := Print(|op.data|, 4);
      HeadIs(file, curr, op, n + op.data);
      assert n + op.data == [] + n + op.data;
      FieldIs(file, curr + 20, [], n, op.data);
      ValueOfPrint(|op.data|, 4);
    } else {
      HeadIs(file, curr, op, []);
    }
  }

  lemma WindowSlice(file: Bytes, pos: nat, n: nat)
    requires pos + n <= |file|
    ensures Window(file, pos, n) == file[pos..pos + n]
  {
    WindowIs(file, pos, file[pos..pos + n]);
  }

  /** Printing undoes parsing: whatever read_op accepts is the record of what it returns. */
  lemma PrintsRead(file: Bytes, curr: nat)
    requires AreBytes(file) && ReadAt(file, curr).Got?
    ensures var r := ReadAt(file, curr);
      Printable(r.op) && r.next <= |file| && file[curr..r.next] == Encode(r.op)
  {
    hide Window, Value, Print, Power;
    var r := ReadAt(file, curr);
    FieldPrints(file, curr, 8);
    FieldPrints(file, curr + 8, 8);
    FieldPrints(file, curr + 16, 4);
    assert file[curr..curr + 20] == file[curr..curr + 8] + file[curr + 8..curr + 16] + file[curr + 16..curr + 20];
    if r.op.opType == PUT {
      FieldPrints(file, curr + 20, 4);
      assert file[curr..r.next] == file[curr..curr + 20] + (file[curr + 20..curr + 24] + r.op.data);
    } else {
      assert file[curr..r.next] == file[curr..curr + 20] + [];
    }
  }

  lemma FieldPrints(file: Bytes, pos: nat, n: nat)
    requires AreBytes(file) && pos + n <= |file|
    ensures Print(Value(Window(file, pos, n)), n) == file[pos..pos + n]
    ensures Value(Window(file, pos, n)) < Power(n)
  {
    WindowSlice(file, pos, n);
    PrintOfValue(file[pos..pos + n]);
  }

  /** Behind the last record the zero padding looks like a PUT that does not fit. */
  lemma EndIsSeen(file: Bytes)
    ensures ReadAt(file, |file|) == End(|file| + 24)
  {
    ValueOfZeros(Window(file, |file| + 16, 4));
    ValueOfZeros(Window(file, |file| + 20, 4));
  }

  // ---------------------------------------------------------------- the mapping

  const PAGE: nat := 4096

  /** What read_op copies before it looks at the type. */
  const COPIED: nat := 24

  /** mmap maps whole pages. */
  function Mapped(size: nat): nat {
    (size + PAGE - 1) / PAGE * PAGE
  }

  ghost predicate CopyStays(file: Bytes, curr: nat) {
    curr + COPIED <= Mapped(|file|)
  }

  /** The copy at the end of the file stays in the mapping exactly when the last page has room for it. */
  lemma EndStaysMapped(file: Bytes)
    ensures CopyStays(file, |file|) <==> 0 < |file| % PAGE <= PAGE - COPIED
  {
    var n, q, r := |file|, |file| / PAGE, |file| % PAGE;
    assert n + PAGE - 1 == q * PAGE + (r + PAGE - 1);
    if r == 0 {
      assert (n + PAGE - 1) / PAGE == q;
    } else {
      assert n + PAGE - 1 == (q + 1) * PAGE + (r - 1);
      assert (n + PAGE - 1) / PAGE == q + 1;
    }
  }

  // ---------------------------------------------------------------- the reader

  class InputManager {
    const data: Bytes
    var curr: nat

    constructor (file: Bytes)
      ensures data == file && curr == 0
    {
      data, curr := file, 0;
    }

    /** read_op. */
    method ReadOp() returns (r: Outcome)
      modifies this
      ensures r == ReadAt(data, old(curr)) && (r.Unknown? || curr == r.next)
    {
      var id, key := Value(Window(data, curr, 8)), Value(Window(data, curr + 8, 8));
      var opType, len := Value(Window(data, curr + 16, 4)), Value(Window(data, curr + 20, 4));
      var from, upto := 0, 0;
      if opType == GET || opType == DEL {
        curr := curr + 20;
      } else if opType == PUT {
        curr := curr + 24;
        from := curr;
        curr := curr + len;
        upto := curr;
      } else {
        return Unknown;
      }
      if curr > |data| {
        return End(curr);
      }
      r := Got(Op(id, key, opType, data[from..upto]), curr);
    }

    /** The loop of the serial program: it sees exactly the operations that were printed, and then the end.
        All its copies stay in the mapping exactly when the last one does. */
    method ReadAll(ghost ops: seq<Op>) returns (seen: seq<Op>, ghost stays: bool)
      requires curr == 0 && data == EncodeAll(ops) && forall i :: 0 <= i < |ops| ==> Printable(ops[i])
      modifies this
      ensures seen == ops && (stays <==> 0 < |data| % PAGE <= PAGE - COPIED)
    {
      hide Printable, ReadAt, Encode, Mapped;
      seen, stays := [], true;
      EndStaysMapped(data);
      var more := true;
      assert data[0..] == data;
      while more
        invariant |seen| <= |ops| && seen == ops[..|seen|]
        invariant if more then curr <= |data| && data[curr..] == EncodeAll(ops[|seen|..]) else |seen| == |ops|
        invariant CopyStays(data, |data|) ==> stays
        invariant stays && !more ==> CopyStays(data, |data|)
        decreases |ops| - |seen| + if more then 1 else 0
      {
        ghost var k := |seen|;
        if k < |ops| {
          NextRecord(data, curr, ops, k);
          ReadsPrinted(data, curr, ops[k]);
        } else {
          AtTheEnd(data, curr, ops[k..]);
          EndIsSeen(data);
        }
        stays := stays && CopyStays(data, curr);
        var r := ReadOp();
        if r.Got? {
          seen := seen + [r.op];
        } else {
          more := false;
        }
      }
    }
  }

  lemma NextRecord(file: Bytes, curr: nat, ops: seq<Op>, k: nat)
    requires k < |ops| && curr <= |file| && file[curr..] == EncodeAll(ops[k..])
    ensures var n := |Encode(ops[k])|;
      curr + n <= |file| && file[curr..curr + n] == Encode(ops[k]) && file[curr + n..] == EncodeAll(ops[k + 1..])
  {
    var n := |Encode(ops[k])|;
    assert ops[k..][0] == ops[k] && ops[k..][1..] == ops[k + 1..];
    assert file[curr..] == Encode(ops[k]) + EncodeAll(ops[k + 1..]);
    assert file[curr..curr + n] == file[curr..][..n];
    assert file[curr + n..] == file[curr..][n..];
  }

  lemma AtTheEnd(file: Bytes, curr: nat, ops: seq<Op>)
    requires curr <= |file| && file[curr..] == EncodeAll(ops) && ops == []
    ensures curr == |file|
  {
  }
}
