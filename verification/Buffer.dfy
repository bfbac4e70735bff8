/** The growable byte queue that sits under every decoder: an array, a read
    cursor and a write cursor. */
module Buffers {
  import opened Bytes

  const DEFAULT_BUF_SIZE: nat := 64 * 1024

  /** What a `Buffer` holds, forgetting where it holds it. */
  datatype Queue = Queue(contents: bytes, capacity: nat)

  class Buffer {
    var buf: array<byte>
    var readPos: nat
    var writePos: nat

    ghost predicate Valid()
      reads this
    {
      readPos <= writePos <= buf.Length
    }

    function Unread(): bytes
      requires Valid()
      reads this, buf
    {
      buf[readPos..writePos]
    }

    ghost function Model(): Queue
      requires Valid()
      reads this, buf
    {
      Queue(Unread(), buf.Length)
    }

    constructor (initCapacity: nat)
      ensures Valid() && fresh(buf)
      ensures buf.Length == initCapacity && readPos == 0 && writePos == 0
    {
      buf := new byte[initCapacity];
      readPos, writePos := 0, 0;
    }

    function Capacity(): nat
      reads this
    {
      buf.Length
    }

    function ReadCapacity(): nat
      requires Valid()
      reads this
    {
      writePos - readPos
    }

    function WriteCapacity(): nat
      requires Valid()
      reads this
    {
      buf.Length - writePos
    }

    /** Declares that `length` bytes were written at the write cursor. */
    method Fill(length: nat)
      requires Valid() && length <= WriteCapacity()
      modifies this`writePos
      ensures Valid() && writePos == old(writePos) + length
      ensures Unread() == old(Unread()) + old(buf[writePos..writePos + length])
    {
      writePos := writePos + length;
    }

    method Consume(length: nat)
      requires Valid() && length <= ReadCapacity()
      modifies this`readPos
      ensures Valid() && readPos == old(readPos) + length
      ensures Unread() == old(Unread())[length..]
    {
      readPos := readPos + length;
    }

    method Clear()
      modifies this`readPos, this`writePos
      ensures Valid() && readPos == 0 && Unread() == []
    {
      readPos, writePos := 0, 0;
    }

    /** Moves the unread bytes to offset 0. The source and the destination may
        overlap, so the copy has to run forwards. */
    method Shift()
      requires Valid()
      modifies this`readPos, this`writePos, buf
      ensures Valid() && readPos == 0 && Unread() == old(Unread())
    {
      var unread := ReadCapacity();
      var i := 0;
      while i < unread
        invariant 0 <= i <= unread
        invariant readPos == old(readPos) && writePos == old(writePos)
        invariant forall k :: 0 <= k < i ==> buf[k] == old(buf[readPos + k])
        invariant forall k :: i <= k < buf.Length ==> buf[k] == old(buf[k])
      {
        buf[i] := buf[readPos + i];
        i := i + 1;
      }
      readPos, writePos := 0, unread;
    }

    method ShiftForSpace(needed: nat)
      requires Valid()
      modifies this`readPos, this`writePos, buf
      ensures Valid() && Unread() == old(Unread())
      ensures WriteCapacity() >= Min(needed, buf.Length - ReadCapacity())
      ensures readPos == 0 || readPos == old(readPos)
    {
      if WriteCapacity() < needed && readPos != 0 {
        Shift();
      }
    }

    /** Grows the buffer, never shrinks it. The test is against the total
        capacity, not against the space left to write. */
    method Reserve(capacity: nat)
      requires Valid()
      modifies this
      ensures Valid() && Unread() == old(Unread())
      ensures buf.Length == Max(capacity, old(buf.Length))
      ensures if capacity <= old(buf.Length)
              then buf == old(buf) && readPos == old(readPos) && writePos == old(writePos)
              else fresh(buf) && readPos == 0
    {
      if capacity <= buf.Length {
        return;
      }
      var newBuf := new byte[capacity];
      var unread := ReadCapacity();
      CopyInto(newBuf, 0, buf[readPos..writePos]);
      buf := newBuf;
      readPos, writePos := 0, unread;
    }

    method Write(data: bytes) returns (written: nat)
      requires Valid()
      modifies this`readPos, this`writePos, buf
      ensures Valid()
      ensures written == Min(|data|, buf.Length - |old(Unread())|)
      ensures Unread() == old(Unread()) + data[..written]
    {
      ShiftForSpace(|data|);
      written := Min(WriteCapacity(), |data|);
      CopyInto(buf, writePos, data[..written]);
      Fill(written);
    }

    /** Room for all of the data, in a bigger array if it has to be. */
    method MakeRoom(length: nat)
      requires Valid()
      modifies this, buf
      ensures Valid() && Unread() == old(Unread()) && WriteCapacity() >= length
      ensures buf.Length == Max(old(buf.Length), |old(Unread())| + length)
      ensures buf == old(buf) || fresh(buf)
    {
      if length > Capacity() - ReadCapacity() {
        Reserve(ReadCapacity() + length);
      } else {
        ShiftForSpace(length);
      }
    }

    method WriteAll(data: bytes)
      requires Valid()
      modifies this, buf
      ensures Valid()
      ensures Unread() == old(Unread()) + data
      ensures buf.Length == Max(old(buf.Length), |old(Unread())| + |data|)
      ensures buf == old(buf) || fresh(buf)
    {
      ghost var unread := Unread();
      MakeRoom(|data|);
      CopyInto(buf, writePos, data);
      assert buf[..writePos][readPos..] == unread;
      writePos := writePos + |data|;
      assert Unread() == unread + data;
    }

    method ReadSome(maxLength: nat) returns (read: bytes)
      requires Valid()
      modifies this`readPos
      ensures Valid()
      ensures |read| == Min(|old(Unread())|, maxLength)
      ensures read + Unread() == old(Unread())
    {
      var size := Min(ReadCapacity(), maxLength);
      read := buf[readPos..readPos + size];
      Consume(size);
    }

    method ReadExact(length: nat) returns (read: Option<bytes>)
      requires Valid()
      modifies this`readPos
      ensures Valid()
      ensures read.Some? <==> length <= |old(Unread())|
      ensures read.Some? ==> |read.value| == length && read.value + Unread() == old(Unread())
      ensures read.None? ==> Unread() == old(Unread())
    {
      if length > ReadCapacity() {
        return None;
      }
      var r := ReadSome(length);
      return Some(r);
    }
  }

  /** `std::copy` of a value into an array. */
  method CopyInto(dst: array<byte>, offset: nat, data: bytes)
    requires offset + |data| <= dst.Length
    modifies dst
    ensures dst[offset..offset + |data|] == data
    ensures dst[..offset] == old(dst[..offset])
    ensures dst[offset + |data|..] == old(dst[offset + |data|..])
  {
    var i := 0;
    while i < |data|
      invariant 0 <= i <= |data|
      invariant forall k :: 0 <= k < i ==> dst[offset + k] == data[k]
      invariant forall k :: 0 <= k < dst.Length && !(offset <= k < offset + i) ==> dst[k] == old(dst[k])
    {
      dst[offset + i] := data[i];
      i := i + 1;
    }
  }

  // ----- whole runs -----

  datatype Op =
    | OpWrite(data: bytes)
    | OpWriteAll(data: bytes)
    | OpReadSome(maxLength: nat)
    | OpReadExact(length: nat)
    | OpReserve(capacity: nat)
    | OpShift
    | OpShiftForSpace(needed: nat)

  /** A run's outcome: the bytes the buffer took, the bytes it gave back, and
      what is left. */
  datatype Transcript = Transcript(accepted: bytes, returned: bytes, queue: Queue)

  function Step(q: Queue, op: Op): Transcript
    requires |q.contents| <= q.capacity
  {
    match op
    case OpWrite(data) =>
      var taken := data[..Min(|data|, q.capacity - |q.contents|)];
      Transcript(taken, [], q.(contents := q.contents + taken))
    case OpWriteAll(data) =>
      Transcript(data, [], Queue(q.contents + data, Max(q.capacity, |q.contents| + |data|)))
    case OpReadSome(n) =>
      var k := Min(n, |q.contents|);
      Transcript([], q.contents[..k], q.(contents := q.contents[k..]))
    case OpReadExact(n) =>
      if n <= |q.contents| then Transcript([], q.contents[..n], q.(contents := q.contents[n..]))
      else Transcript([], [], q)
    case OpReserve(n) => Transcript([], [], q.(capacity := Max(n, q.capacity)))
    case OpShift => Transcript([], [], q)
    case OpShiftForSpace(_) => Transcript([], [], q)
  }

  function Run(q: Queue, ops: seq<Op>): (t: Transcript)
    requires |q.contents| <= q.capacity
    ensures |t.queue.contents| <= t.queue.capacity
    decreases |ops|
  {
    if ops == [] then Transcript([], [], q)
    else
      var first := Step(q, ops[0]);
      var rest := Run(first.queue, ops[1..]);
      Then(first, rest)
  }

  /** One run followed by another. */
  function Then(first: Transcript, rest: Transcript): Transcript {
    Transcript(first.accepted + rest.accepted, first.returned + rest.returned, rest.queue)
  }

  lemma ThenAssociative(a: Transcript, b: Transcript, c: Transcript)
    ensures Then(Then(a, b), c) == Then(a, Then(b, c))
  {
    assert (a.accepted + b.accepted) + c.accepted == a.accepted + (b.accepted + c.accepted);
    assert (a.returned + b.returned) + c.returned == a.returned + (b.returned + c.returned);
  }

  lemma StepIsFifo(q: Queue, op: Op)
    requires |q.contents| <= q.capacity
    ensures var s := Step(q, op);
            s.returned + s.queue.contents == q.contents + s.accepted && s.queue.capacity >= q.capacity
  {
  }

  lemma Splice(r0: bytes, r1: bytes, end: bytes, mid: bytes, a1: bytes, start: bytes, a0: bytes)
    requires r0 + mid == start + a0 && r1 + end == mid + a1
    ensures (r0 + r1) + end == start + (a0 + a1)
  {
    assert (r0 + r1) + end == r0 + (r1 + end);
    assert r0 + (mid + a1) == (r0 + mid) + a1;
    assert (start + a0) + a1 == start + (a0 + a1);
  }

  /** First in, first out, over any run: what came out followed by what is still
      inside is what was inside followed by what went in. And a run that never
      uses the bounded `Write` refuses nothing it was offered. */
  lemma {:induction false} RunIsFifo(q: Queue, ops: seq<Op>)
    requires |q.contents| <= q.capacity
    ensures var t := Run(q, ops); t.returned + t.queue.contents == q.contents + t.accepted
    ensures Run(q, ops).queue.capacity >= q.capacity
    ensures (forall op <- ops :: !op.OpWrite?) ==> Run(q, ops).accepted == Offered(ops)
    decreases |ops|
  {
    if ops == [] {
    } else {
      var first := Step(q, ops[0]);
      var rest := Run(first.queue, ops[1..]);
      RunIsFifo(first.queue, ops[1..]);
      StepIsFifo(q, ops[0]);
      Splice(first.returned, rest.returned, rest.queue.contents, first.queue.contents, rest.accepted, q.contents,
          first.accepted);
    }
  }

  function Offered(ops: seq<Op>): bytes {
    if ops == [] then []
    else (if ops[0].OpWrite? || ops[0].OpWriteAll? then ops[0].data else []) + Offered(ops[1..])
  }

  lemma {:induction false} RunSnoc(q: Queue, ops: seq<Op>, op: Op)
    requires |q.contents| <= q.capacity
    ensures Run(q, ops + [op]) == Then(Run(q, ops), Step(Run(q, ops).queue, op))
    decreases |ops|
  {
    hide Then, Step;
    if ops == [] {
      assert [op][1..] == [];
      ThenNothing(q, Step(q, op));
    } else {
      var first := Step(q, ops[0]);
      StepKeepsBound(q, ops[0]);
      var rest := Run(first.queue, ops[1..]);
      ThenQueue(first, rest);
      RunSnoc(first.queue, ops[1..], op);
      assert (ops + [op])[1..] == ops[1..] + [op];
      ThenAssociative(first, rest, Step(rest.queue, op));
    }
  }

  lemma StepKeepsBound(q: Queue, op: Op)
    requires |q.contents| <= q.capacity
    ensures |Step(q, op).queue.contents| <= Step(q, op).queue.capacity
  {
  }

  lemma ThenQueue(a: Transcript, b: Transcript)
    ensures Then(a, b).queue == b.queue
  {
  }

  lemma ThenNothing(q: Queue, t: Transcript)
    ensures Then(t, Transcript([], [], t.queue)) == t && Then(Transcript([], [], q), t) == t
  {
    assert t.accepted + [] == t.accepted && t.returned + [] == t.returned;
    assert [] + t.accepted == t.accepted && [] + t.returned == t.returned;
  }

  /** One operation on the array does to the model what `Step` says. */
  method Apply(b: Buffer, op: Op) returns (accepted: bytes, returned: bytes)
    requires b.Valid()
    modifies b, b.buf
    ensures b.Valid() && (b.buf == old(b.buf) || fresh(b.buf))
    ensures Transcript(accepted, returned, b.Model()) == Step(old(b.Model()), op)
  {
    accepted, returned := [], [];
    match op
    case OpWrite(data) =>
      var n := b.Write(data);
      accepted := data[..n];
    case OpWriteAll(data) =>
      b.WriteAll(data);
      accepted := data;
    case OpReadSome(n) =>
      returned := b.ReadSome(n);
      assert b.Unread() == old(b.Unread())[|returned|..];
    case OpReadExact(n) =>
      var r := b.ReadExact(n);
      if r.Some? {
        returned := r.value;
        assert b.Unread() == old(b.Unread())[n..];
      }
    case OpReserve(n) => b.Reserve(n);
    case OpShift => b.Shift();
    case OpShiftForSpace(n) => b.ShiftForSpace(n);
  }

  method ApplyAll(b: Buffer, ops: seq<Op>) returns (accepted: bytes, returned: bytes)
    requires b.Valid()
    modifies b, b.buf
    ensures b.Valid()
    ensures Transcript(accepted, returned, b.Model()) == Run(old(b.Model()), ops)
    ensures returned + b.Unread() == old(b.Unread()) + accepted
  {
    accepted, returned := [], [];
    var i := 0;
    while i < |ops|
      invariant 0 <= i <= |ops|
      invariant b.Valid() && (b.buf == old(b.buf) || fresh(b.buf))
      invariant Transcript(accepted, returned, b.Model()) == Run(old(b.Model()), ops[..i])
    {
      ghost var sofar := Run(old(b.Model()), ops[..i]);
      RunSnoc(old(b.Model()), ops[..i], ops[i]);
      assert ops[..i] + [ops[i]] == ops[..i + 1];
      var a, r := Apply(b, ops[i]);
      accepted, returned := accepted + a, returned + r;
      i := i + 1;
    }
    assert ops[..i] == ops;
    RunIsFifo(old(b.Model()), ops);
  }
}
