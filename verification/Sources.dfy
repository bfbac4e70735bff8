/** Where a decoder's bytes come from: anything that hands out a stream in
    order, in pieces of its own choosing. A decompressor is one. */
module Sources {
  import opened Bytes
  import opened Buffers

  class ByteSource {
    var pending: bytes

    constructor (stream: bytes)
      ensures pending == stream
    {
      pending := stream;
    }

    method WriteAll(data: bytes)
      modifies this
      ensures pending == old(pending) + data
    {
      pending := pending + data;
    }

    /** Hands out some prefix of what remains. Only an exhausted source, or one
        that is offered no space, hands out nothing. */
    method ReadSome(dst: array<byte>, offset: nat, maxLength: nat) returns (n: nat)
      requires offset + maxLength <= dst.Length
      modifies this, dst
      ensures n <= maxLength && n <= |old(pending)|
      ensures n == 0 <==> maxLength == 0 || old(pending) == []
      ensures pending == old(pending)[n..]
      ensures dst[offset..offset + n] == old(pending)[..n]
      ensures dst[..offset] == old(dst[..offset])
    {
      var most := Min(maxLength, |pending|);
      if most == 0 {
        n := 0;
      } else {
        assert 0 < most <= most;
        n :| 0 < n <= most;
      }
      CopyInto(dst, offset, pending[..n]);
      pending := pending[n..];
    }

    /** Reads on until it has `length` bytes, or the stream ends before. */
    method ReadExact(dst: array<byte>, offset: nat, length: nat) returns (ok: bool)
      requires offset + length <= dst.Length
      modifies this, dst
      ensures ok <==> length <= |old(pending)|
      ensures ok ==> pending == old(pending)[length..] && dst[offset..offset + length] == old(pending)[..length]
      ensures dst[..offset] == old(dst[..offset])
    {
      ghost var stream, before := pending, dst[..offset];
      var size := 0;
      while size < length
        invariant 0 <= size <= length && size <= |stream| && pending == stream[size..]
        invariant dst[offset..offset + size] == stream[..size] && dst[..offset] == before
        decreases length - size
      {
        ghost var front := dst[..offset + size];
        var n := ReadSome(dst, offset + size, length - size);
        assert dst[..offset + size] == front;
        if n == 0 {
          return false;
        }
        NextPiece(stream, size, n);
        assert dst[..offset] == front[..offset];
        assert dst[offset..offset + (size + n)] == front[offset..] + dst[offset + size..offset + size + n];
        size := size + n;
      }
      return true;
    }
  }

  lemma NextPiece(s: bytes, i: nat, n: nat)
    requires i + n <= |s|
    ensures s[i..][..n] == s[i..i + n] && s[i..][n..] == s[i + n..] && s[..i] + s[i..i + n] == s[..i + n]
  {
  }

  /** One read into the free space of a buffer, and `Fill` with what came. */
  method ReadInto(source: ByteSource, buffer: Buffer) returns (n: nat)
    requires buffer.Valid()
    modifies source, buffer`writePos, buffer.buf
    ensures buffer.Valid()
    ensures n <= |old(source.pending)|
    ensures n == 0 <==> old(buffer.WriteCapacity()) == 0 || old(source.pending) == []
    ensures buffer.Unread() == old(buffer.Unread()) + old(source.pending)[..n]
    ensures source.pending == old(source.pending)[n..]
  {
    ghost var unread := buffer.Unread();
    ghost var at := buffer.writePos;
    n := source.ReadSome(buffer.buf, buffer.writePos, buffer.WriteCapacity());
    assert buffer.Unread() == buffer.buf[..at][buffer.readPos..] == unread;
    buffer.Fill(n);
  }

  /** Reads exactly `length` bytes into the free space of a buffer, or fails at the
      end of the input. */
  method ReadExactInto(source: ByteSource, buffer: Buffer, length: nat) returns (ok: bool)
    requires buffer.Valid() && length <= buffer.WriteCapacity()
    modifies source, buffer`writePos, buffer.buf
    ensures buffer.Valid()
    ensures ok <==> length <= |old(source.pending)|
    ensures ok ==> buffer.Unread() == old(buffer.Unread()) + old(source.pending)[..length]
    ensures ok ==> source.pending == old(source.pending)[length..]
    ensures ok ==> buffer.writePos == old(buffer.writePos) + length
  {
    ghost var unread := buffer.Unread();
    ghost var at := buffer.writePos;
    ok := source.ReadExact(buffer.buf, buffer.writePos, length);
    if ok {
      assert buffer.Unread() == buffer.buf[..at][buffer.readPos..] == unread;
      buffer.Fill(length);
    }
  }
}
