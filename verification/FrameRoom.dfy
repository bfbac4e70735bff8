/** When a metadata frame can be read behind the header. `Reserve` compares with
    the buffer's total capacity, while the frame goes behind the write cursor. */
module FrameRoom {
  import opened Bytes
  import opened Constants
  import opened Metadatas
  import opened MetadataEncoding
  import opened MetadataRoundTrip
  import opened FrameRoundTrip
  import opened Buffers

  /** The frame fits behind the write cursor, or it forces a new allocation and
      there is nothing unread to carry over. */
  predicate Fits(capacity: nat, writePos: nat, unread: nat, size: nat) {
    size <= capacity - writePos || (size > capacity && unread == 0)
  }

  /** The call of `Reserve` between the header and the frame: afterwards there is
      room for the frame exactly when it fitted. */
  method ReserveFrame(buffer: Buffer, size: nat)
    requires buffer.Valid()
    modifies buffer
    ensures buffer.Valid() && buffer.Unread() == old(buffer.Unread())
    ensures buffer.buf == old(buffer.buf) || fresh(buffer.buf)
    ensures buffer.buf.Length >= old(buffer.buf.Length)
    ensures size <= buffer.WriteCapacity() <==>
            Fits(old(buffer.buf.Length), old(buffer.writePos), |old(buffer.Unread())|, size)
  {
    buffer.Reserve(size);
  }

  function WideMetadata(): Metadata {
    Metadata(3, [], None, 0, 0, 0, None, 0, false, 65411, [[]], [], [], [])
  }

  lemma WideLength()
    ensures FrameLength(WideMetadata()) == DEFAULT_BUF_SIZE && CalcLength(WideMetadata()) == (DEFAULT_BUF_SIZE, 5)
  {
    var m := WideMetadata();
    assert MappingsLength(65411, []) == 0;
    assert NeededLength(m) == 65531;
  }

  lemma WideIsFaithful()
    ensures Encodable(WideMetadata()) && Faithful(WideMetadata()) && WidthFits(WideMetadata())
  {
  }

  /** A frame without room: these metadata survive the round trip, and their frame
      is padded to exactly the size of a new buffer, of which the header has used
      up 8 bytes. */
  lemma FrameWithoutRoom()
    ensures Encodable(WideMetadata()) && ComesBack(WideMetadata(), [])
    ensures CalcLength(WideMetadata()) == (DEFAULT_BUF_SIZE, 5)
    ensures !Fits(DEFAULT_BUF_SIZE, METADATA_PRELUDE_SIZE, 0, CalcLength(WideMetadata()).0)
  {
    hide WideMetadata, Encodable, Faithful, WidthFits, FrameLength, CalcLength, ComesBack;
    WideIsFaithful();
    WideLength();
    MetadataRoundTripExactly(WideMetadata(), []);
  }

  /** A new buffer lacks room for frames of 65529 to 65536 bytes and for no
      others; a single byte left over from before takes it from every frame
      longer than the buffer too. */
  lemma SizesWithoutRoom(size: nat, left: nat)
    requires 0 < left <= DEFAULT_BUF_SIZE - METADATA_PRELUDE_SIZE
    ensures Fits(DEFAULT_BUF_SIZE, METADATA_PRELUDE_SIZE, 0, size) <==> size < 65529 || 65536 < size
    ensures Fits(DEFAULT_BUF_SIZE, METADATA_PRELUDE_SIZE + left, left, size) <==> size <= 65528 - left
  {
  }
}
