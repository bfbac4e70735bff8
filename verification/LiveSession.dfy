/** The live client's record path: reads with timeouts into a buffer, and three
    ways to take records out of it. */
module LiveSession {
  import opened Bytes
  import opened Constants
  import opened Metadatas
  import opened MetadataDecoding
  import opened MetadataReading
  import opened Frames
  import opened StreamSpec
  import opened ReaderProgress
  import opened Buffers
  import opened FrameRoom

  datatype Status = Ready | TimedOut | Closed

  /** A connection to the gateway. `toCome` is what the gateway will yet send on
      it; when and in which pieces is up to the network. */
  class Connection {
    var toCome: bytes

    constructor (stream: bytes)
      ensures toCome == stream
    {
      toCome := stream;
    }

    method ReadSome(dst: array<byte>, offset: nat, maxLength: nat, dataInTime: bool) returns (n: nat, status: Status)
      requires offset + maxLength <= dst.Length
      modifies this, dst
      ensures n <= maxLength && n <= |old(toCome)| && toCome == old(toCome)[n..]
      ensures dst[offset..offset + n] == old(toCome)[..n] && dst[..offset] == old(dst[..offset])
      ensures status.Ready? <==> n > 0
      ensures status.TimedOut? <==> !dataInTime
      ensures status.Closed? ==> maxLength == 0 || old(toCome) == []
    {
      n := 0;
      if !dataInTime {
        return 0, TimedOut;
      }
      var most := Min(maxLength, |toCome|);
      if most == 0 {
        return 0, Closed;
      }
      assert 0 < most <= most;
      n :| 0 < n <= most;
      CopyInto(dst, offset, toCome[..n]);
      toCome := toCome[n..];
      return n, Ready;
    }

    /** Blocks for exactly that many bytes; fails if the connection ends first. */
    method ReadExact(dst: array<byte>, offset: nat, length: nat) returns (ok: bool)
      requires offset + length <= dst.Length
      modifies this, dst
      ensures ok <==> length <= |old(toCome)|
      ensures ok ==> toCome == old(toCome)[length..] && dst[offset..offset + length] == old(toCome)[..length]
      ensures dst[..offset] == old(dst[..offset])
    {
      if length > |toCome| {
        return false;
      }
      CopyInto(dst, offset, toCome[..length]);
      toCome := toCome[length..];
      return true;
    }
  }

  /** What a start makes of the stream `s` when the connection has the last
      `toCome` bytes of it: both reads count from the connection, whatever the
      buffer already holds. */
  function Started(s: bytes, toCome: nat): Result<(Header, Metadata), DecodeError>
    requires HeaderUsable(s) && toCome <= |s|
  {
    if toCome < METADATA_PRELUDE_SIZE then Err(EndOfInput)
    else match HeaderOf(s)
      case Err(e) => Err(e)
      case Ok(h) =>
        if toCome - METADATA_PRELUDE_SIZE < h.frameSize then Err(EndOfInput)
        else match DecodeFields(h.version, s[8..][..h.frameSize])
          case Err(e) => Err(e)
          case Ok(m) => Ok((h, m))
  }

  lemma StartedFresh(s: bytes)
    requires HeaderUsable(s)
    ensures Started(s, |s|) == MetadataOf(s)
  {
    hide DecodeFields, DecodeVersionAndSize;
  }

  /** A start on a connection that has fewer bytes than the prelude or the frame
      runs into its end; any other start reads what any reader of the stream
      reads, however much of the stream was in the buffer before. */
  lemma StartedExactly(s: bytes, toCome: nat)
    requires HeaderUsable(s) && toCome <= |s|
    ensures Started(s, toCome) ==
              if toCome < 8 || (HeaderOf(s).Ok? && toCome - 8 < HeaderOf(s).value.frameSize) then Err(EndOfInput)
              else MetadataOf(s)
  {
    hide DecodeFields, DecodeVersionAndSize;
  }

  datatype NextResult =
    | GotRecord(record: bytes)
    | NoRecord
    | GatewayClosed
    | HeartbeatExpired

  /** A record's header and all of the record. */
  predicate HasRecord(s: bytes) {
    |s| >= 16 && Complete(s)
  }

  class LiveBlocking {
    const policy: UpgradePolicy
    const sendTsOut: bool
    const compat: (u8, UpgradePolicy, bool, bytes) -> bytes
    const connection: Connection
    const buffer: Buffer
    var version: u8
    var currentRecord: bytes

    /** The bytes received behind the metadata, and the records handed out as
        they were on the wire. */
    ghost var received: bytes
    ghost var raw: seq<bytes>

    /** No byte is lost: what was received is what was handed out followed by
        what is still in the buffer. */
    ghost predicate Valid()
      reads this, buffer, buffer.buf
    {
      && buffer.Valid() && buffer.buf.Length >= 4 * 255
      && AllWellFormed(raw) && received == Concat(raw) + buffer.Unread()
    }

    /** Everything received and everything still to come. */
    ghost function Total(): bytes
      reads this`received, connection
    {
      received + connection.toCome
    }

    constructor (policy: UpgradePolicy, sendTsOut: bool, compat: (u8, UpgradePolicy, bool, bytes) -> bytes,
                 connection: Connection, bufferSize: nat)
      requires bufferSize >= 4 * 255
      ensures Valid() && received == [] && raw == [] && this.connection == connection
      ensures fresh(buffer) && fresh(buffer.buf)
    {
      this.policy, this.sendTsOut, this.compat, this.connection := policy, sendTsOut, compat, connection;
      buffer := new Buffer(bufferSize);
      version, currentRecord, received, raw := 0, [], [], [];
      new;
      ConcatNone();
      assert Concat([]) + buffer.Unread() == [];
    }

    /** Reads the metadata of a session. Bytes the authentication left in the
        buffer are the start of the stream. */
    method Start() returns (r: Result<Metadata, DecodeError>)
      requires Valid() && StartHasRoom()
      requires Admissible(buffer.Unread() + connection.toCome)
      modifies this`version, this`received, this`raw, connection, buffer, buffer.buf
      ensures buffer.buf == old(buffer.buf) || fresh(buffer.buf)
      ensures match old(Started(buffer.Unread() + connection.toCome, |connection.toCome|))
              case Err(e) => r == Err(e)
              case Ok((h, m)) =>
                && r == Ok(Upgrade(m, policy))
                && Valid() && raw == [] && version == h.version
                && |old(buffer.Unread() + connection.toCome)| >= 8 + h.frameSize
                && Total() == old(buffer.Unread() + connection.toCome)[8..][h.frameSize..]
    {
      hide DecodeVersionAndSize, DecodeFields, Admissible, Concat;
      ghost var s := buffer.Unread() + connection.toCome;
      StartIsUsable();
      var ok := ReadExactInto(METADATA_PRELUDE_SIZE);
      if !ok {
        return Err(EndOfInput);
      }
      var unread := buffer.Unread();
      assert s == unread + connection.toCome;
      assert unread[..8] == s[..8];
      var header := DecodeVersionAndSize(unread[..METADATA_PRELUDE_SIZE]);
      if header.Err? {
        return Err(header.error);
      }
      buffer.Consume(METADATA_PRELUDE_SIZE);
      assert buffer.Unread() + connection.toCome == s[8..];
      r := StartFrame(header.value, s);
    }

    /** The rest of `Start`, once the header is consumed. */
    method StartFrame(h: Header, ghost s: bytes) returns (r: Result<Metadata, DecodeError>)
      requires buffer.Valid() && buffer.buf.Length >= 4 * 255
      requires HeaderRead(s, h.version, h.frameSize) && Admissible(s)
      requires buffer.Unread() + connection.toCome == s[8..]
      requires Fits(buffer.buf.Length, buffer.writePos, |buffer.Unread()|, h.frameSize)
      modifies this`version, this`received, this`raw, connection, buffer, buffer.buf
      ensures buffer.buf == old(buffer.buf) || fresh(buffer.buf)
      ensures |old(connection.toCome)| < h.frameSize ==> r == Err(EndOfInput)
      ensures |old(connection.toCome)| >= h.frameSize ==>
                && |s| >= 8 && |s[8..]| >= h.frameSize >= 104
                && match DecodeFields(h.version, s[8..][..h.frameSize])
                   case Err(e) => r == Err(e)
                   case Ok(m) =>
                     && r == Ok(Upgrade(m, policy))
                     && Valid() && raw == [] && version == h.version && Total() == s[8..][h.frameSize..]
    {
      hide DecodeFields, Admissible, Concat, HeaderRead;
      HeaderReadFacts(s, h.version, h.frameSize);
      var size := h.frameSize;
      ReserveFrame(buffer, size);
      var ok := ReadExactInto(size);
      if !ok {
        return Err(EndOfInput);
      }
      var frame := buffer.Unread();
      ghost var rest := connection.toCome;
      assert frame + rest == s[8..];
      MetadataHere(s, frame, rest, h.version, size);
      r := DecodeMetadataFields(h.version, frame);
      if r.Err? {
        return;
      }
      buffer.Consume(size);
      buffer.Shift();
      version := h.version;
      received, raw := buffer.Unread(), [];
      ConcatNone();
      assert [] + buffer.Unread() == buffer.Unread();
      DropFront(frame, rest, size);
      return Ok(Upgrade(r.value, policy));
    }

    /** The reads of `Start` go behind the write cursor, whatever `Reserve` did;
        a new allocation has no space to spare for bytes already there. */
    ghost predicate StartHasRoom()
      requires buffer.Valid()
      reads this, connection, buffer, buffer.buf
    {
      var s := buffer.Unread() + connection.toCome;
      && buffer.WriteCapacity() >= METADATA_PRELUDE_SIZE
      && HeaderUsable(s)
      && (|s| >= 8 && HeaderOf(s).Ok? ==>
            Fits(buffer.buf.Length, buffer.writePos + METADATA_PRELUDE_SIZE, |buffer.Unread()|,
                 HeaderOf(s).value.frameSize))
    }

    lemma StartIsUsable()
      requires buffer.Valid() && StartHasRoom()
      ensures HeaderUsable(buffer.Unread() + connection.toCome)
    {
    }

    method ReadExactInto(length: nat) returns (ok: bool)
      requires buffer.Valid() && length <= buffer.WriteCapacity()
      modifies connection, buffer`writePos, buffer.buf
      ensures buffer.Valid()
      ensures ok <==> length <= |old(connection.toCome)|
      ensures ok ==> buffer.Unread() == old(buffer.Unread()) + old(connection.toCome)[..length]
      ensures ok ==> connection.toCome == old(connection.toCome)[length..]
      ensures ok ==> buffer.writePos == old(buffer.writePos) + length
      ensures ok ==> buffer.Unread() + connection.toCome == old(buffer.Unread() + connection.toCome)
    {
      ghost var unread, at, stream := buffer.Unread(), buffer.writePos, connection.toCome;
      ok := connection.ReadExact(buffer.buf, buffer.writePos, length);
      if ok {
        assert buffer.Unread() == buffer.buf[..at][buffer.readPos..] == unread;
        buffer.Fill(length);
        assert (unread + stream[..length]) + stream[length..] == unread + stream;
      }
    }

    method ReadSomeInto(dataInTime: bool) returns (n: nat, status: Status)
      requires buffer.Valid()
      modifies connection, buffer, buffer.buf
      ensures buffer.Valid() && buffer.buf == old(buffer.buf)
      ensures n <= |old(connection.toCome)| && connection.toCome == old(connection.toCome)[n..]
      ensures buffer.Unread() == old(buffer.Unread()) + old(connection.toCome)[..n]
      ensures status.Ready? <==> n > 0
      ensures status.TimedOut? <==> !dataInTime
      ensures status.Closed? ==> |old(buffer.Unread())| == buffer.buf.Length || old(connection.toCome) == []
    {
      ghost var before := buffer.Unread();
      buffer.ShiftForSpace(MAX_RECORD_LEN);
      ghost var at := buffer.writePos;
      ghost var written := buffer.buf[..at];
      assert written[buffer.readPos..] == before;
      n, status := connection.ReadSome(buffer.buf, buffer.writePos, buffer.WriteCapacity(), dataInTime);
      assert buffer.buf[..at] == written;
      assert buffer.Unread() == written[buffer.readPos..];
      buffer.Fill(n);
    }

    /** One read, of which a timeout leaves the buffer as it was. */
    method FillBuffer(dataInTime: bool) returns (n: nat, status: Status)
      requires Valid()
      modifies this`received, connection, buffer, buffer.buf
      ensures Valid() && buffer.buf == old(buffer.buf) && Total() == old(Total())
      ensures n <= |old(connection.toCome)| && connection.toCome == old(connection.toCome)[n..]
      ensures buffer.Unread() == old(buffer.Unread()) + old(connection.toCome)[..n]
      ensures n == 0 ==> buffer.Unread() == old(buffer.Unread())
      ensures status.Ready? <==> n > 0
      ensures status.TimedOut? <==> !dataInTime
      ensures status.Closed? ==> |old(buffer.Unread())| == buffer.buf.Length || old(connection.toCome) == []
    {
      hide Concat, AllWellFormed;
      ghost var before, stream := buffer.Unread(), connection.toCome;
      n, status := ReadSomeInto(dataInTime);
      received := received + stream[..n];
      Regroup(Concat(raw), before, stream[..n]);
      Regroup(old(received), stream[..n], stream[n..]);
      assert stream[..n] + stream[n..] == stream;
    }

    method ConsumeBufferedRecord() returns (record: bytes)
      requires Valid() && Complete(buffer.Unread())
      modifies this`currentRecord, this`raw, buffer`readPos
      ensures Valid() && raw == old(raw) + [Head(old(buffer.Unread()))]
      ensures record == compat(version, policy, sendTsOut, Head(old(buffer.Unread())))
    {
      hide Concat, AllWellFormed, Complete, Head, SizeOf;
      var unread := buffer.Unread();
      ghost var head := Head(unread);
      RecordHead(unread);
      currentRecord := unread[..SizeOf(unread)];
      buffer.Consume(SizeOf(unread));
      ConcatSnoc(raw, head);
      Regroup(Concat(raw), head, buffer.Unread());
      WellFormedSnoc(raw, unread);
      raw := raw + [head];
      currentRecord := compat(version, policy, sendTsOut, currentRecord);
      return currentRecord;
    }

    /** The next record, waiting for data at most a while at each read. Of the
        waits, `inTime` says which see data; `expired` is the heartbeat check.
        The next record of the stream is returned unless a wait was in vain, each
        earlier wait having brought a byte, or the stream ends before it. A whole
        record in the buffer is returned without waiting. */
    method NextRecord(inTime: seq<bool>, expired: bool) returns (r: NextResult)
      requires Valid() && !Stuck(Total())
      modifies this`currentRecord, this`received, this`raw, connection, buffer, buffer.buf
      ensures Valid() && buffer.buf == old(buffer.buf) && Total() == old(Total())
      ensures |connection.toCome| <= |old(connection.toCome)|
      ensures old(RecordReady()) ==> r.GotRecord? && connection.toCome == old(connection.toCome)
      ensures r.GotRecord? ==> Complete(old(Ahead())) && raw == old(raw) + [Head(old(Ahead()))]
                               && r.record == compat(version, policy, sendTsOut, Head(old(Ahead())))
      ensures r.GotRecord? ==> old(RecordReady()) || |connection.toCome| < |old(connection.toCome)|
      ensures !r.GotRecord? ==> raw == old(raw) && Ahead() == old(Ahead()) && !RecordReady()
      ensures r.GatewayClosed? ==> connection.toCome == []
      ensures r.HeartbeatExpired? ==> expired
      ensures r.NoRecord? ==> !expired
      ensures r.NoRecord? || r.HeartbeatExpired? ==>
                exists k :: 0 <= k <= |old(connection.toCome)| - |connection.toCome| && !Wait(inTime, k)
    {
      hide Stuck, Concat, AllWellFormed, Complete, Head, HasRecord, Total, Ahead;
      ghost var ahead, ready, unread, stream := Ahead(), RecordReady(), buffer.Unread(), connection.toCome;
      var tries := 0;
      HeadNotEmpty();
      if buffer.ReadCapacity() < RECORD_HEADER_SIZE {
        HeaderMissing();
        var stop := AwaitData(Wait(inTime, tries), expired);
        if stop.Some? {
          return stop.value;
        }
        tries := tries + 1;
      }
      HeadNotEmpty();
      while buffer.ReadCapacity() < SizeOf(buffer.Unread())
        invariant Valid() && buffer.buf == old(buffer.buf) && Total() == old(Total()) && raw == old(raw)
        invariant Ahead() == ahead && (ready ==> RecordReady() && connection.toCome == stream)
        invariant 0 <= tries <= |stream| - |connection.toCome|
        invariant tries == 0 ==> buffer.Unread() == unread && |unread| >= RECORD_HEADER_SIZE
        invariant buffer.ReadCapacity() > 0 && buffer.Unread()[0] != 0
        decreases |connection.toCome|
      {
        NotReady();
        var stop := AwaitData(Wait(inTime, tries), expired);
        if stop.Some? {
          return stop.value;
        }
        tries := tries + 1;
      }
      AheadStarts();
      var record := ConsumeBufferedRecord();
      return GotRecord(record);
    }

    /** One read, when no whole record is buffered: more data, or the result of
        the call that asked for it. */
    method AwaitData(dataInTime: bool, expired: bool) returns (stop: Option<NextResult>)
      requires Valid() && !RecordReady() && (buffer.Unread() != [] ==> buffer.Unread()[0] != 0)
      modifies this`received, connection, buffer, buffer.buf
      ensures Valid() && buffer.buf == old(buffer.buf) && Total() == old(Total()) && Ahead() == old(Ahead())
      ensures |connection.toCome| <= |old(connection.toCome)|
      ensures old(buffer.Unread()) <= buffer.Unread()
      ensures stop.None? ==> |connection.toCome| < |old(connection.toCome)| && buffer.Unread() != []
      ensures stop.Some? ==> !RecordReady()
      ensures stop.Some? ==> match stop.value
                             case GotRecord(_) => false
                             case NoRecord => !expired && !dataInTime
                             case GatewayClosed => connection.toCome == []
                             case HeartbeatExpired => expired && !dataInTime
    {
      hide Concat, AllWellFormed, Head;
      ghost var unread, stream := buffer.Unread(), connection.toCome;
      var n, status := FillBuffer(dataInTime);
      Regroup(unread, stream[..n], stream[n..]);
      assert stream[..n] + stream[n..] == stream;
      if status.TimedOut? {
        return Some(if expired then HeartbeatExpired else NoRecord);
      }
      if status.Closed? {
        return Some(GatewayClosed);
      }
      return None;
    }

    /** The stream from the next record on: what is buffered and what is to come. */
    ghost function Ahead(): bytes
      requires buffer.Valid()
      reads this, connection, buffer, buffer.buf
    {
      buffer.Unread() + connection.toCome
    }

    /** The buffer holds a record's header and all of the record. */
    ghost predicate RecordReady()
      requires buffer.Valid()
      reads buffer, buffer.buf
    {
      HasRecord(buffer.Unread())
    }

    lemma NotReady()
      requires buffer.Valid() && buffer.Unread() != [] && |buffer.Unread()| < SizeOf(buffer.Unread())
      ensures !RecordReady()
    {
    }

    lemma HeaderMissing()
      requires buffer.Valid() && |buffer.Unread()| < RECORD_HEADER_SIZE
      ensures !RecordReady()
    {
    }

    /** A record that is buffered is the next of the stream. */
    lemma AheadStarts()
      requires buffer.Valid() && buffer.Unread() != [] && buffer.Unread()[0] != 0
      requires SizeOf(buffer.Unread()) <= |buffer.Unread()|
      ensures Complete(buffer.Unread()) && Complete(Ahead()) && Head(Ahead()) == Head(buffer.Unread())
      ensures RecordReady() <==> |buffer.Unread()| >= RECORD_HEADER_SIZE
    {
      HeadOfFront(buffer.Unread(), connection.toCome);
    }

    /** A stream that is never stuck shows no empty record next. */
    lemma HeadNotEmpty()
      requires Valid() && !Stuck(Total())
      ensures buffer.Unread() != [] ==> buffer.Unread()[0] != 0
    {
      var unread, rest := buffer.Unread(), connection.toCome;
      assert (Concat(raw) + unread) + rest == Concat(raw) + (unread + rest);
      NotStuckHead(raw, unread + rest);
      assert unread != [] ==> (unread + rest)[0] == unread[0];
    }

    /** Takes a record out of the buffer without reading. */
    method TryNextRecord() returns (r: Option<bytes>)
      requires Valid() && !Stuck(Total())
      modifies this`currentRecord, this`raw, buffer`readPos
      ensures Valid()
      ensures r.Some? <==> Complete(old(buffer.Unread())) && |old(buffer.Unread())| >= 16
      ensures r.Some? ==> raw == old(raw) + [Head(old(buffer.Unread()))]
                          && r.value == compat(version, policy, sendTsOut, Head(old(buffer.Unread())))
      ensures r.None? ==> raw == old(raw) && buffer.Unread() == old(buffer.Unread())
    {
      hide Stuck, Concat, AllWellFormed;
      HeadNotEmpty();
      if buffer.ReadCapacity() < RECORD_HEADER_SIZE {
        return None;
      }
      if buffer.ReadCapacity() < SizeOf(buffer.Unread()) {
        return None;
      }
      var record := ConsumeBufferedRecord();
      return Some(record);
    }
  }

  lemma HeadOfFront(s: bytes, e: bytes)
    requires s != [] && s[0] != 0 && SizeOf(s) <= |s|
    ensures Complete(s) && Complete(s + e) && Head(s + e) == Head(s)
  {
    assert (s + e)[..SizeOf(s)] == s[..SizeOf(s)];
  }

  lemma DropFront(a: bytes, b: bytes, n: nat)
    requires n <= |a|
    ensures a[n..] + b == (a + b)[n..]
  {
  }

  /** Does the k-th wait of a call see data before its timeout? */
  predicate Wait(inTime: seq<bool>, k: nat) {
    k < |inTime| && inTime[k]
  }

  lemma MetadataHere(s: bytes, frame: bytes, rest: bytes, version: u8, n: nat)
    requires HeaderRead(s, version, n) && Admissible(s)
    requires s[8..] == frame + rest && |frame| >= n
    ensures DecodeFields(version, frame) == DecodeFields(version, s[8..][..n])
  {
    hide DecodeVersionAndSize, DecodeFields, ParseFields, Stuck;
    HeaderReadFacts(s, version, n);
    var taken := s[..8] + frame;
    assert taken + rest == s;
    assert taken[8..] == frame;
    assert taken[..8] == s[..8];
    MetadataUnaffected(taken, rest, version, n);
    assert frame[..n] == s[8..][..n];
  }

  // ----- any interleaving -----

  datatype LiveOp = OpNext(inTime: seq<bool>, expired: bool) | OpTryNext | OpFill(dataInTime: bool)

  function Upgraded(client: LiveBlocking, version: u8, rs: seq<bytes>): seq<bytes> {
    seq(|rs|, i requires 0 <= i < |rs| => client.compat(version, client.policy, client.sendTsOut, rs[i]))
  }

  /** A call for the next record whose waits all see data, even if every read
      brings one byte. */
  predicate Patient(op: LiveOp, toCome: nat) {
    op.OpNext? && forall k :: 0 <= k <= toCome ==> Wait(op.inTime, k)
  }

  /** The records among the results of the calls. */
  function DeliveredBy(results: seq<NextResult>): seq<bytes> {
    if results == [] then []
    else
      var last := results[|results| - 1];
      DeliveredBy(results[..|results| - 1]) + if last.GotRecord? then [last.record] else []
  }

  lemma DeliveredSnoc(results: seq<NextResult>, r: NextResult)
    ensures DeliveredBy(results + [r]) == DeliveredBy(results) + if r.GotRecord? then [r.record] else []
  {
    assert (results + [r])[..|results|] == results;
  }

  method Perform(client: LiveBlocking, op: LiveOp) returns (r: NextResult)
    requires client.Valid() && !Stuck(client.Total())
    modifies client`currentRecord, client`received, client`raw, client.connection, client.buffer, client.buffer.buf
    ensures client.Valid() && client.buffer.buf == old(client.buffer.buf) && client.Total() == old(client.Total())
    ensures |client.connection.toCome| <= |old(client.connection.toCome)|
    ensures if r.GotRecord? then Took(client, old(client.raw), r.record) else client.raw == old(client.raw)
    ensures r.GatewayClosed? ==> Drained(client)
    ensures old(Drained(client)) ==> Drained(client) && !r.GotRecord?
    ensures Patient(op, |old(client.connection.toCome)|) ==> r.GotRecord? || r.GatewayClosed?
  {
    hide Stuck, Complete, Head, AllWellFormed, Concat;
    match op {
      case OpNext(inTime, expired) =>
        r := client.NextRecord(inTime, expired);
      case OpTryNext =>
        var record := client.TryNextRecord();
        return if record.Some? then GotRecord(record.value) else NoRecord;
      case OpFill(dataInTime) =>
        var _, _ := client.FillBuffer(dataInTime);
        return NoRecord;
    }
  }

  ghost predicate Took(client: LiveBlocking, before: seq<bytes>, record: bytes)
    reads client
  {
    && |client.raw| == |before| + 1 && client.raw[..|before|] == before
    && record == client.compat(client.version, client.policy, client.sendTsOut, client.raw[|before|])
  }

  /** The connection is at its end and the buffer holds no whole record. */
  ghost predicate Drained(client: LiveBlocking)
    requires client.buffer.Valid()
    reads client, client.connection, client.buffer, client.buffer.buf
  {
    client.connection.toCome == [] && !client.RecordReady()
  }

  /** Live delivery does not depend on timing: whatever the calls, their timeouts
      and the pieces the network delivers, the records returned are the first
      records of the frame parse of all the bytes sent, in order, and the bytes
      received but not returned are in the buffer. Every patient call returns a
      record until the gateway has closed; then all the records of the stream
      have been returned, provided that none is shorter than a header. */
  method RunSession(client: LiveBlocking, ops: seq<LiveOp>) returns (results: seq<NextResult>)
    requires client.Valid() && client.raw == [] && !Stuck(client.Total())
    modifies client`currentRecord, client`received, client`raw, client.connection, client.buffer, client.buffer.buf
    ensures client.Valid() && client.Total() == old(client.Total()) && |results| == |ops|
    ensures DeliveredBy(results) == Upgraded(client, client.version, client.raw)
    ensures client.raw <= ParseRecords(client.received).records <= ParseRecords(client.Total()).records
    ensures forall i :: 0 <= i < |ops| && Patient(ops[i], |old(client.connection.toCome)|) ==>
              results[i].GotRecord? || results[i].GatewayClosed?
    ensures GatewayClosed in results && WholeHeaders(ParseRecords(client.Total()).records) ==>
              client.raw == ParseRecords(client.Total()).records
  {
    hide Stuck, Concat, AllWellFormed, ParseRecords, Complete, Head, Patient, Drained, DeliveredBy;
    results := [];
    NoneDelivered();
    var i := 0;
    while i < |ops|
      invariant 0 <= i == |results| <= |ops|
      invariant client.Valid() && client.buffer.buf == old(client.buffer.buf)
      invariant client.Total() == old(client.Total())
      invariant |client.connection.toCome| <= |old(client.connection.toCome)|
      invariant DeliveredBy(results) == Upgraded(client, client.version, client.raw)
      invariant forall k :: 0 <= k < i && Patient(ops[k], |old(client.connection.toCome)|) ==>
                  results[k].GotRecord? || results[k].GatewayClosed?
      invariant GatewayClosed in results ==> Drained(client)
    {
      ghost var before, toCome := client.raw, |client.connection.toCome|;
      StillPatient(ops[i], |old(client.connection.toCome)|, toCome);
      var r := Perform(client, ops[i]);
      DeliveredSnoc(results, r);
      if r.GotRecord? {
        assert client.raw == before + [client.raw[|before|]];
      }
      results := results + [r];
      i := i + 1;
    }
    ParseAppend(client.raw, client.buffer.Unread());
    ParseExtend(client.received, client.connection.toCome);
    if GatewayClosed in results && WholeHeaders(ParseRecords(client.Total()).records) {
      NothingLeft(client);
    }
  }

  lemma NoneDelivered()
    ensures DeliveredBy([]) == []
  {
  }

  lemma StillPatient(op: LiveOp, before: nat, toCome: nat)
    requires toCome <= before
    ensures Patient(op, before) ==> Patient(op, toCome)
  {
  }

  /** A drained session of records with whole headers has handed them all out. */
  lemma NothingLeft(client: LiveBlocking)
    requires client.Valid() && Drained(client) && WholeHeaders(ParseRecords(client.Total()).records)
    ensures client.raw == ParseRecords(client.Total()).records
  {
    hide Concat, AllWellFormed;
    var unread := client.buffer.Unread();
    assert client.Total() == Concat(client.raw) + unread;
    ParseAppend(client.raw, unread);
    NextParsed(client.raw, unread);
    assert client.raw + [] == client.raw;
  }

  lemma NextParsed(rs: seq<bytes>, s: bytes)
    ensures Complete(s) ==> Head(s) in rs + ParseRecords(s).records && |Head(s)| <= |s|
    ensures !Complete(s) ==> ParseRecords(s).records == []
  {
    ParseStep(s);
    if Complete(s) {
      assert (rs + ParseRecords(s).records)[|rs|] == Head(s);
    }
  }

  predicate WholeHeaders(rs: seq<bytes>) {
    forall r <- rs :: |r| >= 16
  }
}
