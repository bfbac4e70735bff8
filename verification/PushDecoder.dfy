/** The push decoder: fed a stream chunk by chunk, it calls back as soon as the
    metadata and each record are complete. */
module PushDecoding {
  import opened Bytes
  import opened Constants
  import opened Metadatas
  import opened MetadataDecoding
  import opened MetadataReading
  import opened Frames
  import opened StreamSpec
  import opened ReaderProgress
  import opened Buffers
  import opened Sources

  datatype DecoderState = Init | InMetadata | InRecords

  datatype ProcessResult = Continue | Stop | Threw(error: DecodeError)

  class DbnBufferDecoder {
    const cfg: Config
    const source: ByteSource
    const buffer: Buffer
    var bytesNeeded: nat
    var inputVersion: u8
    var tsOut: bool
    var needsUpgrade: bool
    var state: DecoderState
    /** The callbacks made so far, and of these the record callback's own memory. */
    var events: seq<Event>
    var shown: seq<bytes>

    /** Everything `Process` was ever given. */
    ghost var fed: bytes
    ghost var frameSize: nat
    ghost var metadata: Option<Metadata>
    /** The delivered records as they were on the wire, and where in the buffer
        each of them lay. */
    ghost var raw: seq<bytes>
    ghost var offsets: seq<nat>

    constructor (cfg: Config)
      ensures Valid() && fresh(source) && fresh(buffer) && fresh(buffer.buf)
      ensures this.cfg == cfg && fed == [] && events == [] && buffer.Unread() == []
    {
      this.cfg := cfg;
      source := new ByteSource([]);
      buffer := new Buffer(DEFAULT_BUF_SIZE);
      bytesNeeded, inputVersion, tsOut, needsUpgrade, state := 0, 0, false, true, Init;
      events, shown, fed, frameSize, metadata, raw, offsets := [], [], [], 0, None, [], [];
    }

    /** The fields agree with the bytes `taken` from the source so far, of which
        `unread` are still in the buffer. */
    ghost predicate Holds(taken: bytes, unread: bytes)
      reads this
    {
      match state
      case Init => events == [] && shown == [] && raw == [] && offsets == [] && unread == taken
      case InMetadata =>
        && events == [] && shown == [] && raw == [] && offsets == []
        && HeaderRead(taken, inputVersion, bytesNeeded) && unread == taken[8..]
        && needsUpgrade == NeedsUpgrade(cfg.policy, inputVersion)
      case InRecords =>
        && metadata.Some? && tsOut == metadata.value.tsOut
        && FrameRead(cfg, taken, inputVersion, frameSize, metadata.value, raw, unread)
        && needsUpgrade == NeedsUpgrade(cfg.policy, inputVersion)
        && shown == Views(cfg, inputVersion, tsOut, raw)
        && events == Called(cfg, inputVersion, metadata.value, raw)
    }

    /** The buffer is big enough for what the state waits for, and if all records
        so far span an even number of words then every record was handed out at
        an offset divisible by 8, and so will the next one be. */
    ghost predicate BufferOk()
      reads this, buffer
    {
      && buffer.Valid() && buffer.buf.Length >= DEFAULT_BUF_SIZE
      && (state.InMetadata? ==> buffer.buf.Length >= bytesNeeded)
      && |offsets| == |raw|
      && (EvenWords(raw) ==> forall o <- offsets :: o % 8 == 0)
      && (EvenWords(raw) && state.InRecords? ==> buffer.readPos % 8 == 0)
    }

    ghost predicate At(taken: bytes)
      reads this, buffer, buffer.buf
    {
      BufferOk() && Holds(taken, buffer.Unread())
    }

    lemma HoldsExtend(taken: bytes, unread: bytes, e: bytes)
      requires Holds(taken, unread)
      ensures Holds(taken + e, unread + e)
    {
      hide FrameRead, Called, Views, DecodeVersionAndSize;
      match state
      case Init =>
      case InMetadata => HeaderExtend(taken, e);
      case InRecords => FrameReadExtend(cfg, taken, e, inputVersion, frameSize, metadata.value, raw, unread);
    }

    /** The unread bytes are short of what the state waits for. */
    ghost predicate Settled()
      requires buffer.Valid()
      reads this, buffer, buffer.buf
    {
      match state
      case Init => |buffer.Unread()| < METADATA_PRELUDE_SIZE
      case InMetadata => |buffer.Unread()| < bytesNeeded
      case InRecords => !Complete(buffer.Unread()) && (buffer.Unread() != [] ==> buffer.Unread()[0] != 0)
    }

    ghost predicate Valid()
      reads this, source, buffer, buffer.buf
    {
      source.pending == [] && At(fed) && Settled()
    }

    /** The progress property: a settled reader always has space to read into,
        so a read of nothing means that the source has nothing. */
    lemma SettledHasSpace(taken: bytes)
      requires At(taken) && Settled()
      ensures |buffer.Unread()| < buffer.buf.Length
    {
      if state.InRecords? && buffer.Unread() != [] {
        assert |buffer.Unread()| < SizeOf(buffer.Unread()) <= 4 * 255;
      }
    }

    lemma SettledTrace(taken: bytes)
      requires At(taken) && Settled()
      ensures HeaderUsable(taken)
      ensures OneShot(cfg, taken) == Trace(events, More(buffer.Unread()))
    {
      if state.InRecords? {
        FrameReadSettled(cfg, taken, inputVersion, frameSize, metadata.value, raw, buffer.Unread());
      }
    }

    /** `case Init` with a whole prelude in the buffer. */
    method ReadHeader(ghost taken: bytes, ghost rest: bytes) returns (error: Option<DecodeError>)
      requires state.Init? && At(taken) && |taken| >= METADATA_PRELUDE_SIZE && Admissible(taken + rest)
      modifies this`inputVersion, this`bytesNeeded, this`needsUpgrade, this`state, buffer
      ensures error.None? ==> state.InMetadata? && At(taken)
      ensures error.Some? ==> events == old(events) && HeaderUsable(taken + rest)
                              && OneShot(cfg, taken + rest) == Trace(events, Failed(error.value))
      ensures buffer.buf == old(buffer.buf) || fresh(buffer.buf)
    {
      hide DecodeVersionAndSize, DecodeFields;
      HeaderExtend(taken, rest);
      AdmissiblePrefix(taken, rest);
      var unread := buffer.Unread();
      var header := DecodeVersionAndSize(unread[..METADATA_PRELUDE_SIZE]);
      if header.Err? {
        return Some(header.error);
      }
      inputVersion, bytesNeeded := header.value.version, header.value.frameSize;
      needsUpgrade := NeedsUpgrade(cfg.policy, inputVersion);
      buffer.Consume(METADATA_PRELUDE_SIZE);
      buffer.Reserve(bytesNeeded);
      state := InMetadata;
      return None;
    }

    /** `case Metadata` with a whole frame in the buffer. */
    method ReadMetadata(ghost taken: bytes, ghost rest: bytes) returns (error: Option<DecodeError>)
      requires state.InMetadata? && At(taken) && |buffer.Unread()| >= bytesNeeded && Admissible(taken + rest)
      modifies this`tsOut, this`events, this`state, this`metadata, this`frameSize, buffer, buffer.buf
      ensures buffer.buf == old(buffer.buf)
      ensures error.None? ==> state.InRecords? && At(taken)
      ensures error.Some? ==> events == old(events) && HeaderUsable(taken + rest)
                              && OneShot(cfg, taken + rest) == Trace(events, Failed(error.value))
    {
      hide HeaderRead, DecodeFields, Views, FrameRead, Called, Admissible, OneShot;
      var unread := buffer.Unread();
      HeaderReadFacts(taken, inputVersion, bytesNeeded);
      MetadataUnaffected(taken, rest, inputVersion, bytesNeeded);
      var m := DecodeMetadataFields(inputVersion, unread);
      if m.Err? {
        FrameFailed(cfg, taken, rest, inputVersion, bytesNeeded, m.error);
        return Some(m.error);
      }
      FrameReadStart(cfg, taken, inputVersion, bytesNeeded, m.value);
      buffer.Consume(bytesNeeded);
      buffer.Shift();
      tsOut := m.value.tsOut;
      events := events + [OnMetadata(Upgrade(m.value, cfg.policy))];
      metadata, frameSize := Some(m.value), bytesNeeded;
      state := InRecords;
      return None;
    }

    /** The next record as the callback sees it. */
    method SeenRecord() returns (seen: bytes)
      requires buffer.Valid() && Complete(buffer.Unread()) && bytesNeeded == SizeOf(buffer.Unread())
      requires needsUpgrade == NeedsUpgrade(cfg.policy, inputVersion)
      ensures seen == View(cfg, inputVersion, tsOut, Head(buffer.Unread()))
    {
      hide View, Complete, Head, SizeOf, NeedsUpgrade;
      RecordHead(buffer.Unread());
      seen := buffer.Unread()[..bytesNeeded];
      ViewIs(cfg, inputVersion, tsOut, seen);
      if needsUpgrade {
        seen := cfg.compat(inputVersion, cfg.policy, tsOut, seen);
      }
    }

    /** One record, complete in the buffer. */
    method ReadRecord(ghost taken: bytes, ghost rest: bytes) returns (stop: bool)
      requires state.InRecords? && At(taken) && Complete(buffer.Unread()) && Admissible(taken + rest)
      requires bytesNeeded == SizeOf(buffer.Unread())
      modifies this`events, this`shown, this`raw, this`offsets, buffer`readPos
      ensures !stop ==> At(taken) && |buffer.Unread()| < |old(buffer.Unread())|
      ensures stop ==> HeaderUsable(taken + rest) && OneShot(cfg, taken + rest) == Trace(events, Stopped)
      ensures |offsets| == |raw| && (EvenWords(raw) ==> forall o <- offsets :: o % 8 == 0)
    {
      hide Views, View, Called, HeaderRead, OneShot, FrameRead, EvenWords, Admissible, Complete, Head, SizeOf,
          NeedsUpgrade, HeaderUsable;
      RecordHead(buffer.Unread());
      ghost var unread, before := buffer.Unread(), raw;
      ghost var record := Head(unread);
      var seen := SeenRecord();
      NextAligned(raw, offsets, buffer.readPos, record);
      raw, offsets := raw + [record], offsets + [buffer.readPos];
      events := events + [OnRecord(seen)];
      // the record callback
      shown := shown + [seen];
      if !cfg.keepGoing(shown) {
        StoppedForGood(cfg, taken, rest, inputVersion, frameSize, metadata.value, before, unread);
        return true;
      }
      FrameReadStep(cfg, taken, inputVersion, frameSize, metadata.value, before, unread);
      ViewsSnoc(cfg, inputVersion, tsOut, before, record);
      buffer.Consume(bytesNeeded);
      return false;
    }

    /** `case Records`. */
    method ReadRecords(ghost taken: bytes, ghost rest: bytes) returns (stop: bool)
      requires state.InRecords? && At(taken) && Admissible(taken + rest)
      modifies this`events, this`shown, this`raw, this`offsets, this`bytesNeeded, buffer`readPos
      ensures !stop ==> At(taken) && Settled() && state.InRecords?
      ensures stop ==> HeaderUsable(taken + rest) && OneShot(cfg, taken + rest) == Trace(events, Stopped)
      ensures |offsets| == |raw| && (EvenWords(raw) ==> forall o <- offsets :: o % 8 == 0)
    {
      hide DecodeVersionAndSize, DecodeFields, Views, Stuck, Called, OneShot, FrameRead;
      while buffer.ReadCapacity() > 0
        invariant state.InRecords? && At(taken)
        decreases |buffer.Unread()|
      {
        FrameReadNotStuck(cfg, taken, rest, inputVersion, frameSize, metadata.value, raw, buffer.Unread());
        var unread := buffer.Unread();
        bytesNeeded := SizeOf(unread);
        if buffer.ReadCapacity() < bytesNeeded {
          break;
        }
        stop := ReadRecord(taken, rest);
        if stop {
          return;
        }
      }
      FrameReadNotStuck(cfg, taken, rest, inputVersion, frameSize, metadata.value, raw, buffer.Unread());
      return false;
    }

    /** Makes room and reads. Nothing is read exactly when the source is empty. */
    method Refill(ghost taken: bytes) returns (readSize: nat)
      requires At(taken) && Settled()
      modifies source, buffer, buffer.buf
      ensures buffer.buf == old(buffer.buf)
      ensures readSize == 0 <==> old(source.pending) == []
      ensures readSize <= |old(source.pending)| && source.pending == old(source.pending)[readSize..]
      ensures At(taken + old(source.pending)[..readSize])
      ensures readSize == 0 ==> Settled()
    {
      hide HeaderRead, FrameRead, Called, Views, EvenWords;
      SettledHasSpace(taken);
      ghost var was := buffer.Unread();
      ghost var piece := source.pending;
      buffer.ShiftForSpace(MAX_RECORD_LEN);
      readSize := ReadInto(source, buffer);
      HoldsExtend(taken, was, piece[..readSize]);
    }

    /** The switch over the states, falling through from each to the next. */
    method Advance(ghost taken: bytes, ghost rest: bytes) returns (ended: Option<ProcessResult>)
      requires At(taken) && Admissible(taken + rest)
      modifies this`bytesNeeded, this`inputVersion, this`tsOut, this`needsUpgrade, this`state, this`events, this`shown,
               this`frameSize, this`metadata, this`raw, this`offsets, buffer, buffer.buf
      ensures buffer.buf == old(buffer.buf) || fresh(buffer.buf)
      ensures |offsets| == |raw| && (EvenWords(raw) ==> forall o <- offsets :: o % 8 == 0)
      ensures ended.None? ==> At(taken) && Settled()
      ensures ended.Some? ==> HeaderUsable(taken + rest) && !ended.value.Continue?
      ensures ended == Some(Stop) ==> OneShot(cfg, taken + rest) == Trace(events, Stopped)
      ensures ended.Some? && ended.value.Threw? ==>
                OneShot(cfg, taken + rest) == Trace(events, Failed(ended.value.error))
    {
      hide HeaderRead, FrameRead, Called, Views, EvenWords, Admissible, OneShot, Complete;
      if state.Init? {
        if buffer.ReadCapacity() < METADATA_PRELUDE_SIZE {
          return None;
        }
        var error := ReadHeader(taken, rest);
        if error.Some? {
          return Some(Threw(error.value));
        }
      }
      if state.InMetadata? {
        if buffer.ReadCapacity() < bytesNeeded {
          return None;
        }
        var error := ReadMetadata(taken, rest);
        if error.Some? {
          return Some(Threw(error.value));
        }
      }
      var stop := ReadRecords(taken, rest);
      return if stop then Some(Stop) else None;
    }

    /** Feeds a chunk. The callbacks made over all chunks so far, and what is
        left unread, are those of reading everything fed so far in one go. */
    method Process(data: bytes) returns (ret: ProcessResult)
      requires Valid() && Admissible(fed + data)
      modifies this`bytesNeeded, this`inputVersion, this`tsOut, this`needsUpgrade, this`state, this`events, this`shown,
               this`fed, this`frameSize, this`metadata, this`raw, this`offsets, source, buffer, buffer.buf
      ensures fed == old(fed) + data && HeaderUsable(fed)
      ensures events == OneShot(cfg, fed).events
      ensures match ret
              case Continue => Valid() && OneShot(cfg, fed).outcome == More(buffer.Unread())
              case Stop => OneShot(cfg, fed).outcome == Stopped
              case Threw(e) => OneShot(cfg, fed).outcome == Failed(e)
      ensures |offsets| == |raw| && (EvenWords(raw) ==> forall o <- offsets :: o % 8 == 0)
      ensures buffer.buf == old(buffer.buf) || fresh(buffer.buf)
    {
      hide HeaderRead, FrameRead, Called, Views, EvenWords, Admissible, OneShot, Complete, HeaderUsable;
      ghost var taken := fed;
      fed := fed + data;
      source.WriteAll(data);
      while true
        invariant buffer.buf == old(buffer.buf) || fresh(buffer.buf)
        invariant fed == old(fed) + data && fed == taken + source.pending
        invariant At(taken) && Settled()
        decreases |source.pending|
      {
        ghost var piece := source.pending;
        var readSize := Refill(taken);
        taken := taken + piece[..readSize];
        assert fed == taken + source.pending;
        if readSize == 0 {
          assert fed == taken;
          SettledTrace(taken);
          return Continue;
        }
        var ended := Advance(taken, source.pending);
        if ended.Some? {
          return ended.value;
        }
      }
    }

    function UnreadBytes(): nat
      requires buffer.Valid()
      reads this, buffer
    {
      buffer.ReadCapacity()
    }
  }

  datatype RangeResult = Finished | EarlyExit | RangeFailed(error: DecodeError)

  /** The HTTP client's loop over the chunks of a response body. However the
      body is cut into chunks, the callbacks are those of the whole body up to
      the first stop, and the warning is given exactly for an incomplete tail. */
  method TimeseriesGetRange(cfg: Config, chunks: seq<bytes>)
    returns (events: seq<Event>, result: RangeResult, warned: bool)
    requires Admissible(Concat(chunks))
    ensures HeaderUsable(Concat(chunks))
    ensures events == OneShot(cfg, Concat(chunks)).events
    ensures match result
            case Finished => OneShot(cfg, Concat(chunks)).outcome.More?
            case EarlyExit => OneShot(cfg, Concat(chunks)).outcome == Stopped
            case RangeFailed(e) => OneShot(cfg, Concat(chunks)).outcome == Failed(e)
    ensures warned <==> result.Finished? && OneShot(cfg, Concat(chunks)).outcome.unread != []
  {
    hide Admissible, OneShot, HeaderUsable, Concat, DbnBufferDecoder.Holds;
    var body := Concat(chunks);
    AdmissibleHeader(body);
    var decoder := new DbnBufferDecoder(cfg);
    warned := false;
    ConcatNone();
    NothingRead(cfg);
    var i := 0;
    while i < |chunks|
      invariant 0 <= i <= |chunks|
      invariant decoder.cfg == cfg && decoder.Valid() && decoder.fed == Concat(chunks[..i])
      invariant fresh(decoder) && fresh(decoder.source) && fresh(decoder.buffer) && fresh(decoder.buffer.buf)
      invariant HeaderUsable(decoder.fed)
      invariant OneShot(cfg, decoder.fed) == Trace(decoder.events, More(decoder.buffer.Unread()))
    {
      ghost var rest := Concat(chunks[i + 1..]);
      ChunkSplit(chunks, i);
      AdmissiblePrefix(decoder.fed + chunks[i], rest);
      var ret := decoder.Process(chunks[i]);
      if !ret.Continue? {
        EndStable(cfg, decoder.fed, rest);
        assert decoder.fed + rest == body;
        events := decoder.events;
        result := if ret.Stop? then EarlyExit else RangeFailed(ret.error);
        return;
      }
      i := i + 1;
    }
    assert chunks[..i] == chunks;
    events, result := decoder.events, Finished;
    warned := decoder.UnreadBytes() > 0;
  }

  lemma NothingRead(cfg: Config)
    ensures HeaderUsable([]) && OneShot(cfg, []) == Trace([], More([]))
  {
  }

  lemma ChunkSplit(chunks: seq<bytes>, i: nat)
    requires i < |chunks|
    ensures Concat(chunks[..i]) + chunks[i] == Concat(chunks[..i + 1])
    ensures (Concat(chunks[..i]) + chunks[i]) + Concat(chunks[i + 1..]) == Concat(chunks)
  {
    hide Concat;
    SplitAround(chunks, i);
    ConcatSnoc(chunks[..i], chunks[i]);
    ConcatAppend(chunks[..i + 1], chunks[i + 1..]);
  }

  lemma SplitAround(chunks: seq<bytes>, i: nat)
    requires i < |chunks|
    ensures chunks[..i] + [chunks[i]] == chunks[..i + 1]
    ensures chunks[..i + 1] + chunks[i + 1..] == chunks
  {
  }
}
