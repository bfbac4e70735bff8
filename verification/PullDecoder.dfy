/** The pull decoder: asked for the metadata and then for one record at a time,
    it reads its input in whatever pieces the input gives. */
module PullDecoding {
  import opened Bytes
  import opened Constants
  import opened Metadatas
  import opened MetadataEncoding
  import opened MetadataDecoding
  import opened MetadataReading
  import opened Frames
  import opened StreamSpec
  import opened ReaderProgress
  import opened Buffers
  import opened Sources
  import opened FrameRoom

  datatype OpenError = NoMagic | ZstdWithoutDbn | LegacyDbz | Unrecognized

  predicate StartsDbn(s: bytes) {
    |s| >= MAGIC_SIZE && s[..3] == DBN_PREFIX
  }

  predicate StartsZstd(s: bytes) {
    |s| >= MAGIC_SIZE && !StartsDbn(s) && U32At(s, 0) == ZSTD_MAGIC_NUMBER
  }

  /** `b & mask == mask`. */
  predicate HasBits(b: nat, mask: nat) {
    mask == 0 || ((mask % 2 == 1 ==> b % 2 == 1) && HasBits(b / 2, mask / 2))
  }

  /** All the bits of 0x184D2A50, byte by byte, whatever other bits there are. */
  predicate IsSkippable(magic: bytes)
    requires |magic| >= MAGIC_SIZE
  {
    HasBits(magic[0], 0x50) && HasBits(magic[1], 0x2A) && HasBits(magic[2], 0x4D) && HasBits(magic[3], 0x18)
  }

  /** The DBN stream in an input, with `inflate` for the decompressor. */
  function StreamIn(input: bytes, inflate: bytes -> bytes): Result<bytes, OpenError> {
    if |input| < MAGIC_SIZE then Err(NoMagic)
    else if StartsDbn(input) then Ok(input)
    else if !StartsZstd(input) then Err(if IsSkippable(input) then LegacyDbz else Unrecognized)
    else if StartsDbn(inflate(input)) then Ok(inflate(input))
    else if |inflate(input)| < MAGIC_SIZE then Err(NoMagic)
    else Err(ZstdWithoutDbn)
  }

  lemma ZstdMagic(s: bytes)
    requires |s| >= 4
    ensures U32At(s, 0) == ZSTD_MAGIC_NUMBER <==> s[..4] == [0x28, 0xB5, 0x2F, 0xFD]
  {
    var magic: bytes := [0x28, 0xB5, 0x2F, 0xFD];
    LeOfFromLe(s[0..4]);
    LeOfFromLe(magic);
    ZstdMagicValue();
    hide FromLe, Le;
    assert s[0..4] == s[..4];
  }

  lemma ZstdMagicValue()
    ensures FromLe([0x28, 0xB5, 0x2F, 0xFD]) == 0xFD2FB528
  {
    var a: bytes := [0x28, 0xB5, 0x2F, 0xFD];
    assert a[1..] == [0xB5, 0x2F, 0xFD] && a[1..][1..] == [0x2F, 0xFD] && a[1..][1..][1..] == [0xFD];
    assert a[1..][1..][1..][1..] == [];
    assert FromLe([0xFD]) == 0xFD;
    assert FromLe([0x2F, 0xFD]) == 0xFD2F;
    assert FromLe([0xB5, 0x2F, 0xFD]) == 0xFD2FB5;
  }

  /** What opening an input gives, by the bytes it starts with: "DBN" is a plain
      stream, 28 B5 2F FD is a compressed one, which has to hold "DBN", and the
      others are told apart by the bits 50 2A 4D 18 of skippable frames. */
  lemma OpenedExactly(input: bytes, inflate: bytes -> bytes)
    ensures |input| < 4 ==> StreamIn(input, inflate) == Err(NoMagic)
    ensures |input| >= 4 && input[..3] == [0x44, 0x42, 0x4E] ==> StreamIn(input, inflate) == Ok(input)
    ensures |input| >= 4 && input[..4] == [0x28, 0xB5, 0x2F, 0xFD] ==>
              var s := inflate(input);
              StreamIn(input, inflate) ==
              if |s| < 4 then Err(NoMagic)
              else if s[..3] == [0x44, 0x42, 0x4E] then Ok(s)
              else Err(ZstdWithoutDbn)
    ensures |input| >= 4 && input[..3] != [0x44, 0x42, 0x4E] && input[..4] != [0x28, 0xB5, 0x2F, 0xFD] ==>
              StreamIn(input, inflate) ==
              if HasBits(input[0], 0x50) && HasBits(input[1], 0x2A) && HasBits(input[2], 0x4D)
                 && HasBits(input[3], 0x18)
              then Err(LegacyDbz) else Err(Unrecognized)
  {
    hide HasBits;
    if |input| >= 4 {
      ZstdMagic(input);
      assert input[..4][..3] == input[..3];
    }
  }

  lemma {:induction false} HasOwnBits(mask: nat)
    ensures HasBits(mask, mask)
  {
    if mask == 0 {
    } else {
      HasOwnBits(mask / 2);
    }
  }

  /** Every skippable Zstandard frame is taken for the legacy encoding. */
  lemma SkippableIsLegacy(k: nat, rest: bytes, inflate: bytes -> bytes)
    requires k < 16
    ensures StreamIn([0x50 + k, 0x2A, 0x4D, 0x18] + rest, inflate) == Err(LegacyDbz)
  {
    var input: bytes := [0x50 + k, 0x2A, 0x4D, 0x18] + rest;
    assert input[0] == 0x50 + k && input[1] == 0x2A && input[2] == 0x4D && input[3] == 0x18;
    HasOwnBits(0x2A);
    HasOwnBits(0x4D);
    HasOwnBits(0x18);
    LowBits(k);
    OpenedExactly(input, inflate);
    assert input[..3][0] != 0x44 && input[..4][0] != 0x28;
  }

  lemma LowBits(k: nat)
    requires k < 16
    ensures HasBits(0x50 + k, 0x50)
  {
    assert (0x50 + k) / 2 / 2 / 2 / 2 == 5;
    HasOwnBits(5);
    assert HasBits((0x50 + k) / 2 / 2 / 2, 0xA);
    assert HasBits((0x50 + k) / 2 / 2, 0x14);
    assert HasBits((0x50 + k) / 2, 0x28);
  }

  class DbnDecoder {
    const cfg: Config
    const buffer: Buffer
    var input: ByteSource
    var version: u8
    var needsUpgrade: bool
    var tsOut: bool
    var warnings: nat
    /** The records handed out, as they were on the wire, and where in the buffer
        each of them lay. */
    ghost var raw: seq<bytes>
    ghost var offsets: seq<nat>

    ghost predicate Valid()
      reads this, buffer
    {
      buffer.Valid() && buffer.buf.Length >= DEFAULT_BUF_SIZE
    }

    /** What is left of the stream: the unread bytes and those not yet read. */
    ghost function Remaining(): bytes
      requires buffer.Valid()
      reads this, buffer, buffer.buf, input
    {
      buffer.Unread() + input.pending
    }

    constructor (cfg: Config, input: ByteSource)
      ensures Valid() && this.cfg == cfg && this.input == input
      ensures fresh(buffer) && fresh(buffer.buf) && raw == [] && offsets == []
      ensures buffer.readPos == 0 && buffer.writePos == 0 && buffer.buf.Length == DEFAULT_BUF_SIZE
    {
      this.cfg, this.input := cfg, input;
      buffer := new Buffer(DEFAULT_BUF_SIZE);
      version, needsUpgrade, tsOut, warnings := 0, true, false, 0;
      raw, offsets := [], [];
    }

    /** If all records so far span an even number of words, each of them was
        handed out at an offset divisible by 8, and so will the next one be. */
    ghost predicate Aligned()
      reads this, buffer
    {
      && |offsets| == |raw|
      && (EvenWords(raw) ==> buffer.readPos % 8 == 0 && forall o <- offsets :: o % 8 == 0)
    }

    /** The part of construction that looks at the input: reads the magic bytes
        and puts the decompressor in between when they ask for it. */
    method DetectCompression(inflate: bytes -> bytes) returns (error: Option<OpenError>)
      requires Valid() && buffer.readPos == 0 && buffer.writePos == 0 && buffer.buf.Length == DEFAULT_BUF_SIZE
      modifies this`input, input, buffer, buffer.buf
      ensures buffer.buf == old(buffer.buf) && Valid()
      ensures input == old(input) || fresh(input)
      ensures match StreamIn(old(input.pending), inflate)
              case Err(e) => error == Some(e)
              case Ok(s) =>
                && error == None && Remaining() == s
                && |buffer.Unread()| == MAGIC_SIZE && buffer.writePos <= 2 * MAGIC_SIZE
      ensures StartsDbn(old(input.pending)) ==> buffer.writePos == MAGIC_SIZE
    {
      hide HasBits;
      ghost var all := input.pending;
      var ok := ReadExactInto(input, buffer, MAGIC_SIZE);
      if !ok {
        return Some(NoMagic);
      }
      var magic := buffer.Unread();
      assert magic == all[..4] && input.pending == all[4..];
      assert magic[..3] == all[..3] && magic[0..4] == all[0..4];
      assert magic + input.pending == all;
      if magic[..3] == DBN_PREFIX {
        return None;
      }
      if U32At(magic, 0) != ZSTD_MAGIC_NUMBER {
        return Some(if IsSkippable(magic) then LegacyDbz else Unrecognized);
      }
      buffer.Consume(MAGIC_SIZE);
      input := new ByteSource(inflate(magic + input.pending));
      ghost var inflated := input.pending;
      ok := ReadExactInto(input, buffer, MAGIC_SIZE);
      if !ok {
        return Some(NoMagic);
      }
      assert buffer.Unread() == inflated[..4];
      assert buffer.Unread() + input.pending == inflated;
      assert inflated[..4][..3] == inflated[..3];
      if buffer.Unread()[..3] != DBN_PREFIX {
        return Some(ZstdWithoutDbn);
      }
      return None;
    }

    /** `Reserve` compares with the total capacity, so a frame has room only if
        it fits behind the prelude or forces a new allocation. */
    ghost predicate FrameHasRoom()
      requires Valid()
      reads this, buffer, buffer.buf, input
    {
      var s := Remaining();
      HeaderUsable(s) &&
      (|s| >= 8 && HeaderOf(s).Ok? ==>
         Fits(buffer.buf.Length, buffer.writePos + 4, 0, HeaderOf(s).value.frameSize))
    }

    method DecodeMetadata() returns (r: Result<Metadata, DecodeError>)
      requires Valid() && |buffer.Unread()| == MAGIC_SIZE && buffer.writePos <= 2 * MAGIC_SIZE && FrameHasRoom()
      modifies this`version, this`needsUpgrade, this`tsOut, input, buffer, buffer.buf
      ensures Valid() && (buffer.buf == old(buffer.buf) || fresh(buffer.buf))
      ensures match MetadataOf(old(Remaining()))
              case Err(e) => r == Err(e)
              case Ok((h, m)) =>
                && r == Ok(Upgrade(m, cfg.policy))
                && version == h.version && needsUpgrade == NeedsUpgrade(cfg.policy, version) && tsOut == m.tsOut
                && Remaining() == old(Remaining())[8..][h.frameSize..]
                && buffer.readPos == 0
    {
      hide DecodeVersionAndSize, DecodeFields;
      ghost var s := Remaining();
      assert |s| >= 4;
      var readSize := METADATA_PRELUDE_SIZE - MAGIC_SIZE;
      var ok := ReadExactInto(input, buffer, readSize);
      if !ok {
        return Err(EndOfInput);
      }
      var prelude := buffer.Unread();
      assert prelude == s[..8] && prelude + input.pending == s;
      var header := DecodeVersionAndSize(prelude);
      if header.Err? {
        return Err(header.error);
      }
      var size := header.value.frameSize;
      buffer.Consume(METADATA_PRELUDE_SIZE);
      version := header.value.version;
      needsUpgrade := NeedsUpgrade(cfg.policy, version);
      assert input.pending == s[8..] && buffer.Unread() == [];
      r := DecodeFrame(header.value.frameSize);
    }

    /** The rest of `DecodeMetadata`, once the header is consumed. */
    method DecodeFrame(size: u32) returns (r: Result<Metadata, DecodeError>)
      requires Valid() && buffer.Unread() == [] && size >= 104
      requires Fits(buffer.buf.Length, buffer.writePos, 0, size)
      modifies this`tsOut, input, buffer, buffer.buf
      ensures Valid() && (buffer.buf == old(buffer.buf) || fresh(buffer.buf))
      ensures |old(input.pending)| < size ==> r == Err(EndOfInput)
      ensures |old(input.pending)| >= size ==>
                var fields := DecodeFields(version, old(input.pending)[..size]);
                && (fields.Err? ==> r == Err(fields.error))
                && (fields.Ok? ==> r == Ok(Upgrade(fields.value, cfg.policy)) && tsOut == fields.value.tsOut
                                   && Remaining() == old(input.pending)[size..] && buffer.readPos == 0)
    {
      hide DecodeFields;
      ghost var rest := input.pending;
      ReserveFrame(buffer, size);
      var ok := ReadExactInto(input, buffer, size);
      if !ok {
        return Err(EndOfInput);
      }
      var frame := buffer.Unread();
      assert frame == rest[..size];
      var m := DecodeMetadataFields(version, frame);
      if m.Err? {
        return Err(m.error);
      }
      buffer.Consume(size);
      buffer.Shift();
      assert buffer.Unread() == [];
      assert [] + input.pending == rest[size..];
      tsOut := m.value.tsOut;
      return Ok(Upgrade(m.value, cfg.policy));
    }

    /** Nothing is read exactly at the end of the input, because a buffer that
        holds less than a record always has space. */
    method FillBuffer() returns (fillSize: nat)
      requires Valid() && |buffer.Unread()| < DEFAULT_BUF_SIZE
      modifies input, buffer, buffer.buf
      ensures Valid() && buffer.buf == old(buffer.buf)
      ensures Remaining() == old(Remaining())
      ensures fillSize == 0 <==> old(input.pending) == []
      ensures fillSize == 0 ==> input.pending == [] && buffer.Unread() == old(buffer.Unread())
      ensures |input.pending| == |old(input.pending)| - fillSize
      ensures |buffer.Unread()| == |old(buffer.Unread())| + fillSize
      ensures buffer.readPos == 0 || buffer.readPos == old(buffer.readPos)
    {
      buffer.ShiftForSpace(MAX_RECORD_LEN);
      ghost var unread, pending := buffer.Unread(), input.pending;
      fillSize := ReadInto(input, buffer);
      Rejoin(unread, pending, fillSize);
    }

    /** Reads until a whole record is buffered or the input ends. */
    method AwaitRecord() returns (complete: bool)
      requires Valid()
      requires Remaining() != [] ==> Remaining()[0] != 0
      modifies this`warnings, input, buffer, buffer.buf
      ensures Valid() && buffer.buf == old(buffer.buf) && Remaining() == old(Remaining())
      ensures buffer.readPos == 0 || buffer.readPos == old(buffer.readPos)
      ensures complete ==> Complete(buffer.Unread()) && warnings == old(warnings)
      ensures !complete ==> !Complete(Remaining())
                            && warnings == old(warnings) + (if Remaining() == [] then 0 else 1)
    {
      ghost var s := Remaining();
      if buffer.ReadCapacity() == 0 {
        var n := FillBuffer();
        if n == 0 {
          assert s == [];
          return false;
        }
      }
      while buffer.ReadCapacity() < SizeOf(buffer.Unread())
        invariant Valid() && buffer.buf == old(buffer.buf) && Remaining() == s
        invariant 0 < buffer.ReadCapacity()
        invariant buffer.readPos == 0 || buffer.readPos == old(buffer.readPos)
        invariant warnings == old(warnings)
        decreases |input.pending|
      {
        assert buffer.Unread()[0] == s[0];
        var n := FillBuffer();
        if n == 0 {
          assert buffer.Unread() + [] == buffer.Unread() == s;
          if buffer.ReadCapacity() > 0 {
            warnings := warnings + 1;
          }
          return false;
        }
      }
      assert buffer.Unread()[0] == s[0];
      return true;
    }

    /** The next record of the stream, upgraded as the policy asks; or none,
        when the rest of the stream holds no whole record. */
    method DecodeRecord() returns (r: Option<bytes>)
      requires Valid()
      requires Remaining() != [] ==> Remaining()[0] != 0
      requires needsUpgrade == NeedsUpgrade(cfg.policy, version)
      modifies this`warnings, this`raw, this`offsets, input, buffer, buffer.buf
      ensures Valid() && buffer.buf == old(buffer.buf)
      ensures r.Some? <==> Complete(old(Remaining()))
      ensures r.Some? ==> r.value == View(cfg, version, tsOut, Head(old(Remaining())))
      ensures r.Some? ==> Remaining() == old(Remaining())[SizeOf(old(Remaining()))..] && warnings == old(warnings)
      ensures r.None? ==>
                Remaining() == old(Remaining()) && warnings == old(warnings) + (if Remaining() == [] then 0 else 1)
      ensures raw == old(raw) + if r.Some? then [Head(old(Remaining()))] else []
      ensures r.Some? ==> offsets != [] && offsets[..|offsets| - 1] == old(offsets)
                          && offsets[|offsets| - 1] + SizeOf(old(Remaining())) == buffer.readPos
      ensures old(Aligned()) ==> Aligned()
    {
      hide View, Complete, Head, EvenWords, SizeOf, NeedsUpgrade;
      var complete := AwaitRecord();
      if !complete {
        return None;
      }
      HeadOfPrefix(buffer.Unread(), input.pending);
      var currentRecord := TakeRecord();
      return Some(currentRecord);
    }

    /** Takes the record that is complete in the buffer. */
    method TakeRecord() returns (currentRecord: bytes)
      requires Valid() && Complete(buffer.Unread()) && needsUpgrade == NeedsUpgrade(cfg.policy, version)
      modifies this`raw, this`offsets, buffer`readPos
      ensures Valid() && currentRecord == View(cfg, version, tsOut, Head(old(buffer.Unread())))
      ensures buffer.Unread() == old(buffer.Unread())[SizeOf(old(buffer.Unread()))..]
      ensures raw == old(raw) + [Head(old(buffer.Unread()))]
      ensures offsets == old(offsets) + [old(buffer.readPos)]
      ensures buffer.readPos == old(buffer.readPos) + SizeOf(old(buffer.Unread()))
      ensures old(Aligned()) ==> Aligned()
    {
      hide View, Complete, Head, EvenWords, SizeOf, NeedsUpgrade;
      RecordHead(buffer.Unread());
      var size := SizeOf(buffer.Unread());
      currentRecord := buffer.Unread()[..size];
      ghost var aligned := Aligned();
      if aligned {
        NextAligned(raw, offsets, buffer.readPos, currentRecord);
        AddAligned(buffer.readPos, size);
      }
      raw, offsets := raw + [currentRecord], offsets + [buffer.readPos];
      buffer.Consume(size);
      ViewIs(cfg, version, tsOut, currentRecord);
      if needsUpgrade {
        currentRecord := cfg.compat(version, cfg.policy, tsOut, currentRecord);
      }
    }
  }

  lemma Rejoin(unread: bytes, pending: bytes, n: nat)
    requires n <= |pending|
    ensures (unread + pending[..n]) + pending[n..] == unread + pending
  {
  }

  lemma AddAligned(pos: nat, size: nat)
    ensures pos % 8 == 0 && size % 8 == 0 ==> (pos + size) % 8 == 0
  {
  }

  lemma HeadOfPrefix(s: bytes, e: bytes)
    requires Complete(s)
    ensures Complete(s + e) && Head(s + e) == Head(s) && SizeOf(s + e) == SizeOf(s)
    ensures (s + e)[SizeOf(s)..] == s[SizeOf(s)..] + e
  {
    assert (s + e)[0] == s[0];
    assert (s + e)[..SizeOf(s)] == s[..SizeOf(s)];
  }

  datatype ReplayResult = Finished | StoppedByCallback | ReplayFailed(error: DecodeError)

  lemma OneShotWithMetadata(cfg: Config, s: bytes)
    requires HeaderUsable(s) && MetadataOf(s).Ok?
    ensures var (h, m) := MetadataOf(s).value;
            && HeaderRead(s, h.version, h.frameSize) && |s[8..]| >= h.frameSize
            && DecodeFields(h.version, s[8..][..h.frameSize]) == Ok(m)
            && OneShot(cfg, s) == Records(cfg, h.version, m, s[8..][h.frameSize..])
  {
    hide DecodeFields, Records;
  }

  /** The loop of `Replay`: from just behind the metadata to the end of the
      stream or the first stop. */
  method ReplayRecords(decoder: DbnDecoder, metadata: Metadata, ghost s: bytes, ghost h: Header, ghost m: Metadata)
    returns (events: seq<Event>, result: ReplayResult)
    requires decoder.Valid()
    requires HeaderRead(s, h.version, h.frameSize) && |s[8..]| >= h.frameSize
    requires DecodeFields(h.version, s[8..][..h.frameSize]) == Ok(m) && !Stuck(s[8..][h.frameSize..])
    requires decoder.Remaining() == s[8..][h.frameSize..] && metadata == Upgrade(m, decoder.cfg.policy)
    requires decoder.version == h.version && decoder.tsOut == m.tsOut
    requires decoder.needsUpgrade == NeedsUpgrade(decoder.cfg.policy, h.version)
    requires decoder.raw == [] && decoder.Aligned()
    modifies decoder`warnings, decoder`raw, decoder`offsets, decoder.input, decoder.buffer, decoder.buffer.buf
    ensures decoder.Valid() && HeaderUsable(s) && !result.ReplayFailed?
    ensures events == OneShot(decoder.cfg, s).events
    ensures result.Finished? ==> OneShot(decoder.cfg, s).outcome == More(decoder.Remaining())
    ensures result.StoppedByCallback? ==> OneShot(decoder.cfg, s).outcome == Stopped
    ensures decoder.Aligned() && |events| == 1 + |decoder.raw|
  {
    hide DecodeFields, OneShot, Stuck, Views, View, FrameRead, Called, Complete, HeaderRead, Head, HeaderUsable,
        EvenWords;
    var cfg := decoder.cfg;
    FrameReadStart(cfg, s, h.version, h.frameSize, m);
    events := [OnMetadata(metadata)];
    var shown := [];
    while true
      invariant decoder.Valid() && decoder.Aligned() && decoder.buffer.buf == old(decoder.buffer.buf)
      invariant |events| == 1 + |decoder.raw|
      invariant FrameRead(cfg, s, h.version, h.frameSize, m, decoder.raw, decoder.Remaining())
      invariant shown == Views(cfg, h.version, m.tsOut, decoder.raw) && events == Called(cfg, h.version, m, decoder.raw)
      decreases |decoder.Remaining()|
    {
      ghost var before, raw := decoder.Remaining(), decoder.raw;
      ReaderNotStuck(cfg, s, h.version, h.frameSize, m, raw, before);
      var record := decoder.DecodeRecord();
      if record.None? {
        FrameReadSettled(cfg, s, h.version, h.frameSize, m, raw, before);
        return events, Finished;
      }
      RecordHead(before);
      events := events + [OnRecord(record.value)];
      shown := shown + [record.value];
      if !cfg.keepGoing(shown) {
        FrameReadStopped(cfg, s, h.version, h.frameSize, m, raw, before);
        return events, StoppedByCallback;
      }
      FrameReadStep(cfg, s, h.version, h.frameSize, m, raw, before);
      ViewsSnoc(cfg, h.version, m.tsOut, raw, Head(before));
    }
  }

  /** Replaying a store makes the callbacks that reading its stream in one go
      makes, so a pull reader and a push reader of the same bytes agree. */
  method Replay(decoder: DbnDecoder) returns (events: seq<Event>, result: ReplayResult)
    requires decoder.Valid() && |decoder.buffer.Unread()| == MAGIC_SIZE && decoder.buffer.writePos <= 2 * MAGIC_SIZE
    requires decoder.FrameHasRoom()
    requires NeverStuck(decoder.Remaining()) && decoder.raw == [] && decoder.offsets == []
    modifies decoder`version, decoder`needsUpgrade, decoder`tsOut, decoder`warnings, decoder`raw, decoder`offsets,
        decoder.input, decoder.buffer, decoder.buffer.buf
    ensures HeaderUsable(old(decoder.Remaining()))
    ensures MetadataOf(old(decoder.Remaining())).Err? ==>
              events == [] && result == ReplayFailed(MetadataOf(old(decoder.Remaining())).error)
    ensures MetadataOf(old(decoder.Remaining())).Ok? ==>
              && decoder.Valid() && !result.ReplayFailed?
              && decoder.Aligned() && |events| == 1 + |decoder.raw|
              && events == OneShot(decoder.cfg, old(decoder.Remaining())).events
              && (result.Finished? ==>
                  OneShot(decoder.cfg, old(decoder.Remaining())).outcome == More(decoder.Remaining()))
              && (result.StoppedByCallback? ==> OneShot(decoder.cfg, old(decoder.Remaining())).outcome == Stopped)
  {
    hide MetadataOf, OneShot, Stuck, HeaderRead, HeaderUsable, DecodeFields, NeverStuck;
    ghost var s := decoder.Remaining();
    RoomMeansUsable(decoder);
    var metadata := decoder.DecodeMetadata();
    if metadata.Err? {
      return [], ReplayFailed(metadata.error);
    }
    OneShotWithMetadata(decoder.cfg, s);
    NeverStuckIs(s);
    ghost var (h, m) := MetadataOf(s).value;
    events, result := ReplayRecords(decoder, metadata.value, s, h, m);
  }

  /** No record of the stream claims to be empty. */
  predicate NeverStuck(s: bytes) {
    HeaderUsable(s) && (MetadataOf(s).Ok? ==>
      |s| >= 8 && |s[8..]| >= MetadataOf(s).value.0.frameSize && !Stuck(s[8..][MetadataOf(s).value.0.frameSize..]))
  }

  lemma NeverStuckIs(s: bytes)
    requires NeverStuck(s) && MetadataOf(s).Ok?
    ensures |s| >= 8 && |s[8..]| >= MetadataOf(s).value.0.frameSize && !Stuck(s[8..][MetadataOf(s).value.0.frameSize..])
  {
  }

  lemma RoomMeansUsable(decoder: DbnDecoder)
    requires decoder.Valid() && decoder.FrameHasRoom()
    ensures HeaderUsable(decoder.Remaining())
  {
  }

  lemma ReaderNotStuck(cfg: Config, taken: bytes, version: u8, frameSize: nat, m: Metadata, raw: seq<bytes>,
      unread: bytes)
    requires FrameRead(cfg, taken, version, frameSize, m, raw, unread) && !Stuck(taken[8..][frameSize..])
    ensures unread != [] ==> unread[0] != 0
  {
    hide DecodeFields, Views, Stuck;
    NotStuckHead(raw, unread);
  }
}
