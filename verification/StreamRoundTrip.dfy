/** Writing a stream and reading it back. */
module StreamRoundTrip {
  import opened Bytes
  import opened Constants
  import opened Metadatas
  import opened MetadataEncoding
  import opened MetadataDecoding
  import opened MetadataRoundTrip
  import opened FrameRoundTrip
  import opened Frames
  import opened StreamSpec
  import opened ReaderProgress
  import opened Buffers
  import opened Sources
  import opened PullDecoding
  import UpgradeMeaning

  method EncodeRecord(record: bytes, output: Sink)
    requires Complete(record)
    modifies output
    ensures output.contents == old(output.contents) + Head(record)
  {
    output.WriteAll(record[..SizeOf(record)]);
  }

  /** The metadata and records a writer can put into one stream: accepted by the
      encoder, with a frame length that fits 32 bits. */
  predicate Writable(m: Metadata, rs: seq<bytes>) {
    && Encodable(m) && WidthFits(m) && FrameLength(m) < 0x1_0000_0000
    && AllWellFormed(rs)
  }

  function StreamOf(m: Metadata, rs: seq<bytes>): bytes
    requires Writable(m, rs)
  {
    Encode(m) + Concat(rs)
  }

  /** The parts of a written stream as a reader finds them. */
  lemma WrittenParts(m: Metadata, rs: seq<bytes>)
    requires Writable(m, rs)
    ensures var s := StreamOf(m, rs); var n := CalcLength(m).0;
            && |s| >= 8 && HeaderOf(s) == Ok(Header(WireVersion(m), n)) && n >= 104
            && |s[8..]| >= n && s[8..][..n] == Body(m) && s[8..][n..] == Concat(rs)
            && DecodeFields(WireVersion(m), Body(m)) == Ok(Normalize(m))
  {
    hide *;
    assert FIXED_METADATA_LEN <= 104 by { FixedPartLength(); }
    WritableParts(m, rs);
    DeclaredLength(m);
    LengthBoundsCounts(m);
    StreamParts(m, Concat(rs));
    FrameHeader(m);
    FrameBack(m, []);
    assert Body(m) + [] == Body(m);
    Halves(Body(m), Concat(rs));
    HeaderHere(StreamOf(m, rs));
  }

  lemma WritableParts(m: Metadata, rs: seq<bytes>)
    requires Writable(m, rs)
    ensures Encodable(m) && WidthFits(m) && FrameLength(m) < 0x1_0000_0000 && AllWellFormed(rs)
    ensures StreamOf(m, rs) == Encode(m) + Concat(rs)
  {
  }

  lemma FixedPartLength()
    ensures FIXED_METADATA_LEN == 100
  {
  }

  lemma HeaderHere(s: bytes)
    requires |s| >= 8
    ensures HeaderOf(s) == DecodeVersionAndSize(s[..8])
  {
  }

  /** Reading back any written stream, followed by any tail without a whole
      record: the normalized metadata, then the records in order until the
      callback stops, under any upgrade policy. */
  lemma WrittenStreamReads(cfg: Config, m: Metadata, rs: seq<bytes>, tail: bytes)
    requires Writable(m, rs) && !Complete(tail)
    ensures HeaderUsable(StreamOf(m, rs) + tail)
    ensures var n := Normalize(m);
            var d := Deliver([], Views(cfg, WireVersion(m), n.tsOut, rs), cfg.keepGoing);
            OneShot(cfg, StreamOf(m, rs) + tail) ==
            Trace([OnMetadata(Upgrade(n, cfg.policy))] + OnRecords(d.seen), if d.stopped then Stopped else More(tail))
  {
    hide Body, CalcLength, Normalize, DecodeFields, DecodeVersionAndSize, Views, Deliver, OnRecords, Writable,
        ParseRecords;
    WrittenParts(m, rs);
    var s := StreamOf(m, rs);
    var n := CalcLength(m).0;
    HeaderExtend(s, tail);
    assert (s[8..] + tail)[..n] == s[8..][..n];
    assert (s[8..] + tail)[n..] == Concat(rs) + tail;
    WritableRecords(m, rs);
    ParseUnique(rs, tail);
  }

  lemma WritableRecords(m: Metadata, rs: seq<bytes>)
    requires Writable(m, rs)
    ensures AllWellFormed(rs)
  {
  }

  /** The whole-stream round trip: decoding as is with a callback that never
      stops gives back the metadata, then the records, then nothing. */
  lemma WholeStreamRoundTrip(cfg: Config, m: Metadata, rs: seq<bytes>)
    requires Writable(m, rs) && Faithful(m)
    requires cfg.policy == AsIs && forall seen :: cfg.keepGoing(seen)
    ensures HeaderUsable(StreamOf(m, rs))
    ensures OneShot(cfg, StreamOf(m, rs)) == Trace([OnMetadata(m)] + OnRecords(rs), More([]))
  {
    hide StreamOf, OneShot, Normalize, Faithful, Writable, HeaderUsable;
    var s := StreamOf(m, rs);
    WrittenStreamReads(cfg, m, rs, []);
    assert s + [] == s;
    NormalizeIdentity(m);
    var v := Views(cfg, WireVersion(m), m.tsOut, rs);
    assert v == rs;
    DeliverAll(v, cfg.keepGoing);
  }

  /** The same under any policy: the metadata move to the version of the upgraded
      records and to its symbol width, and each record is upgraded, exactly when
      the policy asks for a later version than the stream's. */
  lemma UpgradedStreamRoundTrip(cfg: Config, m: Metadata, rs: seq<bytes>)
    requires Writable(m, rs) && Faithful(m)
    requires forall seen :: cfg.keepGoing(seen)
    ensures HeaderUsable(StreamOf(m, rs))
    ensures var target := (match cfg.policy case AsIs => m.version
                                            case UpgradeToV2 => Max(2, m.version)
                                            case UpgradeToV3 => Max(3, m.version));
            var moved := target != m.version;
            OneShot(cfg, StreamOf(m, rs)) ==
            Trace([OnMetadata(m.(version := target, symbolCstrLen := if moved then 71 else m.symbolCstrLen))]
                  + OnRecords(seq(|rs|, i requires 0 <= i < |rs| =>
                      if moved then cfg.compat(m.version, cfg.policy, m.tsOut, rs[i]) else rs[i])),
                  More([]))
  {
    hide StreamOf, OneShot, Normalize, Faithful, Writable, HeaderUsable, OnRecords;
    var s := StreamOf(m, rs);
    WrittenStreamReads(cfg, m, rs, []);
    assert s + [] == s;
    NormalizeIdentity(m);
    FaithfulVersion(m);
    var v := Views(cfg, WireVersion(m), m.tsOut, rs);
    DeliverAll(v, cfg.keepGoing);
    UpgradeMeaning.MetadataMatchRecords(m, cfg.policy);
    var target := Upgrade(m, cfg.policy).version;
    assert v == seq(|rs|, i requires 0 <= i < |rs| =>
      if target != m.version then cfg.compat(m.version, cfg.policy, m.tsOut, rs[i]) else rs[i]);
  }

  /** Writes a frame and its records to a sink. */
  method WriteStream(m: Metadata, rs: seq<bytes>) returns (written: bytes)
    requires Writable(m, rs)
    ensures written == StreamOf(m, rs)
  {
    hide Encode, Concat, Encodable, WidthFits, FrameLength, Head, SizeOf, WellFormed;
    var output := new Sink();
    var status := EncodeMetadata(m, output);
    assert status.Encoded?;
    var i := 0;
    assert output.contents == Encode(m) + Concat([]) by {
      ConcatNone();
      assert [] + Encode(m) == Encode(m) + [] == Encode(m);
    }
    while i < |rs|
      invariant 0 <= i <= |rs|
      invariant output.contents == Encode(m) + Concat(rs[..i])
    {
      WellFormedHead(rs[i]);
      EncodeRecord(rs[i], output);
      ConcatSnoc(rs[..i], rs[i]);
      assert rs[..i] + [rs[i]] == rs[..i + 1];
      Regroup(Encode(m), Concat(rs[..i]), rs[i]);
      i := i + 1;
    }
    assert rs[..i] == rs;
    return output.contents;
  }

  /** There is room for the frame behind the bytes that opening and the header use
      up in a new buffer. */
  predicate RoomFor(m: Metadata, used: nat) {
    CalcLength(m).0 <= DEFAULT_BUF_SIZE - used || CalcLength(m).0 > DEFAULT_BUF_SIZE
  }

  /** Opens an input and replays the stream in it. */
  method OpenAndReplay(cfg: Config, input: bytes, inflate: bytes -> bytes, ghost m: Metadata, ghost rs: seq<bytes>)
    returns (events: seq<Event>)
    requires Writable(m, rs) && Faithful(m)
    requires StreamIn(input, inflate) == Ok(StreamOf(m, rs))
    requires RoomFor(m, if StartsDbn(input) then 8 else 12)
    requires cfg.policy == AsIs && forall seen :: cfg.keepGoing(seen)
    ensures events == [OnMetadata(m)] + OnRecords(rs)
  {
    hide StreamOf, StreamIn, Concat, OneShot, Faithful, Writable, CalcLength, MetadataOf, Views, Stuck, StartsDbn;
    ghost var s := StreamOf(m, rs);
    var source := new ByteSource(input);
    var decoder := new DbnDecoder(cfg, source);
    var error := decoder.DetectCompression(inflate);
    assert error == None && decoder.Remaining() == s;
    ReadyToReplay(decoder, m, rs);
    WholeStreamRoundTrip(cfg, m, rs);
    var result;
    events, result := Replay(decoder);
  }

  /** End to end: what is written to a file and replayed comes back. */
  method WriteThenReplay(cfg: Config, m: Metadata, rs: seq<bytes>) returns (events: seq<Event>)
    requires Writable(m, rs) && Faithful(m) && RoomFor(m, 8)
    requires cfg.policy == AsIs && forall seen :: cfg.keepGoing(seen)
    ensures events == [OnMetadata(m)] + OnRecords(rs)
  {
    hide StreamOf, Faithful, Writable, RoomFor;
    var written := WriteStream(m, rs);
    StartsWithMagic(m, rs);
    OpenedExactly(written, x => x);
    events := OpenAndReplay(cfg, written, x => x, m, rs);
  }

  /** The same through a compressor, known by the bytes its output starts with and
      by what the decompressor makes of that output. */
  method CompressThenReplay(cfg: Config, m: Metadata, rs: seq<bytes>, deflate: bytes -> bytes, inflate: bytes -> bytes)
    returns (events: seq<Event>)
    requires Writable(m, rs) && Faithful(m) && RoomFor(m, 12)
    requires var packed := deflate(StreamOf(m, rs));
             |packed| >= 4 && packed[..4] == [0x28, 0xB5, 0x2F, 0xFD] && inflate(packed) == StreamOf(m, rs)
    requires cfg.policy == AsIs && forall seen :: cfg.keepGoing(seen)
    ensures events == [OnMetadata(m)] + OnRecords(rs)
  {
    hide StreamOf, Faithful, Writable, RoomFor;
    var written := WriteStream(m, rs);
    var packed := deflate(written);
    StartsWithMagic(m, rs);
    OpenedExactly(packed, inflate);
    assert packed[..3][0] == packed[..4][0] == 0x28;
    events := OpenAndReplay(cfg, packed, inflate, m, rs);
  }

  lemma WellFormedHead(r: bytes)
    requires WellFormed(r)
    ensures Complete(r) && Head(r) == r
  {
  }

  lemma StartsWithMagic(m: Metadata, rs: seq<bytes>)
    requires Writable(m, rs)
    ensures StartsDbn(StreamOf(m, rs))
  {
    hide Body, CalcLength, Concat;
    var s := StreamOf(m, rs);
    assert s == DBN_PREFIX + ([WireVersion(m)] + (Le(CalcLength(m).0, 4) + (Body(m) + Concat(rs))));
  }

  lemma ReadyToReplay(decoder: DbnDecoder, m: Metadata, rs: seq<bytes>)
    requires Writable(m, rs) && decoder.Valid() && decoder.Remaining() == StreamOf(m, rs)
    requires |decoder.buffer.Unread()| == MAGIC_SIZE && decoder.buffer.writePos <= 2 * MAGIC_SIZE
    requires decoder.buffer.buf.Length == DEFAULT_BUF_SIZE && RoomFor(m, decoder.buffer.writePos + 4)
    ensures decoder.FrameHasRoom() && NeverStuck(decoder.Remaining())
    ensures MetadataOf(decoder.Remaining()).Ok?
  {
    hide Body, CalcLength, Normalize, DecodeFields, DecodeVersionAndSize, ParseRecords, StreamOf, Writable;
    WrittenParts(m, rs);
    WritableRecords(m, rs);
    ParseUnique(rs, []);
    assert Concat(rs) + [] == Concat(rs);
  }
}
