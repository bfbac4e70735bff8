/** The push decoder and the pull decoder on the same stream. */
module PushPullAgreement {
  import opened Bytes
  import opened Constants
  import opened Metadatas
  import opened MetadataDecoding
  import opened Frames
  import opened StreamSpec
  import opened Buffers
  import opened Sources
  import opened FrameRoom
  import Push = PushDecoding
  import Pull = PullDecoding

  lemma AdmissibleNeverStuck(s: bytes)
    requires Admissible(s)
    ensures HeaderUsable(s) && Pull.NeverStuck(s)
  {
    hide DecodeFields, DecodeVersionAndSize, Stuck;
  }

  /** A stream without metadata causes no callback. */
  lemma NoMetadataNoEvents(cfg: Config, s: bytes)
    requires HeaderUsable(s) && MetadataOf(s).Err?
    ensures OneShot(cfg, s).events == [] && !OneShot(cfg, s).outcome.Stopped?
    ensures OneShot(cfg, s).outcome == Failed(MetadataOf(s).error)
            || (OneShot(cfg, s).outcome.More? && MetadataOf(s) == Err(EndOfInput))
  {
    hide DecodeFields, DecodeVersionAndSize;
  }

  /** A frame of this stream can be read by a new decoder. */
  predicate HasRoom(s: bytes) {
    |s| >= METADATA_PRELUDE_SIZE && HeaderOf(s).Ok? ==>
      Fits(DEFAULT_BUF_SIZE, METADATA_PRELUDE_SIZE, 0, HeaderOf(s).value.frameSize)
  }

  lemma NewDecoderHasRoom(decoder: Pull.DbnDecoder, s: bytes)
    requires HasRoom(s) && HeaderUsable(s) && decoder.Valid() && decoder.Remaining() == s
    requires decoder.buffer.writePos == MAGIC_SIZE && decoder.buffer.buf.Length == DEFAULT_BUF_SIZE
    ensures decoder.FrameHasRoom()
  {
    hide DecodeVersionAndSize;
  }

  /** Whatever the chunks the one gets and the pieces the other reads, the two
      make the same callbacks, upgraded records included, and end alike: only of
      a stream that ends before its metadata does the one wait for more while
      the other fails. */
  method ReadBothWays(cfg: Config, chunks: seq<bytes>)
    returns (pushed: seq<Event>, pushEnd: Push.RangeResult, pulled: seq<Event>, pullEnd: Pull.ReplayResult)
    requires Admissible(Concat(chunks)) && Pull.StartsDbn(Concat(chunks)) && HasRoom(Concat(chunks))
    ensures pushed == pulled
    ensures pullEnd.Finished? ==> pushEnd.Finished?
    ensures pullEnd.StoppedByCallback? ==> pushEnd.EarlyExit?
    ensures pullEnd.ReplayFailed? ==>
              pushEnd == Push.RangeFailed(pullEnd.error) || (pushEnd.Finished? && pullEnd.error == EndOfInput)
  {
    hide Admissible, OneShot, HeaderUsable, Concat, MetadataOf, HasRoom, Pull.NeverStuck;
    ghost var s := Concat(chunks);
    var warned;
    pushed, pushEnd, warned := Push.TimeseriesGetRange(cfg, chunks);
    AdmissibleNeverStuck(s);
    var input := new ByteSource(Concat(chunks));
    var decoder := new Pull.DbnDecoder(cfg, input);
    var error := decoder.DetectCompression(x => x);
    assert error == None && decoder.Remaining() == s;
    NewDecoderHasRoom(decoder, s);
    pulled, pullEnd := Pull.Replay(decoder);
    if MetadataOf(s).Err? {
      NoMetadataNoEvents(cfg, s);
    }
  }}
