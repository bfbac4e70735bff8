/** How far a reader of a stream has come, as a relation between values, and how
    each step moves it. Both decoders are proved with it. */
module ReaderProgress {
  import opened Bytes
  import opened Metadatas
  import opened MetadataDecoding
  import opened Frames
  import opened StreamSpec

  ghost predicate HeaderRead(taken: bytes, version: u8, frameSize: nat) {
    104 <= frameSize < 0x1_0000_0000 && |taken| >= 8 && HeaderOf(taken) == Ok(Header(version, frameSize))
  }

  /** The reader has decoded the metadata of `taken`, delivered the records
      `raw`, and holds `unread`. */
  ghost predicate FrameRead(cfg: Config, taken: bytes, version: u8, frameSize: nat, m: Metadata, raw: seq<bytes>,
                            unread: bytes)
  {
    && HeaderRead(taken, version, frameSize)
    && |taken[8..]| >= frameSize
    && DecodeFields(version, taken[8..][..frameSize]) == Ok(m)
    && taken[8..][frameSize..] == Concat(raw) + unread
    && AllWellFormed(raw)
    && Going(Views(cfg, version, m.tsOut, raw), cfg.keepGoing)
  }

  ghost function Called(cfg: Config, version: u8, m: Metadata, raw: seq<bytes>): seq<Event> {
    [OnMetadata(Upgrade(m, cfg.policy))] + OnRecords(Views(cfg, version, m.tsOut, raw))
  }

  lemma FrameReadExtend(cfg: Config, taken: bytes, e: bytes, version: u8, frameSize: nat, m: Metadata,
      raw: seq<bytes>, unread: bytes)
    requires FrameRead(cfg, taken, version, frameSize, m, raw, unread)
    ensures FrameRead(cfg, taken + e, version, frameSize, m, raw, unread + e)
  {
    hide DecodeFields, Views, AllWellFormed;
    HeaderExtend(taken, e);
    var t := taken[8..];
    assert (t + e)[..frameSize] == t[..frameSize];
    assert (t + e)[frameSize..] == t[frameSize..] + e;
    assert (Concat(raw) + unread) + e == Concat(raw) + (unread + e);
  }

  lemma FrameReadStep(cfg: Config, taken: bytes, version: u8, frameSize: nat, m: Metadata, raw: seq<bytes>,
      unread: bytes)
    requires FrameRead(cfg, taken, version, frameSize, m, raw, unread) && Complete(unread)
    requires cfg.keepGoing(Views(cfg, version, m.tsOut, raw) + [View(cfg, version, m.tsOut, Head(unread))])
    ensures FrameRead(cfg, taken, version, frameSize, m, raw + [Head(unread)], unread[SizeOf(unread)..])
    ensures Called(cfg, version, m, raw + [Head(unread)]) ==
            Called(cfg, version, m, raw) + [OnRecord(View(cfg, version, m.tsOut, Head(unread)))]
  {
    hide DecodeFields, Views, View, HeaderRead, OnRecords, Going, AllWellFormed, Concat, Complete, Head, SizeOf;
    var r := Head(unread);
    RecordHead(unread);
    var rest := unread[SizeOf(unread)..];
    WellFormedSnoc(raw, unread);
    ViewsSnoc(cfg, version, m.tsOut, raw, r);
    GoingSnoc(Views(cfg, version, m.tsOut, raw), View(cfg, version, m.tsOut, r), cfg.keepGoing);
    OnRecordsSnoc(Views(cfg, version, m.tsOut, raw), View(cfg, version, m.tsOut, r));
    ConcatSnoc(raw, r);
    Regroup(Concat(raw), r, rest);
  }

  lemma FrameReadSettled(cfg: Config, taken: bytes, version: u8, frameSize: nat, m: Metadata, raw: seq<bytes>,
      unread: bytes)
    requires FrameRead(cfg, taken, version, frameSize, m, raw, unread) && !Complete(unread)
    ensures HeaderUsable(taken)
    ensures OneShot(cfg, taken) == Trace(Called(cfg, version, m, raw), More(unread))
  {
    hide DecodeFields, Views, Records;
    RecordsSettled(cfg, version, m, raw, unread);
  }

  lemma FrameReadStopped(cfg: Config, taken: bytes, version: u8, frameSize: nat, m: Metadata, raw: seq<bytes>,
      unread: bytes)
    requires FrameRead(cfg, taken, version, frameSize, m, raw, unread) && Complete(unread)
    requires !cfg.keepGoing(Views(cfg, version, m.tsOut, raw) + [View(cfg, version, m.tsOut, Head(unread))])
    ensures HeaderUsable(taken)
    ensures Called(cfg, version, m, raw + [Head(unread)]) ==
            Called(cfg, version, m, raw) + [OnRecord(View(cfg, version, m.tsOut, Head(unread)))]
    ensures OneShot(cfg, taken) == Trace(Called(cfg, version, m, raw + [Head(unread)]), Stopped)
  {
    hide DecodeFields, Views, View, Records, OnRecords, Head;
    RecordsStopped(cfg, version, m, raw, unread);
    ViewsSnoc(cfg, version, m.tsOut, raw, Head(unread));
    OnRecordsSnoc(Views(cfg, version, m.tsOut, raw), View(cfg, version, m.tsOut, Head(unread)));
  }

  /** A stop ends the whole stream, whatever of it has not been taken. */
  lemma StoppedForGood(cfg: Config, taken: bytes, rest: bytes, version: u8, frameSize: nat, m: Metadata,
      raw: seq<bytes>, unread: bytes)
    requires FrameRead(cfg, taken, version, frameSize, m, raw, unread) && Complete(unread)
    requires !cfg.keepGoing(Views(cfg, version, m.tsOut, raw) + [View(cfg, version, m.tsOut, Head(unread))])
    requires Admissible(taken + rest)
    ensures HeaderUsable(taken + rest)
    ensures OneShot(cfg, taken + rest) ==
              Trace(Called(cfg, version, m, raw) + [OnRecord(View(cfg, version, m.tsOut, Head(unread)))], Stopped)
  {
    hide FrameRead, Called, Views, View, Admissible, OneShot, Complete, Head, HeaderUsable;
    FrameReadStopped(cfg, taken, version, frameSize, m, raw, unread);
    AdmissibleHeader(taken + rest);
    EndStable(cfg, taken, rest);
  }

  /** In an admissible stream the next record is never an empty one. */
  lemma FrameReadNotStuck(cfg: Config, taken: bytes, rest: bytes, version: u8, frameSize: nat, m: Metadata,
      raw: seq<bytes>, unread: bytes)
    requires FrameRead(cfg, taken, version, frameSize, m, raw, unread) && Admissible(taken + rest)
    ensures unread != [] ==> unread[0] != 0
  {
    hide DecodeFields, Views, Stuck;
    AdmissiblePrefix(taken, rest);
    NotStuckHead(raw, unread);
  }

  lemma HeaderReadFacts(taken: bytes, version: u8, n: nat)
    requires HeaderRead(taken, version, n)
    ensures |taken| >= 8 && n >= 104
  {
  }

  lemma AdmissibleHeader(s: bytes)
    requires Admissible(s)
    ensures HeaderUsable(s)
  {
  }

  /** However many bytes follow the frame in the buffer, decoding reads the same
      metadata, or the same error, from it. */
  lemma MetadataUnaffected(taken: bytes, rest: bytes, version: u8, n: nat)
    requires HeaderRead(taken, version, n) && |taken[8..]| >= n && Admissible(taken + rest)
    ensures DecodeFields(version, taken[8..]) == DecodeFields(version, taken[8..][..n])
  {
    hide DecodeVersionAndSize, ParseFields, Stuck;
    AdmissiblePrefix(taken, rest);
    var t := taken[8..];
    assert t == t[..n] + t[n..];
    ExtensionStable(version, t[..n], t[n..]);
  }

  lemma FrameFailed(cfg: Config, taken: bytes, rest: bytes, version: u8, n: nat, e: DecodeError)
    requires HeaderRead(taken, version, n) && |taken[8..]| >= n
    requires DecodeFields(version, taken[8..][..n]) == Err(e)
    ensures HeaderUsable(taken + rest) && OneShot(cfg, taken + rest) == Trace([], Failed(e))
  {
    hide DecodeVersionAndSize, DecodeFields, Records;
    HeaderExtend(taken, rest);
    assert (taken[8..] + rest)[..n] == taken[8..][..n];
  }

  lemma FrameReadStart(cfg: Config, taken: bytes, version: u8, n: nat, m: Metadata)
    requires HeaderRead(taken, version, n) && |taken[8..]| >= n
    requires DecodeFields(version, taken[8..][..n]) == Ok(m)
    ensures FrameRead(cfg, taken, version, n, m, [], taken[8..][n..])
    ensures Called(cfg, version, m, []) == [OnMetadata(Upgrade(m, cfg.policy))]
              && Views(cfg, version, m.tsOut, []) == []
  {
    hide DecodeFields, HeaderRead;
    HeaderReadFacts(taken, version, n);
    ConcatNone();
    assert [] + taken[8..][n..] == taken[8..][n..];
    assert Views(cfg, version, m.tsOut, []) == [];
    assert OnRecords([]) == [];
  }

  lemma ViewIs(cfg: Config, version: u8, tsOut: bool, r: bytes)
    ensures View(cfg, version, tsOut, r) ==
            if NeedsUpgrade(cfg.policy, version) then cfg.compat(version, cfg.policy, tsOut, r) else r
  {
  }

  lemma RecordHead(unread: bytes)
    requires Complete(unread)
    ensures 0 < SizeOf(unread) <= |unread| && Head(unread) == unread[..SizeOf(unread)]
    ensures EvenWords([Head(unread)]) ==> SizeOf(unread) % 8 == 0
  {
    var r := Head(unread);
    assert r in [r] && r[0] == unread[0];
    if EvenWords([r]) {
      assert r[0] % 2 == 0;
      assert SizeOf(unread) == 8 * ((r[0] as int) / 2);
    }
  }
}
