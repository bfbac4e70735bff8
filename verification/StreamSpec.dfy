/** A DBN stream read in one go: the callbacks it causes and what is left over.
    This is the meaning both decoders are proved to have, however the bytes
    reach them. */
module StreamSpec {
  import opened Bytes
  import opened Metadatas
  import opened MetadataDecoding
  import opened Frames

  datatype Event = OnMetadata(metadata: Metadata) | OnRecord(record: bytes)

  /** What a reader is set up with. `compat` is the record upgrade on a record's
      bytes, `keepGoing` the record callback. */
  datatype Config = Config(
    policy: UpgradePolicy,
    compat: (u8, UpgradePolicy, bool, bytes) -> bytes,
    keepGoing: KeepGoing)

  datatype Outcome =
    | More(unread: bytes)
    | Stopped
    | Failed(error: DecodeError)

  datatype Trace = Trace(events: seq<Event>, outcome: Outcome)

  /** The record as the callback sees it. */
  function View(cfg: Config, version: u8, tsOut: bool, r: bytes): bytes {
    if NeedsUpgrade(cfg.policy, version) then cfg.compat(version, cfg.policy, tsOut, r) else r
  }

  function Views(cfg: Config, version: u8, tsOut: bool, rs: seq<bytes>): (v: seq<bytes>)
    ensures |v| == |rs|
  {
    seq(|rs|, i requires 0 <= i < |rs| => View(cfg, version, tsOut, rs[i]))
  }

  function OnRecords(rs: seq<bytes>): (e: seq<Event>)
    ensures |e| == |rs|
  {
    seq(|rs|, i requires 0 <= i < |rs| => OnRecord(rs[i]))
  }

  function Records(cfg: Config, version: u8, m: Metadata, s: bytes): (t: Trace)
    ensures !t.outcome.Failed?
  {
    var p := ParseRecords(s);
    var d := Deliver([], Views(cfg, version, m.tsOut, p.records), cfg.keepGoing);
    Trace([OnMetadata(Upgrade(m, cfg.policy))] + OnRecords(d.seen), if d.stopped then Stopped else More(p.tail))
  }

  function Frame(cfg: Config, h: Header, s: bytes): Trace
    requires |s| >= h.frameSize >= 104
  {
    match DecodeFields(h.version, s[..h.frameSize])
    case Err(e) => Trace([], Failed(e))
    case Ok(m) => Records(cfg, h.version, m, s[h.frameSize..])
  }

  /** The header that starts a stream, once its 8 bytes are there. */
  function HeaderOf(s: bytes): Result<Header, DecodeError>
    requires |s| >= 8
  {
    DecodeVersionAndSize(s[..8])
  }

  predicate HeaderUsable(s: bytes) {
    |s| >= 8 && HeaderOf(s).Ok? ==> HeaderOf(s).value.frameSize >= 104
  }

  /** The header and the metadata a stream starts with. */
  function MetadataOf(s: bytes): Result<(Header, Metadata), DecodeError>
    requires HeaderUsable(s)
  {
    if |s| < 8 then Err(EndOfInput)
    else match HeaderOf(s)
      case Err(e) => Err(e)
      case Ok(h) =>
        if |s| - 8 < h.frameSize then Err(EndOfInput)
        else match DecodeFields(h.version, s[8..][..h.frameSize])
          case Err(e) => Err(e)
          case Ok(m) => Ok((h, m))
  }

  function OneShot(cfg: Config, s: bytes): Trace
    requires HeaderUsable(s)
  {
    if |s| < 8 then Trace([], More(s))
    else match HeaderOf(s)
      case Err(e) => Trace([], Failed(e))
      case Ok(h) => if |s| - 8 < h.frameSize then Trace([], More(s[8..])) else Frame(cfg, h, s[8..])
  }

  /** The streams whose reading does not depend on how they are cut up: the fixed
      fields lie inside the frame, the frame does not count past its own end, and
      no record claims to be empty. */
  predicate Admissible(s: bytes) {
    HeaderUsable(s)
    && (|s| >= 8 && HeaderOf(s).Ok? ==>
          var h := HeaderOf(s).value;
          var t := s[8..];
          |t| >= h.frameSize ==> FrameAdmissible(h, t))
  }

  predicate FrameAdmissible(h: Header, t: bytes)
    requires |t| >= h.frameSize >= 104
  {
    DecodeFields(h.version, t[..h.frameSize]) != Err(Truncated)
    && (DecodeFields(h.version, t[..h.frameSize]).Ok? ==> !Stuck(t[h.frameSize..]))
  }

  // ----- cutting a stream short -----

  lemma HeaderExtend(s: bytes, e: bytes)
    requires |s| >= 8
    ensures HeaderOf(s + e) == HeaderOf(s) && (s + e)[8..] == s[8..] + e
  {
    assert (s + e)[..8] == s[..8];
  }

  lemma AdmissiblePrefix(s: bytes, e: bytes)
    requires Admissible(s + e)
    ensures Admissible(s)
  {
    hide DecodeFields, Stuck, DecodeVersionAndSize;
    if |s| >= 8 {
      HeaderExtend(s, e);
      if HeaderOf(s).Ok? {
        var n := HeaderOf(s).value.frameSize;
        var t := s[8..];
        if |t| >= n {
          assert (t + e)[..n] == t[..n];
          assert (t + e)[n..] == t[n..] + e;
          if Stuck(t[n..]) {
            StuckExtend(t[n..], e);
          }
        }
      }
    }
  }

  lemma ViewsAppend(cfg: Config, version: u8, tsOut: bool, a: seq<bytes>, b: seq<bytes>)
    ensures Views(cfg, version, tsOut, a + b) == Views(cfg, version, tsOut, a) + Views(cfg, version, tsOut, b)
  {
  }

  /** Nothing that arrives after a stop or a failure changes what happened. */
  lemma EndStable(cfg: Config, s: bytes, e: bytes)
    requires HeaderUsable(s) && HeaderUsable(s + e)
    requires !OneShot(cfg, s).outcome.More?
    ensures OneShot(cfg, s + e) == OneShot(cfg, s)
  {
    hide DecodeFields, DecodeVersionAndSize, Records;
    HeaderExtend(s, e);
    if HeaderOf(s).Ok? {
      var h := HeaderOf(s).value;
      var t := s[8..];
      assert (t + e)[..h.frameSize] == t[..h.frameSize];
      assert (t + e)[h.frameSize..] == t[h.frameSize..] + e;
      var m := DecodeFields(h.version, t[..h.frameSize]);
      if m.Ok? {
        RecordsStopStable(cfg, h.version, m.value, t[h.frameSize..], e);
      }
    }
  }

  lemma RecordsStopStable(cfg: Config, version: u8, m: Metadata, s: bytes, e: bytes)
    requires Records(cfg, version, m, s).outcome.Stopped?
    ensures Records(cfg, version, m, s + e) == Records(cfg, version, m, s)
  {
    hide ParseRecords, Views, Deliver;
    ParseExtend(s, e);
    var p := ParseRecords(s);
    var q := ParseRecords(p.tail + e);
    ViewsAppend(cfg, version, m.tsOut, p.records, q.records);
    DeliverAppend([], Views(cfg, version, m.tsOut, p.records), Views(cfg, version, m.tsOut, q.records), cfg.keepGoing);
  }

  // ----- a reader's progress through the records -----

  /** A reader that has delivered `raw` and holds a tail without a complete
      record has caused exactly what the whole stream so far causes. */
  lemma RecordsSettled(cfg: Config, version: u8, m: Metadata, raw: seq<bytes>, unread: bytes)
    requires AllWellFormed(raw) && !Complete(unread)
    requires Going(Views(cfg, version, m.tsOut, raw), cfg.keepGoing)
    ensures Records(cfg, version, m, Concat(raw) + unread) ==
            Trace([OnMetadata(Upgrade(m, cfg.policy))] + OnRecords(Views(cfg, version, m.tsOut, raw)), More(unread))
  {
    hide ParseRecords, Views, Deliver, OnRecords;
    ParseUnique(raw, unread);
    DeliverAll(Views(cfg, version, m.tsOut, raw), cfg.keepGoing);
  }

  lemma RecordsStopped(cfg: Config, version: u8, m: Metadata, raw: seq<bytes>, s: bytes)
    requires AllWellFormed(raw) && Complete(s)
    requires Going(Views(cfg, version, m.tsOut, raw), cfg.keepGoing)
    requires !cfg.keepGoing(Views(cfg, version, m.tsOut, raw) + [View(cfg, version, m.tsOut, Head(s))])
    ensures Records(cfg, version, m, Concat(raw) + s) ==
            Trace([OnMetadata(Upgrade(m, cfg.policy))] +
                OnRecords(Views(cfg, version, m.tsOut, raw) + [View(cfg, version, m.tsOut, Head(s))]),
                  Stopped)
  {
    hide ParseRecords, Deliver, OnRecords, View;
    ParseAppend(raw, s);
    ParseStep(s);
    var rest := ParseRecords(s[SizeOf(s)..]).records;
    var seen := Views(cfg, version, m.tsOut, raw);
    ViewsAppend(cfg, version, m.tsOut, raw, [Head(s)] + rest);
    ViewsAppend(cfg, version, m.tsOut, [Head(s)], rest);
    assert Views(cfg, version, m.tsOut, [Head(s)]) == [View(cfg, version, m.tsOut, Head(s))];
    DeliverStop(seen, View(cfg, version, m.tsOut, Head(s)), Views(cfg, version, m.tsOut, rest), cfg.keepGoing);
  }

  lemma OnRecordsSnoc(rs: seq<bytes>, r: bytes)
    ensures OnRecords(rs + [r]) == OnRecords(rs) + [OnRecord(r)]
  {
  }

  lemma ViewsSnoc(cfg: Config, version: u8, tsOut: bool, rs: seq<bytes>, r: bytes)
    ensures Views(cfg, version, tsOut, rs + [r]) == Views(cfg, version, tsOut, rs) + [View(cfg, version, tsOut, r)]
  {
  }

  /** The metadata callback comes once and first. */
  lemma MetadataFirst(cfg: Config, s: bytes)
    requires HeaderUsable(s)
    ensures var events := OneShot(cfg, s).events;
            events == [] || (events[0].OnMetadata? && forall k :: 1 <= k < |events| ==> events[k].OnRecord?)
  {
    hide DecodeFields, DecodeVersionAndSize, ParseRecords, Deliver;
  }
}
