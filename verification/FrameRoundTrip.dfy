/** Exactly which metadata come back from the frame they were written to, when the
    frame is cut at the length it declares, as every reader does. */
module FrameRoundTrip {
  import opened Bytes
  import opened Metadatas
  import opened MetadataEncoding
  import opened MetadataDecoding
  import opened MetadataRoundTrip
  import opened StreamSpec

  /** The length of the frame, padding included, before truncation to 32 bits. */
  function FrameLength(m: Metadata): nat {
    NeededLength(m) + CalcLength(m).1
  }

  /** Does a reader of the written frame, whatever follows it, get the metadata? */
  predicate ComesBack(m: Metadata, rest: bytes)
    requires Encodable(m)
  {
    var s := Encode(m) + rest;
    HeaderUsable(s) && MetadataOf(s).Ok? && MetadataOf(s).value.1 == m
  }

  /** The round trip of metadata: from the frame alone or from a longer stream,
      they come back exactly when they are faithful, have the symbol width of
      their version, and fit a 32-bit length. */
  lemma MetadataRoundTripExactly(m: Metadata, rest: bytes)
    requires Encodable(m)
    ensures ComesBack(m, rest) <==> Faithful(m) && WidthFits(m) && FrameLength(m) < 0x1_0000_0000
  {
    hide *;
    if FrameLength(m) < 0x1_0000_0000 {
      FittingFrameReads(m, rest);
    } else {
      LongFrameFails(m, rest);
    }
  }

  lemma FittingFrameReads(m: Metadata, rest: bytes)
    requires Encodable(m) && FrameLength(m) < 0x1_0000_0000
    ensures ComesBack(m, rest) <==> Faithful(m) && WidthFits(m)
  {
    hide *;
    DeclaredLength(m);
    LengthBoundsCounts(m);
    FrameReads(m, rest);
    BodyRoundTrip(m, []);
    assert Body(m) + [] == Body(m) == Body(m)[..CalcLength(m).0];
  }

  lemma LongFrameFails(m: Metadata, rest: bytes)
    requires Encodable(m) && FrameLength(m) >= 0x1_0000_0000
    ensures !ComesBack(m, rest)
  {
    hide *;
    DeclaredLength(m);
    if CalcLength(m).0 < 104 {
      ShortFrameFails(m, rest);
    } else {
      FrameReads(m, rest);
      DecodedFrameFits(WireVersion(m), Body(m)[..CalcLength(m).0]);
      WireVersionIsKnown(m);
      if WidthFits(m) && CountsFit(m) {
        CutFrameTruncated(m);
      }
    }
  }

  lemma WireVersionIsKnown(m: Metadata)
    ensures WireVersion(m) >= 1
  {
  }

  /** What is declared is the length of the body modulo 2^32. */
  lemma DeclaredLength(m: Metadata)
    requires Encodable(m)
    ensures |Body(m)| == FrameLength(m) >= 104
    ensures CalcLength(m).0 == FrameLength(m) % 0x1_0000_0000
    ensures CalcLength(m).1 < 8
  {
    hide Body, CalcLength, NeededLength, Encodable;
    EncodedLength(m);
    PaddedLength(m);
    BodyLength(m);
    assert |Encode(m)| == 8 + |Body(m)|;
  }

  /** A reader of the stream decodes the body as far as its declared length. */
  lemma FrameReads(m: Metadata, rest: bytes)
    requires Encodable(m) && 104 <= CalcLength(m).0 <= |Body(m)|
    ensures var r := DecodeFields(WireVersion(m), Body(m)[..CalcLength(m).0]);
            && HeaderUsable(Encode(m) + rest)
            && (ComesBack(m, rest) <==> r == Ok(m))
            && (r.Err? ==> MetadataOf(Encode(m) + rest) == Err(r.error))
  {
    hide Body, CalcLength, DecodeFields, DecodeVersionAndSize, Prelude, Encodable;
    StreamParts(m, rest);
    FrameHeader(m);
    var n := CalcLength(m).0;
    assert (Body(m) + rest)[..n] == Body(m)[..n];
  }

  lemma ShortFrameFails(m: Metadata, rest: bytes)
    requires Encodable(m) && CalcLength(m).0 < 104
    ensures !ComesBack(m, rest)
  {
    hide Body, CalcLength, DecodeFields, DecodeVersionAndSize, Prelude, Encodable;
    StreamParts(m, rest);
    FrameHeader(m);
  }

  lemma StreamParts(m: Metadata, rest: bytes)
    requires Encodable(m)
    ensures var s := Encode(m) + rest; |s| >= 8 && s[..8] == Prelude(m) && s[8..] == Body(m) + rest
  {
    hide Body, Prelude;
    assert Encode(m) + rest == Prelude(m) + (Body(m) + rest);
  }

  /** A body that is cut short of its fields runs into the cut: parsed from the
      whole body it leaves no more than the padding. */
  lemma CutFrameTruncated(m: Metadata)
    requires Encodable(m) && WidthFits(m) && CountsFit(m)
    requires FrameLength(m) >= 0x1_0000_0000 && CalcLength(m).0 >= 104
    ensures CalcLength(m).0 <= |Body(m)|
    ensures DecodeFields(WireVersion(m), Body(m)[..CalcLength(m).0]) == Err(Truncated)
  {
    hide Body, CalcLength, ParseFields, FrameLength, Normalize, Encodable, WidthFits, CountsFit;
    DeclaredLength(m);
    var version, n := WireVersion(m), CalcLength(m).0;
    var front, back := Body(m)[..n], Body(m)[n..];
    FrameBack(m, []);
    assert front + back == Body(m) == Body(m) + [];
    if ParseFields(version, front) != Err(Truncated) {
      ExtensionStable(version, front, back);
      assert false;
    }
  }

  /** In a frame that fits 32 bits every count does. */
  lemma LengthBoundsCounts(m: Metadata)
    requires Encodable(m) && FrameLength(m) < 0x1_0000_0000
    ensures CountsFit(m)
  {
    var w := m.symbolCstrLen;
    hide MappingsLength;
    CountsBound(w, m.symbols);
    CountsBound(w, m.partial);
    CountsBound(w, m.notFound);
    Distribute(|m.symbols|, |m.partial|, |m.notFound|, w);
    MappingCountsBound(w, m.mappings);
  }

  lemma Distribute(a: nat, b: nat, c: nat, w: nat)
    ensures (a + b + c) * w == a * w + b * w + c * w && a * w >= 0 && b * w >= 0 && c * w >= 0
  {
  }

  lemma AtLeastItself(n: nat, k: nat)
    requires k >= 1
    ensures n <= n * k
  {
    assert n * k == n + n * (k - 1);
    MulNonNegative(n, k - 1);
  }

  lemma CountsBound(width: nat, xs: seq<bytes>)
    requires AllShorter(width, xs)
    ensures |xs| <= |xs| * width
  {
    if xs == [] {
    } else {
      assert |xs[0]| < width;
      AtLeastItself(|xs|, width);
    }
  }

  lemma {:induction false} MappingCountsBound(width: nat, ms: seq<Mapping>)
    ensures |ms| <= MappingsLength(width, ms)
    ensures forall k :: 0 <= k < |ms| ==> |ms[k].intervals| <= MappingsLength(width, ms)
  {
    if ms == [] {
    } else {
      MappingCountsBound(width, ms[1..]);
      var own := |ms[0].intervals| * (8 + width);
      AtLeastItself(|ms[0].intervals|, 8 + width);
      assert MappingsLength(width, ms) == width + 4 + own + MappingsLength(width, ms[1..]);
      hide MappingsLength;
      forall k | 0 <= k < |ms|
        ensures |ms[k].intervals| <= MappingsLength(width, ms)
      {
        if k > 0 {
          assert ms[k] == ms[1..][k - 1];
        }
      }
    }
  }

  /** Metadata that meet every other condition, in a frame too long for its
      length field: a reader cuts it short and fails. */
  lemma TooLongFrameFails(m: Metadata, rest: bytes)
    requires Encodable(m) && WidthFits(m) && CountsFit(m)
    requires FrameLength(m) >= 0x1_0000_0000 && CalcLength(m).0 >= 104
    ensures HeaderUsable(Encode(m) + rest)
    ensures MetadataOf(Encode(m) + rest) == Err(Truncated)
  {
    hide Body, CalcLength, DecodeFields, FrameLength, Encodable, MetadataOf, HeaderUsable, ComesBack;
    CutFrameTruncated(m);
    FrameReads(m, rest);
  }

  function ManyEmptySymbols(): Metadata {
    Metadata(3, [], None, 0, 0, 0, None, 0, false, 65535, seq(65538, _ => []), [], [], [])
  }

  lemma ManyLength()
    ensures FrameLength(ManyEmptySymbols()) == 0x1_0000_0000 + 65656 && CalcLength(ManyEmptySymbols()).0 == 65656
  {
    var m := ManyEmptySymbols();
    assert MappingsLength(65535, []) == 0;
    assert NeededLength(m) == 4_295_032_950;
    hide NeededLength;
    assert CalcLength(m) == (65656, 2);
  }

  lemma ManyAreFaithful()
    ensures Encodable(ManyEmptySymbols()) && Faithful(ManyEmptySymbols())
    ensures WidthFits(ManyEmptySymbols()) && CountsFit(ManyEmptySymbols())
  {
  }

  /** Faithful metadata with 65538 empty symbols of width 65535. */
  lemma TooLongFrameExists()
    ensures var m := ManyEmptySymbols();
            && Encodable(m) && Faithful(m) && WidthFits(m) && CountsFit(m)
            && FrameLength(m) == 0x1_0000_0000 + 65656
            && HeaderUsable(Encode(m)) && MetadataOf(Encode(m)) == Err(Truncated)
  {
    hide *;
    var m := ManyEmptySymbols();
    ManyAreFaithful();
    ManyLength();
    TooLongFrameFails(m, []);
    assert Encode(m) + [] == Encode(m);
  }
}
