/** DBN metadata and the values it is made of. Strings are byte strings, as
    `std::string` is. */
module Metadatas {
  import opened Bytes
  import opened Constants

  type u8 = byte
  type i16 = n: int | -0x8000 <= n < 0x8000

  /** A year, month, day triple that need not name a real day. */
  datatype Date = Date(year: i16, month: u8, day: u8)

  datatype Interval = Interval(startDate: Date, endDate: Date, symbol: bytes)

  datatype Mapping = Mapping(rawSymbol: bytes, intervals: seq<Interval>)

  datatype Metadata = Metadata(
    version: u8,
    dataset: bytes,
    schema: Option<u16>,
    start: u64,
    end: u64,
    limit: u64,
    stypeIn: Option<u8>,
    stypeOut: u8,
    tsOut: bool,
    symbolCstrLen: nat,
    symbols: seq<bytes>,
    partial: seq<bytes>,
    notFound: seq<bytes>,
    mappings: seq<Mapping>)

  datatype UpgradePolicy = AsIs | UpgradeToV2 | UpgradeToV3

  function Upgrade(m: Metadata, policy: UpgradePolicy): Metadata {
    if policy == UpgradeToV2 && m.version < 2 then m.(version := 2, symbolCstrLen := SYMBOL_CSTR_LEN)
    else if policy == UpgradeToV3 && m.version < 3 then m.(version := DBN_VERSION, symbolCstrLen := SYMBOL_CSTR_LEN)
    else m
  }

  predicate NeedsUpgrade(policy: UpgradePolicy, version: u8) {
    match policy
    case UpgradeToV2 => version < 2
    case UpgradeToV3 => version < 3
    case AsIs => false
  }

  /** The length of the NUL-terminated string that starts `s`, or |s|. */
  function FindNul(s: bytes): (n: nat)
    ensures n <= |s| && 0 !in s[..n]
    ensures n < |s| ==> s[n] == 0
  {
    if s == [] || s[0] == 0 then 0
    else
      var n := FindNul(s[1..]);
      assert s[..n + 1] == [s[0]] + s[1..][..n];
      n + 1
  }

  lemma FindNulIs(s: bytes, n: nat)
    requires n <= |s| && 0 !in s[..n] && (n < |s| ==> s[n] == 0)
    ensures FindNul(s) == n
  {
    if n > 0 {
      assert s[0] in s[..n];
      assert forall b <- s[1..][..n - 1] :: b in s[..n];
      FindNulIs(s[1..], n - 1);
    }
  }

  function CutNul(s: bytes): bytes {
    s[..FindNul(s)]
  }

  lemma CutNulIdentity(s: bytes)
    ensures CutNul(s) == s <==> 0 !in s
  {
    assert FindNul(s) < |s| ==> s[FindNul(s)] in s;
  }

  function CutAll(xs: seq<bytes>): (r: seq<bytes>)
    ensures |r| == |xs|
  {
    if xs == [] then [] else [CutNul(xs[0])] + CutAll(xs[1..])
  }

  lemma {:induction false} CutAllIdentity(xs: seq<bytes>)
    ensures CutAll(xs) == xs <==> forall x <- xs :: 0 !in x
  {
    if xs == [] {
    } else {
      CutNulIdentity(xs[0]);
      CutAllIdentity(xs[1..]);
      assert xs == [xs[0]] + xs[1..];
      assert CutAll(xs)[1..] == CutAll(xs[1..]);
    }
  }

  // ----- dates on the wire -----

  /** `static_cast<short>`. */
  function ToI16(n: int): i16 {
    (n + 0x8000) % 0x1_0000 - 0x8000
  }

  function EncodeDate(d: Date): u32 {
    (d.year * 10000 + d.month * 100 + d.day) % 0x1_0000_0000
  }

  function DecodeDate(yyyymmdd: u32): Date {
    var remaining := yyyymmdd % 10000;
    Date(ToI16(yyyymmdd / 10000), remaining / 100, remaining % 100)
  }

  predicate DateFits(d: Date) {
    d.year >= 0 && d.month < 100 && d.day < 100
  }

  lemma SplitDigits(high: int, low: int, base: int)
    requires (base == 100 || base == 10000) && 0 <= low < base
    ensures (high * base + low) / base == high && (high * base + low) % base == low
  {
  }

  lemma WrappedDigits(low: int)
    requires 0 <= low < 10000
    ensures (low + 7296) % 10000 != low
  {
  }

  lemma DecodedDateParts(n: u32)
    ensures var d := DecodeDate(n);
            d.month < 100 && d.day < 100 && d.month * 100 + d.day == n % 10000
  {
    var low := n % 10000;
    assert low == low / 100 * 100 + low % 100;
  }

  lemma FittingDateRoundTrip(d: Date)
    requires DateFits(d)
    ensures DecodeDate(EncodeDate(d)) == d
  {
    var low := d.month * 100 + d.day;
    SplitDigits(d.month, d.day, 100);
    SplitDigits(d.year, low, 10000);
    assert EncodeDate(d) == d.year * 10000 + low;
  }

  /** 2^32 is not a multiple of 10000, so a year that wraps moves the month. */
  lemma NegativeYearMoves(d: Date)
    requires d.year < 0 && d.month < 100 && d.day < 100
    ensures EncodeDate(d) % 10000 != d.month * 100 + d.day
  {
    var low := d.month * 100 + d.day;
    var wrapped := d.year * 10000 + low + 0x1_0000_0000;
    assert 0 <= wrapped < 0x1_0000_0000;
    assert EncodeDate(d) == wrapped;
    var moved := (low + 7296) % 10000;
    var carry := (low + 7296) / 10000;
    WrappedDigits(low);
    SplitDigits(d.year + 429496 + carry, moved, 10000);
    assert wrapped == (d.year + 429496 + carry) * 10000 + moved;
  }

  /** A date survives the wire exactly when it is spelled by the decimal digits
      of YYYYMMDD. */
  lemma DateRoundTrip(d: Date)
    ensures DecodeDate(EncodeDate(d)) == d <==> DateFits(d)
  {
    if DateFits(d) {
      FittingDateRoundTrip(d);
    } else {
      DecodedDateParts(EncodeDate(d));
      if d.month < 100 && d.day < 100 {
        NegativeYearMoves(d);
      }
    }
  }
}
