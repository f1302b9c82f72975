/**
 * The behaviour the command line front end expects of the external `uuid`
 * crate: the 16-byte value, version and variant decoding, the text forms
 * and their parser, and the v1 and v4 constructors. The crate's code is
 * not part of this model; these definitions follow RFC 4122 (sections 3,
 * 4.1.1 to 4.1.7 and 4.4) and are assumptions the front end relies on.
 */
module UuidCrate {
  import opened Wrappers
  import opened RustNum

  /** A UUID: exactly 16 bytes, most significant first. */
  type Uuid = s: seq<u8> | |s| == 16 witness [0, 0, 0, 0, 0, 0, 0, 0, 0, 0, 0, 0, 0, 0, 0, 0]

  /** A 48-bit node id (an IEEE 802 MAC address). */
  type NodeId = s: seq<u8> | |s| == 6 witness [0, 0, 0, 0, 0, 0]

  /** The versions of section 4.1.3 of RFC 4122, plus the all-zero nil UUID. */
  datatype Version = Nil | Mac | Dce | Md5 | Random | Sha1

  /** The variants of section 4.1.1 of RFC 4122. */
  datatype Variant = NCS | RFC4122 | Microsoft | Future

  /** The version number written in the high nibble of byte 6. */
  function VersionNumber(v: Version): (n: nat)
    ensures n <= 5
    ensures v == Nil <==> n == 0
  {
    match v
    case Nil => 0
    case Mac => 1
    case Dce => 2
    case Md5 => 3
    case Random => 4
    case Sha1 => 5
  }

  lemma VersionNumberInjective(v: Version, w: Version)
    ensures VersionNumber(v) == VersionNumber(w) ==> v == w
  {
  }

  /** The nil UUID of section 4.1.7: all 128 bits zero. */
  const NIL: Uuid := [0, 0, 0, 0, 0, 0, 0, 0, 0, 0, 0, 0, 0, 0, 0, 0]

  /**
   * `Uuid::get_version`: the high nibble of byte 6; nibble 0 is the nil
   * version only for the nil UUID itself, and nibbles 6 to 15 are unknown.
   */
  function GetVersion(u: Uuid): (r: Option<Version>)
    ensures r.Some? && r.value != Nil ==> u[6] / 16 == VersionNumber(r.value)
    ensures r == Some(Nil) <==> u == NIL
    ensures r.None? <==> u[6] / 16 > 5 || (u[6] / 16 == 0 && u != NIL)
  {
    match u[6] / 16
    case 0 => if u == NIL then Some(Nil) else None
    case 1 => Some(Mac)
    case 2 => Some(Dce)
    case 3 => Some(Md5)
    case 4 => Some(Random)
    case 5 => Some(Sha1)
    case _ => None
  }

  /**
   * `Uuid::get_variant`: the leading bits of byte 8 (0xx NCS, 10x RFC 4122,
   * 110 Microsoft, 111 reserved). Every byte falls in one of the four rows.
   */
  function GetVariant(u: Uuid): (r: Option<Variant>)
    ensures r.Some?
    ensures r == Some(RFC4122) <==> u[8] / 64 == 2
    ensures r == Some(NCS) <==> u[8] / 128 == 0
  {
    if u[8] < 0x80 then Some(NCS)
    else if u[8] < 0xC0 then Some(RFC4122)
    else if u[8] < 0xE0 then Some(Microsoft)
    else Some(Future)
  }

  // ---------------------------------------------------------------------
  // Hexadecimal text (section 3 of RFC 4122)
  // ---------------------------------------------------------------------

  /** The value of a hex digit; upper and lower case are both accepted. */
  function HexValue(c: char): (r: Option<nat>)
    ensures r.Some? ==> r.value < 16
  {
    if '0' <= c <= '9' then Some(c as int - '0' as int)
    else if 'a' <= c <= 'f' then Some(c as int - 'a' as int + 10)
    else if 'A' <= c <= 'F' then Some(c as int - 'A' as int + 10)
    else None
  }

  /** The lower-case hex digit for `n`, the one the crate writes. */
  function HexDigit(n: nat): (c: char)
    requires n < 16
    ensures HexValue(c) == Some(n)
    ensures !('A' <= c <= 'Z')
  {
    if n < 10 then ('0' as int + n) as char else ('a' as int + n - 10) as char
  }

  function HexEncode(bs: seq<u8>): (s: string)
    ensures |s| == 2 * |bs|
    ensures forall i :: 0 <= i < |s| ==> HexValue(s[i]).Some? && !('A' <= s[i] <= 'Z')
  {
    if bs == [] then [] else [HexDigit(bs[0] / 16), HexDigit(bs[0] % 16)] + HexEncode(bs[1..])
  }

  function HexDecode(s: string): (r: Option<seq<u8>>)
    ensures r.Some? ==> 2 * |r.value| == |s|
  {
    if |s| == 0 then Some([])
    else if |s| == 1 then None
    else
      match (HexValue(s[0]), HexValue(s[1]), HexDecode(s[2..]))
      case (Some(hi), Some(lo), Some(rest)) => Some([hi * 16 + lo] + rest)
      case _ => None
  }

  lemma {:induction false} HexRoundTrip(bs: seq<u8>)
    ensures HexDecode(HexEncode(bs)) == Some(bs)
  {
    if bs != [] {
      var s := HexEncode(bs);
      assert s[2..] == HexEncode(bs[1..]);
      HexRoundTrip(bs[1..]);
      assert [bs[0] / 16 * 16 + bs[0] % 16] + bs[1..] == bs;
    }
  }

  lemma {:induction false} HexEncodeAppend(a: seq<u8>, b: seq<u8>)
    ensures HexEncode(a + b) == HexEncode(a) + HexEncode(b)
  {
    if a != [] {
      var h := [HexDigit(a[0] / 16), HexDigit(a[0] % 16)];
      assert (a + b)[0] == a[0];
      assert (a + b)[1..] == a[1..] + b;
      HexEncodeAppend(a[1..], b);
      calc {
        HexEncode(a + b);
        h + HexEncode(a[1..] + b);
        h + (HexEncode(a[1..]) + HexEncode(b));
        (h + HexEncode(a[1..])) + HexEncode(b);
        HexEncode(a) + HexEncode(b);
      }
    } else {
      assert a + b == b;
    }
  }

  // ---------------------------------------------------------------------
  // The crate's text forms (its `adapter` module)
  // ---------------------------------------------------------------------

  /** 32 hex digits, no separators. */
  function SimpleForm(u: Uuid): (s: string)
    ensures |s| == 32
  {
    HexEncode(u)
  }

  /** The 8-4-4-4-12 grouping of section 3 of RFC 4122. */
  function HyphenatedForm(u: Uuid): (s: string)
    ensures |s| == 36
  {
    Hyphenate(HexEncode(u[..4]), HexEncode(u[4..6]), HexEncode(u[6..8]), HexEncode(u[8..10]), HexEncode(u[10..]))
  }

  /** Five digit groups joined by hyphens. */
  function Hyphenate(a: string, b: string, c: string, d: string, e: string): string {
    a + "-" + b + "-" + c + "-" + d + "-" + e
  }

  lemma HyphenateSlices(a: string, b: string, c: string, d: string, e: string)
    requires |a| == 8 && |b| == 4 && |c| == 4 && |d| == 4 && |e| == 12
    ensures var s := Hyphenate(a, b, c, d, e);
      && |s| == 36 && s[8] == '-' && s[13] == '-' && s[18] == '-' && s[23] == '-'
      && s[0..8] == a && s[9..13] == b && s[14..18] == c && s[19..23] == d && s[24..36] == e
  {
    var s1 := a + "-";
    var s2 := s1 + b + "-";
    var s3 := s2 + c + "-";
    var s4 := s3 + d + "-";
    var s := s4 + e;
    assert s == Hyphenate(a, b, c, d, e);
    assert s[0..8] == a by { assert s == a + (s[8..]); }
    assert s[9..13] == b by { assert s == s1 + b + (s[13..]); }
    assert s[14..18] == c by { assert s == s2 + c + (s[18..]); }
    assert s[19..23] == d by { assert s == s3 + d + (s[23..]); }
    assert s[24..36] == e;
  }

  const URN_PREFIX: string := "urn:uuid:"

  /** The URN namespace form of section 3 of RFC 4122. */
  function UrnForm(u: Uuid): (s: string)
    ensures |s| == 45
  {
    URN_PREFIX + HyphenatedForm(u)
  }

  /** The hyphenated form is the simple form with a hyphen before digits 8, 12, 16 and 20. */
  lemma HyphenatedIsGroupedSimple(u: Uuid)
    ensures var s := SimpleForm(u);
      HyphenatedForm(u) == s[..8] + "-" + s[8..12] + "-" + s[12..16] + "-" + s[16..20] + "-" + s[20..]
  {
    assert u == u[..4] + u[4..6] + u[6..8] + u[8..10] + u[10..];
    HexEncodeAppend(u[..4], u[4..6]);
    HexEncodeAppend(u[..4] + u[4..6], u[6..8]);
    HexEncodeAppend(u[..4] + u[4..6] + u[6..8], u[8..10]);
    HexEncodeAppend(u[..4] + u[4..6] + u[6..8] + u[8..10], u[10..]);
  }

  // ---------------------------------------------------------------------
  // The crate's parser (`Uuid::from_str`)
  // ---------------------------------------------------------------------

  datatype ParseError = InvalidLength | InvalidText

  function ParseSimple(s: string): (r: Result<Uuid, ParseError>)
    requires |s| == 32
  {
    match HexDecode(s)
    case Some(bs) => Ok(bs)
    case None => Err(InvalidText)
  }

  /** Hyphens exactly where the 8-4-4-4-12 grouping puts them. */
  predicate HyphensInPlace(s: string)
    requires |s| == 36
  {
    s[8] == '-' && s[13] == '-' && s[18] == '-' && s[23] == '-'
  }

  function ParseHyphenated(s: string): (r: Result<Uuid, ParseError>)
    requires |s| == 36
  {
    if !HyphensInPlace(s) then Err(InvalidText) else DecodeGroups(s)
  }

  function DecodeGroups(s: string): (r: Result<Uuid, ParseError>)
    requires |s| == 36
  {
      match (HexDecode(s[0..8]), HexDecode(s[9..13]), HexDecode(s[14..18]), HexDecode(s[19..23]), HexDecode(s[24..36]))
      case (Some(a), Some(b), Some(c), Some(d), Some(e)) => Ok(a + b + c + d + e)
      case _ => Err(InvalidText)
  }

  /**
   * `s.parse::<Uuid>()`: 32 hex digits, the hyphenated form, or the
   * hyphenated form after the exact prefix `urn:uuid:`; any other length
   * is refused before a character is read.
   */
  function CrateParse(s: string): (r: Result<Uuid, ParseError>)
    ensures r == Err(InvalidLength) <==> |s| !in {32, 36, 45} || (|s| == 45 && s[..9] != URN_PREFIX)
  {
    if |s| == 45 && s[..9] == URN_PREFIX then ParseHyphenated(s[9..])
    else if |s| == 32 then ParseSimple(s)
    else if |s| == 36 then ParseHyphenated(s)
    else Err(InvalidLength)
  }

  lemma ParseSimpleForm(u: Uuid)
    ensures CrateParse(SimpleForm(u)) == Ok(u)
  {
    HexRoundTrip(u);
  }

  lemma ParseHyphenatedForm(u: Uuid)
    ensures ParseHyphenated(HyphenatedForm(u)) == Ok(u)
    ensures CrateParse(HyphenatedForm(u)) == Ok(u)
  {
    GroupsDecode(u[..4], u[4..6], u[6..8], u[8..10], u[10..]);
    SplitUuid(u);
  }

  lemma SplitUuid(u: Uuid)
    ensures u[..4] + u[4..6] + u[6..8] + u[8..10] + u[10..] == u
  {
  }

  lemma GroupsDecode(a: seq<u8>, b: seq<u8>, c: seq<u8>, d: seq<u8>, e: seq<u8>)
    requires |a| == 4 && |b| == 2 && |c| == 2 && |d| == 2 && |e| == 6
    ensures var s := Hyphenate(HexEncode(a), HexEncode(b), HexEncode(c), HexEncode(d), HexEncode(e));
      |s| == 36 && ParseHyphenated(s) == Ok(a + b + c + d + e)
  {
    var s := Hyphenate(HexEncode(a), HexEncode(b), HexEncode(c), HexEncode(d), HexEncode(e));
    HyphenateSlices(HexEncode(a), HexEncode(b), HexEncode(c), HexEncode(d), HexEncode(e));
    GroupsDecodeSlices(s, a, b, c, d, e);
  }

  lemma GroupsDecodeSlices(s: string, a: seq<u8>, b: seq<u8>, c: seq<u8>, d: seq<u8>, e: seq<u8>)
    requires |a| == 4 && |b| == 2 && |c| == 2 && |d| == 2 && |e| == 6 && |s| == 36
    requires s[0..8] == HexEncode(a) && s[9..13] == HexEncode(b) && s[14..18] == HexEncode(c)
    requires s[19..23] == HexEncode(d) && s[24..36] == HexEncode(e)
    ensures DecodeGroups(s) == Ok(a + b + c + d + e)
  {
    HexRoundTrip(a);
    HexRoundTrip(b);
    HexRoundTrip(c);
    HexRoundTrip(d);
    HexRoundTrip(e);
  }

  lemma ParseUrnForm(u: Uuid)
    ensures CrateParse(UrnForm(u)) == Ok(u)
  {
    var s := UrnForm(u);
    assert s[..9] == URN_PREFIX;
    assert s[9..] == HyphenatedForm(u);
    ParseHyphenatedForm(u);
  }

  // ---------------------------------------------------------------------
  // Case-insensitive parsing
  // ---------------------------------------------------------------------

  function UpperChar(c: char): char {
    if 'a' <= c <= 'z' then (c as int - 'a' as int + 'A' as int) as char else c
  }

  /** ASCII upper-casing, character by character. */
  function ToUpper(s: string): (t: string)
    ensures |t| == |s|
    ensures forall i :: 0 <= i < |s| ==> t[i] == UpperChar(s[i])
  {
    seq(|s|, i requires 0 <= i < |s| => UpperChar(s[i]))
  }

  lemma ToUpperSlice(s: string, i: nat, j: nat)
    requires i <= j <= |s|
    ensures ToUpper(s)[i..j] == ToUpper(s[i..j])
  {
  }

  lemma HexValueUpper(c: char)
    ensures HexValue(UpperChar(c)) == HexValue(c)
    ensures UpperChar(c) == '-' <==> c == '-'
  {
  }

  lemma {:induction false} HexDecodeUpper(s: string)
    ensures HexDecode(ToUpper(s)) == HexDecode(s)
    decreases |s|
  {
    if |s| >= 2 {
      var t := ToUpper(s);
      assert t[0] == UpperChar(s[0]) && t[1] == UpperChar(s[1]);
      HexValueUpper(s[0]);
      HexValueUpper(s[1]);
      ToUpperSlice(s, 2, |s|);
      assert t[2..] == t[2..|s|] && s[2..] == s[2..|s|];
      HexDecodeUpper(s[2..]);
    }
  }

  lemma GroupUpper(s: string, i: nat, j: nat)
    requires i <= j <= |s|
    ensures HexDecode(ToUpper(s)[i..j]) == HexDecode(s[i..j])
  {
    ToUpperSlice(s, i, j);
    HexDecodeUpper(s[i..j]);
  }

  lemma ParseHyphenatedUpper(s: string)
    requires |s| == 36
    ensures ParseHyphenated(ToUpper(s)) == ParseHyphenated(s)
  {
    HyphensUpper(s);
    DecodeGroupsUpper(s);
  }

  lemma HyphensUpper(s: string)
    requires |s| == 36
    ensures HyphensInPlace(ToUpper(s)) == HyphensInPlace(s)
  {
    HexValueUpper(s[8]);
    HexValueUpper(s[13]);
    HexValueUpper(s[18]);
    HexValueUpper(s[23]);
  }

  lemma DecodeGroupsUpper(s: string)
    requires |s| == 36
    ensures DecodeGroups(ToUpper(s)) == DecodeGroups(s)
  {
    var t := ToUpper(s);
    GroupUpper(s, 0, 8);
    GroupUpper(s, 9, 13);
    GroupUpper(s, 14, 18);
    GroupUpper(s, 19, 23);
    GroupUpper(s, 24, 36);
  }

  /**
   * Hex digits are read without regard to case: upper-casing a simple or
   * hyphenated string does not change what it parses to. (The `urn:uuid:`
   * prefix itself is matched exactly, so URNs are excluded.)
   */
  lemma CrateParseUpper(s: string)
    requires |s| != 45
    ensures CrateParse(ToUpper(s)) == CrateParse(s)
  {
    if |s| == 32 {
      HexDecodeUpper(s);
    } else if |s| == 36 {
      ParseHyphenatedUpper(s);
    }
  }

  // ---------------------------------------------------------------------
  // Big-endian fields (section 4.1.2 of RFC 4122)
  // ---------------------------------------------------------------------

  function Pow256(k: nat): (p: nat)
    ensures p >= 1
  {
    if k == 0 then 1 else 256 * Pow256(k - 1)
  }

  /** `n` written in `len` bytes, most significant first. */
  function ToBigEndian(n: nat, len: nat): (bs: seq<u8>)
    requires n < Pow256(len)
    ensures |bs| == len
  {
    if len == 0 then [] else ToBigEndian(n / 256, len - 1) + [n % 256]
  }

  function FromBigEndian(bs: seq<u8>): (n: nat)
    ensures n < Pow256(|bs|)
  {
    if bs == [] then 0 else FromBigEndian(bs[..|bs| - 1]) * 256 + bs[|bs| - 1]
  }

  lemma {:induction false} BigEndianRoundTrip(n: nat, len: nat)
    requires n < Pow256(len)
    ensures FromBigEndian(ToBigEndian(n, len)) == n
  {
    if len > 0 {
      var bs := ToBigEndian(n, len);
      assert bs[..len - 1] == ToBigEndian(n / 256, len - 1);
      BigEndianRoundTrip(n / 256, len - 1);
    }
  }

  // ---------------------------------------------------------------------
  // Version 1 (time and node) and version 4 (random) construction
  // ---------------------------------------------------------------------

  const TICKS_LIMIT: nat := 0x1000_0000_0000_0000
  const COUNTER_LIMIT: nat := 0x4000

  /** `uuid::v1::Timestamp`: a 100-ns tick count and a clock sequence. */
  datatype Timestamp = Timestamp(ticks: u64, counter: u16)

  datatype BuildError = InvalidNodeLength

  /**
   * `Uuid::new_v1`: time_low, time_mid and time_hi_and_version from the
   * low 60 bits of the ticks, the version 1 nibble, the low 14 bits of the
   * counter under the RFC 4122 variant bits, then the node id; a node id
   * of any length other than 6 is refused.
   */
  function NewV1(ts: Timestamp, node: seq<u8>): (r: Result<Uuid, BuildError>)
    ensures r.Ok? <==> |node| == 6
  {
    if |node| != 6 then Err(InvalidNodeLength)
    else Ok(V1Layout(ts.ticks % 0x1_0000_0000, ts.ticks / 0x1_0000_0000 % 0x1_0000,
      ts.ticks / 0x1_0000_0000_0000 % 0x1000, ts.counter % COUNTER_LIMIT, node))
  }

  /** time_low, time_mid, time_hi_and_version, clock_seq_hi_and_reserved, clock_seq_low, node. */
  function V1Layout(timeLow: nat, timeMid: nat, timeHigh: nat, clockSeq: nat, node: seq<u8>): (u: Uuid)
    requires timeLow < 0x1_0000_0000 && timeMid < 0x1_0000 && timeHigh < 0x1000 && clockSeq < COUNTER_LIMIT
    requires |node| == 6
  {
    ToBigEndian(timeLow, 4) + ToBigEndian(timeMid, 2) + ToBigEndian(timeHigh + 0x1000, 2)
      + ToBigEndian(clockSeq + 0x8000, 2) + node
  }

  /**
   * A UUID built by `new_v1` decodes as version 1, RFC 4122 variant, with
   * the node id in its last six bytes and, as its timestamp, the low 60
   * bits of the ticks and the low 14 bits of the counter.
   */
  lemma NewV1Decodes(ts: Timestamp, node: NodeId)
    ensures NewV1(ts, node).Ok?
    ensures var u := NewV1(ts, node).value;
      && GetVersion(u) == Some(Mac) && GetVariant(u) == Some(RFC4122)
      && u[10..] == node
      && ToTimestamp(u) == Some(Timestamp(ts.ticks % TICKS_LIMIT, ts.counter % COUNTER_LIMIT))
  {
    var timeLow := ts.ticks % 0x1_0000_0000;
    var timeMid := ts.ticks / 0x1_0000_0000 % 0x1_0000;
    var timeHigh := ts.ticks / 0x1_0000_0000_0000 % 0x1000;
    var clockSeq := ts.counter % COUNTER_LIMIT;
    var u := V1Layout(timeLow, timeMid, timeHigh, clockSeq, node);
    assert NewV1(ts, node) == Ok(u);
    V1LayoutDecodes(timeLow, timeMid, timeHigh, clockSeq, node);
    TicksRecombine(ts.ticks);
  }

  lemma V1LayoutDecodes(timeLow: nat, timeMid: nat, timeHigh: nat, clockSeq: nat, node: seq<u8>)
    requires timeLow < 0x1_0000_0000 && timeMid < 0x1_0000 && timeHigh < 0x1000 && clockSeq < COUNTER_LIMIT
    requires |node| == 6
    ensures var u := V1Layout(timeLow, timeMid, timeHigh, clockSeq, node);
      && GetVersion(u) == Some(Mac) && GetVariant(u) == Some(RFC4122) && u[10..] == node
      && ToTimestamp(u) == Some(Timestamp(timeHigh * 0x1_0000_0000_0000 + timeMid * 0x1_0000_0000 + timeLow, clockSeq))
  {
    var u := V1Layout(timeLow, timeMid, timeHigh, clockSeq, node);
    V1FieldsRoundTrip(u, timeLow, timeMid, timeHigh, clockSeq, node);
    assert (timeHigh + 0x1000) % 0x1000 == timeHigh;
    assert (clockSeq + 0x8000) % COUNTER_LIMIT == clockSeq;
  }

  lemma V1FieldsRoundTrip(u: Uuid, timeLow: nat, timeMid: nat, timeHigh: nat, clockSeq: nat, node: seq<u8>)
    requires timeLow < 0x1_0000_0000 && timeMid < 0x1_0000 && timeHigh < 0x1000 && clockSeq < COUNTER_LIMIT
    requires |node| == 6
    requires u == V1Layout(timeLow, timeMid, timeHigh, clockSeq, node)
    ensures FromBigEndian(u[0..4]) == timeLow && FromBigEndian(u[4..6]) == timeMid
    ensures FromBigEndian(u[6..8]) == timeHigh + 0x1000 && FromBigEndian(u[8..10]) == clockSeq + 0x8000
    ensures u[6] / 16 == 1 && u[8] / 64 == 2 && u[10..] == node
  {
    assert u[0..4] == ToBigEndian(timeLow, 4);
    assert u[4..6] == ToBigEndian(timeMid, 2);
    assert u[6..8] == ToBigEndian(timeHigh + 0x1000, 2);
    assert u[8..10] == ToBigEndian(clockSeq + 0x8000, 2);
    BigEndianRoundTrip(timeLow, 4);
    BigEndianRoundTrip(timeMid, 2);
    BigEndianRoundTrip(timeHigh + 0x1000, 2);
    BigEndianRoundTrip(clockSeq + 0x8000, 2);
  }

  /** Splitting the 60-bit tick count into 32 + 16 + 12 bits loses nothing. */
  lemma TicksRecombine(t: nat)
    ensures (t / 0x1_0000_0000_0000 % 0x1000) * 0x1_0000_0000_0000 + (t / 0x1_0000_0000 % 0x1_0000) * 0x1_0000_0000
      + t % 0x1_0000_0000 == t % TICKS_LIMIT
  {
    var q := t / 0x1_0000_0000;
    DivModSplit(t, 0x1_0000_0000, 0x1000_0000);
    DivModSplit(q, 0x1_0000, 0x1000);
    DivDiv(t, 0x1_0000_0000, 0x1_0000);
  }

  lemma DivDiv(n: nat, a: nat, b: nat)
    requires a > 0 && b > 0
    ensures n / a / b == n / (a * b)
  {
    DivModDecompose(n, a, b);
    DivModUnique(n, a * b, n / a / b, n / a % b * a + n % a);
  }

  lemma DivModSplit(n: nat, a: nat, b: nat)
    requires a > 0 && b > 0
    ensures (n / a % b) * a + n % a == n % (a * b)
  {
    var m := a * b;
    var q := n / a / b;
    var r := n / a % b * a + n % a;
    DivModDecompose(n, a, b);
    assert n == q * m + r && r < m;
    DivModUnique(n, m, q, r);
  }

  lemma DivModDecompose(n: nat, a: nat, b: nat)
    requires a > 0 && b > 0
    ensures n == n / a / b * (a * b) + (n / a % b * a + n % a)
    ensures n / a % b * a + n % a < a * b
  {
    var q, r, s := n / a / b, n / a % b, n % a;
    assert n == n / a * a + s;
    assert n / a == q * b + r;
    assert (q * b + r) * a == q * (a * b) + r * a;
    MulLe(r, b - 1, a);
    assert (b - 1) * a == a * b - a;
  }

  lemma MulLe(x: nat, y: nat, a: nat)
    requires x <= y
    ensures x * a <= y * a
  {
    assert y * a == x * a + (y - x) * a;
  }

  /** Quotient and remainder are the only such pair. */
  lemma DivModUnique(n: nat, m: nat, q: nat, r: nat)
    requires m > 0 && r < m && n == q * m + r
    ensures n / m == q && n % m == r
  {
    var q' := n / m;
    var r' := n % m;
    assert q' * m + r' == q * m + r;
    if q' < q {
      MulLe(q' + 1, q, m);
    } else if q' > q {
      MulLe(q + 1, q', m);
    }
  }

  /**
   * `Uuid::to_timestamp` followed by `to_rfc4122`: for a version 1 UUID,
   * the 60-bit tick count and the 14-bit clock sequence; nothing otherwise.
   */
  function ToTimestamp(u: Uuid): (r: Option<Timestamp>)
    ensures r.Some? <==> GetVersion(u) == Some(Mac)
    ensures r.Some? ==> r.value.ticks < TICKS_LIMIT && r.value.counter < COUNTER_LIMIT
  {
    if GetVersion(u) != Some(Mac) then None
    else
      var timeHigh := FromBigEndian(u[6..8]) % 0x1000;
      var ticks := timeHigh * 0x1_0000_0000_0000 + FromBigEndian(u[4..6]) * 0x1_0000_0000 + FromBigEndian(u[0..4]);
      Some(Timestamp(ticks, FromBigEndian(u[8..10]) % COUNTER_LIMIT))
  }

  /**
   * `Uuid::new_v4`: the 16 random bytes with the version 4 nibble set in
   * byte 6 and the RFC 4122 variant bits set in byte 8; the other 122
   * bits are the random ones.
   */
  function NewV4(random: Uuid): (u: Uuid)
    ensures GetVersion(u) == Some(Random) && GetVariant(u) == Some(RFC4122)
    ensures forall i :: 0 <= i < 16 && i != 6 && i != 8 ==> u[i] == random[i]
    ensures u[6] % 16 == random[6] % 16 && u[8] % 64 == random[8] % 64
  {
    random[..6] + [random[6] % 16 + 0x40, random[7], random[8] % 64 + 0x80] + random[9..]
  }

  /** Distinct random payloads give distinct version 4 UUIDs. */
  lemma NewV4Injective(r1: Uuid, r2: Uuid)
    requires NewV4(r1) == NewV4(r2)
    ensures forall i :: 0 <= i < 16 && i != 6 && i != 8 ==> r1[i] == r2[i]
    ensures r1[6] % 16 == r2[6] % 16 && r1[8] % 64 == r2[8] % 64
  {
  }

  lemma NilDecodes()
    ensures GetVersion(NIL) == Some(Nil) && GetVariant(NIL) == Some(NCS)
    ensures ToTimestamp(NIL).None?
  {
  }

  /** The nil UUID's simple form is 32 zeros. */
  lemma NilSimpleForm()
    ensures SimpleForm(NIL) == seq(32, _ => '0')
  {
    HexEncodeZeros(16);
    assert NIL == seq(16, _ => 0);
  }

  lemma {:induction false} HexEncodeZeros(n: nat)
    ensures HexEncode(seq(n, _ => 0)) == seq(2 * n, _ => '0')
  {
    if n > 0 {
      var z := seq(n, _ => 0);
      assert z[1..] == seq(n - 1, _ => 0);
      HexEncodeZeros(n - 1);
      assert seq(2 * n, _ => '0') == ['0', '0'] + seq(2 * (n - 1), _ => '0');
    }
  }
}
