/**
 * The `uuid` command line tool (src/bin/uuid/main.rs): its option
 * decoders, diagnostic labels, the tick arithmetic for the clock, and the
 * inspect-or-generate logic of `main`, whose writes and exit are returned
 * as an `Outcome` value. The ambient inputs (the clock, the random number
 * generator, the host's MAC address lookups) are parameters.
 */
module UuidCli {
  import opened Wrappers
  import opened RustNum
  import opened UuidCrate

  // ---------------------------------------------------------------------
  // parse_uuid: the pre-parser for the positional argument
  // ---------------------------------------------------------------------

  /** Whether `parse_uuid` treats `s` as a brace-wrapped (Microsoft) UUID. */
  predicate BraceWrapped(s: string) {
    34 <= |s| <= 38 && s[0] == '{' && s[|s| - 1] == '}'
  }

  /**
   * The text `parse_uuid` hands to the crate parser: the braces removed
   * from a brace-wrapped string, anything else unchanged.
   */
  function StripBraces(s: string): (r: string)
    ensures BraceWrapped(s) ==> s == "{" + r + "}"
    ensures !BraceWrapped(s) ==> r == s
  {
    if BraceWrapped(s) then s[1..|s| - 1] else s
  }

  /** `parse_uuid`. */
  function ParseUuid(s: string): (r: Result<Uuid, ParseError>) {
    CrateParse(StripBraces(s))
  }

  // ---------------------------------------------------------------------
  // Format::from_str and the output wrapper
  // ---------------------------------------------------------------------

  datatype Format = Simple | Hyphenated | Urn | Microsoft

  const INVALID_FORMAT: string := "invalid format name"

  /** `Format::from_str`: the names are matched exactly, case included. */
  function ParseFormat(s: string): (r: Result<Format, string>)
    ensures r.Err? ==> r.error == INVALID_FORMAT
  {
    match s
    case "simple" => Ok(Simple)
    case "hyphenated" => Ok(Hyphenated)
    case "urn" => Ok(Urn)
    case "ms" => Ok(Format.Microsoft)
    case "microsoft" => Ok(Format.Microsoft)
    case _ => Err(INVALID_FORMAT)
  }

  /** The names the help text lists for `--output-format`. */
  function FormatName(f: Format): (name: string) {
    match f
    case Simple => "simple"
    case Hyphenated => "hyphenated"
    case Urn => "urn"
    case Microsoft => "ms"
  }

  /**
   * The line `main` prints for `u`: the crate's simple, URN or hyphenated
   * form, or the hyphenated form inside braces for the Microsoft format;
   * no format means hyphenated. That every rendering parses back to `u` is
   * `RenderParsesBack` below.
   */
  function Render(format: Option<Format>, u: Uuid): (line: string)
    ensures |line| == match format
      case Some(Simple) => 32
      case Some(Urn) => 45
      case Some(Microsoft) => 38
      case _ => 36
  {
    match format
    case Some(Simple) => SimpleForm(u)
    case Some(Urn) => UrnForm(u)
    case Some(Microsoft) => "{" + HyphenatedForm(u) + "}"
    case Some(Hyphenated) => HyphenatedForm(u)
    case None => HyphenatedForm(u)
  }

  lemma BracedParsesBack(u: Uuid)
    ensures ParseUuid(Render(Some(Format.Microsoft), u)) == Ok(u)
  {
    var line := Render(Some(Format.Microsoft), u);
    assert StripBraces(line) == HyphenatedForm(u);
    ParseHyphenatedForm(u);
  }

  lemma UnbracedParsesBack(format: Option<Format>, u: Uuid)
    requires format != Some(Format.Microsoft)
    ensures ParseUuid(Render(format, u)) == Ok(u)
  {
    match format
    case Some(Simple) => ParseSimpleForm(u);
    case Some(Urn) => ParseUrnForm(u);
    case _ => ParseHyphenatedForm(u);
  }

  /** Every line `main` can print for `u` is read back as `u` by `parse_uuid`. */
  lemma RenderParsesBack(format: Option<Format>, u: Uuid)
    ensures ParseUuid(Render(format, u)) == Ok(u)
  {
    if format == Some(Format.Microsoft) {
      BracedParsesBack(u);
    } else {
      UnbracedParsesBack(format, u);
    }
  }

  // ---------------------------------------------------------------------
  // VersionMode::from_str
  // ---------------------------------------------------------------------

  const VERSION_OUT_OF_RANGE: string := "Version out of range"

  /** The version with RFC 4122 number `n`, if there is one. */
  function VersionOfNumber(n: nat): (r: Option<Version>)
    ensures r.Some? <==> n <= 5
    ensures r.Some? ==> VersionNumber(r.value) == n
  {
    match n
    case 0 => Some(Nil)
    case 1 => Some(Mac)
    case 2 => Some(Dce)
    case 3 => Some(Md5)
    case 4 => Some(Random)
    case 5 => Some(Sha1)
    case _ => None
  }

  /**
   * `VersionMode::from_str`: a decimal `u8` that is a version number, or
   * the `u8` parse error's text, or "Version out of range" above 5.
   */
  function ParseVersionMode(s: string): (r: Result<Version, string>)
    ensures r.Ok? <==> ParseU8(s).Ok? && ParseU8(s).value <= 5
    ensures r.Ok? ==> ParseU8(s) == Ok(VersionNumber(r.value))
    ensures ParseU8(s).Ok? && ParseU8(s).value > 5 ==> r == Err(VERSION_OUT_OF_RANGE)
    ensures ParseU8(s).Err? ==> r == Err(IntErrorMessage(ParseU8(s).error))
  {
    match ParseU8(s)
    case Err(e) => Err(IntErrorMessage(e))
    case Ok(n) =>
      match VersionOfNumber(n)
      case Some(v) => Ok(v)
      case None => Err(VERSION_OUT_OF_RANGE)
  }

  // ---------------------------------------------------------------------
  // VersionDesc and VariantDesc
  // ---------------------------------------------------------------------

  /** The `VersionDesc` label; for a numbered version it reads "v<number> ...". */
  function VersionLabel(v: Option<Version>): (desc: string)
    ensures desc == "Unknown" <==> v.None?
    ensures v.Some? && v.value != Nil ==> |desc| >= 2 && desc[0] == 'v' && desc[1] == DigitChar(VersionNumber(v.value))
  {
    match v
    case Some(Nil) => "Nil"
    case Some(Mac) => "v1 MAC Address"
    case Some(Dce) => "v2 DCE"
    case Some(Md5) => "v3 MD5"
    case Some(Random) => "v4 Random"
    case Some(Sha1) => "v5 SHA-1"
    case None => "Unknown"
  }

  /** The `VariantDesc` label; the reserved variant reads "Reserved". */
  function VariantLabel(v: Option<Variant>): (desc: string)
    ensures desc == "Unknown" <==> v.None?
    ensures desc == "Reserved" <==> v == Some(Future)
  {
    match v
    case Some(NCS) => "NCS"
    case Some(RFC4122) => "RFC4122"
    case Some(Microsoft) => "Microsoft"
    case Some(Future) => "Reserved"
    case None => "Unknown"
  }

  // ---------------------------------------------------------------------
  // ticks_from_timestamp
  // ---------------------------------------------------------------------

  const NANOS_PER_SECOND: nat := 1_000_000_000
  const TICKS_PER_SECOND: nat := 10_000_000
  const NANOS_PER_TICK: nat := 100

  type SubsecNanos = x: int | 0 <= x < 1_000_000_000

  /** `Duration`: whole seconds and the sub-second nanoseconds. */
  datatype Duration = Duration(secs: u64, nanos: SubsecNanos)

  /** `SystemTime`, as its distance from the Unix epoch. */
  datatype SystemTime = AfterEpoch(sinceEpoch: Duration) | BeforeEpoch

  /**
   * `ticks_from_timestamp` after `duration_since(UNIX_EPOCH)`: the number
   * of whole 100-ns intervals since the Unix epoch, in `u64` arithmetic
   * (release builds wrap on overflow). No Gregorian-epoch offset is added.
   */
  function TicksFromTimestamp(d: Duration): (ticks: u64)
    ensures ticks == (d.secs * NANOS_PER_SECOND + d.nanos) / NANOS_PER_TICK % U64_LIMIT
  {
    (d.secs * TICKS_PER_SECOND + d.nanos / NANOS_PER_TICK) % U64_LIMIT
  }

  // ---------------------------------------------------------------------
  // main
  // ---------------------------------------------------------------------

  /** The decoded command line (`Opt`), `uuid` already through `parse_uuid`. */
  datatype Options = Options(
    uuid: Option<Uuid>,
    versionMode: Option<Version>,
    outputFormat: Option<Format>,
    counter: Option<u16>,
    timestampTicks: Option<u64>,
    macAddress: Option<NodeId>,
    macInterface: Option<string>)

  /**
   * What `main` reads from its surroundings: the clock, `rand::random()`,
   * the 16 random bytes `Uuid::new_v4` draws, and the results of
   * `mac_address_by_name` (for the named interface) and `get_mac_address`.
   */
  datatype Env = Env(
    now: SystemTime,
    randomCounter: u16,
    v4Bytes: Uuid,
    interfaceMac: Result<Option<NodeId>, string>,
    anyMac: Result<Option<NodeId>, string>)

  datatype Stream = Stdout | Stderr

  /** A diagnostic line: text, or the decoded fields of a version 1 UUID. */
  datatype DiagLine = Text(text: string) | V1Fields(ticks: nat, counter: nat, nodeId: seq<u8>)

  /** Exit status 0, `exit(code)`, or a panic with its message. */
  datatype Status = Success | Exit(code: int) | Panic(message: string)

  /** Everything one run writes, and how it ends. */
  datatype Outcome = Outcome(stdout: seq<string>, stderr: seq<DiagLine>, status: Status)

  /** How a run stops early: a message on a stream and `exit(1)`, or a panic. */
  datatype Abort = Print(stream: Stream, message: string) | Panicked(message: string)

  const MISMATCH_MESSAGE: string := "error: Provided <uuid> did not match `--version-mode`"
  const UNSUPPORTED_MESSAGE: string :=
    "error: Only 0, 1, and 4 are supported for '--version <version-mode>' without a provided <uuid>"
  const EPOCH_PANIC: string := "Could not get duration since unix epoch"
  const ANY_MAC_PANIC: string := "Could not get mac address"
  const NO_MAC_PANIC: string := "No mac address found"
  const BUILD_PANIC: string := "could not build uuid"

  function InterfaceLookupPanic(interface: string): string {
    "Could not get mac address for interface " + interface
  }

  function NoInterfaceMacMessage(interface: string): string {
    "error: MAC address could not be obtained for `--mac-interface=" + interface + "`"
  }

  /** The version constraint: only a known version that differs fails it. */
  predicate VersionAccepted(expected: Option<Version>, actual: Option<Version>) {
    match (expected, actual)
    case (Some(e), Some(a)) => e == a
    case _ => true
  }

  /** The v1 tick count: the explicit value, else the clock (read only then). */
  function ResolveTicks(explicit: Option<u64>, now: SystemTime): (r: Result<u64, Abort>) {
    match explicit
    case Some(t) => Ok(t)
    case None =>
      match now
      case AfterEpoch(d) => Ok(TicksFromTimestamp(d))
      case BeforeEpoch => Err(Panicked(EPOCH_PANIC))
  }

  /**
   * The node id: the explicit MAC address, else the named interface's
   * address (a failed lookup panics, a missing address exits), else any
   * interface's address.
   */
  function ResolveNode(explicit: Option<NodeId>, interface: Option<string>, env: Env): (r: Result<NodeId, Abort>) {
    var chosen: Result<Option<NodeId>, Abort> :=
      if explicit.Some? then Ok(explicit)
      else
        match interface
        case None => Ok(None)
        case Some(name) =>
          match env.interfaceMac
          case Err(_) => Err(Panicked(InterfaceLookupPanic(name)))
          case Ok(None) => Err(Print(Stderr, NoInterfaceMacMessage(name)))
          case Ok(Some(m)) => Ok(Some(m));
    match chosen
    case Err(a) => Err(a)
    case Ok(Some(m)) => Ok(m)
    case Ok(None) =>
      match env.anyMac
      case Err(_) => Err(Panicked(ANY_MAC_PANIC))
      case Ok(None) => Err(Panicked(NO_MAC_PANIC))
      case Ok(Some(m)) => Ok(m)
  }

  /** The `--version 1` generation branch. */
  function GenerateV1(opts: Options, env: Env): (r: Result<Uuid, Abort>)
    ensures r.Ok? ==> GetVersion(r.value) == Some(Mac) && GetVariant(r.value) == Some(RFC4122)
  {
    match ResolveTicks(opts.timestampTicks, env.now)
    case Err(a) => Err(a)
    case Ok(ticks) =>
      var counter := opts.counter.GetOr(env.randomCounter);
      var ts := Timestamp(ticks, counter);
      match ResolveNode(opts.macAddress, opts.macInterface, env)
      case Err(a) => Err(a)
      case Ok(node) =>
        NewV1Decodes(ts, node);
        match NewV1(ts, node)
        case Ok(u) => Ok(u)
        case Err(_) => Err(Panicked(BUILD_PANIC))
  }

  /**
   * Generation when no UUID is supplied: the nil UUID, a v1 UUID, or a v4
   * UUID (also when no version is asked for); versions 2, 3 and 5 are
   * refused. A generated UUID has the version that was asked for.
   */
  function Generate(opts: Options, env: Env): (r: Result<Uuid, Abort>)
    ensures r.Ok? ==> GetVersion(r.value) == Some(opts.versionMode.GetOr(Random))
    ensures r.Err? && opts.versionMode != Some(Mac) ==> r.error == Print(Stdout, UNSUPPORTED_MESSAGE)
  {
    NilDecodes();
    match opts.versionMode
    case Some(Nil) => Ok(NIL)
    case Some(Mac) => GenerateV1(opts, env)
    case Some(Random) => Ok(NewV4(env.v4Bytes))
    case None => Ok(NewV4(env.v4Bytes))
    case Some(_) => Err(Print(Stdout, UNSUPPORTED_MESSAGE))
  }

  /** The UUID `main` goes on with: the supplied one if it passes the version check, else a generated one. */
  function SelectUuid(opts: Options, env: Env): (r: Result<Uuid, Abort>)
    ensures opts.uuid.Some? && r.Ok? ==> r.value == opts.uuid.value
    ensures opts.uuid.Some? ==> (r.Ok? <==> VersionAccepted(opts.versionMode, GetVersion(opts.uuid.value)))
  {
    match opts.uuid
    case Some(u) =>
      if VersionAccepted(opts.versionMode, GetVersion(u)) then Ok(u)
      else Err(Print(Stderr, MISMATCH_MESSAGE))
    case None => Generate(opts, env)
  }

  /**
   * The writes of lines 248-280: the version and variant labels, the
   * decoded v1 fields for a version 1 UUID, and the UUID itself on stdout.
   */
  function Report(u: Uuid, format: Option<Format>): (o: Outcome)
    ensures o.status == Success && o.stdout == [Render(format, u)]
    ensures |o.stderr| == (if GetVersion(u) == Some(Mac) then 2 else 1)
    ensures o.stderr[0] == Text(VersionLabel(GetVersion(u)) + " " + VariantLabel(GetVariant(u)))
    ensures GetVersion(u) == Some(Mac) ==>
      ToTimestamp(u).Some? &&
      o.stderr[1] == V1Fields(ToTimestamp(u).value.ticks, ToTimestamp(u).value.counter, u[10..16])
  {
    var header := Text(VersionLabel(GetVersion(u)) + " " + VariantLabel(GetVariant(u)));
    var v1Lines :=
      if GetVersion(u) == Some(Mac) then
        var ts := ToTimestamp(u).GetOr(Timestamp(0, 0));
        [V1Fields(ts.ticks, ts.counter, u[10..16])]
      else [];
    Outcome([Render(format, u)], [header] + v1Lines, Success)
  }

  /** `main` after argument parsing. */
  function Main(opts: Options, env: Env): (o: Outcome)
    ensures o.status == Success <==> SelectUuid(opts, env).Ok?
    ensures o.status == Success ==> o.stdout == [Render(opts.outputFormat, SelectUuid(opts, env).value)]
    ensures o.status.Panic? ==> o.stdout == [] && o.stderr == []
  {
    match SelectUuid(opts, env)
    case Ok(u) => Report(u, opts.outputFormat)
    case Err(Print(Stdout, message)) => Outcome([message], [], Exit(1))
    case Err(Print(Stderr, message)) => Outcome([], [Text(message)], Exit(1))
    case Err(Panicked(message)) => Outcome([], [], Panic(message))
  }

  // ---------------------------------------------------------------------
  // The command line as text, for the three decoders above
  // ---------------------------------------------------------------------

  /** The command line with the three fields this file decodes still as text. */
  datatype Args = Args(
    uuid: Option<string>,
    versionMode: Option<string>,
    outputFormat: Option<string>,
    counter: Option<u16>,
    timestampTicks: Option<u64>,
    macAddress: Option<NodeId>,
    macInterface: Option<string>)

  datatype ArgError = BadUuid(parseError: ParseError) | BadVersion(message: string) | BadFormat(message: string)

  /**
   * Applies `parse_uuid`, `VersionMode::from_str` and `Format::from_str` to
   * their fields. When several fail, the first in field order is reported;
   * that order is this model's choice, not the program's.
   */
  function DecodeArgs(a: Args): (r: Result<Options, ArgError>)
    ensures r.Ok? ==> (r.value.counter == a.counter && r.value.timestampTicks == a.timestampTicks
      && r.value.macAddress == a.macAddress && r.value.macInterface == a.macInterface)
    ensures r.Ok? ==> (a.uuid.Some? <==> r.value.uuid.Some?)
  {
    var uuid: Result<Option<Uuid>, ArgError> :=
      match a.uuid
      case None => Ok(None)
      case Some(s) => (match ParseUuid(s) case Ok(u) => Ok(Some(u)) case Err(e) => Err(BadUuid(e)));
    var version: Result<Option<Version>, ArgError> :=
      match a.versionMode
      case None => Ok(None)
      case Some(s) => (match ParseVersionMode(s) case Ok(v) => Ok(Some(v)) case Err(e) => Err(BadVersion(e)));
    var format: Result<Option<Format>, ArgError> :=
      match a.outputFormat
      case None => Ok(None)
      case Some(s) => (match ParseFormat(s) case Ok(f) => Ok(Some(f)) case Err(e) => Err(BadFormat(e)));
    match (uuid, version, format)
    case (Ok(u), Ok(v), Ok(f)) => Ok(Options(u, v, f, a.counter, a.timestampTicks, a.macAddress, a.macInterface))
    case (Err(e), _, _) => Err(e)
    case (_, Err(e), _) => Err(e)
    case (_, _, Err(e)) => Err(e)
  }
}
