/**
 * What the `uuid` tool promises, stated over the model of
 * src/bin/uuid/main.rs: the brace window of `parse_uuid`, the option
 * decoders and their inverses, the labels, the tick arithmetic, and the
 * inspect and generate paths of `main`.
 */
module CliProperties {
  import opened Wrappers
  import opened RustNum
  import opened UuidCrate
  import opened UuidCli

  // ---------------------------------------------------------------------
  // parse_uuid
  // ---------------------------------------------------------------------

  /** Braces are removed exactly from the strings in the 34..=38 window that start with `{` and end with `}`. */
  lemma StripBracesExactly(s: string)
    ensures StripBraces(s) != s <==> BraceWrapped(s)
    ensures BraceWrapped(s) ==> StripBraces(s) == s[1..|s| - 1] && |StripBraces(s)| == |s| - 2
  {
    if BraceWrapped(s) {
      assert |StripBraces(s)| == |s| - 2;
    }
  }

  /** Strings of length 33 or 39 are never stripped, so they fail whatever they hold. */
  lemma BraceWindowBoundary(s: string)
    requires |s| == 33 || |s| == 39
    ensures ParseUuid(s) == Err(InvalidLength)
  {
  }

  /** Inside the window only lengths 34 and 38 can succeed: 35 to 37 strip down to lengths the crate refuses. */
  lemma BraceWindowInterior(s: string)
    requires BraceWrapped(s) && 35 <= |s| <= 37
    ensures ParseUuid(s) == Err(InvalidLength)
  {
    StripBracesExactly(s);
  }

  /** The accepted inputs have one of five lengths: simple, {simple}, hyphenated, {hyphenated}, URN. */
  lemma AcceptedLengths(s: string)
    requires ParseUuid(s).Ok?
    ensures |s| in {32, 34, 36, 38, 45}
  {
    StripBracesExactly(s);
    if BraceWrapped(s) {
      assert |StripBraces(s)| in {32, 36};
    }
  }

  /** Both text forms the crate produces are accepted inside braces. */
  lemma BracedFormsAccepted(u: Uuid)
    ensures ParseUuid("{" + SimpleForm(u) + "}") == Ok(u)
    ensures ParseUuid("{" + HyphenatedForm(u) + "}") == Ok(u)
  {
    var s1 := "{" + SimpleForm(u) + "}";
    var s2 := "{" + HyphenatedForm(u) + "}";
    assert StripBraces(s1) == SimpleForm(u);
    assert StripBraces(s2) == HyphenatedForm(u);
    ParseSimpleForm(u);
    ParseHyphenatedForm(u);
  }

  lemma UpperCharBrace(c: char)
    ensures UpperChar(c) == '{' <==> c == '{'
    ensures UpperChar(c) == '}' <==> c == '}'
  {
  }

  /** Upper-casing commutes with brace stripping. */
  lemma StripBracesUpper(s: string)
    ensures StripBraces(ToUpper(s)) == ToUpper(StripBraces(s))
  {
    var t := ToUpper(s);
    if |s| > 0 {
      UpperCharBrace(s[0]);
      UpperCharBrace(s[|s| - 1]);
    }
    assert BraceWrapped(t) == BraceWrapped(s);
    if BraceWrapped(s) {
      ToUpperSlice(s, 1, |s| - 1);
    }
  }

  /** Hex digits may be given in either case (the `urn:uuid:` prefix is matched exactly, so URNs are excluded). */
  lemma ParseUuidCaseInsensitive(s: string)
    requires |s| != 45
    ensures ParseUuid(ToUpper(s)) == ParseUuid(s)
  {
    StripBracesUpper(s);
    StripBracesExactly(s);
    CrateParseUpper(StripBraces(s));
  }

  /** In a URN the hex digits may be given in either case too; only the prefix is matched exactly. */
  lemma UrnHexUpper(h: string)
    requires |h| == 36
    ensures ParseUuid(URN_PREFIX + ToUpper(h)) == ParseUuid(URN_PREFIX + h)
  {
    var a, b := URN_PREFIX + ToUpper(h), URN_PREFIX + h;
    assert a[..9] == URN_PREFIX && a[9..] == ToUpper(h);
    assert b[..9] == URN_PREFIX && b[9..] == h;
    ParseHyphenatedUpper(h);
  }

  /** The `urn:uuid:` prefix is case-sensitive: an upper-cased URN is refused. */
  lemma UrnPrefixCaseSensitive(u: Uuid)
    ensures ParseUuid(ToUpper(UrnForm(u))).Err?
  {
    var t := ToUpper(UrnForm(u));
    assert t[0] == UpperChar(UrnForm(u)[0]) == 'U';
    assert t[..9] != URN_PREFIX;
  }

  // ---------------------------------------------------------------------
  // Format::from_str and the output wrappers
  // ---------------------------------------------------------------------

  /** Exactly five names are accepted; `ms` and `microsoft` both mean the brace-wrapped form. */
  lemma ParseFormatAccepts(s: string)
    ensures ParseFormat(s).Ok? <==> s in {"simple", "hyphenated", "urn", "ms", "microsoft"}
    ensures ParseFormat(s) == Ok(Format.Microsoft) <==> s == "ms" || s == "microsoft"
    ensures ParseFormat(s).Err? ==> ParseFormat(s).error == "invalid format name"
  {
  }

  /** Every format's documented name decodes to it. */
  lemma FormatNameRoundTrip(f: Format)
    ensures ParseFormat(FormatName(f)) == Ok(f)
  {
  }

  /** The URN and Microsoft outputs wrap the hyphenated one; no format means hyphenated. */
  lemma RenderShapes(u: Uuid)
    ensures Render(Some(Urn), u) == "urn:uuid:" + Render(Some(Hyphenated), u)
    ensures Render(Some(Format.Microsoft), u) == "{" + Render(Some(Hyphenated), u) + "}"
    ensures Render(None, u) == Render(Some(Hyphenated), u)
    ensures |Render(Some(Simple), u)| == 32 && |Render(Some(Hyphenated), u)| == 36
    ensures |Render(Some(Urn), u)| == 45 && |Render(Some(Format.Microsoft), u)| == 38
  {
  }

  // ---------------------------------------------------------------------
  // VersionMode::from_str
  // ---------------------------------------------------------------------

  /** A version mode is an optional `+` and decimal digits whose value is a version number 0..5. */
  lemma ParseVersionModeAccepts(s: string)
    ensures ParseVersionMode(s).Ok? <==>
      var ds := UnsignedDigits(s);
      |ds| > 0 && AllDigits(ds) && DecimalValue(ds) <= 5
    ensures ParseVersionMode(s).Ok? ==>
      var ds := UnsignedDigits(s);
      AllDigits(ds) && VersionNumber(ParseVersionMode(s).value) == DecimalValue(ds)
  {
    ParseU8Spec(s);
  }

  /** Each version's number, written in decimal, decodes to that version: 0..5 are Nil, Mac, Dce, Md5, Random, Sha1. */
  lemma ParseVersionModeRoundTrip(v: Version)
    ensures ParseVersionMode(DecimalString(VersionNumber(v))) == Ok(v)
  {
    ParseU8DecimalString(VersionNumber(v));
  }

  /** Every `u8` above 5 is "Version out of range". */
  lemma ParseVersionModeOutOfRange(n: u8)
    requires n > 5
    ensures ParseVersionMode(DecimalString(n)) == Err("Version out of range")
  {
    ParseU8DecimalString(n);
  }

  /** Text that is not a `u8` reports the integer parser's message. */
  lemma ParseVersionModeNotU8()
    ensures ParseVersionMode("") == Err("cannot parse integer from empty string")
    ensures ParseVersionMode("v1") == Err("invalid digit found in string")
    ensures ParseVersionMode("-1") == Err("invalid digit found in string")
    ensures ParseVersionMode("256") == Err("number too large to fit in target type")
  {
  }

  // ---------------------------------------------------------------------
  // VersionDesc and VariantDesc
  // ---------------------------------------------------------------------

  /** Distinct versions get distinct labels, so the label identifies the version. */
  lemma VersionLabelInjective(a: Option<Version>, b: Option<Version>)
    ensures VersionLabel(a) == VersionLabel(b) ==> a == b
  {
  }

  /** Distinct variants get distinct labels. */
  lemma VariantLabelInjective(a: Option<Variant>, b: Option<Variant>)
    ensures VariantLabel(a) == VariantLabel(b) ==> a == b
  {
  }

  /** The label of a decoded version mode names the number that was typed. */
  lemma LabelMatchesVersionMode(s: string)
    requires ParseVersionMode(s).Ok? && ParseVersionMode(s).value != Nil
    ensures var desc := VersionLabel(Some(ParseVersionMode(s).value));
      |desc| >= 2 && desc[..2] == ['v', DigitChar(ParseU8(s).value)]
  {
  }

  // ---------------------------------------------------------------------
  // ticks_from_timestamp
  // ---------------------------------------------------------------------

  /** The largest number of seconds for which no `u64` overflow can occur. */
  const MAX_EXACT_SECS: nat := (U64_LIMIT - TICKS_PER_SECOND) / TICKS_PER_SECOND

  /** Without overflow the ticks are secs * 10^7 plus the whole 100-ns steps of the sub-second part, and both can be read back. */
  lemma TicksExact(d: Duration)
    requires d.secs <= MAX_EXACT_SECS
    ensures TicksFromTimestamp(d) == d.secs * TICKS_PER_SECOND + d.nanos / NANOS_PER_TICK
    ensures TicksFromTimestamp(d) / TICKS_PER_SECOND == d.secs
    ensures TicksFromTimestamp(d) % TICKS_PER_SECOND == d.nanos / NANOS_PER_TICK
  {
    var t := d.secs * TICKS_PER_SECOND + d.nanos / NANOS_PER_TICK;
    assert d.nanos / NANOS_PER_TICK < TICKS_PER_SECOND;
    assert t < U64_LIMIT;
    DivModUnique(t, TICKS_PER_SECOND, d.secs, d.nanos / NANOS_PER_TICK);
  }

  /** Without overflow the ticks order times exactly as (secs, nanos / 100) does, lexicographically. */
  lemma TicksMonotonic(d1: Duration, d2: Duration)
    requires d1.secs <= MAX_EXACT_SECS && d2.secs <= MAX_EXACT_SECS
    ensures TicksFromTimestamp(d1) < TicksFromTimestamp(d2) <==>
      d1.secs < d2.secs || (d1.secs == d2.secs && d1.nanos / NANOS_PER_TICK < d2.nanos / NANOS_PER_TICK)
  {
    TicksExact(d1);
    TicksExact(d2);
    var a, b := d1.nanos / NANOS_PER_TICK, d2.nanos / NANOS_PER_TICK;
    if d1.secs < d2.secs {
      MulLe(d1.secs + 1, d2.secs, TICKS_PER_SECOND);
    } else if d1.secs > d2.secs {
      MulLe(d2.secs + 1, d1.secs, TICKS_PER_SECOND);
    }
  }

  /** The Unix epoch is tick 0: no offset to the 1582-10-15 epoch of RFC 4122 is added. */
  lemma UnixEpochIsTickZero()
    ensures TicksFromTimestamp(Duration(0, 0)) == 0
    ensures TicksFromTimestamp(Duration(1, 999_999_999)) == 19_999_999
  {
  }

  // ---------------------------------------------------------------------
  // main: inspecting a supplied UUID
  // ---------------------------------------------------------------------

  /**
   * With a UUID supplied, the run fails exactly when a version mode is
   * given, the UUID's version is known, and the two differ; a failure
   * writes only the mismatch message, a success reports the supplied UUID
   * unchanged.
   */
  lemma InspectSupplied(opts: Options, env: Env)
    requires opts.uuid.Some?
    ensures var u, o := opts.uuid.value, Main(opts, env);
      && (o.status != Success <==>
            opts.versionMode.Some? && GetVersion(u).Some? && opts.versionMode.value != GetVersion(u).value)
      && (o.status != Success ==> o == Outcome([], [Text(MISMATCH_MESSAGE)], Exit(1)))
      && (o.status == Success ==> o == Report(u, opts.outputFormat) && ParseUuid(o.stdout[0]) == Ok(u))
  {
    RenderParsesBack(opts.outputFormat, opts.uuid.value);
  }

  /** A UUID whose version is unknown passes every version constraint. */
  lemma UnknownVersionPassesEveryConstraint(opts: Options, env: Env)
    requires opts.uuid.Some? && GetVersion(opts.uuid.value).None?
    ensures Main(opts, env).status == Success
  {
    InspectSupplied(opts, env);
  }

  /** With a UUID supplied, the generation options and the environment make no difference. */
  lemma InspectIgnoresGenerationInputs(opts: Options, env1: Env, env2: Env,
                                      counter: Option<u16>, ticks: Option<u64>,
                                      mac: Option<NodeId>, interface: Option<string>)
    requires opts.uuid.Some?
    ensures Main(opts, env1) ==
      Main(opts.(counter := counter, timestampTicks := ticks, macAddress := mac, macInterface := interface), env2)
  {
  }

  /** A v4 UUID inspected with `--version 1` fails and prints nothing on stdout. */
  lemma VersionMismatchExample(f: Format, random: Uuid, env: Env)
    ensures var args := Args(Some(Render(Some(f), NewV4(random))), Some("1"), None, None, None, None, None);
      && DecodeArgs(args).Ok?
      && var o := Main(DecodeArgs(args).value, env);
         o.status == Exit(1) && o.stdout == []
  {
    assert ParseVersionMode("1") == Ok(Mac) by { ParseVersionModeRoundTrip(Mac); }
    RenderParsesBack(Some(f), NewV4(random));
  }

  // ---------------------------------------------------------------------
  // main: generating
  // ---------------------------------------------------------------------

  /** `--version 0` prints the nil UUID; its simple form is 32 zeros. */
  lemma GenerateNil(opts: Options, env: Env)
    requires opts.uuid.None? && opts.versionMode == Some(Nil)
    ensures Main(opts, env) == Outcome([Render(opts.outputFormat, NIL)], [Text("Nil NCS")], Success)
    ensures Render(Some(Simple), NIL) == seq(32, _ => '0')
  {
    NilDecodes();
    NilSimpleForm();
    assert SelectUuid(opts, env) == Ok(NIL);
    assert VersionLabel(GetVersion(NIL)) + " " + VariantLabel(GetVariant(NIL)) == "Nil NCS";
    assert GetVersion(NIL) != Some(Mac);
  }

  /** `--version 4`, or no version, prints a v4 UUID built from the random bytes. */
  lemma GenerateRandom(opts: Options, env: Env)
    requires opts.uuid.None? && (opts.versionMode.None? || opts.versionMode == Some(Random))
    ensures var u := NewV4(env.v4Bytes);
      Main(opts, env) == Outcome([Render(opts.outputFormat, u)], [Text("v4 Random RFC4122")], Success)
  {
    var u := NewV4(env.v4Bytes);
    assert SelectUuid(opts, env) == Ok(u);
    assert VersionLabel(GetVersion(u)) + " " + VariantLabel(GetVariant(u)) == "v4 Random RFC4122";
  }

  /** Without a supplied UUID, versions 2, 3 and 5 are refused with a message on stdout. */
  lemma UnsupportedGeneration(opts: Options, env: Env)
    requires opts.uuid.None? && opts.versionMode.Some? && opts.versionMode.value in {Dce, Md5, Sha1}
    ensures Main(opts, env) == Outcome([UNSUPPORTED_MESSAGE], [], Exit(1))
  {
  }

  /** The report of a v1 UUID: its labels, then its decoded timestamp and node id. */
  lemma ReportV1(u: Uuid, format: Option<Format>, ts: Timestamp)
    requires GetVersion(u) == Some(Mac) && GetVariant(u) == Some(RFC4122) && ToTimestamp(u) == Some(ts)
    ensures Report(u, format).stderr == [Text("v1 MAC Address RFC4122"), V1Fields(ts.ticks, ts.counter, u[10..])]
  {
    assert u[10..16] == u[10..];
    assert VersionLabel(GetVersion(u)) + " " + VariantLabel(GetVariant(u)) == "v1 MAC Address RFC4122";
  }

  /** For any v1 UUID the second diagnostic line holds its decoded timestamp and bytes 10..16 as the node id. */
  lemma InspectV1Diagnostics(u: Uuid, format: Option<Format>)
    requires GetVersion(u) == Some(Mac)
    ensures ToTimestamp(u).Some?
    ensures var o := Report(u, format);
      |o.stderr| == 2 && o.stderr[1] == V1Fields(ToTimestamp(u).value.ticks, ToTimestamp(u).value.counter, u[10..16])
  {
  }

  /** Once ticks and node id are resolved, `--version 1` yields `Uuid::new_v1` of them. */
  lemma GenerateV1Resolved(opts: Options, env: Env, ticks: u64, node: NodeId)
    requires ResolveTicks(opts.timestampTicks, env.now) == Ok(ticks)
    requires ResolveNode(opts.macAddress, opts.macInterface, env) == Ok(node)
    ensures NewV1(Timestamp(ticks, opts.counter.GetOr(env.randomCounter)), node).Ok?
    ensures GenerateV1(opts, env) == Ok(NewV1(Timestamp(ticks, opts.counter.GetOr(env.randomCounter)), node).value)
  {
  }

  /**
   * The decoded fields of a `--version 1` run whose ticks and node id
   * resolve: the ticks come from the option, else the clock; the counter
   * from the option, else `rand::random()`; the node id from the resolved
   * MAC address. Only the low 60 bits of the ticks and the low 14 bits of
   * the counter survive.
   */
  lemma GenerateMacFields(opts: Options, env: Env)
    requires opts.uuid.None? && opts.versionMode == Some(Mac)
    requires opts.timestampTicks.Some? || env.now.AfterEpoch?
    requires ResolveNode(opts.macAddress, opts.macInterface, env).Ok?
    ensures var o := Main(opts, env);
      var ticks := if opts.timestampTicks.Some? then opts.timestampTicks.value
                   else TicksFromTimestamp(env.now.sinceEpoch);
      var counter := if opts.counter.Some? then opts.counter.value else env.randomCounter;
      && o.status == Success
      && o.stderr == [Text("v1 MAC Address RFC4122"),
                      V1Fields(ticks % TICKS_LIMIT, counter % COUNTER_LIMIT,
                               ResolveNode(opts.macAddress, opts.macInterface, env).value)]
  {
    var ticks := ResolveTicks(opts.timestampTicks, env.now).value;
    var node := ResolveNode(opts.macAddress, opts.macInterface, env).value;
    var ts := Timestamp(ticks, opts.counter.GetOr(env.randomCounter));
    GenerateV1Resolved(opts, env, ticks, node);
    NewV1Decodes(ts, node);
    var u := NewV1(ts, node).value;
    assert SelectUuid(opts, env) == Ok(u);
    ReportV1(u, opts.outputFormat, Timestamp(ts.ticks % TICKS_LIMIT, ts.counter % COUNTER_LIMIT));
  }

  /**
   * `--version 1` with explicit ticks, counter and MAC address succeeds
   * whatever the environment.
   */
  lemma GenerateMacExplicit(opts: Options, env: Env, t: u64, c: u16, m: NodeId)
    requires opts.uuid.None? && opts.versionMode == Some(Mac)
    requires opts.timestampTicks == Some(t) && opts.counter == Some(c) && opts.macAddress == Some(m)
    ensures var o := Main(opts, env);
      && o.status == Success
      && o.stderr == [Text("v1 MAC Address RFC4122"), V1Fields(t % TICKS_LIMIT, c % COUNTER_LIMIT, m)]
  {
    GenerateMacFields(opts, env);
  }

  /** The all-zero inputs decode as ticks 0, counter 0 and node 00:00:00:00:00:00. */
  lemma GenerateMacZeros(opts: Options, env: Env)
    requires opts.uuid.None? && opts.versionMode == Some(Mac)
    requires opts.timestampTicks == Some(0) && opts.counter == Some(0) && opts.macAddress == Some([0, 0, 0, 0, 0, 0])
    ensures Main(opts, env).stderr[1] == V1Fields(0, 0, [0, 0, 0, 0, 0, 0])
  {
    GenerateMacExplicit(opts, env, 0, 0, [0, 0, 0, 0, 0, 0]);
  }

  /** Without `--timestamp-ticks` and with a clock before 1970 the run panics before any lookup. */
  lemma GenerateMacClockBeforeEpoch(opts: Options, env: Env)
    requires opts.uuid.None? && opts.versionMode == Some(Mac)
    requires opts.timestampTicks.None? && env.now.BeforeEpoch?
    ensures Main(opts, env) == Outcome([], [], Panic("Could not get duration since unix epoch"))
  {
  }

  /**
   * The node id's priority: an explicit `--mac-address` is used as it is;
   * otherwise a named interface is asked (a failed lookup panics, a
   * missing address writes an error and exits 1); otherwise any
   * interface's address is used, and having none panics.
   */
  lemma NodePriority(explicit: Option<NodeId>, interface: Option<string>, env: Env)
    ensures explicit.Some? ==> ResolveNode(explicit, interface, env) == Ok(explicit.value)
    ensures explicit.None? && interface.Some? ==>
      ResolveNode(explicit, interface, env) ==
        match env.interfaceMac
        case Ok(Some(m)) => Ok(m)
        case Ok(None) => Err(Print(Stderr, NoInterfaceMacMessage(interface.value)))
        case Err(_) => Err(Panicked(InterfaceLookupPanic(interface.value)))
    ensures explicit.None? && interface.None? ==>
      ResolveNode(explicit, interface, env) ==
        match env.anyMac
        case Ok(Some(m)) => Ok(m)
        case Ok(None) => Err(Panicked("No mac address found"))
        case Err(_) => Err(Panicked("Could not get mac address"))
  {
  }

  /** A named interface without an address ends the run with its message on stderr, nothing on stdout. */
  lemma InterfaceWithoutAddress(opts: Options, env: Env, name: string)
    requires opts.uuid.None? && opts.versionMode == Some(Mac)
    requires opts.timestampTicks.Some? || env.now.AfterEpoch?
    requires opts.macAddress.None? && opts.macInterface == Some(name) && env.interfaceMac == Ok(None)
    ensures Main(opts, env) ==
      Outcome([], [Text("error: MAC address could not be obtained for `--mac-interface=" + name + "`")], Exit(1))
  {
  }

  /** The node id is always six bytes, so the `expect` after `Uuid::new_v1` never fires. */
  lemma BuildNeverPanics(opts: Options, env: Env)
    ensures Main(opts, env).status != Panic("could not build uuid")
  {
    if opts.uuid.None? && opts.versionMode == Some(Mac) {
      match ResolveTicks(opts.timestampTicks, env.now)
      case Err(_) =>
      case Ok(ticks) =>
        var ts := Timestamp(ticks, opts.counter.GetOr(env.randomCounter));
        match ResolveNode(opts.macAddress, opts.macInterface, env)
        case Err(_) =>
        case Ok(node) => NewV1Decodes(ts, node);
    }
  }

  // ---------------------------------------------------------------------
  // main: the output as a whole
  // ---------------------------------------------------------------------

  /** The one message `main` writes to stdout before exiting is the unsupported-version one. */
  lemma StdoutAbortIsUnsupported(opts: Options, env: Env)
    ensures (SelectUuid(opts, env).Err? && SelectUuid(opts, env).error.Print? &&
      SelectUuid(opts, env).error.stream == Stdout) ==> SelectUuid(opts, env).error.message == UNSUPPORTED_MESSAGE
  {
    if opts.uuid.None? && opts.versionMode == Some(Mac) {
      assert GenerateV1(opts, env).Err? ==> GenerateV1(opts, env).error.Panicked? || GenerateV1(opts, env).error.stream == Stderr;
    }
  }

  /** Stdout carries a UUID only on success; every failure exits with status 1 or panics. */
  lemma StdoutOnlyOnSuccess(opts: Options, env: Env)
    ensures var o := Main(opts, env);
      && (o.status != Success ==> forall line | line in o.stdout :: ParseUuid(line).Err?)
      && (o.status.Exit? ==> o.status.code == 1)
  {
    StdoutAbortIsUnsupported(opts, env);
    var o := Main(opts, env);
    if o.status != Success {
      assert o.stdout == [] || o.stdout == [UNSUPPORTED_MESSAGE];
      assert |UNSUPPORTED_MESSAGE| == 94;
      assert ParseUuid(UNSUPPORTED_MESSAGE).Err?;
    }
  }

  /** A generated UUID, read back from stdout, has the version that was asked for (v4 when none was). */
  lemma GeneratedVersion(opts: Options, env: Env)
    requires opts.uuid.None? && Main(opts, env).status == Success
    ensures var o := Main(opts, env);
      && ParseUuid(o.stdout[0]).Ok?
      && GetVersion(ParseUuid(o.stdout[0]).value) == Some(opts.versionMode.GetOr(Random))
  {
    RenderParsesBack(opts.outputFormat, SelectUuid(opts, env).value);
  }

  /**
   * The three text options are decoded independently: the command line is
   * accepted exactly when each one given decodes, and the positional UUID's
   * error is reported before the version's, the version's before the
   * format's.
   */
  lemma DecodeArgsAccepts(a: Args)
    ensures DecodeArgs(a).Ok? <==>
      && (a.uuid.Some? ==> ParseUuid(a.uuid.value).Ok?)
      && (a.versionMode.Some? ==> ParseVersionMode(a.versionMode.value).Ok?)
      && (a.outputFormat.Some? ==> ParseFormat(a.outputFormat.value).Ok?)
    ensures DecodeArgs(a).Ok? && a.uuid.Some? ==> DecodeArgs(a).value.uuid == Some(ParseUuid(a.uuid.value).value)
    ensures DecodeArgs(a).Ok? && a.versionMode.Some? ==>
      DecodeArgs(a).value.versionMode == Some(ParseVersionMode(a.versionMode.value).value)
    ensures DecodeArgs(a).Ok? && a.outputFormat.Some? ==>
      DecodeArgs(a).value.outputFormat == Some(ParseFormat(a.outputFormat.value).value)
    ensures a.uuid.Some? && ParseUuid(a.uuid.value).Err? ==>
      DecodeArgs(a) == Err(BadUuid(ParseUuid(a.uuid.value).error))
    ensures ((a.uuid.Some? ==> ParseUuid(a.uuid.value).Ok?) && a.versionMode.Some? &&
      ParseVersionMode(a.versionMode.value).Err?) ==>
      DecodeArgs(a) == Err(BadVersion(ParseVersionMode(a.versionMode.value).error))
  {
  }

  /**
   * Re-formatting: any rendering of a UUID, given back with any output
   * format name, prints that UUID in the new format.
   */
  lemma Reformat(u: Uuid, from: Option<Format>, to: Format, env: Env)
    ensures var args := Args(Some(Render(from, u)), None, Some(FormatName(to)), None, None, None, None);
      && DecodeArgs(args).Ok?
      && Main(DecodeArgs(args).value, env).stdout == [Render(Some(to), u)]
  {
    FormatNameRoundTrip(to);
    RenderParsesBack(from, u);
  }

  /** Inspecting with the UUID's own version number passes the check. */
  lemma OwnVersionAccepted(u: Uuid, v: Version, env: Env)
    requires GetVersion(u) == Some(v)
    ensures var args := Args(Some(Render(None, u)), Some(DecimalString(VersionNumber(v))), None, None, None, None, None);
      && DecodeArgs(args).Ok?
      && Main(DecodeArgs(args).value, env) == Report(u, None)
  {
    ParseVersionModeRoundTrip(v);
    RenderParsesBack(None, u);
  }
}
