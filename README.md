# uuid — a verified model of the command-line front end

`uuid` is a small command-line tool for generating and inspecting UUIDs. Given
a UUID in any supported text form, it checks the UUID against an optional
`--version` constraint and then reports it. Without a UUID it generates one:
the nil UUID, a version 1 (time plus MAC address) UUID or a version 4 (random)
UUID. A report is the UUID's version and variant labels on stderr, plus the
decoded timestamp, counter and node id for a version 1 UUID, followed by the
UUID on stdout in the requested output format.

This project models the tool's own decision logic in Dafny and proves what it
promises:

- `parse_uuid` and its brace window;
- `Format::from_str` and `VersionMode::from_str`;
- the `VersionDesc` / `VariantDesc` label tables;
- `ticks_from_timestamp`;
- the inspect and generate dispatch of `main`, including the priority of
  explicit values over their fallbacks.

Modules:

- `Wrappers`: `Option` and `Result`.
- `RustNum`: Rust's `u8`/`u16`/`u64`, and the decimal parser behind
  `str::parse::<u8>()` with its three error texts.
- `UuidCrate`: the behaviour of the `uuid` crate that `main` calls, given an
  RFC 4122 model. That crate's source is not part of this model, so every
  member of this module is an assumption about the crate, not behaviour
  checked against its source. It covers:
  - the simple, hyphenated and URN text forms and the parser;
  - the version and variant decoding of sections 4.1.1 and 4.1.3 of RFC 4122;
  - the version 1 layout of section 4.2 of RFC 4122 and its
    `to_timestamp` decoding;
  - the version 4 layout of section 4.4 of RFC 4122.
- `UuidCli`: the functions of `src/bin/uuid/main.rs`. `Main` maps the decoded
  options and the environment to an `Outcome`: the lines written to stdout,
  the lines written to stderr, and how the run ends (success, `exit(1)` or a
  panic).
- `CliProperties`: the properties of `main` and its helpers.

The environment is a parameter. It holds:

- the system clock;
- the value `rand::random()` returns for the counter;
- the 16 random bytes `Uuid::new_v4` draws;
- the results of `mac_address_by_name` and `get_mac_address`.

Integers are unbounded, and the `u64` wrap-around of `ticks_from_timestamp` is
written out (release builds wrap; see "Left out").

Where the documentation and the code differ, the model follows the code. The
message refusing versions 2, 3 and 5 without a supplied UUID is printed with
`println!` and so goes to stdout, not stderr with the other diagnostics
(`UuidCli.Generate`, `CliProperties.UnsupportedGeneration`).

## Model

| member | source | states |
|---|---|---|
| UuidCli.StripBraces | src/bin/uuid/main.rs:100-104 | a brace-wrapped input is exactly `{` + result + `}`; any other input is passed on unchanged |
| CliProperties.StripBracesExactly | src/bin/uuid/main.rs:100-104 | the input is changed exactly when it is 34..=38 characters long, starts with `{` and ends with `}`; it is then `s[1..len-1]`, two characters shorter |
| CliProperties.BraceWindowBoundary | src/bin/uuid/main.rs:100-105 | every input of length 33 or 39 is refused with an invalid-length error, braces or not |
| CliProperties.BraceWindowInterior | src/bin/uuid/main.rs:100-105 | brace-wrapped inputs of length 35 to 37 are stripped to lengths the crate refuses, so they fail with an invalid-length error |
| CliProperties.AcceptedLengths | src/bin/uuid/main.rs:99-106 | every accepted input has length 32, 34, 36, 38 or 45 |
| CliProperties.BracedFormsAccepted | src/bin/uuid/main.rs:99-106 | both the simple and the hyphenated form inside braces parse to the UUID |
| CliProperties.ParseUuidCaseInsensitive | src/bin/uuid/main.rs:99-106 | upper-casing any input other than a 45-character one (URN prefix) does not change the parse result |
| CliProperties.UrnHexUpper | src/bin/uuid/main.rs:99-106 | in a URN the 36 characters after `urn:uuid:` parse the same upper-cased, so URN hex digits are case-insensitive too |
| CliProperties.UrnPrefixCaseSensitive | src/bin/uuid/main.rs:105 | the `urn:uuid:` prefix is matched exactly: an upper-cased URN form is refused |
| CliProperties.StripBracesUpper | src/bin/uuid/main.rs:100-104 | upper-casing commutes with brace stripping |
| UuidCli.ParseFormat | src/bin/uuid/main.rs:116-127 | every refused name yields the error "invalid format name" |
| CliProperties.ParseFormatAccepts | src/bin/uuid/main.rs:118-125 | exactly `simple`, `hyphenated`, `urn`, `ms` and `microsoft` are accepted; `ms` and `microsoft` are exactly the names of the Microsoft form; everything else is refused with "invalid format name" |
| CliProperties.FormatNameRoundTrip | src/bin/uuid/main.rs:53-68 | each format's documented name decodes to that format |
| UuidCli.VersionOfNumber | src/bin/uuid/main.rs:136-143 | a version exists exactly for the numbers 0..=5, and its RFC 4122 number is the one given |
| UuidCli.ParseVersionMode | src/bin/uuid/main.rs:132-147 | success exactly when the text is a `u8` of at most 5, whose value is the version's number; above 5 the error is "Version out of range"; text that is not a `u8` gives the integer parser's message |
| CliProperties.ParseVersionModeAccepts | src/bin/uuid/main.rs:134-144 | accepted exactly when the text is an optional `+` and a non-empty run of decimal digits of value at most 5; the version's number is that value |
| CliProperties.ParseVersionModeRoundTrip | src/bin/uuid/main.rs:136-142 | each version's number in decimal decodes to that version (0..5 are Nil, Mac, Dce, Md5, Random, Sha1) |
| CliProperties.ParseVersionModeOutOfRange | src/bin/uuid/main.rs:143 | every `u8` above 5 gives "Version out of range" |
| CliProperties.ParseVersionModeNotU8 | src/bin/uuid/main.rs:136 | empty text, a non-digit, a sign and a value above 255 give the three `ParseIntError` messages |
| UuidCli.VersionLabel | src/bin/uuid/main.rs:151-163 | the label is "Unknown" exactly for `None`; a numbered version's label starts with `v` and its number |
| UuidCli.VariantLabel | src/bin/uuid/main.rs:167-177 | the label is "Unknown" exactly for `None` and "Reserved" exactly for the future variant |
| CliProperties.VersionLabelInjective | src/bin/uuid/main.rs:153-161 | distinct versions (with `None`) get distinct labels |
| CliProperties.VariantLabelInjective | src/bin/uuid/main.rs:169-175 | distinct variants (with `None`) get distinct labels |
| CliProperties.LabelMatchesVersionMode | src/bin/uuid/main.rs:136-161 | the label of a decoded version mode starts with `v` and the digit that was typed |
| UuidCli.TicksFromTimestamp | src/bin/uuid/main.rs:180-187 | the result is the number of whole 100-ns intervals in the duration since the Unix epoch, modulo 2^64 |
| CliProperties.TicksExact | src/bin/uuid/main.rs:184-186 | without overflow the ticks are `secs * 10^7 + nanos / 100`; dividing by 10^7 gives back the seconds and the remainder is `nanos / 100` |
| CliProperties.TicksMonotonic | src/bin/uuid/main.rs:184-186 | without overflow one time has fewer ticks than another exactly when it is earlier in (seconds, nanos / 100) order |
| CliProperties.UnixEpochIsTickZero | src/bin/uuid/main.rs:186 | the Unix epoch is tick 0: no offset to the 1582 epoch of RFC 4122 is added |
| CliProperties.GenerateMacClockBeforeEpoch | src/bin/uuid/main.rs:181-183 | without `--timestamp-ticks` a clock before the Unix epoch panics with "Could not get duration since unix epoch" and writes nothing |
| CliProperties.NodePriority | src/bin/uuid/main.rs:219-236 | an explicit MAC address wins. Otherwise the named interface's address is used: a lookup error panics and a missing address exits with a message. Otherwise any interface's address is used: a lookup error panics with "Could not get mac address", no address with "No mac address found" |
| CliProperties.InterfaceWithoutAddress | src/bin/uuid/main.rs:229-231 | a named interface without an address ends the run with `exit(1)`, its message on stderr and nothing on stdout |
| UuidCli.GenerateV1 | src/bin/uuid/main.rs:209-239 | a generated v1 UUID has version 1 and the RFC 4122 variant |
| CliProperties.GenerateV1Resolved | src/bin/uuid/main.rs:215-238 | once ticks and node id resolve, the result is `Uuid::new_v1` of (ticks, explicit counter else random counter) and that node id |
| CliProperties.BuildNeverPanics | src/bin/uuid/main.rs:238 | the node id is always six bytes, so the `expect("could not build uuid")` never fires |
| UuidCli.Generate | src/bin/uuid/main.rs:207-245 | a generated UUID has the requested version (v4 when none is requested); every refusal other than in the v1 branch is the unsupported-version message on stdout |
| UuidCli.SelectUuid | src/bin/uuid/main.rs:196-246 | a supplied UUID is kept unchanged, and it is kept exactly when it passes the version constraint |
| UuidCli.Report | src/bin/uuid/main.rs:248-280 | a report always succeeds and prints exactly the rendered UUID on stdout; stderr starts with the version label, a space and the variant label; a v1 UUID gets a second line with its decoded ticks, counter and bytes 10..16 as node id, and no other UUID gets one |
| UuidCli.Main | src/bin/uuid/main.rs:189-281 | the run succeeds exactly when a UUID is selected, and then prints its rendering; a panic writes nothing |
| CliProperties.InspectSupplied | src/bin/uuid/main.rs:196-205 | with a supplied UUID the run fails exactly when a version mode is given, the UUID's version is known and they differ. A failure is `exit(1)` with only the mismatch message. A success reports the supplied UUID unchanged and its stdout line parses back to it |
| CliProperties.UnknownVersionPassesEveryConstraint | src/bin/uuid/main.rs:197-199 | a UUID whose version is unknown succeeds under any version mode |
| CliProperties.InspectIgnoresGenerationInputs | src/bin/uuid/main.rs:196-205 | with a supplied UUID, the counter, ticks, MAC options and the whole environment do not affect the outcome |
| CliProperties.VersionMismatchExample | src/bin/uuid/main.rs:197-202 | a v4 UUID checked with `--version 1` exits with status 1 and prints nothing on stdout |
| CliProperties.OwnVersionAccepted | src/bin/uuid/main.rs:196-205 | a UUID checked against its own version number is reported unchanged |
| CliProperties.GenerateNil | src/bin/uuid/main.rs:208 | `--version 0` prints the nil UUID with the labels "Nil NCS"; its simple form is 32 zeros |
| CliProperties.GenerateRandom | src/bin/uuid/main.rs:240 | `--version 4` or no version prints `Uuid::new_v4` of the random bytes with the labels "v4 Random RFC4122" |
| CliProperties.UnsupportedGeneration | src/bin/uuid/main.rs:241-244 | without a UUID, versions 2, 3 and 5 print the unsupported message on stdout, nothing on stderr, and exit with status 1 |
| CliProperties.GenerateMacFields | src/bin/uuid/main.rs:209-268 | a v1 run whose ticks and node id resolve succeeds. Its diagnostics are the ticks (explicit, else the clock's) modulo 2^60, the counter (explicit, else random) modulo 2^14, and the resolved MAC address |
| CliProperties.GenerateMacExplicit | src/bin/uuid/main.rs:209-268 | with explicit ticks, counter and MAC address a v1 run succeeds whatever the environment, and decodes those values modulo 2^60 and 2^14 |
| CliProperties.GenerateMacZeros | src/bin/uuid/main.rs:209-268 | ticks 0, counter 0 and MAC 00:00:00:00:00:00 decode as 0, 0 and six zero bytes |
| CliProperties.ReportV1 | src/bin/uuid/main.rs:248-268 | a v1 UUID's report is "v1 MAC Address RFC4122" and then its decoded ticks, counter and node id |
| CliProperties.InspectV1Diagnostics | src/bin/uuid/main.rs:254-268 | for every v1 UUID the timestamp decodes, and the second stderr line carries it with bytes 10..16 as the node id |
| CliProperties.GeneratedVersion | src/bin/uuid/main.rs:207-246 | a generated UUID read back from stdout has the requested version (v4 when none) |
| CliProperties.StdoutAbortIsUnsupported | src/bin/uuid/main.rs:242 | the only message written to stdout before exiting is the unsupported-version one |
| CliProperties.StdoutOnlyOnSuccess | src/bin/uuid/main.rs:196-246 | a failed run writes nothing to stdout that parses as a UUID; every exit uses status 1 |
| UuidCli.Render | src/bin/uuid/main.rs:273-280 | the line is 32 characters for simple, 45 for URN, 38 for Microsoft and 36 for hyphenated or no format |
| UuidCli.RenderParsesBack | src/bin/uuid/main.rs:273-280 | every line `main` can print for a UUID parses back to that UUID |
| CliProperties.RenderShapes | src/bin/uuid/main.rs:273-280 | URN is `urn:uuid:` + hyphenated, Microsoft is `{` + hyphenated + `}`, and no format means hyphenated |
| UuidCli.DecodeArgs | src/bin/uuid/main.rs:14-95 | decoding keeps the counter, ticks and MAC options unchanged and keeps the uuid's presence |
| CliProperties.DecodeArgsAccepts | src/bin/uuid/main.rs:18-68 | the command line is accepted exactly when each given text option decodes, and the options then hold the decoded values; which error is reported when several options are bad is the model's own order (see "Left out") |
| CliProperties.Reformat | src/bin/uuid/main.rs:99-280 | any printed form of a UUID, given back with any format name, prints that UUID in the new format |
| RustNum.ParseU8Spec | src/bin/uuid/main.rs:136 | assumed `u8::from_str`: after an optional `+`, success exactly for a non-empty run of digits of value below 256, with that value |
| RustNum.AccumulateU8Spec | src/bin/uuid/main.rs:136 | assumed `u8::from_str` accumulation: success exactly for all digits with `acc * 10^n + value < 256`, and then that value |
| RustNum.ParseU8DecimalString | src/bin/uuid/main.rs:136 | assumed `u8::from_str`: every `u8` written in decimal parses back to itself |
| UuidCrate.VersionNumberInjective | src/bin/uuid/main.rs:137-142 | version numbers identify versions |
| UuidCrate.GetVersion | src/bin/uuid/main.rs:198 | assumed crate behaviour (section 4.1.3 of RFC 4122): the version nibble names a known version 1..5, the nil UUID is version Nil, and anything else is unknown |
| UuidCrate.GetVariant | src/bin/uuid/main.rs:250 | assumed crate behaviour (section 4.1.1 of RFC 4122): always some variant; RFC 4122 exactly when the top two bits of byte 8 are `10`, NCS exactly when the top bit is 0 |
| UuidCrate.HexRoundTrip | src/bin/uuid/main.rs:105 | assumed crate hex codec: decoding the lowercase encoding gives the bytes back |
| UuidCrate.HexDecodeUpper | src/bin/uuid/main.rs:105 | assumed crate hex codec: hex decoding ignores letter case |
| UuidCrate.CrateParse | src/bin/uuid/main.rs:105 | assumed crate parser: an invalid-length error exactly for lengths other than 32, 36 and 45, or 45 without the `urn:uuid:` prefix |
| UuidCrate.ParseSimpleForm | src/bin/uuid/main.rs:105 | assumed crate parser: the simple form parses to the UUID |
| UuidCrate.ParseHyphenatedForm | src/bin/uuid/main.rs:105 | assumed crate parser: the hyphenated form parses to the UUID |
| UuidCrate.ParseUrnForm | src/bin/uuid/main.rs:105 | assumed crate parser: the URN form parses to the UUID |
| UuidCrate.CrateParseUpper | src/bin/uuid/main.rs:105 | assumed crate parser: any input other than a 45-character one parses the same upper-cased |
| UuidCrate.HyphenatedIsGroupedSimple | src/bin/uuid/main.rs:274-278 | assumed crate formatters (section 3 of RFC 4122): the hyphenated form is the simple form's 8-4-4-4-12 groups joined by hyphens |
| UuidCrate.NewV1 | src/bin/uuid/main.rs:238 | assumed crate behaviour: building succeeds exactly for a six-byte node id |
| UuidCrate.NewV1Decodes | src/bin/uuid/main.rs:238-259 | assumed crate behaviour (section 4.2 of RFC 4122): a v1 UUID has version 1, the RFC 4122 variant and the node id in bytes 10..16, and `to_timestamp` returns the ticks modulo 2^60 and the counter modulo 2^14 |
| UuidCrate.ToTimestamp | src/bin/uuid/main.rs:256-259 | assumed crate behaviour: a timestamp exactly for v1 UUIDs, below 2^60 ticks and 2^14 counter |
| UuidCrate.BigEndianRoundTrip | src/bin/uuid/main.rs:238 | assumed v1 field layout: big-endian encoding of a value that fits decodes back to it |
| UuidCrate.NewV4 | src/bin/uuid/main.rs:240 | assumed crate behaviour (section 4.4 of RFC 4122): version 4, the RFC 4122 variant, every other bit taken from the random bytes |
| UuidCrate.NewV4Injective | src/bin/uuid/main.rs:240 | assumed crate behaviour: equal v4 UUIDs come from random bytes that agree on all 122 kept bits |
| UuidCrate.NilDecodes | src/bin/uuid/main.rs:208 | assumed crate behaviour: the nil UUID has version Nil, the NCS variant and no timestamp |
| UuidCrate.NilSimpleForm | src/bin/uuid/main.rs:208 | assumed crate formatter: the nil UUID's simple form is 32 zeros |

## Left out

- Command-line parsing by `structopt` (lines 6-95): the help text, the error message and exit code for a rejected argument, and the `u16`, `u64` and `MacAddress` parsing of `--counter`, `--timestamp-ticks` and `--mac-address`. `Options` holds those as decoded values. `DecodeArgs` applies only the three decoders defined in this file.
- CliProperties.DecodeArgsAccepts: when several text options are bad, the model reports the UUID's error, then the version's, then the format's. That order is this model's choice. In the program the argument parser inside `Opt::from_args()` (line 190) decides it, and `main.rs` does not fix it.
- The OS calls `mac_address_by_name` and `get_mac_address`, the clock `SystemTime::now()` and `rand::random()`: their results are fields of `Env`.
- The `uuid` crate's source is not part of this model. `UuidCrate` is an RFC 4122 model of what `main` relies on, not a check of that crate.
- The `mac_address` crate's `Display` of the node id and the exact text of the v1 diagnostic line (`timestamp_ticks=… counter=… node_id=…`): the line is kept as its three values (`DiagLine.V1Fields`).
- Stream locking, write failures and their `expect("Could not write to stderr")` panics: writes are modelled as always succeeding.
- UuidCli.Main: a panic message is the `expect` text only; the `: <error>` Debug suffix Rust appends is not modelled.
- UuidCli.Main: a panic's exit code and the partial stderr output before a panic are not modelled. Every panic in `main` happens before the first write.
- UuidCli.TicksFromTimestamp: models the release build, where `u64` overflow wraps. A debug build panics on overflow instead. The no-overflow lemmas carry the bound on the seconds.
- The counter argument `rand::random()` at line 215 is evaluated even when `--counter` is given (`unwrap_or` is eager). It has no effect on the output and is not modelled.
- Rust's `len()` counts bytes while the model counts characters. The two differ only for non-ASCII text, which is never accepted either way; for such text the kind of parse error may differ.
- Letter case: the model upper-cases only ASCII letters. Full Unicode case mapping is not modelled.
