# hbctl: verified models of the audit log, configuration, bootstrap and caches

This project models the stateful core of the hbctl node agent and proves properties of it over
whole runs. `dafny verify dfyconfig.toml` checks everything.

- **Audit log** (`AuditEvent`, `LogLines`, `AuditChain`, `AuditVerify`, `AuditTamper`,
  `AuditRotation`, `AuditLogger`, `AuditHistory`, `AuditTheorems`, `AuditRetention`,
  `AuditLosses`, `AuditInstance`). The hash-chained log as a class over a directory of numbered
  files: sealing, appending, rotation by a chain of renames, age purge and resumption from the last
  8 KiB, and the independent verifier. What is on disk after any run and when all of it is, what
  the verifier says of each file, and what deletions, edits, lost writes and restarts look like to
  it.
- **Configuration** (`GoStrings`, `Network`, `Kargs`, `Resolv`, `Validate`, `MachineConfig`,
  `ConfigTheorems`, `ConfigRefusals`). The hand-written printers and parsers, with the exact inputs
  on which they round-trip, `Apply`/`Read` over a file store in which any write may fail, and what
  is refused and what is let through.
- **Bootstrap** (`Bootstrap`, `BootstrapRuns`). The one-time token manager over its two marker
  files, with file faults, restarts, new token hashes and concurrent callers.
- **JWKS cache** (`Jwks`, `JwksConcurrent`). One call at a time, and as interleaved critical
  sections.
- **Request chain and health** (`Handler`, `HandlerRuns`, `Health`). Authorization and audit
  around every call, down to the audit files; health aggregation and the watchdog loop.

Imperative code is modelled by methods with loops over classes, arrays and strings, each proved
against a function or predicate; the theorems are lemmas about those over all inputs and runs.

## Assumptions

- HMAC-SHA256 is any function to 64 hex digits. Freedom from collisions is never assumed globally,
  which no such function satisfies; lemmas that need it ask for it on the MAC inputs that occur.
- The JSON codec may refuse an event; an encoding is non-empty, has no line break and decodes to
  its event. `AuditInstance` shows that these assumptions can be met, together with freedom from
  collisions on any chain of events and on what any run writes.
- A timestamp is represented by its RFC 3339 rendering, and strings are Unicode text.
- Each write or rename is done completely or not at all. One clock reading per `Log` call,
  which holds the logger's mutex: concurrent callers are some sequence of calls.
- `strconv.IsPrint` is known for ASCII only; `net.ParseIP` accepts only hexadecimal digits, colons
  and dots. The policy engine, the CSR signer and SHA-256 are arbitrary functions.

## Where the code and its documentation differ

- docs/audit.md says that the chain restarts in a new file. The code carries the hash over, so a
  file begun by rotation reports one break although nothing is wrong (`EachFileReport`).
- docs/audit.md says that the hash covers all fields and that tampering breaks the chain from that
  point on. Detail is not covered (`DetailIsNotCovered`). Replacing an event is reported as a break
  exactly when the replacement links elsewhere or its successor no longer links to it, at most at
  these two places, and never further on (`EditReport`).
- The comment on `ExcludeRule` says that empty fields match anything. A rule with an empty identity
  never applies, and the comment holds exactly for rules without one (`CommentHoldsExactlyWhen`).
- The MAC input is not injective when a field contains a bar (`MacInputPinsFields`).
- A restart does not always resume the chain. It starts anew at "genesis" when the first write after
  a rotation is lost, and when the last line is 8192 bytes or longer and its tail does not decode
  (`RestartResumes`, `LostWriteAfterRotation`, `LongLineBeforeRestart`).
- Kernel arguments with a quote, a backslash or an unprintable character pass validation and do not
  come back from the file, so every Apply asks for a reboot (`NoRebootOnReapply`).
- The bootstrap token is called one-time, but failures of the two file operations that end an
  issuing call are ignored. Exactly which of them allow a second certificate is stated by
  `SecondNeedsHash`, `SecondNeedsNoMarker` and `SecondNeedsBothFailures`.
- A JWKS key older than the TTL can be returned without a failed refresh, in two ways: at the
  cooldown check, when another call published since the first lookup and that is still within the
  cooldown; and at the last lookup, when the map it then meets was fetched longer than the TTL ago,
  for which a late publish suffices, even of the same call (`StaleAnswerExactlyWhen`, with runs from
  the start in `StaleAnswerWithoutFailure`, `StaleAnswerOfOneCall` and `StaleAnswerOfAnother`).
- Overlapping calls can fetch within the cooldown of each other (`PublishesWithinCooldown`).

## Model

| member | source | states |
|---|---|---|
| `AuditEvent.PrevHashRecovered` | internal/audit/audit.go:250-265 | Equal MAC inputs have equal PrevHash fields, whatever the other fields hold, as long as the links themselves have no bar. |
| `AuditEvent.StampAndIdRecovered` | internal/audit/audit.go:250-265 | Equal MAC inputs have equal timestamps and, when the IDs are bar-free, equal IDs. |
| `AuditEvent.MacInputPinsFields` | internal/audit/audit.go:250-265 | The bar-joined MAC input determines all ten covered fields if and only if none of them contains a bar. |
| `AuditEvent.TwinOf` | internal/audit/audit.go:250-265 | Every event with a bar in a covered field has a different twin with the same MAC input. |
| `AuditEvent.SameInputSameFields` | internal/audit/audit.go:250-265 | While the fields hold no bar, cutting the MAC input at the bars gives the ten fields in their order, and an event with the same input agrees in each of them, named one by one. |
| `AuditInstance.InstanceIsSound` | internal/audit/audit.go:250-265 | The shape assumed of the MAC and the JSON codec is satisfiable: for every list of inputs a codec and a MAC that names them by position meet it. |
| `AuditInstance.HypothesesCanBeMet` | internal/audit/audit.go:138-165 | For any events with distinct generated IDs there is a sound codec and MAC under which they form a chain without collisions: the hypotheses of the tampering theorems can all hold together. |
| `AuditInstance.RunHypothesesCanBeMet` | internal/audit/audit.go:138-168 | For any calls with distinct generated IDs, with restarts in between and lines that fit the window, there is a codec and MAC under which the run loses nothing, every restart resumes, and what is written meets the hypotheses of the theorems on runs. |
| `LogLines.SplitLines` | internal/audit/audit.go:311-324 | The byte loop returns exactly the newline-separated lines, without an empty last one. |
| `LogLines.LinesTerminated` | internal/audit/audit.go:311-324 | Splitting undoes newline-terminated joining of newline-free lines. |
| `LogLines.TerminatedLines` | internal/audit/audit.go:311-324 | Joining undoes splitting on every byte string, up to a missing final newline, and no line holds a newline. |
| `LogLines.LinesConcat` | internal/audit/audit.go:311-324 | Past a line end, the lines of a concatenation are the lines of its parts. |
| `LogLines.ShortLinesScanned` | internal/audit/verify.go:38-48 | While every line is below one MiB the scanner delivers all non-empty lines, each without its carriage return. |
| `LogLines.LongLineStopsScan` | internal/audit/verify.go:38-48 | The first line of one MiB or more stops the scan: exactly the non-empty lines before it are delivered. |
| `LogLines.AllDelivered` | internal/audit/verify.go:38-48 | All lines of a written file are delivered if and only if each is below one MiB. |
| `AuditLogger.ReadLastHash` | internal/audit/audit.go:273-309 | The backward scan returns the hash of the last decodable non-empty line of the 8 KiB tail, or "genesis". |
| `AuditLogger.WindowSuffices` | internal/audit/audit.go:285-308 | The tail gives the same hash as the whole file whenever the last decodable line lies inside the window, wherever the window cuts what precedes it. |
| `AuditLogger.LongLineLosesChain` | internal/audit/audit.go:285-308 | Of a last line of 8192 bytes or more only the last 8191 bytes are looked at: the hash found is that of the event they decode to, or "genesis". |
| `AuditLogger.FileLogger.constructor` | internal/audit/audit.go:76-111 | Opening creates audit.log if missing, keeps a 32-byte key file or installs the new key, and resumes the hash from the file tail. |
| `AuditLogger.OpeningKeepsWhatIsThere` | internal/audit/audit.go:76-111 | A 32-byte key file is kept and any other replaced; an existing audit.log is left as it is; a new one starts at "genesis". |
| `AuditLogger.FileLogger.Log` | internal/audit/audit.go:138-168 | Log seals the event, advances the hash even when encoding or writing fails, rotates first, and appends one line: the new files, key and hash are AfterLog of the old ones. |
| `AuditLogger.FileLogger.ShouldLog` | internal/audit/audit.go:116-136 | False exactly for a success of a named identity that some exclude rule matches. |
| `AuditLogger.CommentHoldsExactlyWhen` | internal/audit/audit.go:31-42 | The code suppresses what the comment on ExcludeRule says it does, for all calls, if and only if no rule has an empty identity; the same when only named callers are looked at. |
| `AuditLogger.EmptyIdentityNeverApplies` | internal/audit/audit.go:116-136 | A rule with an empty identity alone suppresses no success, although by the comment it suppresses every one that its action and resource match. |
| `AuditRotation.LogDir.ShiftFiles` | internal/audit/audit.go:213-219 | The rename loop has the effect of one simultaneous shift, with the fate of slot 5 spelled out. |
| `AuditRotation.LogDir.RemoveOld` | internal/audit/audit.go:222-238 | The purge removes exactly the files last modified before the cutoff. |
| `AuditRotation.LogDir.MaybeRotate` | internal/audit/audit.go:194-248 | Rotation happens exactly when it is enabled and audit.log has reached the limit; then shift, purge and a fresh audit.log. |
| `AuditRotation.RotatesExactlyAtLimit` | internal/audit/audit.go:194-212 | Without a limit, or below maxSizeMB times 1048576 bytes, nothing is touched; at it audit.log becomes audit.log.1, unless it is too old, behind a fresh empty file. |
| `AuditRotation.MovedExactlyWhen` | internal/audit/audit.go:213-245 | In a rotation the file in slot s is found in slot s + 1 afterwards if and only if s is below 5 and, with retention on, the file is not older than the cutoff. |
| `AuditRotation.ShiftIsByOne` | internal/audit/audit.go:213-219 | The renames shift every slot by one if and only if slot 5 is free or slot 4 is taken. |
| `AuditRotation.ShiftOfGapless` | internal/audit/audit.go:213-219 | A gapless directory is shifted by one and only a file in slot 5 is dropped. |
| `AuditRotation.RotationKeepsGapless` | internal/audit/audit.go:194-248 | A rotation of a gapless directory leaves it gapless if and only if the age cutoff does not spare one of the shifted files while a newer one is past it. |
| `AuditRotation.RotationKeepsStretch` | internal/audit/audit.go:194-248 | With modification times in order, a rotation leaves a fresh file in front of an initial stretch of the old files, gapless and in order. |
| `AuditChain.ChainConcat` | internal/audit/audit.go:144-146 | A sequence is a chain exactly when any front part is one and the rest is a chain from its tip. |
| `AuditVerify.VerifyLog` | internal/audit/verify.go:18-77 | Key and file errors as in the source; otherwise ValidEvents + InvalidHash = TotalEvents, the counters count exactly the broken links and the lines without a valid MAC, and FirstBreak is the 1-based position of the first decodable faulty line or 0. |
| `AuditVerify.CheckLine` | internal/audit/verify.go:48-73 | One round of the loop turns the report on the lines so far into the report on one line more. |
| `AuditVerify.CleanReport` | internal/audit/verify.go:42-76 | The report is clean if and only if every non-empty line decodes and the events are a MAC-correct chain from "genesis". |
| `AuditTamper.SameTipSameHistory` | internal/audit/audit.go:250-265 | Two chains from "genesis" with the same last hash have the same length, MAC inputs and hashes, unless two of their inputs collide. |
| `AuditTamper.SameTipSameLog` | internal/audit/verify.go:42-76 | Two logs that verify clean under one key and end in the same hash have the same length and the same MAC input at every position. |
| `AuditTamper.DeletionReport` | internal/audit/verify.go:56-73 | Any selection of a genuine chain has no invalid hash and exactly one break per kept event whose predecessor was not kept, the first being FirstBreak. |
| `AuditTamper.StretchReport` | internal/audit/verify.go:56-73 | A contiguous stretch reports one break at position 1 unless it starts at the beginning; losing only a tail reports none. |
| `AuditTamper.SelectionReport` | internal/audit/verify.go:56-73 | Of events with known links, in any selection: no invalid hash, and exactly one break per kept event that does not link to the kept event before it. |
| `AuditTamper.EditReport` | internal/audit/verify.go:56-73 | Whatever an event of a chain is replaced by, hash fields included: one invalid hash unless the replacement carries its own MAC; one break if it links elsewhere and one if its successor no longer links to it; FirstBreak is the first of these. |
| `AuditTamper.FieldEditReport` | internal/audit/verify.go:56-73 | With both hash fields left alone nothing is reported broken, and the edit is noticed if and only if it changes the MAC input. |
| `AuditTamper.DetailIsNotCovered` | internal/audit/audit.go:250-265 | Rewriting Detail in any events leaves a chain a chain. |
| `AuditHistory.RotateOnDisk` | internal/audit/audit.go:194-248 | Rotation keeps the files an unbroken last part of what was written. |
| `AuditHistory.ReopenFindsTip` | internal/audit/audit.go:101-109 | Reopening takes its hash from what the window shows of the newest line of audit.log, and "genesis" when audit.log is empty, whatever older files hold. |
| `AuditHistory.LostWriteAfterRotation` | internal/audit/audit.go:138-168 | When the first write after a rotation is lost and the agent restarts, the chain starts anew at "genesis". |
| `AuditHistory.RunOnDisk` | internal/audit/audit.go:138-248 | In any run, with any failed writes and encodings, reopenings and an ordered clock, the files read oldest first are a suffix of all events written. |
| `AuditHistory.RestartResumes` | internal/audit/audit.go:101-109 | After any run a restart resumes at the last event written if and only if nothing was ever written, or audit.log is not empty and the last line is below 8192 bytes or its last 8191 bytes decode to an event with that hash. |
| `AuditHistory.LongLineBeforeRestart` | internal/audit/audit.go:285-308 | After any run whose last line is 8192 bytes or longer and whose tail does not decode, a restart begins at "genesis" although older events are on disk. |
| `AuditHistory.RunResumable` | internal/audit/audit.go:138-309 | In runs that lose nothing the history is one chain from "genesis" whose tip is in memory if and only if every restart resumed. |
| `AuditHistory.ShortLinesResume` | internal/audit/audit.go:101-109 | When nothing is lost and the last line before each restart fits the window, every restart resumes. |
| `AuditTheorems.HistoryOnDisk` | internal/audit/audit.go:138-309 | After any run audit.log.5 to audit.log, decoded and concatenated, are a suffix of all events written; when nothing was lost these are one chain across file boundaries and restarts, with its tip in memory, if and only if every restart resumed. |
| `AuditTheorems.EachFileReport` | internal/audit/verify.go:42-76 | After a run that lost nothing and whose restarts resumed, every file on its own verifies, up to a line too long for the scanner, with no invalid hash and at most one break, at position 1, when it does not start the history. |
| `AuditLosses.RunLinked` | internal/audit/audit.go:101-168 | In every run, with any lost writes, long lines and restarts, each sealed event carries its MAC and links to the event sealed before it in its process or, for the first one, to what its restart found. |
| `AuditLosses.LossReport` | internal/audit/verify.go:42-76 | In every such run each file reports no invalid hash and, among the lines the scanner delivers, exactly one break per event that links to something else than the event before it in that file. |
| `AuditLosses.OrdinaryFileReport` | internal/audit/verify.go:38-76 | When no line written reaches one MiB the report on each file counts every event in it, with the same breaks. |
| `AuditLosses.RestartHidesLosses` | internal/audit/audit.go:101-168 | The first event written after a restart follows the last one on disk, whatever was sealed and lost before, and its PrevHash is that event's hash if and only if the restart resumed. |
| `AuditLosses.SealedChain` | internal/audit/audit.go:142-146 | Without restarts the sealed events are one chain although writes or encodings fail, and its tip is in memory. |
| `AuditLosses.LostWritesReport` | internal/audit/verify.go:42-76 | Without restarts, with lost writes, rotations and purges, each file reports exactly the delivered events whose predecessor is missing from it. |
| `AuditTheorems.RunWithinLimits` | internal/audit/audit.go:194-245 | In every reachable state there are at most six log files, each below the limit plus one line, whatever the clock does and whatever fails. |
| `AuditRetention.LoggedLine` | internal/audit/audit.go:138-168 | One call below the limit appends its line to audit.log and leaves every other file alone; at the limit the line begins a fresh file; the event carries the call's time and ID. |
| `AuditRetention.SmallLogIsWhole` | internal/audit/audit.go:194-212 | While the bytes written stay below the limit, audit.log is the only file and holds every event written. |
| `AuditRetention.WholeHistoryExactlyWhen` | internal/audit/audit.go:194-245 | After any run the files hold everything ever written if and only if no rotation found a file in slot 5 or, with retention on, one older than the cutoff; every numbered file is at least as large as the limit, so without retention five full files remain once anything was dropped. |
| `AuditRetention.LogAndVerify` | internal/audit/verify.go:18-77 | A client from the first start to the verifier: with a 32-byte key, ordinary lines and a log below its limit the report counts every event written, and finds nothing wrong when all were. |
| `GoStrings.ScanPrinted` | internal/system/network/network.go:107-133 | Scanning a printed 32-bit number gives it back. |
| `Network.RenderNetworkFile` | internal/system/network/network.go:88-112 | The builder writes the header, addressing and link lines in order, each with its newline. |
| `Network.UnitTextInFull` | internal/system/network/network.go:88-112 | The whole text of a unit file, section headers included. |
| `Network.AddressingInFull` | internal/system/network/network.go:95-106 | The lines of the network section: DHCP=yes alone, or DHCP=no, one line per address in order, and the gateway if there is one. |
| `Network.OtherLinesOfUnit` | internal/system/network/network.go:114-137 | Only "yes" switches DHCP on; foreign keys and lines without an equals sign change nothing. |
| `Network.BadMtuIgnored` | internal/system/network/network.go:131-133 | An MTU that is no number or does not fit 32 bits leaves the value before it. |
| `Network.ParseNetworkFile` | internal/system/network/network.go:114-137 | The parse loop is the left fold of the lines with last-wins keys, appended addresses and a range-checked MTU. |
| `Network.RoundTrip` | internal/system/network/network.go:88-137 | Parsing the printed file gives the interface, without static addressing under DHCP, if and only if the printed strings have no newline and no surrounding white space; values may contain "=". |
| `Network.RenderInjective` | internal/system/network/network.go:88-112 | On such interfaces equal files mean equal interfaces up to that normal form. |
| `Kargs.RenderTOML` | internal/system/kargs/kargs.go:69-75 | The printed file is the one-line list of %q strings. |
| `Kargs.ParseQuotedList` | internal/system/kargs/kargs.go:104-129 | The loop terminates on every input, each round leaving a shorter rest, and collects the specified list. |
| `Kargs.ParseTOML` | internal/system/kargs/kargs.go:77-102 | The list on the first kargs line with an equals sign, or nothing. |
| `Kargs.RoundTrip` | internal/system/kargs/kargs.go:69-129 | Parsing the printed list gives the arguments back if and only if every character is printable and neither a quote nor a backslash. |
| `Kargs.BareListReadsBack` | internal/system/kargs/kargs.go:104-129 | A hand-written comma-separated list of bare arguments is read as those arguments. |
| `Kargs.OtherLinesSkipped` | internal/system/kargs/kargs.go:77-85 | Lines that do not begin with kargs are skipped. |
| `Kargs.EscapeTable` | internal/system/kargs/kargs.go:69-75 | The escapes of %q, character by character. |
| `Kargs.TomlTextOfTwo` | internal/system/kargs/kargs.go:69-75 | The text of the file for two plain arguments. |
| `Resolv.RenderResolv` | internal/machineconfig/config.go:141-147 | One nameserver line per server. |
| `Resolv.ReadDNS` | internal/machineconfig/config.go:149-162 | The servers of the nameserver lines, in order. |
| `Resolv.RoundTrip` | internal/machineconfig/config.go:141-162 | Reading gives the written servers back if and only if each is non-empty, on one line and does not end in white space. |
| `Resolv.OtherLinesIgnored` | internal/machineconfig/config.go:149-162 | A line that is no nameserver line contributes nothing, wherever it stands. |
| `Validate.InterfaceNameIsClean` | internal/validate/validate.go:31-45 | A valid interface name survives the unit file and contains no path separator. |
| `Validate.KernelArgExactlyWhen` | internal/validate/validate.go:96-107 | An argument that begins, in any case, with one of the eight dangerous prefixes, spelled out, is refused, as is one with a line break or tab; a printable ASCII argument is refused only then. |
| `Validate.HostnameExactlyWhen` | internal/validate/validate.go:47-58 | Labels joined with dots are a host name if and only if each has 1 to 63 letters, digits and hyphens, none at its ends, and the whole at most 253 characters. |
| `Validate.InterfaceNameExactlyWhen` | internal/validate/validate.go:31-45 | An interface name is 1 to 15 letters, digits, dots, hyphens and underscores, without two dots in a row. |
| `Validate.AddressesExactlyWhen` | internal/validate/validate.go:60-94 | An address is anything without line breaks and tabs, a gateway anything without line breaks, a server whatever net.ParseIP accepts. |
| `MachineConfig.Host.WriteUnits` | internal/system/network/network.go:31-53 | The unit files of a prefix of the interfaces are written, all of them on success. |
| `MachineConfig.Host.ReadUnits` | internal/system/network/network.go:55-86 | The parsed unit files in listing order, without foreign files and nameless interfaces. |
| `MachineConfig.Host.WriteKargs` | internal/system/kargs/kargs.go:26-50 | An empty list removes the file, another one replaces it, a failure leaves it. |
| `MachineConfig.Host.Read` | internal/machineconfig/config.go:111-135 | The host name is the kernel's or empty; interfaces, kernel arguments and DNS servers are those of the files, each listed unit file once; NTP servers are not read. |
| `MachineConfig.Host.Apply` | internal/machineconfig/config.go:42-109 | Whatever it returns, the files are the initial ones with a prefix of the fixed write sequence; where it stopped and why determine each other; RebootRequired says whether the old arguments differ. |
| `MachineConfig.Host.ApplyInterfaces` | internal/machineconfig/config.go:54-74 | All interfaces are validated before the first is written. |
| `MachineConfig.Host.ApplyKargs` | internal/machineconfig/config.go:76-90 | The arguments are validated before the write, and compared with what the file held before. |
| `MachineConfig.StringSliceEqual` | internal/machineconfig/config.go:164-174 | True exactly for equal lists. |
| `ConfigTheorems.EveryWriteWasValidated` | internal/machineconfig/config.go:42-102 | However Apply ends, a write it did had passed the validation of its stage and of all earlier ones. |
| `ConfigTheorems.FullReplay` | internal/machineconfig/config.go:42-102 | The whole write sequence replaces exactly the files the config speaks of. |
| `ConfigTheorems.ApplyTwice` | internal/machineconfig/config.go:42-109 | Applying the same config again changes no file. |
| `ConfigTheorems.OverlayIsLast` | internal/system/network/network.go:40-50 | In the resulting directory each name has the last interface given for it. |
| `ConfigTheorems.OverlayKeepsOthers` | internal/system/network/network.go:40-50 | Files of other names are unchanged. |
| `ConfigTheorems.ReadAfterApply` | internal/machineconfig/config.go:42-135 | After all writes of a valid, storable config, reading gives its kernel arguments and DNS servers and the old interface directory overlaid by its interfaces; empty parts read as before. |
| `ConfigTheorems.ApplyThenRead` | internal/machineconfig/config.go:42-135 | A client that applies a storable config and reads back: unless refused, what was applied (all of it, or all but the DNS servers with a warning) is found again, every interface that is the last of its name included, and the rest is as before. |
| `ConfigTheorems.UnitFileExactlyWhen` | internal/system/network/network.go:67-71 | The agent's own unit files are exactly those named 10-hb-*.network. |
| `ConfigTheorems.ListedOnly` | internal/system/network/network.go:66-85 | Every interface read has a name and comes from such a file. |
| `ConfigRefusals.ApplyAny` | internal/machineconfig/config.go:42-102 | For any configuration: a host name with a foreign character changes nothing; a bad interface changes no unit file; a dangerous kernel argument neither arguments nor servers; a server that is no address not the servers; each is refused. |
| `ConfigRefusals.ApplyOrdinary` | internal/machineconfig/config.go:42-109 | On a working host a configuration of ordinary values, named by their characters, is applied and every file written. |
| `ConfigTheorems.NoRebootOnReapply` | internal/machineconfig/config.go:82-90 | Re-applying asks for no reboot if and only if every argument is free of quotes, backslashes and unprintable characters. |
| `ConfigTheorems.QuotedArgIsNotStable` | internal/validate/validate.go:96-107 | A kernel argument that passes the validator and does not come back from the file. |
| `Bootstrap.StoredHashReadsBack` | internal/bootstrap/bootstrap.go:73-79 | The hash file that WriteTokenHash writes decodes to the digest it was written from. |
| `Bootstrap.HashFileShape` | internal/bootstrap/bootstrap.go:170-175 | The file is sha256:, two lower-case hex digits a byte, and a newline. |
| `Bootstrap.OutcomeExactlyWhen` | internal/bootstrap/bootstrap.go:54-131 | Which of the outcomes a call has, in terms of the two files, the counter, the token and the failures it meets. |
| `Bootstrap.OutcomeEffects` | internal/bootstrap/bootstrap.go:54-138 | What each outcome does to the files and the counter: six of them nothing; a wrong token is counted, and only the third one removes the hash and writes the marker, as do a locked-out call, a bad certificate and an issued one. |
| `Bootstrap.Manager.IsEnabled` | internal/bootstrap/bootstrap.go:45-52 | Enabled exactly when the hash can be seen and the marker cannot. |
| `Bootstrap.Manager.Bootstrap` | internal/bootstrap/bootstrap.go:54-131 | One locked call: the answer, the counter and the two marker files, for every way the file system and the signer can fail. |
| `Bootstrap.TlsDir.WriteTokenHash` | internal/bootstrap/bootstrap.go:170-175 | Installs the hash of a token and leaves the consumed marker alone. |
| `BootstrapRuns.OneCertificate` | internal/bootstrap/bootstrap.go:45-138 | Over any interleaving of callers past the unlocked check, restarts and new hashes: at most one certificate ever, if the marker can always be written and seen. |
| `BootstrapRuns.OnePerInstallation` | internal/bootstrap/bootstrap.go:54-138 | If only the hash removal always works: at most one certificate per installed hash. |
| `BootstrapRuns.SafeExactlyWhen` | internal/bootstrap/bootstrap.go:45-138 | From any state, however many mismatches were counted, what later runs with restarts can issue depends on the two files only, stated as three equivalences. |
| `BootstrapRuns.SecondNeedsHash` | internal/bootstrap/bootstrap.go:115-138 | After a certificate, no later run without a new installation issues another one if and only if the issuing call removed the hash. |
| `BootstrapRuns.SecondNeedsNoMarker` | internal/bootstrap/bootstrap.go:115-138 | No later run in which the marker can be seen issues another one, installations included, if and only if the issuing call wrote the marker or it was there already. |
| `BootstrapRuns.SecondNeedsBothFailures` | internal/bootstrap/bootstrap.go:115-138 | With neither new installations nor a marker that cannot be seen: if and only if one of the two file operations of the issuing call worked or the marker was there already. |
| `BootstrapRuns.SecondCertificate` | internal/bootstrap/bootstrap.go:45-138 | It happens from a fresh installation: the hash removal fails, and the marker cannot be written, or later not be seen; the same token then gets a second certificate. |
| `BootstrapRuns.CounterCountsMismatches` | internal/bootstrap/bootstrap.go:83-95 | The counter is the number of mismatches since the process started and never exceeds three. |
| `BootstrapRuns.RightTokenStillIssues` | internal/bootstrap/bootstrap.go:62-131 | After any run with at most two wrong tokens, with other refused requests, failures and restarts in between, the right token still gets its certificate. |
| `BootstrapRuns.WorksExactlyUpToTwo` | internal/bootstrap/bootstrap.go:62-131 | Within one process whose marker works, the right token works afterwards if and only if at most two wrong ones came before. |
| `BootstrapRuns.LockoutIsFinal` | internal/bootstrap/bootstrap.go:62-65 | After three mismatches the process issues nothing more, even if no file operation works. |
| `BootstrapRuns.LockoutSurvivesRestart` | internal/bootstrap/bootstrap.go:87-95 | Whether the lockout outlives the process is decided by the third mismatch: without new installations no certificate is issued later if and only if it removed the hash; while the marker can be seen, installations included, if and only if it wrote the marker or it was there; with neither, if and only if one of these holds. |
| `BootstrapRuns.IssuedExactlyWhen` | internal/bootstrap/bootstrap.go:54-131 | A certificate is issued exactly for the installed token with a signable CSR, while enabled, below three mismatches and with readable files; a missing or unsignable CSR changes nothing. |
| `Jwks.UsableKeysMeaning` | internal/authn/oidc/oidc.go:367-378 | The new map has exactly the IDs of usable entries, each with its last usable entry. |
| `Jwks.JwksCache.Refresh` | internal/authn/oidc/oidc.go:344-389 | A successful fetch replaces the map and both times; a failed one changes nothing. |
| `Jwks.JwksCache.GetKey` | internal/authn/oidc/oidc.go:305-342 | The answer is what the map holds for the ID after the call, and the issuer is asked exactly when the key is missing or stale and the cooldown is over. |
| `Jwks.AskedWhenNeeded` | internal/authn/oidc/oidc.go:305-342 | A missing key, or a cache older than 3600 seconds, is fetched once 60 seconds have passed since the last refresh; the answer is then the last usable entry of the document for that ID, or none. |
| `Jwks.OtherwiseUnchanged` | internal/authn/oidc/oidc.go:305-342 | A key at most 3600 seconds old, a refresh less than 60 seconds ago, or a failed fetch: the cache is unchanged and the answer is what it holds. |
| `Jwks.CacheIsLastDocument` | internal/authn/oidc/oidc.go:380-385 | In sequential runs both times agree and the map is the usable part of the last document fetched. |
| `Jwks.StaleOnlyAfterFailure` | internal/authn/oidc/oidc.go:305-342 | In sequential runs a key that was older than the TTL when the call looked it up is returned only after a fetch failed in that same call. |
| `Jwks.FetchesAreApart` | internal/authn/oidc/oidc.go:315-332 | In sequential runs successful fetches are at least the cooldown apart. |
| `JwksConcurrent.EveryAnswerWasHeld` | internal/authn/oidc/oidc.go:305-385 | Under every interleaving each answer, an error included, is what the map held for that ID at some instant within the call. |
| `JwksConcurrent.RunConsistent` | internal/authn/oidc/oidc.go:305-385 | In every reachable state each pending caller has seen what it carries, and both times agree. |
| `JwksConcurrent.CallIsUninterruptedSteps` | internal/authn/oidc/oidc.go:305-389 | The steps of one call, uninterrupted, leave the cache and give the answer of the sequential call, from every state. |
| `JwksConcurrent.EveryStaleAnswer` | internal/authn/oidc/oidc.go:305-342 | In every reachable state, whichever step of a call is next: the answer it gives was older than the TTL at that moment if and only if it is a key answered at the cooldown check, or after a failed fetch, or read again from a map that is then older than the TTL; never at the first lookup. |
| `JwksConcurrent.StaleAnswerExactlyWhen` | internal/authn/oidc/oidc.go:305-342 | In every run from the start, for a call past its first lookup and any next step without a failed fetch: the answer is stale if and only if some call published since that lookup and either a key had been found, the cooldown is checked and the last publish is less than the cooldown old, or the map is read again, has the key, and the last publish is more than the TTL old. |
| `JwksConcurrent.FirstLookupIsFresh` | internal/authn/oidc/oidc.go:305-313 | An answer given at the first lookup is never stale. |
| `JwksConcurrent.BothSeeStaleKey` | internal/authn/oidc/oidc.go:305-313 | From any state with a stale key, two overlapping calls can both get past the lookup with it. |
| `JwksConcurrent.StaleAnswerWithoutFailure` | internal/authn/oidc/oidc.go:305-332 | A run from the start in which no fetch fails and the cooldown check answers with a key that is too old and that the map no longer holds. |
| `JwksConcurrent.StaleAnswerOfOneCall` | internal/authn/oidc/oidc.go:328-385 | A run from the start with one call only and no failed fetch whose last lookup answers with a key older than the TTL: the time stored is read before the lock. |
| `JwksConcurrent.StaleAnswerOfAnother` | internal/authn/oidc/oidc.go:328-385 | A run from the start with no failed fetch in which a call, after publishing a newer document, answers with a key that another call had fetched more than the TTL before this one began. |
| `JwksConcurrent.PublishesWithinCooldown` | internal/authn/oidc/oidc.go:315-385 | In every run from the start a call publishes less than the cooldown after the refresh before it if and only if, since its cooldown check, another call published and the last of these wrote a time that is not at least the cooldown before its own. |
| `JwksConcurrent.FetchesTogether` | internal/authn/oidc/oidc.go:315-385 | A run from the start in which two calls fetch and publish at the same time. |
| `Handler.EmittedExactlyWhen` | internal/handler/handler.go:95-136 | A request leaves no event exactly for a malformed resource or a success that a rule matches; a success is exactly an allowed call whose function does not fail. |
| `Handler.AnswersExactlyWhen` | internal/handler/handler.go:95-136 | Each answer and each recorded outcome, as equivalences on the identity, the resource, the verdict and the result of the function. |
| `Handler.EntryFields` | internal/handler/handler.go:206-222 | Kind, action, identity, resource and peer of the recorded event are those of the request. |
| `Handler.Endpoint.Execute` | internal/handler/handler.go:95-136 | The business function runs exactly with an identity, a valid resource and an Allow for this context, whole identity, action and resource; the logger gets exactly the emitted event. |
| `Handler.Endpoint.EmitAudit` | internal/handler/handler.go:206-222 | The event is logged unless the rules suppress it. |
| `HandlerRuns.Serve` | internal/handler/handler.go:166-222 | Over a sequence of calls, with a policy that may look at groups, metadata and the moment of the call, the executed functions and the logged events are those of the calls, in order. |
| `HandlerRuns.TrailOnDisk` | internal/handler/handler.go:95-222 | End to end: when nothing is lost the history on disk is the trail of the calls, event by event, in order, as one chain; the files hold its last part. |
| `Health.Aggregator.Check` | internal/health/checker.go:57-82 | Unhealthy iff some critical probe is, Healthy iff all are, otherwise Degraded; one result per probe, in order. |
| `Health.OrderDoesNotMatter` | internal/health/checker.go:57-82 | The status is the same for every order of the probes. |
| `Health.SeenKnown` | internal/health/checker.go:63-79 | Aggregated statuses are never Unknown. |
| `Health.WatchdogLoop` | cmd/hb-agent/main.go:229-274 | After any number of ticks the events are the changes between consecutive statuses of successful checks, and pings were attempted at the listed ticks. |
| `Health.PingsMeaning` | cmd/hb-agent/main.go:265-271 | A ping is attempted exactly for the successful checks that are not unhealthy. |
| `Health.ChangesArePath` | cmd/hb-agent/main.go:246-263 | The events are a path from the first to the latest status: each starts where the one before ended and none stands still. |
| `Health.ChangesAreAllChanges` | cmd/hb-agent/main.go:246-263 | There is exactly one event per change of status, in order, with the status before and after. |
| `Health.Monitor` | cmd/hb-agent/main.go:229-274 | From registration to events: the aggregated statuses of the rounds, one event per change between them, which form a path from the first to the last, and a ping exactly in the rounds in which no critical probe of any plugin is unhealthy. |

## Left out

- gRPC wiring, interceptors, plugins, the CLI, PKI, TLS and JWT verification, Cedar, systemd, bootc, journal and /proc readers: plumbing or foreign calls.
- Subscriber channels, `Close`, the registries, environment parsing and `validateAction`: easy members only.
- Partial writes, a crash between rotation and write, failing `Stat`, a failed reopen after rotation, a failing key file, and read errors of the scanner: assumed not to happen.
- Other files in the audit directory: the age purge would remove them too; only the numbered log files and the key file are modelled.
- The calendar arithmetic behind the age cutoff, and the width of the byte limit: the cutoff is any time, and integers are unbounded.
- Bytes that are not valid UTF-8, in JSON and in configuration strings.
- `Applier.Read` takes the host name from the running kernel, which is a parameter, not from the file that Apply writes; so the host name is not part of the round trip, nor is NTP, which is only a warning.
- Path cleaning of unit file names that contain a slash, which validated names do not, unreadable unit files, and the alphabetical order of a directory listing: any order is allowed.
- Errors when reading the old kernel arguments, which Apply ignores.
- MachineConfig.Host: sees the managers' file formats as function values, as the source sees them through interfaces; `ConfigTheorems.FileFormats` puts the verified formats in.
- A nil audit logger, which records nothing, and requests whose function panics.
- File faults between the statements of one locked bootstrap section, and a token hash written by another process in the middle of one: a locked section is one step.
- Saturation of `time.Since` on the zero time, and clocks that run backwards in the JWKS cache.
- JwksConcurrent.EveryAnswerWasHeld: does not distinguish the error texts; every error is the answer "no key".
- Message texts, and the type and detail fields of lifecycle and bootstrap audit events.
- The endless watchdog loop is modelled as any finite number of ticks, and notification errors are ignored as in the source.
