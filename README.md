# DNS controller zone-record core, in Dafny

This project models the record-keeping core of a small DNS self-service
controller. The core has three pieces.

- **The BIND9 zone-file service** (`services/bind.js`).
  - Each managed domain has a zone file. It holds `A` record lines and one `<digits> ; Serial` version stamp.
  - A record is created by appending a fixed-layout line.
  - It is updated by rewriting the value of the first line that declares it, and deleted by removing that line.
  - Every change is followed by exactly one serial bump. Then a three-step check-and-reload pipeline runs: `named-checkconf`, `named-checkzone`, and `systemctl reload named`.
  - The path guard refuses domains containing `/` or `..`.
  - A tally counts the managed subdomains beyond four base records per zone.
- **The input validators** (`routes/domain.js`): the subdomain label pattern, the dotted-quad IPv4 pattern, the hostname pattern, and `validateRecordValue`.
- **The JSON record table** (`services/fileDataBase.js`). This is a list of `{subdomain, ip, ...}` records supporting find-first, append, remove-all and update-first-match. A missing file reads as the empty list.

Modules:

- `Text` (`text.dfy`) holds the JavaScript string built-ins the code relies on. These are the `\s` class and `trim`, ASCII `toLowerCase`, `split`/`join` on one character, and `parseInt` and decimal numerals.
- `Validators` (`validators.dfy`) holds the route checks. Each regular expression becomes a character-level predicate.
- `ZoneText` (`zone_text.dfy`) holds the pure text functions behind the zone-file service: the serial pattern and its rewrite, the record-line test, and the append, update and delete edits. It also holds the `IN\s+A` tally.
- `Bind` (`bind_service.dfy`) holds the class `BindService`.
  - The file system is its `files` map; a path is a key exactly when the file exists.
  - The external commands that ran are appended to `commands`.
  - What each command reports is a parameter, `ExecOutcome`.
  - Each service operation is a method whose postcondition states the new files, the new command log and the result, including every error path.
- `RecordStore` (`record_store.dfy`) holds the class `RecordStore`.
  - The parsed file is the `file` field; `None` means the file is missing.
  - Writes are counted in `writes`.

Some behaviour of the code worth stating plainly, which the model follows:

- no lock guards a zone file between its read and its write;
- only `A` records are written to zone files;
- record lines are laid out with spaces;
- `createDnsRecord` appends without checking for an existing record;
- an accepted hostname loses one final dot and never gains one.

## Model

| member | source | states |
|---|---|---|
| Bind.ZoneFilePath | services/bind.js:7-12 | fails with `InvalidDomainName` exactly when the domain contains `/` or `..`; otherwise returns the configured mapping |
| Bind.ZoneFilePathGuard | services/bind.js:8-11 | `..\zone` and `a/b` are refused; a backslash without `..` passes; both managed domains pass |
| Bind.ReloadSteps | services/bind.js:15-24 | the commands run are a prefix of check-config, check-zone, reload; the pipeline stops right after the first failing command |
| Bind.BindService.ReloadBind | services/bind.js:15-24 | appends exactly the commands that run, changes no file, and reports one `ReloadFailed` error unless all three commands succeed |
| Bind.BindService.IncrementSerial | services/bind.js:29-45 | a missing file fails; a file without a stamp fails with `SerialNotFound` and nothing is written; otherwise the file becomes its stamped form |
| ZoneText.SerialAt | services/bind.js:31 | a match of `(\d+)\s+;\s+Serial` at a position captures a non-empty run of digits starting there and ends, within the text, more than six characters after that run (the maximal run and the `; Serial` tail are stated by `SerialAtShape` and `SerialAtRunsIs`) |
| ZoneText.SerialAtShape | services/bind.js:31 | a match is a run of digits followed, up to the end of `Serial`, by no digit, and it ends with `Serial` |
| ZoneText.SerialAtRunsIs | services/bind.js:31 | the character scanner finds the same match as the description by maximal runs: digits, white space, `;`, white space, `Serial` |
| ZoneText.FirstSerialFrom | services/bind.js:32 | the match found is the leftmost one; without a match, no position matches |
| ZoneText.SerialLeftmost | services/bind.js:32-35 | the stamp is `parseInt` of the digits of the leftmost match; there is no stamp exactly when the pattern matches nowhere |
| ZoneText.BumpSerial | services/bind.js:37-40 | no match means no rewrite; otherwise the first match is replaced by the new number, nine spaces and `; Serial`, and the text before and after is kept |
| ZoneText.BumpSerialIncrements | services/bind.js:35-40 | after the rewrite the first stamp sits at the same place and reads back as the old number plus one; the text before it is unchanged |
| ZoneText.SerialStableUnderAppend | services/bind.js:31-40 | text appended after a stamped file does not move its first stamp, and the bump of the longer text is the bump of the shorter followed by the appended text |
| Bind.Stamped | services/bind.js:29-45 | a stamped text's serial rises by exactly one; an unstamped text is left as it is |
| Bind.CommitResult | services/bind.js:65-71 | a change succeeds exactly when the edited text has a stamp and all three reload commands succeed |
| Bind.BindService.Commit | services/bind.js:88-95 | the edited text is written, bumped once, and followed by the reload commands; a missing stamp stops before any command runs |
| Bind.BindService.FindDnsRecord | services/bind.js:50-55 | a refused domain or a missing file is an error; otherwise the answer is whether some trimmed line declares the record |
| ZoneText.RecordPrefix | services/bind.js:53 | a match of `^<sub>\s+IN\s+A\s+` (ignoring case) starts with the name and ends just after a white-space character, before a non-blank character or the end of the line |
| ZoneText.RecordPrefixOf | services/bind.js:53 | conversely, any line made of the name, a white-space run, `IN`, a white-space run, `A` and a white-space run (of any blanks, tabs included), before a non-blank character or the end of the line, has the match ending after that last run |
| ZoneText.RecordPrefixShape | services/bind.js:53 | every match has that form: the name, a white-space run, `IN`, a white-space run, `A` (ignoring case) and a white-space run up to the end of the match; with `RecordPrefixOf`, a line matches exactly when it starts this way |
| ZoneText.NameBoundaryExample | services/bind.js:53-54 | `api` is not found on a `myapi` line or an `api2` line |
| ZoneText.DeclaresNameBoundary | services/bind.js:53 | a declaring line starts with the name, and the character right after the name is white space |
| ZoneText.QuadAExample | services/bind.js:53-54 | an `AAAA` line does not declare an `A` record |
| ZoneText.TypeMustBeA | services/bind.js:53 | a line whose type token after `IN` is an `A` followed by a non-blank character (as in `AAAA`) or by the end of the line declares nothing |
| ZoneText.CaseExample | services/bind.js:53 | `API in a` declares `api`: name, class and type are matched regardless of case |
| ZoneText.DeclaresUpToCase | services/bind.js:53 | a line and a name that differ from another line and name only in letter case match the same prefix |
| ZoneText.DeclaresIgnoresCase | services/bind.js:53 | lowercasing the line and the name changes neither the matched prefix nor whether the line declares the record |
| ZoneText.DeclaredLineIsFound | services/bind.js:53-54 | a line that declares the record and has something after the matched prefix makes `findDnsRecord` report the record, so a record that update or delete would edit is also found |
| ZoneText.FirstRecordLine | services/bind.js:81-83 | the line found declares the record and no earlier line does; when none is found, no line declares it |
| ZoneText.AppendRecord | services/bind.js:62-65 | the old content is a prefix of the new, which is strictly longer |
| ZoneText.AppendAddsLine | services/bind.js:62-65 | the appended text splits into the old lines plus exactly the new record line |
| ZoneText.RecordLineDeclares | services/bind.js:53-62 | the written line is found by the record test, with the fixed layout as its matched prefix |
| ZoneText.AppendThenFind | services/bind.js:50-65 | after the append the record is found, and one more line declares it; there is no duplicate check |
| Bind.CreateThenFind | services/bind.js:60-73 | a record created in a stamped file is found after the serial bump, and the stamp has gone up by exactly one |
| Bind.BindService.CreateDnsRecord | services/bind.js:60-73 | a refused domain changes nothing; otherwise the record line is appended (creating the file), the file is bumped once, the reload commands run, and the name and address come back only when every step succeeded |
| ZoneText.UpdateLines | services/bind.js:81-88 | fails exactly when no line declares the record; otherwise the number of lines is kept |
| ZoneText.UpdateRecord | services/bind.js:81-88 | the edit of the file text fails exactly when no line declares the record |
| ZoneText.UpdateChangesOneValue | services/bind.js:81-88 | update fails exactly when no line declares the record; otherwise only the first such line changes, keeping its matched prefix and whatever follows the value, with the new address as its value |
| ZoneText.UpdateThenRead | services/bind.js:81-88 | after an update the record's value reads back as the new address, and the number of declaring lines is unchanged |
| ZoneText.UpdateKeepsSerial | services/bind.js:81-91 | when the stamp ends before the record line starts, the updated text has the same first stamp and the same serial as the old one |
| Bind.UpdateThenStamp | services/bind.js:78-91 | in that case the file written by an update carries exactly the old file's serial plus one |
| Bind.BindService.UpdateDnsRecord | services/bind.js:78-97 | refused domain, missing file and missing record fail before anything is written; otherwise the edited text is written and bumped once, the reload commands run, and the name and new address come back only when every step succeeded |
| ZoneText.DeleteLines | services/bind.js:105-112 | fails exactly when no line declares the record |
| ZoneText.DeleteRecord | services/bind.js:105-112 | the edit of the file text fails exactly when no line declares the record |
| ZoneText.DeleteRemovesOneLine | services/bind.js:105-112 | delete fails exactly when no line declares the record; otherwise the first declaring line disappears with its newline exactly when nothing follows its value and another line comes after it, and else becomes what followed its value; the lines before and after it are kept, and one declaring line fewer remains |
| ZoneText.DeleteKeepsSerial | services/bind.js:105-115 | when the stamp ends before the record line starts, the text after the delete has the same first stamp and the same serial as the old one |
| Bind.DeleteThenStamp | services/bind.js:102-115 | in that case the file written by a delete carries exactly the old file's serial plus one |
| Bind.BindService.DeleteDnsRecord | services/bind.js:102-121 | refused domain, missing file and missing record fail before anything is written; otherwise the edited text is written and bumped once, the reload commands run, and the full name comes back only when every step succeeded |
| ZoneText.InAAt | services/bind.js:132 | a match of `IN\s+A` (case-sensitive) ends just after an `A` |
| ZoneText.InAAtIs | services/bind.js:132 | a match at a position ends at `e` exactly when the text there is `IN`, a non-empty white-space run and an `A` ending at `e` |
| ZoneText.CountInAFrom | services/bind.js:132 | the global search from a position finds at most one match per four characters left |
| ZoneText.CountInA | services/bind.js:132 | a zone file holds at most one `IN A` occurrence per four characters |
| ZoneText.Surplus | services/bind.js:133 | a zone adds nothing to the tally exactly when it has at most four `IN A` occurrences, and otherwise adds the occurrences beyond four |
| ZoneText.CountInAIncludesAAAA | services/bind.js:132 | an `AAAA` line counts as one `IN A` occurrence |
| Bind.BindService.Tally | services/bind.js:126-136 | a successful tally means every listed domain passed the guard and its zone file exists |
| Bind.BindService.TallyErrorStops | services/bind.js:129-131 | once a zone cannot be read, the tally of any longer list fails with the same error |
| Bind.BindService.CountManagedSubdomains | services/bind.js:126-136 | the loop computes the tally of the two managed domains, each adding its `IN A` count minus four, floored at zero; it stops at the first error |
| Validators.SubdomainIsLabel | routes/domain.js:4 | a subdomain is valid exactly when it has 1 to 63 characters of `[a-z0-9-]` and neither starts nor ends with `-` |
| Validators.OctetPatternExact | routes/domain.js:5-6 | the octet alternation accepts exactly the numerals of 0..255 written without leading zeros |
| Validators.IPv4Shape | routes/domain.js:5-6 | an accepted address has 7 to 15 characters, each a digit or a dot |
| Validators.IPv4Octets | routes/domain.js:5-6 | an accepted address denotes four numbers, each at most 255 |
| Validators.FormatIPv4Accepted | routes/domain.js:5-6 | every quadruple of numbers 0..255, written out, is accepted and reads back as the same numbers |
| Validators.IPv4Canonical | routes/domain.js:5-6 | every accepted address is the written form of its four numbers |
| Validators.StripTrailingDot | routes/domain.js:44-51 | the result is the input or the input without its final dot, and it is the latter exactly when the input ends in a dot |
| Validators.HostnameShape | routes/domain.js:7-8 | an accepted hostname is made of `[a-zA-Z0-9-]` characters and dots, and has a dot besides its optional final one |
| Validators.HostnameWithoutDot | routes/domain.js:7-8 | a hostname without its final dot is still a hostname and ends in a host character |
| Validators.ValidateRecordValue | routes/domain.js:19-52 | a refused value carries one of the four messages of the route: value required, IPv4 address expected, hostname expected, or self-reference |
| Validators.AcceptedValue | routes/domain.js:19-52 | an accepted value is non-empty and trimmed; for `A` it is an IPv4 address; otherwise it is a lowercase hostname with no final dot that is not the record's own name |
| Validators.HostnameValue | routes/domain.js:35-51 | the hostname branch accepts only a non-empty, trimmed, lowercase hostname without a final dot that differs from the record's own name |
| Validators.BlankValueRefused | routes/domain.js:20-23 | an empty or white-space-only value is refused as missing, whatever the type |
| Validators.AddressValidation | routes/domain.js:25-33 | for `A` a non-blank value is accepted exactly when its trim is an IPv4 address, and the trim is returned with its case unchanged |
| Validators.HostnameValidation | routes/domain.js:35-51 | for other types a non-blank value is accepted exactly when its lowercased trim is a hostname other than the record's own name; the result is that hostname without its final dot |
| Validators.SelfReferenceRefused | routes/domain.js:43-49 | a target equal to `subdomain.domain`, ignoring case and one final dot, is refused as self-referential |
| Validators.ValidationIdempotent | routes/domain.js:20-51 | validating an accepted value again with the same type and names accepts it unchanged |
| Text.TrimIdempotent | routes/domain.js:20 | trimming twice is trimming once |
| Text.TrimEmpty | routes/domain.js:20-21 | the trim is empty exactly when the value is all white space |
| Text.ToLowerIdempotent | routes/domain.js:35 | the lowercased text has no upper-case letter, and lowercasing leaves lowercase text alone |
| Text.JoinSplit | services/bind.js:54 | joining the pieces of a split on newlines gives back the text |
| Text.SplitAppend | services/bind.js:62-65 | appending a newline and a newline-free line adds exactly that line to the split |
| Text.DecimalRoundTrip | services/bind.js:35-39 | `parseInt` of a written number gives the number back |
| RecordStore.FindIndex | services/fileDataBase.js:49 | the index found holds the key and no earlier record does; -1 exactly when no record holds it |
| RecordStore.Find | services/fileDataBase.js:29 | a record is found exactly when some record holds the key, and it is the first such record |
| RecordStore.RecordStore.Db | services/fileDataBase.js:8-19 | a missing file reads as the empty list |
| RecordStore.RecordStore.FindRecord | services/fileDataBase.js:27-30 | nothing is found in a missing file; a found record is stored and holds the key; nothing is found exactly when no record holds the key |
| RecordStore.RecordStore.AddRecord | services/fileDataBase.js:33-37 | the record goes at the end of the list read, which is written once; there is no duplicate check |
| RecordStore.FindAfterAppend | services/fileDataBase.js:29-35 | after an append the first record holding a key is unchanged, or is the appended one when no earlier record held it |
| RecordStore.WithoutKey | services/fileDataBase.js:42 | no record kept holds the key, and the list does not grow |
| RecordStore.WithoutKeyMembers | services/fileDataBase.js:42 | the records kept are exactly the stored ones not holding the key |
| RecordStore.WithoutKeyConcat | services/fileDataBase.js:42 | the filter keeps the order of the records it keeps |
| RecordStore.WithoutKeyCounts | services/fileDataBase.js:42 | each record not holding the key survives as many times as it was stored; those holding it are gone |
| RecordStore.WithoutAbsentKey | services/fileDataBase.js:42 | removing a key no record holds changes nothing |
| RecordStore.WithoutKeyIdempotent | services/fileDataBase.js:29-42 | after the removal the key is not found, and removing it again changes nothing |
| RecordStore.RecordStore.DeleteRecord | services/fileDataBase.js:40-44 | the filtered list is written once, even when nothing was removed, so the file then exists |
| RecordStore.WithIp | services/fileDataBase.js:49-51 | the update keeps the length of the list and the key of every record |
| RecordStore.WithIpKeepsOthers | services/fileDataBase.js:49-51 | only the `ip` of the first record holding the key changes; the length, the order, the other records and the other fields are kept |
| RecordStore.FindAfterUpdate | services/fileDataBase.js:49-51 | after the update the key is found with the new address and its other fields |
| RecordStore.WithIpAbsent | services/fileDataBase.js:49-50 | with no record holding the key the list is unchanged |
| RecordStore.RecordStore.UpdateRecordIp | services/fileDataBase.js:47-54 | with a record holding the key, the updated list is written once; without one, nothing changes and nothing is written |

## Left out

- File I/O is modelled as map and field updates: `readFile`, `writeFile`, `appendFile` and `JSON.parse`/`JSON.stringify`. Read errors other than a missing file are not modelled, and neither are unparsable JSON and partial writes.
- The `exec` subprocesses of `reloadBind` are reduced to one success flag per command (`ExecOutcome`). Their output and the console log are not modelled.
- ZoneText.UpdateLines, ZoneText.DeleteLines: the multi-line patterns of update and delete (`^…\s+IN\s+A\s+(.*)$` with the `m` flag) are modelled line by line over the text split on `\n`. So a `\s+` never crosses a newline, and `^` is recognised only after `\n`, not after `\r`, U+2028 or U+2029. The value `.*` stops at any line terminator, as in JavaScript.
- Bind.BindService.FindDnsRecord, Bind.BindService.UpdateDnsRecord, Bind.BindService.DeleteDnsRecord: require `IsLiteralLabel(sub)`. The subdomain is interpolated into a regular expression without escaping, so the model covers only names of `[a-z0-9-]`, the label characters the routes accept.
- ZoneText.UpdateRecord, Bind.BindService.UpdateDnsRecord: require that the new address contains no `$`. The replacement string `$1${newIp}` would read `$` sequences in the address as substitution patterns.
- ZoneText.UpdateThenRead: also requires the new address to be a non-blank single line. An address with a line terminator or leading white space would not read back as itself.
- `toLowerCase` and the `i` flag are modelled on ASCII letters only. Case mapping outside ASCII is not modelled.
- The serial is an unbounded natural number. JavaScript number precision for serials beyond 2^53 is not modelled.
- `normalizeRecordType` in `routes/domain.js` calls a function that `services/bind.js` does not define. It is not part of this model.
- The HTTP handlers of `routes/domain.js`, `routes/user.js`, `routes/index.js` and `server.js` are not part of this model, and neither are the Cloudflare client, the mail service, the authentication and database plugins, the configuration files and the browser script.
- `config.bind.zoneFilePath` is not defined in the configuration that is available. It is the service's `zonePath` function, fixed at construction.
- The store file's records are modelled as a key, an address and a map of other string fields. Other JSON shapes, such as a record without a `subdomain`, are not modelled.
- The texts of the thrown errors are not modelled. Each error is a `BindError` constructor.
- Concurrency is not modelled: interleaved requests and the lack of any per-zone lock.
