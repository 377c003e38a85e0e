# Verified model of the vgi-x509 worker

The worker answers SQL functions over X.509 certificates. This project models, in Dafny, the parts of
it that loop, keep state or claim to undo one another, and proves what they promise:

* `Scans`, `Gob`, `Tokens`, `Runs`, `Worker`, `Snapshots`: the table functions `cert_info` and
  `tls_inspect`. A scan is a cursor over rows; over HTTP its state travels in a continuation token,
  modelled byte by byte as `encoding/gob` writes it. The main results: wherever the token boundaries
  fall, a scan gives the responses of the in-memory scan and delivers every row once; one worker without
  memory serves any interleaving of scans and any retry of an old token; the moment the token is taken
  does not matter in the shipped design and is fatal in the one it replaced.
* `Base64`, `Pem`, `Certificates`: choosing PEM or DER. Armor of any layout around DER bytes gives the
  same certificate as the bytes themselves. `Certificates` also holds the accessors and the long-format
  dump, tied to the typed scalars through `Time` (the calendar) and `Rfc3339` (the text).
* `Arrow`, `Kernels`: the row loops of the scalar functions against one per-row specification, and the
  list builder of `cert_sans`.
* `Argv`: `filterKnownFlags` composed with Go's `flag.Parse`.
* `SqlText`, `Json`, `Keywords`: the text printers with readers that undo them.
* `GoStrings`, `GoInts`: Go's strings and sized integers.

A Go string is a sequence of bytes. `Argv`, `SqlText`, `Json` and `Keywords` use Dafny strings instead:
the first two inspect single ASCII characters only, and the JSON tags are valid text. ASN.1 parsing,
SHA-256 and IP address formatting are unknown functions (`Certificates.Library`); the clock and the
certificate chain of an endpoint are parameters; the flags of the command line and the rows of the
registry view are parameters too, so the results hold for every such table.

Conventions of the Go libraries that the source relies on (at the version of go.mod) and that are modelled: `flag.Parse`,
`strings.Split/Join/TrimLeft/TrimSpace`, `json.Marshal` of strings (with its HTML escapes),
`encoding/gob` values and the memory they are decoded into, `Time.UnixMicro` and
`Time.Format(time.RFC3339)`, `pem.EncodeToMemory` and the steps of `pem.Decode` on one block.

One comment in the source disagrees with its code: functions.go:24-26 says that each state stores a
`Done` flag; the code stores `Offset`, and the model follows the code. `Snapshots` models the flag
design from the description at functions.go:352-356.

## Model

| member | source | states |
|---|---|---|
| Scans.CursorBounds | internal/x509worker/functions.go:365-376 | the window is the next at most 256 rows, the cursor stands at its end on return, and a drained cursor stays put |
| Scans.CertInfoState.Process | internal/x509worker/functions.go:469-483 | one call on the live state is exactly one tick: Finish on a drained cursor, else the next columns, at most 256 rows of fields and values |
| Scans.TlsInspectState.Process | internal/x509worker/functions.go:605-652 | the same for the seven columns, four of them filled by the builder loop, each holding its attribute of the rows in the window |
| Scans.NewCertInfoState | internal/x509worker/functions.go:449-468 | a missing argument or bad certificate is an error, NULL or no row gives an empty scan, else one row per dump field, case by case; fields and values have equal length |
| Scans.NewTlsInspectState | internal/x509worker/functions.go:575-604 | NULL host gives no rows, a failed inspection its error, else one row per certificate in presentation order |
| Scans.ChainRows | internal/x509worker/functions.go:592-602 | row i shows certificate i: subject, issuer, both dates in microseconds, CA flag and fingerprint each in its own column |
| Scans.ColumnsAreRows | internal/x509worker/functions.go:641-649 | zipping the columns of a batch gives back exactly the rows of its window |
| Gob.ValueInverse | internal/x509worker/functions.go:344-348 | decoding undoes encoding for every value and every following text, although zero fields are not sent |
| Gob.DecodeIntoUsed | internal/x509worker/functions_test.go:241-246 | decoding over memory in use always succeeds, and is right exactly when that memory already agrees on what is not sent: zero fields, at every depth, in nested structs and in the old elements of a slice whose array is reused, spare ones included |
| Tokens.TokenInverse | internal/x509worker/functions.go:344-348 | every scan state survives its continuation token |
| Tokens.TokenInjective | internal/x509worker/functions.go:344-348 | distinct states have distinct tokens |
| Tokens.UsedStateMisleads | internal/x509worker/functions_test.go:241-246 | resuming into a used state of either kind works exactly when that state is zero where the token's is: the offset, empty lists and, for tls_inspect, the zero fields of every row decoded over an old one |
| Gob.UintBytes | internal/x509worker/functions.go:344-348 | lengths, distances and integers have the bytes of the documented wire format |
| Tokens.PayloadBytes | internal/x509worker/functions.go:344-348 | the token of a one-row scan byte by byte: fields before values before offset |
| Tokens.TickKeepsGoState | internal/x509worker/functions.go:469-476 | every tick keeps the slices in bounds and the state encodable |
| Runs.HttpRefinesMemory | internal/x509worker/functions.go:344-361 | for every choice of ticks that cross a token, HTTP gives the responses of the in-memory scan |
| Runs.RunIsPages | internal/x509worker/functions.go:365-376 | response i is the page at offset min(offset + 256 i, n) |
| Runs.ExactTicks | internal/x509worker/functions.go:359-376 | a tick emits exactly while 256 i is below n, each batch 1 to 256 rows, all but the last full, then only Finish |
| Runs.RunDelivers | internal/x509worker/functions.go:605-652 | the batches of k ticks, zipped and concatenated, are the next min(256 k, left) rows in order |
| Runs.HttpScanComplete | internal/x509worker/functions.go:344-361 | an HTTP scan ends and delivers every row exactly once |
| Runs.InfoOverHttp | internal/x509worker/functions.go:449-483 | cert_info over HTTP delivers the (field, value) rows of its dump |
| Runs.CertInfoOverHttp | internal/x509worker/functions.go:44-48 | a scan of the PEM text and one of the DER bytes start alike, can be resumed, and two exchanges over HTTP deliver the dump of the certificate |
| Runs.DumpWrittenOut | internal/x509worker/info.go:20-35 | the eleven rows of the dump, names and values written out in order |
| Runs.DumpIsResumable | internal/x509worker/functions.go:449-468 | a cert_info scan can travel in a token exactly when its texts are no longer than an int can count |
| Runs.TickProgress | internal/x509worker/functions.go:365-376 | rows left strictly decrease until Finish, which is absorbing |
| Runs.TlsSequence | internal/x509worker/functions.go:592-602 | the seq column of a whole scan is 0..n-1 exactly while n is at most 2^31 |
| Runs.ChainIsResumable | internal/x509worker/functions.go:592-602 | a tls_inspect scan can travel in a token exactly when neither the chain nor a text in it is longer than an int can count |
| Runs.TlsOverHttp | internal/x509worker/functions.go:592-652 | the same seq column over HTTP, for every choice of ticks that cross a token |
| Runs.ChainDelivered | internal/x509worker/functions.go:592-652 | tls_inspect over HTTP delivers one row per certificate in presentation order, every column showing its attribute |
| Worker.AnyInterleaving | internal/x509worker/functions.go:344-361 | after any events every issued token stands for offset min(256 k, n) of its scan and every answer is that page |
| Worker.EveryTokenAnswered | internal/x509worker/functions.go:344-350 | any token, new or old, is answered with its page |
| Worker.ScanOpens | internal/x509worker/functions.go:344-350 | opening a scan hands out a token that stands for the whole of it |
| Worker.TokensGoOn | internal/x509worker/functions.go:344-361 | presenting the token of a page that holds rows hands out the next page's token, and after the last page none |
| Worker.SameTokenSameAnswer | internal/x509worker/functions.go:344-350 | a response depends on the token alone, across all histories (immediate from the worker keeping no state) |
| Worker.SessionIsRun | internal/x509worker/functions.go:344-361 | going on with the token of each reply gives the responses of the scan in memory from that token's state on, up to Finish |
| Worker.ResumeAnywhere | internal/x509worker/functions.go:344-361 | a client that goes on from any issued token collects exactly the rows from that token's offset on, and then Finish |
| Snapshots.OffsetDesign | internal/x509worker/functions.go:352-357 | the run is the in-memory run exactly when the token is taken after the cursor moved, or nothing was left |
| Snapshots.DoneDesign | internal/x509worker/functions.go:352-356 | with a Done flag the scan can finish exactly when the token is taken after the flag is set; before, every response repeats the first batch |
| Base64.QuadsInverse | internal/x509worker/cert.go:40 | base64 decoding undoes encoding for every length |
| Base64.Alphabet | internal/x509worker/cert.go:40 | the sixty-four characters and the padding character |
| Base64.SameNumber | internal/x509worker/cert.go:40 | a group of four characters and its three bytes are the same 24-bit number |
| Base64.DecodesIffBase64 | internal/x509worker/cert_test.go:57 | a text decodes exactly when it is groups of four characters of the alphabet with padding at the end only |
| Pem.DecodeText | internal/x509worker/cert.go:36-48 | a block of any type and layout decodes to its bytes, whatever follows its END line and whatever a search would find there, except when that line follows the type line at once and its type holds a colon: then it is read as a header and there is no block |
| Pem.EncodeDecode | internal/testca/testca.go:92 | the encoder's 64-column text is such a layout, so it decodes to the bytes; the exception is an empty block whose type holds a colon |
| Pem.Layout | internal/testca/testca.go:92 | the marks and line feeds of the encoder's text, byte by byte |
| Pem.WrapColumns | internal/testca/testca.go:92 | body lines of exactly 64 characters, the last perhaps shorter |
| Pem.ReadsExactly | internal/x509worker/cert.go:40 | a block is read exactly when its END line repeats its type and its body is base64, and is faulty otherwise |
| Pem.HeadersSkipped | internal/x509worker/cert.go:40 | header lines in front of a body do not matter |
| Certificates.ParseCertificate | internal/x509worker/cert.go:30-55 | empty input, no block, wrong type and bad DER each give their error, otherwise the certificate of the selected bytes, case by case; a first block that is faulty gives way to whatever the library's search finds behind it, which is left open |
| Certificates.ArmorSniffed | internal/x509worker/cert.go:36-39 | armor is found exactly behind spaces, tabs, carriage returns and line feeds |
| Certificates.LeadingBytes | internal/x509worker/cert_test.go:46-49 | those four bytes in front of armor change nothing, a leading line feed included; an input starting with any other byte but a dash is parsed as DER |
| Certificates.BadBodyRefused | internal/x509worker/cert_test.go:57 | a byte in the body that is neither base64 nor blank makes the block no certificate |
| Certificates.ArmorSelects | internal/x509worker/cert.go:36-48 | armor after any white space selects its bytes if it says CERTIFICATE and is refused under its own type otherwise |
| Certificates.EncodedSelects | internal/x509worker/cert.go:36-48 | white space followed by the PEM encoding of any bytes selects exactly those bytes for CERTIFICATE, and for every other type gives the error the source gives |
| Certificates.DerSelectsItself | internal/x509worker/cert.go:35-39 | an input is its own DER bytes exactly when no armor opens it, as is so for all DER |
| Certificates.PemAndDerAgree | internal/x509worker/cert.go:22-25 | every armored text of a certificate parses as its bytes do, whatever bytes those are unless they open with armor themselves |
| Certificates.LeadingSpace | internal/x509worker/cert.go:36-39 | leading white space is ignored before armor only |
| Certificates.SANs | internal/x509worker/cert.go:114-121 | DNS names in stored order, then the IP texts, position by position |
| Certificates.InfoDates | internal/x509worker/info.go:26-27 | the dump's dates read back to the microseconds of the timestamp scalars |
| Certificates.ExpiredOutsideWindow | internal/x509worker/cert.go:73-77 | expired is exactly being outside the window from notBefore to notAfter, both ends inside |
| Certificates.InfoNames | internal/x509worker/info.go:23-31 | the text rows of the dump hold the accessors' values, each under its own field name (minor; Scans.DumpShowsScalar compares them with the scalars) |
| Certificates.InfoFlags | internal/x509worker/info.go:28-32 | the dump's flags are the boolean accessors (minor, likewise) |
| Certificates.InfoSans | internal/x509worker/info.go:33 | splitting the sans row gives the list of cert_sans exactly when there is a name and none holds a comma |
| Time.CivilInverse | internal/x509worker/info.go:26-27 | every instant has valid calendar fields, and they denote that instant |
| Time.MonthLengths | internal/x509worker/info.go:26-27 | the calendar has the Gregorian month and year lengths and its epoch is 1970-01-01 |
| Time.DaysGoBy | internal/x509worker/info.go:26-27 | the calendar starts on 1970-01-01 and every 86400 seconds later it shows the next date at the same time of day |
| Rfc3339.ReadFormat | internal/x509worker/info.go:26-27 | the text reads back to its second exactly from the first second of year 0000 to the last of year 9999 |
| Rfc3339.TextColumns | internal/x509worker/info.go:26-27 | the digits in each column spell year, month, day, hour, minute and second between - T : Z |
| Rfc3339.FourDigitYears | internal/x509worker/info.go:26-27 | those seconds are exactly the instants whose calendar year is 0000 to 9999 |
| Rfc3339.FormatRead | internal/x509worker/info.go:26-27 | every valid text is the one printed for its instant |
| Rfc3339.TextAndTimestampAgree | internal/x509worker/functions.go:247 | text and timestamp denote one instant exactly below a microsecond of nanoseconds; no int64 overflow |
| Rfc3339.TimesOrdered | internal/x509worker/functions.go:597-598 | both renderings are strictly monotone and the text tells instants apart |
| Arrow.ListBuilder.AppendNull | internal/x509worker/functions.go:313-315 | adds a null row with an empty slice and changes no other row |
| Arrow.ListBuilder.Append | internal/x509worker/functions.go:325 | opens an empty row and changes no other row |
| Arrow.ListBuilder.AppendValue | internal/x509worker/functions.go:326-328 | the value joins the last row only |
| Arrow.ValuesAreRows | internal/x509worker/functions.go:333 | the flat values are the rows' values in order and nothing more, so the last offset is the total |
| Kernels.ProcessMapped | internal/x509worker/functions.go:123-140 | the batch meets the per-row specification: null in null out, the accessor otherwise, the error of the smallest failing row |
| Kernels.ProcessTimestamp | internal/x509worker/functions.go:227-255 | the same for the microseconds of a time |
| Kernels.ProcessSans | internal/x509worker/functions.go:305-336 | the same for lists: monotone offsets, row i's slice is the names of certificate i |
| Kernels.MapsRowsUnique | internal/x509worker/functions.go:175-192 | the per-row specification determines the result |
| Kernels.FailsIffSomeRowFails | internal/x509worker/functions.go:233-251 | a batch fails exactly when some non-null row fails |
| Kernels.RowByRow | internal/x509worker/functions.go:123-140 | null for null, the attribute of its own certificate for every other cell, and the error of the first failing cell |
| Kernels.HandleCases | internal/x509worker/functions.go:75-86 | which error each kind of bad cell carries: column type, empty, no block, wrong type, bad DER |
| Kernels.SansCut | internal/x509worker/functions.go:305-336 | where the list array is cut: row i holds the DNS names and then the IP texts of its certificate, position by position |
| Kernels.KernelsIgnoreEncoding | internal/x509worker/functions.go:44-48 | a VARCHAR column of PEM and a BLOB column of the same DER give the same result in every kernel |
| Scans.InfoIgnoresEncoding | internal/x509worker/functions.go:449-468 | cert_info starts in the same state, or with the same error, on PEM text and on the DER bytes |
| Scans.DumpShowsScalar | internal/x509worker/info.go:17-35 | row k of the dump shows what a scalar returns for the same input (its error, its null, or its value as text) exactly when, for the certificate at hand, that text is the one the dump prints |
| Scans.DumpShowsDate | internal/x509worker/info.go:26-27 | not_before and not_after show the timestamps of their scalars exactly when the microseconds fit an int64 |
| Rfc3339.FormatInjective | internal/x509worker/info.go:26-27 | the text tells apart the seconds of any two instants, in every year |
| Argv.FilterKnownFlags | cmd/vgi-x509-worker/main.go:173-197 | the loop, which bumps its own index, drops every token that is no flag of ours and keeps each flag with the value it waits for |
| Argv.FilterConcat | cmd/vgi-x509-worker/main.go:177-195 | filtering distributes over concatenation; a waiting flag takes the next token, whatever it is |
| Argv.InsertedTokenDropped | cmd/vgi-x509-worker/main.go:170-172 | inserting a foreign token where no flag waits changes nothing |
| Argv.FilterIdempotent | cmd/vgi-x509-worker/main.go:173-197 | filtering twice is filtering once |
| Argv.FilterIsSubsequence | cmd/vgi-x509-worker/main.go:176-196 | kept tokens keep their order; nothing is made up |
| Argv.FilterThenParse | cmd/vgi-x509-worker/main.go:31-37 | parsing the filtered argv is the tolerant reading of the raw argv, values and errors alike, exactly when no flag of ours with three dashes is reached |
| Argv.InStepIffTablesAgree | cmd/vgi-x509-worker/main.go:31-37 | filter and parser stay in step on every argv exactly when the value-flag table lists the non-boolean flags |
| Argv.ReadableUnchanged | cmd/vgi-x509-worker/main.go:173-197 | an argv that flag.Parse reads to the end means the same after filtering |
| Argv.KeepsSpelled | cmd/vgi-x509-worker/main.go:179-190 | a token is kept exactly when it is a flag of ours behind one or more dashes, alone or with =value |
| Argv.CommandLine | cmd/vgi-x509-worker/main.go:18-37 | our flags in every spelling (one or two dashes, value behind = or in the next token) with any foreign tokens between them set exactly what they say |
| SqlText.CertFieldsViewDefinition | internal/x509worker/meta.go:345-356 | the loop prints head, rows separated by commas, and tail; read as a table, the text has the four named columns with field, scalar, result type and description under them |
| SqlText.BodyInverse | internal/x509worker/meta.go:340 | a quoted string ends where it was closed, for every content, unless a quote follows |
| SqlText.ViewRoundTrip | internal/x509worker/meta.go:345-356 | a text reads as a registry exactly when it is the view text of that non-empty registry |
| SqlText.ViewIsTable | internal/x509worker/meta.go:342-356 | a reader of any VALUES list finds the columns field, scalar_function, result_type and description, each over its own cells |
| Json.StringsInverse | internal/x509worker/meta.go:360-366 | a JSON reader gives back every list of strings |
| Json.TagIsSafe | internal/x509worker/meta.go:360-366 | no control, markup or line separator character reaches the tag of any list |
| Json.PlainUnchanged | internal/x509worker/meta.go:360-366 | a text is printed as it is exactly when it holds no character that must be escaped |
| Json.EscapesWrittenOut | internal/x509worker/meta.go:360-366 | the escapes of markup, separators and controls in lowercase hexadecimal |
| Keywords.KeywordsJSON | internal/x509worker/meta.go:36-45 | the tag is the array of the trimmed, non-empty pieces in order |
| Keywords.TagHoldsKeywords | internal/x509worker/meta.go:27-31 | decoding the tag gives the keywords |
| Keywords.KeywordsConcat | internal/x509worker/meta.go:37-43 | joining two lists with a comma appends their keywords |
| Keywords.KeywordsFixed | internal/x509worker/meta.go:33-35 | a list survives joining and reading again exactly when its pieces are non-empty, trimmed and comma-free |
| Keywords.KeywordsNormal | internal/x509worker/meta.go:33-35 | normalising is idempotent |
| Keywords.PaddedKeywords | internal/x509worker/meta.go:36-45 | keywords are read without any Unicode white space around the commas |
| Keywords.SingleCharacter | internal/x509worker/meta.go:39-41 | a blank piece is dropped and any other character is a keyword |
| Keywords.ExampleQueriesJSON | internal/x509worker/meta.go:142-148 | the tag decodes, as objects with any members, to the description and the statement of every example in order |

## Left out

- Pem.Decode: reads the block its input starts with; when that block is faulty, what the library's search finds behind it is an unknown function (Certificates.Library.laterBlock), of which only its being shorter than its text is used. Header lines are skipped and their contents dropped. A type that itself holds the BEGIN mark opens another block and is outside Pem.IsKind.
- Kernels.ProcessMapped: stands for the string and boolean families; vgi.MapColumn is taken to skip nulls and append the callback's value, and its own error result is not modelled.
- Tokens.DecodeToken: the token is the gob value of the state under the function's name; the SDK's envelope, gob's type descriptors and its message lengths are not modelled.
- Gob.ArrayFor: an array too short for the sent elements is replaced by one of their number; how much spare room the library gives a new array, and its limit on the length it believes, are not modelled.
- Worker.Exchange: says nothing about a forged token; tokens are only those the worker handed out.
- Snapshots.DONE_DESIGN: the replaced code is not in the repository, so its steps are those its description names.
- Json.ReadArray: reads compact arrays as the encoder prints them; insignificant white space and surrogate escapes are rejected.
- Certificates.Certificate: distinguished names, serial, key and signature algorithm names arrive as text; the accessors that format them are library calls or one switch.
- InspectTLS, the mock server, certificate generation, dialing and deadlines: network and crypto calls.
- The SDK's argument binding, batch building and reference counting: not visible in this repository.
- Metadata, tags, documentation strings, example texts, merge and Register: static data.
