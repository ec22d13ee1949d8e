# Persea, modelled and proved in Dafny

Persea is a remote desktop gateway. It speaks the Guacamole protocol to a guacd daemon and to
browsers over WebSockets, shares its settings and login tickets between instances through a
database, imports address books from Guacamole SQL dumps and CSV files, keeps an audit log of
linked hashes, and hands out displays and containers to sessions. This project models the parts of it that
compute or coordinate, and proves what they promise for all inputs, all runs and all
interleavings. Where a promise does not hold, a lemma gives an input that breaks it and another
one says exactly when it holds.

`dafny verify dfyconfig.toml` checks the whole project. Each module is one file.

| area | modules |
|---|---|
| shared facts | `Prelude`, `Text`, `Decimal`, `Utf8` (section 3 of RFC 3629) |
| Guacamole protocol and relay | `Protocol`, `Boundary`, `Codec`, `Streaming`, `Relay` |
| settings cache of an instance | `SettingsCache`, `SettingsRaces` |
| WebSocket tickets | `Tickets`, `TicketFleet` |
| SQL dump import | `SqlLexer`, `SqlRows`, `SqlDump`, `GroupPaths` |
| CSV import | `CsvTokenizer`, `CsvRows`, `CsvWriter` |
| audit log | `AuditChain` |
| configuration file | `StorageKey` |
| login providers | `Providers` |
| browser sessions and containers | `BrowserPool`, `Reaper` |

Loops and objects of the source are methods and classes here. Each is proved equal to a function
on values, and the theorems are about those functions. Protocols between concurrent parties are
transition systems: an action is one atomic access of the source, and a run is any list of
enabled actions.

## Where the code and its documentation disagree

- The relay's comment says that the boundary scanner only advances over valid UTF-8
  (`src/websocket.rs:1280-1282`). It advances by leading octets and does not look at the octets
  that follow them (`Relay.BoundaryIsNotAlwaysUtf8`). What the relay flushes is UTF-8 exactly when
  the whole instructions it has read are (`Relay.RelayTextExact`).
- The ticket store's documentation says that a consumed ticket cannot be replayed on another
  instance (`src/auth.rs:355-358`). Four runs end in two successful consumes of one ticket: a peer
  consumes through the shared table and then the issuer from its memory
  (`TicketFleet.PeerThenIssuer`); a peer reads the row while the issuer has the ticket from memory
  and has not deleted the row (`PeerDuringHit`); two consumes read the row before either deletes it
  (`TwoPeers`); and a delete of the row fails (`FailedDelete`). `TicketFleet.SingleUse` holds for
  every run without such a step, and `CarelessIsReplayable` shows that every such step can be
  continued to a second use while the ticket has not expired.
- The settings cache is documented to notice a peer's change on the next request. Seven kinds of run
  leave an instance with a stale flag under a current epoch: a settings request that names only one
  flag on an entry that is behind; a reload that is installed in the middle of a refresh; two local
  requests whose refreshes overlap; a refresh that arrives when a reload has already installed a
  newer commit; a flag read that fails during a reload; a commit in the middle of seeding; and a
  flag read that fails during seeding. Each has a counterexample in `SettingsRaces`, and
  `TornRefreshExact`, `RefreshExact`, `FailedReadExact` and `SeedExact` have the exact conditions.
- An audit scan with a time filter can report an honest log as broken: when it starts after the
  first row (`AuditChain.LaterPartIsBroken`), and when rows are stored out of time order and the
  filter leaves out an inner one (`OutOfOrderIsBroken`). `FilteredScanExact` says exactly when.
- `docs/security-hardening.md:306-309` says that altering a record flags it and every later event.
  A replaced row flags at most itself and the next one (`AuditChain.ReplaceFlagsTwo`), and since the
  hash does not cover the link, an inner row can be dropped without notice when the next one is
  relinked (`RelinkedDropIsUnnoticed`).
- `src/config.rs:2409-2415` says that the storage key is written to the `[storage]` section. The code
  ends that section at a line that starts with `[` and ends with `]` (`src/config.rs:2620-2622`), so
  a table header with a trailing comment does not end it, and the key line of that table is
  overwritten or dropped (`StorageKey.CommentedHeaderIsSwallowed`). `SectionExact` says exactly when
  the write is right.
- The CSV import normalizes a row's folder when it reads the file and again when it imports the row
  (`src/csv_import.rs:331`, `src/api/imports.rs:816`). Twice is not once when a slash hides white space
  (`CsvWriter.SlashHidesSpace`). `ReimportExact` says exactly which rows survive a second reading.
- The streaming parser frames on the first `;`, whatever the declared lengths say
  (`Streaming.StreamRoundTrip`), while the relay's boundary scan frames by length.
- The length prefixes of the protocol may carry a leading `+`, since they are read as Rust
  numbers (`Protocol.ParseAccepts` has the exact language).

## Assumptions

- `usize` has 64 bits. `Representable` says that an element's length fits it, as the length of
  every string in memory does.
- A Dafny `char` is a Unicode scalar value, as a Rust `char` is.
- `str::to_uppercase` is a parameter that maps each character to a string.
- The hash of the audit log is a parameter. Only `TamperingIsDetected` assumes it injective.
- Tickets are drawn at random: a new one has not been issued or presented before. The shared
  table is keyed by the ticket itself, in place of its hash. Docker lists every container once. The database gives rising row ids.
- Clocks, database answers, failures and process results are parameters or actions.

## Model

| member | source | states |
|---|---|---|
| `Utf8.DecodeEncode` | src/protocol.rs:331-337 | Decoding the UTF-8 octets of any string gives the string back; with the contract of `Decode` the two are inverse. |
| `Utf8.EncodeCharBits` | src/protocol.rs:331-337 | A character takes one to four octets by its range, and their payload bits are its code, as section 3 of RFC 3629 lays them out. |
| `Decimal.DigitsExact` | src/protocol.rs:101-105 | In the numeral of any number the digit `k` places from the end is that of weight ten to the `k`, there are enough places, and only zero starts with a zero. |
| `Decimal.ValueIsSum` | src/protocol.rs:55-57 | A sequence of digits reads as the sum of its digits, each by the weight of its place. |
| `Protocol.SelectSsh` | src/protocol.rs:32-40 | The wire text of two instructions, character by character, one of them without arguments. |
| `Protocol.ParseAccepts` | src/protocol.rs:43-92 | The parser returns an instruction for a text if and only if the text, without its trailing semicolons, writes each element after a prefix that reads as its length in characters. |
| `Protocol.ParseRecovers` | src/protocol.rs:49-81 | Whatever the element parser accepts is a rendering of exactly what it returns, with readable prefixes. |
| `Protocol.ParseRendered` | src/protocol.rs:49-81 | Any rendering parses to its elements; with a shorter last element the parser reports truncation. |
| `Protocol.RoundTrip` | src/protocol.rs:32-92 | Printing then parsing returns the instruction if and only if its last element does not end in a semicolon; otherwise the result is the truncation error. |
| `Protocol.EncodeInjective` | src/protocol.rs:32-40 | Two instructions with the same text are equal, semicolons and commas in their elements included. |
| `Boundary.ScanExact` | src/protocol.rs:154-246 | The boundary is the length of the longest prefix that the grammar derives as zero or more instructions. |
| `Boundary.InstructionEndSound` | src/protocol.rs:178-239 | Where the walk over one instruction succeeds, the octets it took are one instruction of the grammar. |
| `Boundary.InstructionEndComplete` | src/protocol.rs:178-239 | When a prefix of the buffer is an instruction of the grammar, the walk ends exactly at its end. |
| `Boundary.ScanIncremental` | src/protocol.rs:154-246 | Scanning a buffer and later its tail with new data finds the same boundary as scanning everything at once. |
| `Boundary.BoundaryOfEncoded` | src/protocol.rs:154-246 | An encoded stream cut anywhere inside its k-th instruction has its boundary at the end of the instruction before, whatever characters the elements hold. |
| `Boundary.CutInstruction` | src/protocol.rs:154-246 | No proper prefix of an encoded instruction contains a complete instruction. |
| `Codec.EncodeInstruction` | src/protocol.rs:32-40 | The loop that prints an instruction yields the text of the specification. |
| `Codec.Parse` | src/protocol.rs:43-92 | The parsing loop agrees with the specification on every text, error kinds included. |
| `Codec.ReadLength` | src/protocol.rs:180-194 | Reading digits and dot at an offset decides where the element's data starts and how many characters it has, or that no element is there. |
| `Codec.SkipElement` | src/protocol.rs:196-221 | Skipping characters octet by octet ends where the specification does, and fails on a continuation octet or a cut character. |
| `Codec.WalkInstruction` | src/protocol.rs:178-239 | The walk over one instruction from any offset ends where the specification does. |
| `Codec.FullScan` | src/protocol.rs:173-246 | The full scan returns the boundary of the specification, and nothing when it is zero. |
| `Codec.FastInstructionBoundary` | src/protocol.rs:261-292 | On ASCII buffers the fast path answers if and only if the buffer is whole instructions and nothing else, and then with its full length. |
| `Codec.LastInstructionBoundary` | src/protocol.rs:154-171 | With the fast path in front, the answer is that of the full scan on every buffer. |
| `Streaming.InstructionParser.constructor` | src/protocol.rs:302-314 | A new parser holds nothing. |
| `Streaming.InstructionParser.ReceiveData` | src/protocol.rs:317-342 | One call returns the results and keeps the bytes that the specification gives, the cap included; what is kept has no semicolon. |
| `Streaming.ChunkIndependent` | src/protocol.rs:317-342 | Any run of calls within the cap gives what one pass over the whole text gives. |
| `Streaming.AnyTwoSplits` | src/protocol.rs:317-342 | Two ways of cutting the same text into chunks give the same results and the same held bytes. |
| `Streaming.DrainText` | src/protocol.rs:325-341 | On text the frames are the pieces between semicolons, so the branch for frames that are not UTF-8 is never taken. |
| `Streaming.HeldIsText` | src/protocol.rs:325-341 | Between calls the buffer holds whole characters without a semicolon. |
| `Streaming.StreamRoundTrip` | src/protocol.rs:325-341 | A stream of encoded instructions comes back as those instructions if and only if no element of any of them contains a semicolon. |
| `Relay.GuacdRelay.OnRead` | src/websocket.rs:1249-1287 | One read appends to the carry, flushes up to the last boundary or, over the cap, everything. The UTF-8 octets of the text that is sent, or the octets of the conversion error, followed by the new carry are the old carry followed by the read. |
| `Relay.RelayConserves` | src/websocket.rs:1249-1278 | Over any run of reads, the messages and the carry together are exactly the bytes read, in order. |
| `Relay.MessagesAreStreams` | src/websocket.rs:1263-1278 | Every message of a run that is never forced is one or more whole instructions. |
| `Relay.RelayIsWholeScan` | src/websocket.rs:1263-1278 | An unforced run sends exactly what one scan of the whole input would flush, however the input was cut. |
| `Relay.BoundaryOnCharacter` | src/websocket.rs:1280-1287 | The boundary of any prefix of UTF-8 text, cut even inside a character, falls between two characters. |
| `Relay.RelayTextExact` | src/websocket.rs:1263-1287 | An unforced run meets no conversion error if and only if the input up to its last boundary is UTF-8; neither the cuts nor the bytes past the boundary matter. |
| `Relay.BoundaryIsNotAlwaysUtf8` | src/websocket.rs:1280-1287 | A five-octet buffer that is not UTF-8 and is flushed whole. |
| `SettingsCache.Cache.Seed` | src/auth.rs:94-98 | Seeding sets the cell once and leaves a seeded one alone. |
| `SettingsCache.Cache.Update` | src/auth.rs:105-116 | `enable_api_keys` and `compliance_mode` each set their own flag to whether the text is `true`, and leave the other flag, the epoch and an unseeded cell alone; any other key changes nothing. |
| `SettingsCache.Cache.SetEpoch` | src/auth.rs:122-129 | The epoch write keeps the flags. |
| `SettingsCache.Cache.Install` | src/auth.rs:213-221 | A reload is installed only over an older entry, and the flag returned is the cell's. |
| `SettingsCache.RefreshedIsFresh` | src/api/settings.rs:602-638 | A refresh after a commit leaves a current entry when it names both flags or the entry was current up to the commit. |
| `SettingsCache.StepAny` | src/auth.rs:94-222 | Every disciplined step of any instance, call or refresh keeps the invariant: each cached flag is at least as new as its entry's epoch, and a refresh under way has only its own flags left to bring up to its commit. |
| `SettingsCache.RunKeepsInv` | src/auth.rs:149-222 | Every disciplined run keeps it. |
| `SettingsCache.ReadsAreCurrent` | src/auth.rs:94-222 | In every disciplined interleaving of commits, reads, reloads, seedings and the single steps of refreshes, failing reads included where the discipline allows them, a call whose own table reads succeed returns a value that its flag had in the table between the call's start and end. |
| `SettingsRaces.LoneCallExact` | src/auth.rs:165-222 | A call that runs alone returns the table's value if and only if its entry is behind or has that value already. |
| `SettingsRaces.SeedExact` | src/auth.rs:94-98 | For any commits between the three reads of a seeding and any of them failing: the first call reloads if and only if the epoch read failed on a table that has been written; otherwise it returns what its flag's read gave at the epoch of that read, which is current if and only if the table still has that value. |
| `SettingsRaces.TornRefreshExact` | src/auth.rs:105-222 | A call after the cache writes of any number of local requests, overlapping in any order, with or without a reload that finishes among them: it reloads if and only if the epoch recorded last is behind, and else returns the last flag written after the reload, or the reload's if it was newer than the epoch recorded before it, or the last one written before, or the entry's; which is current if and only if the call reloads or that flag is the table's. |
| `SettingsRaces.FailedReadExact` | src/auth.rs:72-80 | After a reload in which either flag read or both fail, the next call returns a current value if and only if its flag's read succeeded or the default is the table's value. |
| `SettingsRaces.RefreshExact` | src/auth.rs:105-129 | An uninterrupted refresh gives a current entry if and only if each flag the write did not name was cached with the table's value. |
| `SettingsRaces.KeyWritesAreRefresh` | src/api/settings.rs:635-638 | Writing the keys of a request one by one and then the epoch is one refresh by the request's flag writes, the later entry of a key winning. |
| `SettingsRaces.KeyWritesAreKeys` | src/api/settings.rs:635-638 | The flag writes that the literal keys of a request stand for give the entry that writing its keys gives. |
| `SettingsRaces.RequestThenCall` | src/api/settings.rs:635-638 | A call after a request that runs alone returns whether the last `enable_api_keys` entry, or for compliance the last `compliance_mode` entry, is `true`, and what was cached when there is none. |
| `SettingsRaces.FailedEpochRead` | src/auth.rs:183-190 | A call whose epoch read fails returns the cached flag and changes no instance. |
| `SettingsRaces.PartialWriteIsStale` | src/api/settings.rs:602-638 | A run in which a one-flag request after a peer's commit makes a later call return a stale value. |
| `SettingsRaces.TornRefreshIsStale` | src/auth.rs:105-129 | A run in which a reload installed between the flag write and the epoch write does so. |
| `SettingsRaces.OverlapIsStale` | src/api/settings.rs:635-638 | A run in which the refreshes of two local requests overlap, without any reload, does so. |
| `SettingsRaces.OutdatedRefreshIsStale` | src/auth.rs:105-129 | A run in which the flag write of a request arrives after a reload has installed a newer commit does so. |
| `SettingsRaces.FailedFlagReadIsStale` | src/auth.rs:204-206 | A run in which a failed flag read does so. |
| `SettingsRaces.SeedRaceIsStale` | src/auth.rs:94-98 | A run in which a commit between the reads of a seeding does so. |
| `SettingsRaces.FailedSeedReadIsStale` | src/auth.rs:94-98 | A run in which a flag read that fails during seeding does so. |
| `Tickets.WsTicketStore.Create` | src/auth.rs:310-328 | Creating a ticket drops those at or past the time to live and stores the new one. |
| `Tickets.WsTicketStore.Consume` | src/auth.rs:359-370 | A ticket leaves the store whether or not it is still valid, and yields its identity when it is young enough. |
| `Tickets.StoredExactly` | src/auth.rs:310-370 | Over any history, a ticket is in the store if and only if nothing since its creation consumed or pruned it, with the identity and time it was created with. |
| `Tickets.ConsumeExactly` | src/auth.rs:359-370 | A consume returns an identity if and only if the ticket was created for it, not consumed since, not pruned, and is at most 30 whole seconds old. |
| `Tickets.AtMostOnce` | src/auth.rs:359-370 | No ticket is redeemed twice in any history of one store. |
| `TicketFleet.IssuerSpends` | src/auth.rs:359-420 | In any run over any number of instances, a consume that finds its ticket in memory and whose row delete takes effect leaves the ticket in no memory and no row. |
| `TicketFleet.SpentForever` | src/auth.rs:310-420 | No step brings a spent ticket back. |
| `TicketFleet.SpentStaysSpent` | src/auth.rs:359-420 | A consume that begins after a ticket is spent returns nothing, on any instance, in any interleaving and with any database failures. |
| `TicketFleet.LoneConsumeExact` | src/auth.rs:359-420 | A consume that runs alone succeeds if and only if its own memory has a young enough ticket or the table has an unexpired row; the ticket leaves that memory, the row goes unless its delete fails, and nothing else changes. |
| `TicketFleet.ExpiryBounds` | src/auth.rs:336-338 | A row lives for more than 29 and at most 30 seconds, and expires at a whole second. |
| `TicketFleet.PeerRedeems` | src/auth.rs:310-420 | In a run from the start, a peer that consumes an issued ticket alone gets its identity up to 29 seconds after the issue, and nothing from 30 seconds on. |
| `TicketFleet.SpendsExactly` | src/auth.rs:359-420 | A consume that runs alone leaves the ticket in no memory and no row if and only if its row is gone and it ran on the issuer or the issuer's memory had dropped the ticket before. |
| `TicketFleet.SingleUse` | src/auth.rs:310-420 | In every run of any number of instances in which rows are read only when nobody else can have their ticket and no row delete fails, no two consumes of a ticket succeed. |
| `TicketFleet.CarelessIsReplayable` | src/auth.rs:359-420 | Every step that breaks one of these conditions on an unexpired ticket can be continued to a second successful consume, so the conditions are exact. |
| `TicketFleet.PeerThenIssuer` | src/auth.rs:355-420 | For any two instances and any time before the stored expiry, which is cut to whole seconds: a run from the start in which a peer and then the issuer both get the identity. |
| `TicketFleet.PeerDuringHit` | src/auth.rs:371-385 | The same while the issuer is between its memory and its row delete. |
| `TicketFleet.TwoPeers` | src/auth.rs:393-408 | The same for two consumes that read the row before either deletes it. |
| `TicketFleet.FailedDelete` | src/auth.rs:401-408 | The same for two consumes in a row, the first of which fails to delete the row. |
| `SqlLexer.SplitStatements` | src/import.rs:404-492 | The splitting loop agrees with the specification on every text. |
| `SqlLexer.SplitIsStatements` | src/import.rs:404-492 | Splitting the text of any well-formed dump gives the statements of its pieces: strings, names and comments of every kind hide their semicolons, and comments add nothing. |
| `SqlRows.ExtractTuples` | src/import.rs:597-644 | The loop over a statement yields the texts between outermost parentheses outside quotes, from the byte offset that the uppercase text gives. |
| `SqlRows.ParseTuple` | src/import.rs:648-679 | The loop over a tuple yields its values, trimmed, with quotes stripped and escapes kept. |
| `SqlRows.UnescapeSql` | src/import.rs:682-700 | The unescaping loop agrees with the specification on every text, a final backslash included. |
| `SqlRows.EscapesMean` | src/import.rs:682-700 | The four letters that stand for control characters after a backslash; any other character stands for itself. |
| `SqlDump.UnescapeEscape` | src/import.rs:682-700 | Unescaping undoes escaping for every string. |
| `SqlDump.TuplesRows` | src/import.rs:607-644 | The tuples of written rows are the rows, whatever stands between them and inside their quoted values. |
| `SqlDump.ValuesJoin` | src/import.rs:648-679 | The values of a written row are its raw values, trimmed. |
| `SqlDump.DecodeExact` | src/import.rs:648-700 | A value is decoded to its contents if and only if its raw text has no white space at its edges. |
| `SqlDump.RowsOffsetExact` | src/import.rs:600-605 | The rows are looked for where they are if and only if uppercasing keeps the byte length of what precedes the keyword. |
| `SqlDump.ReadInsertExact` | src/import.rs:597-700 | Reading an INSERT whose head keeps its byte length gives its rows if and only if every raw value has clean edges. |
| `SqlDump.DumpRoundTrip` | src/import.rs:404-700 | An INSERT anywhere in a well-formed dump, with comments anywhere before, inside and after it, is found as one statement at its place, and reading it gives its rows if and only if every raw value has clean edges. |
| `SqlDump.WrittenInsert` | src/import.rs:404-492 | Any rows can be written as pieces of such an INSERT. |
| `GroupPaths.Sanitize` | src/import.rs:763-791 | Every sanitized name is a legal folder name of 1 to 64 characters. |
| `GroupPaths.SanitizeName` | src/import.rs:763-791 | A legal name is left alone, so sanitizing is idempotent. |
| `GroupPaths.SanitizeExact` | src/import.rs:763-791 | A sanitized name is the kept characters in their order, with a hyphen for a space, cut to the first 64, or `unnamed` if no character is kept. |
| `GroupPaths.AncestorsRunOut` | src/import.rs:729-758 | Without cycles no group has as many ancestors as there are groups, which is why the recursion ends. |
| `GroupPaths.CycleNeverEnds` | src/import.rs:729-758 | On a cycle the ancestors never run out, so the recursion does not end. |
| `GroupPaths.EndsExactly` | src/import.rs:729-758 | The recursion ends for every group if and only if the table has no cycle. |
| `GroupPaths.SegmentsAreAncestors` | src/import.rs:729-758 | Counted from the end, the segments of a path are the sanitized names of the group and of all its ancestors. |
| `GroupPaths.PathSplits` | src/import.rs:741-757 | A path splits at its slashes into exactly the names it was joined from. |
| `GroupPaths.PathCache.Resolve` | src/import.rs:729-758 | Resolving with the cache returns the path of the uncached definition, and every cached path stays right. |
| `GroupPaths.BuildGroupPaths` | src/import.rs:715-727 | The result has the path of every group and no other entry. |
| `GroupPaths.OrderDoesNotMatter` | src/import.rs:715-727 | With unique ids the order of the groups in the dump changes no path. |
| `CsvTokenizer.Tokenize` | src/csv_import.rs:590-651 | The tokenizer loop agrees with the specification on every text. |
| `CsvTokenizer.TableRoundTrip` | src/csv_import.rs:590-651 | A table written by the rules of section 2 of RFC 4180, with any mix of line endings and of quoted and raw cells, is recovered if and only if it does not end in an unterminated record of one raw empty cell. |
| `CsvTokenizer.OpenQuote` | src/csv_import.rs:598-605 | A quote that is opened and not closed is reported with the number of records before it. |
| `CsvRows.ParseTrailing` | src/csv_import.rs:257-299 | The trailing columns are accepted if and only if every name is known and no optional one repeats; otherwise the first offending column is named, as unknown or as repeated. |
| `CsvRows.ParseHeader` | src/csv_import.rs:214-299 | A header is accepted if and only if its fixed names are in place and its trailing columns are acceptable; the legacy template is told apart exactly, and a wrong column is the first one. |
| `CsvRows.HeaderUnique` | src/csv_import.rs:214-299 | A header record determines the columns it stands for. |
| `CsvRows.ParseGroups` | src/csv_import.rs:493-504 | The group loop yields the trimmed names, each once and in first-seen order. |
| `CsvRows.GroupsOf` | src/csv_import.rs:493-504 | The groups are exactly the non-empty trimmed pieces, without repetition. |
| `CsvRows.CustomIndex` | src/csv_import.rs:365-373 | The running index of custom columns never leaves the list of custom names. |
| `CsvRows.ReadTrailing` | src/csv_import.rs:348-415 | The loop over the trailing cells collects the settings, custom values and problems of the specification. |
| `CsvRows.ReadRecord` | src/csv_import.rs:307-445 | Reading a record gives the blank, bad or good outcome of the specification. |
| `CsvRows.SettingsExact` | src/csv_import.rs:350-415 | Without problems, each setting is what its own column's cell parses to, and absent when the header lacks the column. |
| `CsvRows.ReadRecords` | src/csv_import.rs:301-447 | The loop over the records returns the report of one outcome per record. |
| `CsvRows.ParseRows` | src/csv_import.rs:205-448 | An import succeeds if and only if the text tokenizes, has a record, and its first record is a good header; the report is then that of the other records. |
| `CsvRows.AcceptedIsValid` | src/csv_import.rs:307-445 | An accepted row passes validation again: it has a name, one of the protocols, and a host name unless the protocol is `web`, `vdi` or `proxmox`; and its port fits 16 bits. |
| `CsvRows.Accounting` | src/csv_import.rs:301-447 | Each record has one outcome: blank if and only if all fields are empty; accepted rows validate and no two share folder and name; a skipped one has an earlier accepted row with its key. |
| `CsvRows.ReportCounts` | src/csv_import.rs:301-447 | Rows, skipped records, errors and blank records add up to the records. |
| `CsvRows.ReportPlaces` | src/csv_import.rs:301-447 | The rows are the accepted records in file order, and the numbers of skipped and failed records rise and name such records. |
| `CsvWriter.RecordRoundTrip` | src/csv_import.rs:307-445 | A row written cell by cell under the names of its columns is read back from its record, whatever optional and custom columns the header has, in any order. |
| `CsvWriter.AcceptedFits` | src/csv_import.rs:307-445 | Every row that is accepted from any record is one that can be written, if and only if its folder has no white space at its ends. |
| `CsvWriter.ReimportExact` | src/csv_import.rs:307-445 | An accepted row that is written and read again is the same row if and only if its folder has no white space at its ends. |
| `CsvWriter.SlashHidesSpace` | src/csv_import.rs:487-489 | A folder that changes when it is normalized a second time. |
| `CsvWriter.ImportRoundTrip` | src/csv_import.rs:205-448 | A file with a good header and the records of some rows is read as those records, and the report has exactly the rows, in order, nothing skipped and no error. |
| `CsvWriter.SettingBack` | src/csv_import.rs:517-557 | The text of a flag, a colour depth or a plain value parses in its column to that setting, and the empty cell to none. |
| `CsvWriter.GroupsBack` | src/csv_import.rs:493-504 | Distinct trimmed group names joined by commas are read back in order. |
| `CsvWriter.FolderExact` | src/csv_import.rs:487-489 | Normalizing a folder takes the white space and then the slashes off both ends, and nothing else. |
| `CsvWriter.LowerExact` | src/csv_import.rs:326 | Lowering changes the capitals A to Z and nothing else. |
| `Text.TrimExact` | src/csv_import.rs:325-333 | Trimming takes the white space off both ends, and nothing else. |
| `AuditChain.AuditLog.LogEvent` | src/audit.rs:254-298 | The event is appended under its id, with its hash and the hash of the row before it, or the genesis hash; the rows before stay. |
| `AuditChain.VerifyEvents` | src/audit.rs:396-447 | The verification loop returns the faults of the specification in order, and Verified if and only if there is none. |
| `AuditChain.CleanExact` | src/audit.rs:396-447 | A scan is clean if and only if every stored hash is its event's, every row links to the one before, and the first row is the table's first or links to genesis. |
| `AuditChain.HonestLogVerifies` | src/audit.rs:224-447 | Any run of appends, with oldest rows removed in between, leaves a log that verifies. |
| `AuditChain.LogKeepsEvents` | src/audit.rs:254-298 | After any such run the log holds the latest logged events, with their ids, in order and as they were. |
| `AuditChain.FilteredScanExact` | src/audit.rs:313-392 | A scan with a filter on the time stamps of an intact log, which may leave out inner rows, is clean if and only if its first row is the table's first or starts at a genesis link and the row before each selected row has the hash of the one selected before it. |
| `AuditChain.PickedScanExact` | src/audit.rs:396-447 | The same for any choice of rows in id order. |
| `AuditChain.GapsCloseDistinct` | src/audit.rs:396-447 | When no two rows have the same hash, this means that the selected rows follow each other. |
| `AuditChain.LaterPartIsBroken` | src/audit.rs:313-392 | An honest log of two events and a filter on it that reports Broken. |
| `AuditChain.OutOfOrderIsBroken` | src/audit.rs:313-392 | An honest log of three events, stored out of time order, and a filter on it that keeps the first row and reports Broken. |
| `AuditChain.ReplaceExact` | src/audit.rs:396-447 | Replacing one row goes unnoticed if and only if its own hash fits, its link fits where one is checked, and the next row still links to it. |
| `AuditChain.TamperingIsDetected` | src/audit.rs:396-447 | Under an injective hash, changing any hashed field, any stored hash, or any link but the first row's is detected. |
| `AuditChain.FirstLinkIsFree` | src/audit.rs:396-447 | The link of the first row can be changed without notice. |
| `AuditChain.DropExact` | src/audit.rs:396-447 | Dropping one row is detected if and only if it is an inner row whose hash differs from its predecessor's. |
| `AuditChain.RelinkedDropIsUnnoticed` | src/audit.rs:222-249 | Dropping any inner row and relinking only the next one is never noticed. |
| `AuditChain.ReplaceFlagsTwo` | src/audit.rs:396-447 | Whatever a row is replaced with, at most that row and the next one are reported. |
| `StorageKey.ReplaceInSection` | src/config.rs:2434-2458 | In the section's range the first key line is replaced and later ones are removed, back to front, with everything else in place. |
| `StorageKey.EditLines` | src/config.rs:2423-2467 | The in-place edit of the lines agrees with the specification in all three cases: replace, insert, append a section. |
| `StorageKey.PersistKey` | src/config.rs:2420-2471 | The new content of the file is that of the specification. |
| `StorageKey.WriteIsExact` | src/config.rs:2420-2490 | After a write the first storage section, as the code delimits it, has exactly one key line, the new one, and every other line keeps its text and order. |
| `StorageKey.KeyIsRead` | src/config.rs:2420-2471 | A reader of the storage section, as the code delimits it, finds exactly the key that was written, for every key without quote, backslash and line break. |
| `StorageKey.KeysLeaveTheirMark` | src/config.rs:2420-2471 | Two such keys leave the same file only if they are equal. |
| `StorageKey.SectionExact` | src/config.rs:2408-2490 | The write puts the key into the storage section as TOML delimits it and leaves all other tables alone if and only if no table that the code takes for a part of the section has a key line of its own. |
| `StorageKey.SectionKeyExact` | src/config.rs:2408-2471 | That reader finds the new key in the section as TOML delimits it if and only if the section had a key line of its own or no table taken for a part of it has one. |
| `StorageKey.OwnBodyEnds` | src/config.rs:2620-2622 | That section ends at the next line of the file that opens a table, with or without a comment. |
| `StorageKey.NewBodyConcat` | src/config.rs:2434-2460 | What becomes of the section and of the lines wrongly taken for a part of it: these lose their key lines when the section has one, and get the new key in place of their first one when it has none. |
| `StorageKey.CommentedHeaderIsSwallowed` | src/config.rs:2620-2622 | A file of three lines in which the key is written into the table after the storage section. |
| `StorageKey.EditTwice` | src/config.rs:2423-2467 | On lines, writing a key and then another leaves what writing only the second leaves. |
| `StorageKey.LastWriteWinsExact` | src/config.rs:2420-2471 | On files, the same holds if and only if no line that the write keeps ends in a carriage return outside a line ending. |
| `StorageKey.PairedCr` | src/config.rs:2422-2423 | A file in which every carriage return is followed by a line feed has no such line. |
| `Providers.ProviderTable.NextPosition` | src/providers_db.rs:169-173 | The next position is one above the greatest, or zero. |
| `Providers.ProviderTable.LoadProviders` | src/providers_db.rs:127-134 | The order lists every provider once, by position and then by id. |
| `Providers.ProviderTable.InsertProvider` | src/providers_db.rs:148-183 | A taken name is refused and changes nothing; otherwise a new enabled row with the next position is added. |
| `Providers.ProviderTable.DeleteProvider` | src/providers_db.rs:217-226 | Only the named row goes, and the result says whether there was one. |
| `Providers.ProviderTable.MoveProvider` | src/providers_db.rs:232-276 | A move trades positions with the neighbour in the chain order, and changes nothing at an end or for an unknown id. |
| `Providers.OrderUnique` | src/providers_db.rs:127-134 | A table has only one chain order. |
| `Providers.InsertGoesLast` | src/providers_db.rs:148-183 | A new provider is last in the chain, and positions stay distinct. |
| `Providers.DeleteKeepsOrder` | src/providers_db.rs:217-226 | Deleting a provider keeps the order of the others. |
| `Providers.MoveExact` | src/providers_db.rs:232-276 | With distinct positions a move is one transposition of neighbours, or nothing, and positions stay distinct. |
| `Providers.UpThenDown` | src/providers_db.rs:232-276 | An effective move up followed by a move down restores every row. |
| `Providers.RunKeepsDistinct` | src/providers_db.rs:148-276 | In every run of inserts, deletes and moves from the empty table the positions stay distinct. |
| `BrowserPool.RangeAllocator.Allocate` | src/browser.rs:33-42 | The least free number of the range is taken, and nothing if and only if the range is exhausted. |
| `BrowserPool.RangeAllocator.Release` | src/browser.rs:44-47 | The number is free afterwards, and nothing else changes. |
| `BrowserPool.LeastFree` | src/browser.rs:33-42 | The number found is free and all lower ones of the range are in use; without a result all are. |
| `BrowserPool.StepKeepsInv` | src/browser.rs:150-490 | Every step of a spawn, failing at any stage, or of a first kill keeps the pools equal to what is held, each number by one holder. |
| `BrowserPool.PoolsMatchSessions` | src/browser.rs:150-490 | Over any run with one kill per session, the numbers in use are those held, live sessions share none, and at rest they are exactly those of the live sessions. |
| `BrowserPool.PortsExact` | src/browser.rs:174 | In a build with overflow checks, the VNC ports of a display range are distinct and without overflow if and only if the range, truncated to 16 bits, ends at or below 59635. |
| `BrowserPool.WrappedPortsExact` | src/browser.rs:174 | In a build without them, where the sum wraps, the ports are distinct if and only if the range has at most 65536 displays. |
| `BrowserPool.LivePortsDistinct` | src/browser.rs:150-174 | In every run over a range that fits, two live sessions have different VNC ports. |
| `BrowserPool.LiveWrappedPortsDistinct` | src/browser.rs:150-174 | The same for a build that wraps and a range of at most 65536 displays. |
| `BrowserPool.KillAgainExact` | src/browser.rs:475-489 | A second kill of a session, which begins after the first since a kill borrows it exclusively, keeps the pools right if and only if nobody holds its display meanwhile. |
| `BrowserPool.KillAgainShares` | src/browser.rs:475-489 | For every non-empty display range, a run from the idle pool in which a second kill makes two live sessions share a display. |
| `Reaper.VdiReaper.OnTick` | src/main.rs:2163-2196 | One tick stops exactly the expired containers, sets the timers of the closed form, and tracks exactly the listed containers that were not stopped. |
| `Reaper.VisitedAt` | src/main.rs:2166-2195 | After the loop, a listed container has a timer if and only if it did not expire, namely now when it is active or new and its old one otherwise. |
| `Reaper.TrackedExactly` | src/main.rs:2150-2197 | Over any history of ticks, a container is tracked if and only if the last successful listing had it and did not stop it. |
| `Reaper.TimerMeaning` | src/main.rs:2150-2197 | A timer is the time at which its container was last active, or was missing or stopped at the listing before, with only idle listings since. |
| `Reaper.StoppedExactly` | src/main.rs:2150-2197 | A container is stopped at a tick if and only if it is inactive there, every successful listing since it was last active, or missing or stopped at the listing before, had it inactive, and that span exceeds its own timeout, sixty seconds for each minute of its label or else the default. |

## Left out

- The database layer, sessions, the vault, encryption and the HTTP handlers, except where a
  handler's order of writes matters to the settings cache.
- The file write, the file permissions and the verification read of `src/config.rs`.
- The parts of the SQL import after decoding: matching an INSERT to its table, assembling
  connections, parameters and groups, and making names unique.
- The texts of CSV errors, which are enumerations here, and the CSV template.
- Updating, enabling and validating login providers.
- The outcome of stopping a container: the reaper forgets its timer either way, and `stopped`
  lists the attempts.
- Single-instance mode of the settings cache and its fallbacks for an unseeded cell and a
  poisoned lock.
- Process spawning, profile directories and health probes of browser sessions. A spawn may fail
  at any stage.
- Recording and error capture in the relay, and the direction from the browser to guacd.
- JSON, time stamps and SHA-256 in the audit log, and its file sink.
- OIDC, CSRF protection, roles and network filters.
- ReadsAreCurrent: its discipline is sufficient for all calls of a run; that each clause is needed
  is shown by a counterexample and by an exact condition for the call that follows it, because a
  run that breaks a clause can still be saved by a later commit.
- BuildGroupPaths: requires a group table without cycles, because on a cycle the source does not
  end (`EndsExactly`).
- Resolve: requires the same, for the same reason.
- FastInstructionBoundary: requires an ASCII buffer shorter than 2^64, which is what its only
  caller passes.
- DumpRoundTrip: requires that uppercasing keeps the byte length of the text before the keyword, as
  it does for ASCII (`AsciiHeadFits`); `RowsOffsetExact` shows that the rows are otherwise looked for
  in the wrong place.
- TOML values that span several lines: a line inside one is taken for what it looks like, by the code
  and by `OpensTable` alike.
- Seed: the two flag reads and the epoch read that precede it, each of which may fail, are actions
  of the transition system.
