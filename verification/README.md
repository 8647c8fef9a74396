# Code-runner backend: output decoding and the note version store

This project models, in Dafny, the core of the code-runner backend
(`backend/main.go`). It proves properties of that model in three parts.

- **Output decoding** (`cleanDockerOutput`). Docker multiplexes a
  container's stdout and stderr into frames. Each frame has an 8-byte
  header: a stream tag, three reserved bytes and a big-endian 32-bit payload
  length. The backend keeps the payloads of tags 1 (stdout) and 2 (stderr),
  skips zero-length frames, and stops quietly at a truncated header or at a
  payload that runs past the end of the buffer. `StreamDemux` models the
  loop as a method, checks it against a cursor-based reference decoder
  (`Demux`), and relates that decoder to an explicit frame encoding.
- **The version store** (`saveCode`, `getCode`, `getCodeVersions`,
  `parseTimestamp`, `cleanupOldVersions`). Each note is a directory of
  files named `"%d.go"` after the nanosecond save time.
  - A read lists every ".go" entry. Each stem is parsed as a 64-bit decimal,
    and one unparsable name fails the whole listing.
  - Versions are sorted newest first, and the first one is the latest code.
  - After a write, versions past the configured limit are removed by the
    name rebuilt from their parsed timestamp.
  - `Decimal` models `strconv.ParseInt(s, 10, 64)` and `fmt.Sprintf("%d")`.
    `VersionNames` models `filepath.Ext`, the stem and the file-name scheme.
    `VersionStore` models the directory operations, and `VersionStoreFacts`
    proves what they guarantee together.
- **The allow-list** (`isAllowedIP`). `AllowList` models the substring test
  against each configured entry.

Modules:
- `Wrappers`: `Option` and `Result`.
- `StreamDemux`: frame decoding, the decoding method and frame encoding.
- `Decimal`: decimal reading and writing of 64-bit integers.
- `VersionNames`: extension, stem and version file names.
- `VersionStore`: directories, listing, pruning, get and save.
- `VersionStoreFacts`: properties of the store.
- `AllowList`: the client check for saves.

The clock reading (`time.Now().UnixNano()`), the retention limit
(`config.Docker.MaxContainers`), the allow-list
(`config.Security.AllowedIPs`) and the client address are parameters.
File system state is an immutable value: a map from note identifier to a
directory, and from file name to content.

## Model

| member | source | states |
|---|---|---|
| `StreamDemux.CleanDockerOutput` | backend/main.go:185-219 | The decoding loop returns exactly what the frame-by-frame reference decoder `Demux` yields, including "" for empty input. That is the stdout/stderr payloads, in order, of the frames the buffer splits into, and never more bytes than it was given |
| `StreamDemux.Demux` | backend/main.go:185-219 | Decoded output is never longer than the raw buffer |
| `StreamDemux.StepAt` | backend/main.go:192-217 | One decoding step either stops or moves the cursor strictly forward without passing the end, and keeps no more bytes than it consumed |
| `StreamDemux.BigEndianU32` | backend/main.go:199 | A 4-byte big-endian length field, as `binary.BigEndian.Uint32` reads it, is a value below 2^32 |
| `StreamDemux.U32Bytes` | backend/main.go:199 | Four big-endian bytes can be written for every 32-bit length, and reading them back gives that length |
| `StreamDemux.U32BytesOfBigEndian` | backend/main.go:199 | Writing back the length read from any four bytes reproduces those bytes |
| `StreamDemux.BigEndianU32Injective` | backend/main.go:199 | Two different 4-byte length fields never decode to the same length |
| `StreamDemux.DemuxFrameAt` | backend/main.go:198-216 | A well-formed frame at the cursor contributes its payload exactly when its tag is 1 or 2, and decoding resumes right after the frame |
| `StreamDemux.EmptyFrameSkipped` | backend/main.go:201-204 | A zero-length frame with any tag contributes nothing, and decoding resumes 8 bytes later |
| `StreamDemux.ForeignStreamDiscarded` | backend/main.go:211-215 | A frame whose tag is neither 1 nor 2 contributes nothing, however long its payload |
| `StreamDemux.StopsAt` | backend/main.go:193-209 | At a truncated header, or at a non-empty frame whose payload overruns the buffer, decoding ends and yields nothing more |
| `StreamDemux.DemuxFramesAt` | backend/main.go:190-217 | From a cursor where complete frames and then a stopping trailer begin, decoding yields the accepted payloads in order |
| `StreamDemux.DemuxFrames` | backend/main.go:185-219 | Tag filter and graceful stop: complete frames followed by a stopping trailer decode to the stdout/stderr payloads of those frames, in order, and nothing from the trailer |
| `StreamDemux.Split` | backend/main.go:190-217 | Every raw buffer is some sequence of well-formed frames followed by a trailer at which decoding stops, and re-encoding them gives the buffer back |
| `StreamDemux.DemuxIsAcceptedPayloads` | backend/main.go:185-219 | Every buffer decodes to the accepted payloads of its own frame split |
| `StreamDemux.HelloExample` | backend/main.go:211-213 | A single stdout frame carrying "hello" decodes to "hello" |
| `StreamDemux.ForeignHelloExample` | backend/main.go:211-213 | The same frame with tag 3 decodes to nothing |
| `Decimal.FormatNat` | backend/main.go:322 | The `%d` digits of a natural number have no leading zero and read back as that number |
| `Decimal.FormatInt` | backend/main.go:322 | The `%d` text of an integer is canonical and starts with '-' exactly for negative integers |
| `Decimal.ParseInt64` | backend/main.go:405 | Every accepted text yields a 64-bit integer |
| `Decimal.ParseInt64Accepts` | backend/main.go:405 | `ParseInt(s, 10, 64)` accepts `s` with result `v` iff `v` fits in 64 bits and `s` spells `v`: an optional sign, any leading zeros, then the digits of its magnitude |
| `Decimal.StripLeadingZeros` | backend/main.go:405 | Every non-empty digit string is some zeros followed by the canonical digits of its value |
| `Decimal.FormatParseRoundTrip` | backend/main.go:401-410 | Parsing the `%d` text of any 64-bit integer gives the integer back |
| `Decimal.FormatParseOutOfRange` | backend/main.go:405 | The `%d` text of an integer outside 64 bits is rejected |
| `Decimal.FormatIntInjective` | backend/main.go:322 | Distinct integers have distinct `%d` texts |
| `Decimal.CanonicalReformat` | backend/main.go:405 | Formatting a parsed value reproduces the text iff the text is canonical (no '+', no leading zero, no "-0") |
| `VersionNames.ExtIsLastDotSuffix` | backend/main.go:403 | `filepath.Ext` is empty when no '.' follows the last '/', and otherwise is the suffix starting at the last '.', with no separator in it |
| `VersionNames.GoFileIffSuffix` | backend/main.go:378 | An entry counts as a version exactly when its name ends in ".go" |
| `VersionNames.ParseTimestamp` | backend/main.go:401-410 | A name is accepted exactly when its stem spells a 64-bit integer (optional sign, leading zeros allowed), and it yields that integer; a stem that spells none is an error |
| `VersionNames.VersionFileNameParts` | backend/main.go:322 | A saved version's name is a ".go" name whose stem is the `%d` text of its timestamp |
| `VersionNames.VersionFileNameRoundTrip` | backend/main.go:401-410 | Parsing the name a version was saved under gives back its timestamp |
| `VersionNames.VersionFileNameInjective` | backend/main.go:322 | Distinct save times give distinct file names |
| `VersionNames.ReformatIffCanonical` | backend/main.go:424 | Rebuilding a name from its parsed timestamp finds the original file iff the stem is canonical |
| `VersionStore.NewestFirst` | backend/main.go:394-396 | The sort lists every stamped name exactly once, newest first |
| `VersionStore.VersionsOf` | backend/main.go:384-387 | The listing holds one version per name in the order, carrying that file's content and parsed timestamp |
| `VersionStore.ListVersions` | backend/main.go:370-399 | Listing fails when the directory is missing or some ".go" name does not parse, and otherwise holds one version per ".go" entry, newest first |
| `VersionStore.StaleNamesAreGoFiles` | backend/main.go:424 | Pruning only ever names ".go" files |
| `VersionStore.Prune` | backend/main.go:419-428 | With a failed listing or at most `limit` versions nothing changes; otherwise an entry survives iff it is not the rebuilt name of a version past position `limit`; only ".go" entries can go, and removal is the only change |
| `VersionStore.Cleanup` | backend/main.go:412-429 | A directory with an unparsable ".go" name, or with at most `limit` of them, is left unchanged; otherwise entries are only removed, never altered, and never non-".go" ones |
| `VersionStore.GetCode` | backend/main.go:340-368 | A note that was never saved fails to read, and a successful reply lists the note's versions newest first |
| `VersionStore.SaveCode` | backend/main.go:301-338 | A save fails (Forbidden) exactly when the client is not allowed; otherwise it reports the clock reading and changes no other note |
| `VersionStoreFacts.GetCodeRepliesNewest` | backend/main.go:355-358 | The latest code is the content of a newest ".go" file, or "" with no versions when the note holds none |
| `VersionStoreFacts.GetCodeFailsIff` | backend/main.go:348-353 | Reading fails exactly when the note was never created or one of its ".go" names does not parse |
| `VersionStoreFacts.UniqueNewestFirst` | backend/main.go:394-396 | A name strictly newer than all others comes first in every newest-first order |
| `VersionStoreFacts.CleanupKeepsNewest` | backend/main.go:412-429 | In a directory of canonical names, pruning leaves min(count, limit) versions, all newer than every removed one, and the directory stays canonical |
| `VersionStoreFacts.PrunedFront` | backend/main.go:423-428 | In a directory of canonical names with more than `limit` versions, pruning leaves exactly the first `limit` names of the listing order |
| `VersionStoreFacts.RebuiltNames` | backend/main.go:423-424 | For canonical names, the names pruning rebuilds are exactly the names past position `limit` of the listing |
| `VersionStoreFacts.CleanupKeepsUniqueNewest` | backend/main.go:419-428 | With a limit of at least one, pruning never removes a version strictly newer than all others |
| `VersionStoreFacts.NonCanonicalNameSurvivesPruning` | backend/main.go:423-427 | A ".go" file whose stem parses but is not the `%d` text of its value is never removed, and its content is unchanged |
| `VersionStoreFacts.ZeroPaddedNameIsNotCanonical` | backend/main.go:424 | "05.go" parses to 5, but pruning would look for "5.go" |
| `VersionStoreFacts.WrittenGoFiles` | backend/main.go:322-323 | Writing a version adds exactly its name to the ".go" entries and changes no other file |
| `VersionStoreFacts.WriteMakesUniqueNewest` | backend/main.go:320-323 | A write later than every stored version makes the new file the unique newest one |
| `VersionStoreFacts.NewNameIsFresh` | backend/main.go:322 | A save later than every stored version does not overwrite any of them |
| `VersionStoreFacts.ReplyOfUniqueNewest` | backend/main.go:355-358 | In a note whose ".go" names all parse as timestamps, a unique newest file is the reply's content, listed first with its timestamp |
| `VersionStoreFacts.SavedNoteNewest` | backend/main.go:320-329 | After a save later than every stored version and pruning with a limit of at least one, the new file is the unique newest one left |
| `VersionStoreFacts.SaveThenGetLatest` | backend/main.go:301-358 | For an allowed client, a limit of at least one, and a note that is new or whose ".go" names all parse as timestamps, a save followed by a read of the same note replies with the saved code, listed first with the save time |
| `VersionStoreFacts.SaveRetainsNewest` | backend/main.go:315-329 | A save into a canonical note leaves it canonical, holding the `limit` newest of the old versions and the new one taken together (at most `limit` files, all of them when there are no more), all newer than those removed, and holding the new code when the limit is at least one |
| `VersionStoreFacts.UnparsedNameBlocksRead` | backend/main.go:301-429 | A note holding a ".go" file whose stem is not a timestamp still fails to read after a successful save: the save neither removes nor replaces that file |
| `VersionStoreFacts.ListedTimestampsFit` | backend/main.go:383-388 | Every listed timestamp is a 64-bit nanosecond count |
| `AllowList.Contains` | backend/main.go:441 | `strings.Contains(s, sub)` holds iff `sub` occurs in `s` at some position |
| `AllowList.IsAllowedIP` | backend/main.go:439-446 | A client is allowed iff some configured entry occurs in its address |
| `AllowList.EmptyListDeniesAll` | backend/main.go:439-446 | An empty allow-list admits no client |
| `AllowList.EmptyEntryAllowsAll` | backend/main.go:441 | An empty entry admits every client |
| `AllowList.EntryInsideAddressAllows` | backend/main.go:441 | Any address containing an entry is admitted, however much surrounds it |
| `AllowList.AllowedConcat` | backend/main.go:440-445 | Joining two allow-lists admits exactly the clients either one admits |

## Left out

- The container pool, container creation, `docker exec` and running code (`runCode`, `getContainer`, `createContainer`, `releaseContainer`) are external processes and channels. They are not modelled.
- HTTP handling, CORS, TLS, JSON encoding and decoding, and `main` are I/O around the core. Requests that fail to decode are not modelled.
- `loadConfig` and `init` (YAML, creation of the base directories) are not modelled. The retention limit and the allow-list are parameters.
- `getClientIP` (`X-Forwarded-For`, `SplitHostPort`) is not modelled. The client address is a parameter.
- Logging (`log.Printf`) and the warnings in `cleanDockerOutput` are not modelled.
- File-system failures are not modelled. This covers `MkdirAll`, `WriteFile`, `ReadFile` and `Remove` errors, permissions, and a subdirectory whose name ends in ".go". Writes and removals always succeed, and a missing file removes nothing.
- `filepath.Join` and `filepath.Base` are not modelled: directory entry names contain no separator, so `Base` leaves them unchanged.
- `time.Time` is not modelled: a version's timestamp is its integer nanosecond count, which is all `After` and `UnixNano` use here.
- A note directory that does not exist makes `os.ReadDir` fail (backend/main.go:371), so `getCode` answers 500 for a note that was never saved. The model returns `Failure(DirUnreadable)` in that case.
- Requests are modelled one at a time: each save and each read is atomic. In the source, two saves to the same note can interleave their writes and `cleanupOldVersions` runs, and a read can list a file that a concurrent pruning removes before `os.ReadFile` (379).
- `runCode` removes its staged file only on its success path. That handler is not part of this model.
- `StreamDemux.CleanDockerOutput` returns the kept bytes rather than a Go `string`; `string(cleanedOutput)` is the same bytes.
- `StreamDemux.CleanDockerOutput` reads the frame length as an unbounded integer, which matches a 64-bit Go `int`. On a 32-bit build, `int(binary.BigEndian.Uint32(...))` (backend/main.go:199) is negative for lengths of 2^31 or more. The overrun test at 206 then passes and the slice at 212 panics. For any other tag nothing is sliced, but the advance at 215 adds `8 + frameSize`, which on a 32-bit build is at most 7 for those fields. A field of 0xFFFFFFF8 leaves the cursor in place and the loop never ends. Fields 0xFFFFFFF9 to 0xFFFFFFFF move it forward by only 1 to 7 bytes, into the middle of a header. Fields 0x80000000 to 0xFFFFFFF7 move it backwards, which re-reads earlier bytes or panics at 198. The loop's termination at 192-216 therefore rests on Go's `int` being 64 bits. That build is not modelled.
- Go strings are byte sequences, and `strings.Contains` (441), `filepath.Ext` (403) and `strconv.ParseInt` (405) scan bytes. The model uses Dafny strings, which are sequences of characters. For valid UTF-8 input the results agree. A client address (`X-Forwarded-For`) or a directory entry name that is not valid UTF-8 cannot be represented.
- `VersionStore.SaveCode` assumes note identifiers are single clean path components: non-empty, no '/', and neither "." nor "..". The source does not check this. It builds the directory with `filepath.Join(config.Paths.PersistentCodeDir, req.NoteID)` (314), which cleans the path. So "b", "./b", "b/" and "a/../b" name the same note, "" names the directory holding every note, and saving note "a/x.go" creates a directory `x.go` inside note "a". Under that assumption a save changes no other note; without it, it can.
- `VersionStore.GetCode` makes the same assumption about note identifiers (347). Without it, a note that was never saved can be read once a save to a nested identifier such as "a/b" has created its directory. And a note holding a subdirectory whose name ends in ".go" fails to read, because `os.ReadFile` on a directory errors (379-381).
- `Decimal.ParseInt64` reports every rejection as `None`, rather than distinguishing syntax errors from range errors, because every caller only propagates the error.
- `VersionStore.ListVersions` leaves the order of versions with equal timestamps open: the source sorts with the unstable `sort.Slice`, and the order `os.ReadDir` returns does not survive it. The listing is a ghost function, specified by `IsListing` and `IsNewestFirst`.
- `VersionStore.Prune` and `VersionStore.Cleanup` take the limit as a natural number. A negative `MaxContainers` would already make `make(chan string, n)` panic when the configuration is loaded.
- `VersionStoreFacts.CleanupKeepsNewest` is stated for directories whose ".go" names are all the `%d` text of their own timestamp, which are the only names the service writes. For other names, `NonCanonicalNameSurvivesPruning` shows that pruning never removes them.
- `VersionStoreFacts.SaveThenGetLatest` and `VersionStoreFacts.SaveRetainsNewest` assume that the clock reading is later than every stored version. A clock that repeats or goes backwards can overwrite a file or make an older version the latest. `VersionStoreFacts.SaveThenGetLatest` and `VersionStoreFacts.ReplyOfUniqueNewest` also require every ".go" name in the note to parse as a timestamp. A stray name such as "x.go" makes `getCodeVersions` fail (383-386), so `getCode` answers 500 even right after a save (`UnparsedNameBlocksRead`).
