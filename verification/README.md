# key-value-ts file storage engine, in Dafny

This project models the storage engine of key-value-ts, a time-versioned
key-value store. A record (`Sequence`) is a key, a value and a 64-bit
timestamp. The engine (`FileStorer`) stores each key in an append-only CSV log
`<root>/<key>.csv`, one line `key,timestamp,value` per saved version. It also
keeps an in-memory cache indexed by `key_timestamp`.

- `New` normalises the root so that it ends in `/`.
- `Save` appends the record's line to its key's log, then caches the record.
- `Get` answers from the cache when it can. Otherwise it opens the log (a
  missing log is an error) and reads it front to back:
  - records with fewer than three fields are skipped;
  - a timestamp that does not parse aborts the read, which returns what was
    found so far together with the error;
  - every record at the requested timestamp is cached and becomes the
    answer, so the last one wins;
  - no match answers `""` with no error.

Layout:

- `wrappers.dfy`: `Option` and `Result`.
- `builtins.dfy`: the `Int64` range and the error values of the Go calls the
  engine makes.
- `entities.dfy`: the `Sequence` record.
- `text.dfy`: `strings.HasSuffix`, `strings.TrimSuffix`, and splitting and
  joining on a one-character separator.
- `strconv.dfy`: `%d` formatting (`Decimal`) and `strconv.Atoi`.
- `csv.dfy`: how the CSV reader cuts a log into records.
- `os.dfy`: the file system as an object mapping each path to the file's
  content. Whether an open or a write succeeds is passed in as a flag.
- `files.dfy`: the engine. It has two parts:
  - Pure definitions of what a scan of a log answers (`Scan`, `Lookup`,
    `Learn`) and the invariant that ties the cache to the logs
    (`CoherentState`).
  - The class `FileStorer`, whose methods are proved against those
    definitions.
- `scenarios.dfy`: the storage behaviour the repository's tests rely on,
  replayed against the model.

The central property is that the cache agrees with the logs. Under
`CoherentState`, every cached record is exactly what a fresh scan of its log
returns. A new engine starts in that state over any directory of well-formed
logs, and `Get` and every failed `Save` keep it. A successful `Save` keeps it
for keys and values the log format carries unchanged and keys without `/`.
Under the invariant, `Get` always answers what an engine started afresh over
the same files (empty cache) would answer. Log files are told apart by their
path strings, so the invariant speaks of keys that name distinct files.

## Model

| member | source | states |
|---|---|---|
| Files.Normalize | domains/storage/files/files.go:31-33 | The stored root ends in `/` and names the same directory as the given path: only a missing final slash is added. |
| Files.New | domains/storage/files/files.go:30-45 | With the directory available: no error, and a new storer with the normalised root and an empty cache. Otherwise: the stat error and no storer. |
| Files.FileStorer.constructor | domains/storage/files/files.go:41-44 | The storer holds the normalised root and an empty cache. |
| Files.LogNameOfNormalized | domains/storage/files/files.go:31-33 | Save and Get find a key's log at `<path>/<key>.csv` whether or not the path given to New ended in `/`. `path` and `path/` give the same storer root. |
| Files.LogNameInjective | domains/storage/files/files.go:52 | Distinct keys have distinct log files under the same root. |
| Files.MapKeyInjective | domains/storage/files/files.go:116-118 | `key_timestamp` determines both key and timestamp, even when keys contain `_`. Distinct pairs never share a cache slot. |
| Text.TrimSuffix | domains/storage/files/files.go:52 | Removes exactly one trailing occurrence of the suffix, or leaves the string unchanged when it does not end with it. |
| Text.JoinSplit | domains/storage/files/files.go:60-62 | Joining the parts of a split with the separator rebuilds the string. |
| Text.SplitJoin | domains/storage/files/files.go:60-62 | Splitting a join of separator-free parts gives the parts back: split and join are inverse. |
| Text.SplitAround | domains/storage/files/files.go:60-62 | Splitting `a + sep + b` is the split of `a` followed by the split of `b`. |
| Text.LastSeparatorSplitsUniquely | domains/storage/files/files.go:116-118 | When the separator occurs in neither tail, `head + sep + tail` determines both head and tail. |
| Strconv.Decimal | domains/storage/files/files.go:98 | `%d` of an integer is a non-empty run of digits, preceded by `-` exactly for negative numbers. |
| Strconv.Atoi | domains/storage/files/files.go:72 | On success the text is an optional `+` or `-` followed by digits, and the result is the value they denote, negated after `-`. Every such text whose value fits in 64 bits succeeds. Otherwise the error names the text. |
| Strconv.AtoiDecimal | domains/storage/files/files.go:72 | Parsing the decimal form of any 64-bit integer gives the integer back. |
| Strconv.DecimalInjective | domains/storage/files/files.go:117 | Distinct integers have distinct decimal forms. |
| Csv.RecordsAppend | domains/storage/files/files.go:98 | Appending one complete line to a log whose last line is complete adds exactly one record, the fields of that line, and leaves every earlier record unchanged. |
| Csv.LinesAppend | domains/storage/files/files.go:98 | The same on lines: the appended line becomes the last line. |
| Csv.RecordsOfEmpty | domains/storage/files/files.go:92 | A newly created, empty log holds no records. |
| Files.Classify | domains/storage/files/files.go:69-75 | A record is skipped exactly when it has fewer than 3 fields. Otherwise its second field parses to its timestamp, or it aborts the read with the parse error. |
| Files.LineRoundTrip | domains/storage/files/files.go:98 | With a clean key and value, the line Save writes stays one line and splits into exactly key, timestamp and value. It is read back as that record's timestamp and value. |
| Files.ScanFindsLastMatch | domains/storage/files/files.go:59-86 | Without unparsable timestamps, the read runs to the end. It matches iff some record has the timestamp, answers the value of the last such record, and answers `""` when there is none. |
| Files.ScanStaysStopped | domains/storage/files/files.go:73-75 | Once the read has aborted, further records change nothing. |
| Files.ScanStopsAtFirstBadTimestamp | domains/storage/files/files.go:72-75 | The first record with an unparsable timestamp aborts with that error, answering what was found before it. |
| Files.ScanAppend | domains/storage/files/files.go:61-86 | Reading one more record is one more iteration of the loop. |
| Files.CacheHitIsFresh | domains/storage/files/files.go:49-51 | Under the invariant, a cache hit answers what a fresh read of the log answers. |
| Files.EmptyCacheIsCoherent | domains/storage/files/files.go:41-44 | The empty cache New starts with satisfies the invariant over any storage whose logs are well formed, including a directory already holding logs. |
| Files.AppendedRecordIsFound | domains/storage/files/files.go:90-103 | Appending a clean record's line keeps a log well formed. A read for that record's timestamp then answers its value. Reads for other timestamps answer as before. |
| Files.SavedValueSurvivesRestart | domains/storage/files/files.go:90-103 | After a successful save, a fresh engine over the same files reads the saved value back. |
| Files.LaterSaveWins | domains/storage/files/files.go:77-85 | Of two saves with the same key and timestamp, a read answers the later value. |
| Files.CreateKeepsCoherent | domains/storage/files/files.go:92-95 | Creating an empty log (open succeeded, write failed) keeps the invariant. |
| Files.SaveKeepsCoherent | domains/storage/files/files.go:90-103 | A successful save (append its line, cache it) of a record with clean key and value and no `/` in the key keeps the invariant. |
| Files.ScanKeepsCoherent | domains/storage/files/files.go:77-85 | Caching what a read found keeps the invariant. |
| Files.FileStorer.FromCache | domains/storage/files/files.go:111-114 | Found iff the pair's cache key is present: then the cached record, otherwise the zero record. Under matching keys, a hit carries the requested key and timestamp. |
| Files.FileStorer.SaveToCache | domains/storage/files/files.go:105-109 | The cache gains (or replaces) the entry for the record's own key and timestamp, and nothing else changes. |
| Files.FileStorer.Save | domains/storage/files/files.go:90-103 | No error iff open and write succeed. A failed open changes nothing. A failed write leaves the log created but unwritten. On success, exactly the line `key,ts,value\n` is appended and the record is cached. Failures leave the cache alone and always keep the invariant. Success keeps it for a clean key and value with no `/` in the key. |
| Files.FileStorer.Get | domains/storage/files/files.go:48-87 | A hit answers the cached value with no error and leaves the cache alone. A miss answers the fresh lookup (a missing log is an error) and caches a match, never a miss. Under the invariant the answer always equals the fresh lookup, and the invariant is kept. |
| Files.FileStorer.ScanLog | domains/storage/files/files.go:59-86 | The loop answers exactly the value and error of the read specification. The cache gains the (key, timestamp) entry iff some record matched. |
| Os.FileSystem.Open | domains/storage/files/files.go:53-56 | Fails exactly when the file does not exist; otherwise yields its content. |
| Os.FileSystem.OpenAppend | domains/storage/files/files.go:92-95 | On success the file exists afterwards, created empty if it was missing. On failure nothing changes. |
| Os.FileSystem.WriteString | domains/storage/files/files.go:98-100 | On success the data is appended to the file. On failure nothing changes. |
| Scenarios.SaveThenGet | servers/server_test.go:123-154 | Saving ("my-key", 101, "My Value") succeeds, and reading that pair gives "My Value" with no error. |
| Scenarios.GetAbsentTimestamp | servers/server_test.go:156-171 | After that save, reading "my-key" at 110 gives "" with no error. |
| Scenarios.OtherTimestampMisses | servers/server_test.go:156-171 | A key's log holding only one record answers "" at any other timestamp, and that record's cache entry does not serve the other timestamp. |
| Scenarios.GetUnknownKey | domains/storage/files/files_test.go:81-93 | Reading a key that was never written is an error with an empty value. |

## Left out

- Concurrency: the mutex of `saveToCache` (files.go:105-109) and the unlocked reads of `fromCache` are not modelled. Every operation runs alone.
- `os.Stat`, `os.MkdirAll` and `os.IsExist` in `New` are collapsed into one flag that says whether the root directory is usable. File permissions are not modelled.
- Whether `os.OpenFile` and `WriteString` succeed is an input flag. A write is all or nothing: partial writes are not modelled.
- `os.Open` fails only for a missing file. Other open failures, and closing files, are not modelled.
- The CSV reader is modelled as a split on `\n`, then on `,`, and a final newline ends the last line. These parts of `encoding/csv` are not modelled:
  - quoting;
  - `\r\n` line ends and the skipping of empty lines;
  - the check that every record has as many fields as the first;
  - read errors other than end of file (files.go:67).
  Values containing `,`, `"`, `\r` or `\n` are therefore outside what the invariant lemmas cover.
- Files.SaveKeepsCoherent, Files.AppendedRecordIsFound, Files.SavedValueSurvivesRestart and Files.LaterSaveWins are stated only for keys and values without `,`, `"`, `\r` or `\n`. The engine writes such characters unescaped, so their round trip through the log is not claimed.
- Files.FileStorer.Save: a successful save keeps the invariant only for such clean keys and values, and for keys without `/`. Its other postconditions hold for every record.
- Log files are told apart by their exact path strings. Two keys whose logs are one file on disk (`x` and `./x`, `a/../x`, or `X` and `x` on a case-insensitive volume, or names joined by a symbolic link) are two logs in the model. Path cleaning, case folding and links are not modelled. Files.SaveKeepsCoherent and Files.FileStorer.Save therefore claim the invariant only for keys without `/`. A `Get` for an aliased key still caches what it read under that key, and the model does not capture that a later save through the other name makes that entry stale.
- Strconv.Atoi: reports a single error kind. It does not distinguish a syntax error from a range error. Go's `int` is taken to be 64 bits wide.
- The `storage.Storer` interface, the HTTP server and the command-line entry point are not part of this model.
