# fscache in Dafny

This project models the core of `fsgo/fscache`, a Go caching library. The
library puts one interface (`Get`, `Set`, `Has`, `Delete`, plus batch
variants) over several storage engines. The model covers:

- **Result records.** `cache/s_cache.go` hides the "not exists" sentinel
  behind `Err()`. The root `s_cache.go` uses plain structs.
- **Current file engine** (`filecache/s_cache.go`, `filecache/option.go`).
  - Each key lives in one file at a digest-derived path.
  - A record is `etime=<UnixNano>\nctime=<Unix>\n<payload>`.
  - Writes publish a temp file by rename.
  - `Reset` removes `.cache` files; a throttled garbage collector removes
    expired files.
- **Older file engine** (`filecache/file.go`). Its record is
  `<Unix expiry>\n<payload>`, read back through a 4096-byte `bufio` reader.
- **LRU engine** (`lrucache/s_cache.go`, `lrucache/value.go`). It keeps a
  map and a recency list, with eviction past the capacity.
- **Batch layer** (`cache/m_cache.go`, `m_cache.go`). It fans a batch out
  into single-key calls, recovers per-item panics, and forwards to native
  batch methods.
- **Chain of caches** (`chains/chains.go`).
- **Loader cache** (`mapcache/cache.go`).

## Modelling choices

- **Engines with mutable fields are classes.** The file engines keep their
  disk (a `Disk` object holding `map<Path, Bytes>`) and the GC timestamp and
  flag. The LRU engine keeps `data` and `list`. `MapCache` keeps `values`
  and `count`. Each method states its whole new state.
- **Inputs stand in for everything outside the program.**
  - I/O failures come in a `Faults` record: per-path read and remove
    failures, and the create/flush/close/rename failures of a write.
  - The clock is the parameter `now`, in nanoseconds.
  - The temp-file name suffix chosen by `ioutil.TempFile` is a parameter.
  - md5, `fmt.Sprint` and the codecs are constant functions of the engine.
  - The order in which Go visits a map or a `sync.Map` is a parameter.
- **Panics are outcomes.** A Go panic is a `Completion.Panicked` outcome.
  The batch layer's `recover` turns it into that key's error result.
- **Chain and batch layers thread state as values.** The single-key cache
  under them is a state value, passed through each call as the calls
  return it.
- **Go integer behaviour is written out.**
  - `strconv.FormatInt` / `ParseInt` (base 10, 64-bit range, `ErrSyntax` /
    `ErrRange`) are modelled byte by byte.
  - `time.Time.UnixNano` of a sum wraps to 64 bits (`Wrap64`).
  - `Unix()` is floor division by 10^9.

## Surprising behaviour of the code

The model follows the code in each of these cases:

- **Current file engine: a record with only two lines.** The record has
  `etime` and `ctime` lines but no third line. When data is wanted, reading
  it panics (`lines[2]` out of range), and `Get` panics with it. Asking
  without data, as `Has` does, succeeds.
- **Current file engine: the `etime=` prefix is never compared.** Only its
  length is checked.
- **Current file engine: garbage collection only removes files whose names
  do not end in `.cache`.** Record files themselves are never collected.
  Expired records are only removed when `Get` reads them.
- **Current file engine: `Reset` panics on an unreadable root.** The walk
  callback dereferences a nil `FileInfo`.
- **Older file engine: the payload is truncated at its first newline.**
  Only the first line of the payload comes back.
- **Older file engine: an empty payload reads back as `EOF`.**
- **Older file engine: `Get` and `Has` disagree at the expiry second.**
  At that second, `Get` still serves the record while `Has` reports it
  absent.
- **LRU `Has` removes the key it reports.** The entry is gone afterwards,
  live or not.
- **Chain: a hit at a deeper tier writes `nil` with ttl 0** into the tiers
  before it, not the found value.
- **`MapCache` never replaces an existing entry.** This includes an expired
  one. Once an entry expires, every later `Get` calls `New` again until the
  sweep removes the entry.
- **`MapCache` capacity is approximate.** Below a capacity of 5 the sweep
  may find nothing to remove. From 5 up, the count never passes the
  capacity.
- **Root batch layer: result constructors.** `m_cache.go` builds its
  results with constructors and methods (`NewGetResult`, `Err()`, `Num()`)
  that the root `s_cache.go` does not define. The model reads them as the
  struct fields `Err` and `Deleted` of that file.

## Model

| member | source | states |
|---|---|---|
| Common.PanicError | cache/m_cache.go:83-85 | the recovered-panic error is never the "not exists" sentinel and reads "panic:" followed by the reason |
| Results.Err | cache/s_cache.go:67-72 | `Err()` is nil exactly when the stored error is nil or the sentinel; otherwise it is the stored error |
| Results.HasErr | cache/s_cache.go:159-164 | the same masking of the sentinel for a Has result |
| Results.Value | cache/s_cache.go:78-95 | a value is reported iff there is no error, a decoder exists and it succeeds; the decoded value is then written; a miss reports no error; a nil decoder and a decode failure are errors |
| Results.MissIgnoresPayload | cache/s_cache.go:78-81 | a result carrying the sentinel reports "absent, no error" whatever bytes and decoder it holds |
| FsResults.GetRetNotExists | s_cache.go:29 | the canonical miss stores the sentinel in `Err`, yet `Value` reports neither a value nor an error |
| FsResults.Value | s_cache.go:43-60 | the same decision table as `Results.Value`, over the struct fields |
| Strconv.Wrap64 | filecache/s_cache.go:75-87 | the result is in the int64 range, equals the input when that is in range, and differs from it by a multiple of 2^64 |
| Strconv.Digits | filecache/s_cache.go:87 | decimal digits of a natural number: non-empty, digits only, a single digit iff the number is below 10 |
| Strconv.FormatInt | filecache/s_cache.go:87 | the decimal text is non-empty and holds no newline |
| Strconv.ParseInt | filecache/s_cache.go:129 | a successful parse lies in the int64 range; empty text, or a bare sign, is a syntax error; text with a non-digit after the optional sign fails |
| Strconv.NonDigitFails | filecache/s_cache.go:129 | the digit loop fails on every text holding a non-digit, whatever it has accumulated |
| Strconv.Pow10 | filecache/s_cache.go:129 | powers of ten are positive |
| Strconv.DecValueFront | filecache/s_cache.go:129 | the value of a digit string splits into its leading digit times a power of ten plus the value of the rest |
| Strconv.ScanUintValue | filecache/s_cache.go:129 | scanning digits from an accumulator yields the decimal value, or a range error once it passes 2^64-1 |
| Strconv.DigitsValue | filecache/s_cache.go:87 | the digits of n read back as n |
| Strconv.FormatIntRoundTrip | filecache/s_cache.go:87 | every int64 formatted by `FormatInt` parses back to itself |
| Record.IndexOf | filecache/s_cache.go:120 | the index is the first occurrence of the byte, or -1 iff it does not occur |
| Record.SplitLines3 | filecache/s_cache.go:120 | `bytes.SplitN(content, "\n", 3)`: 1 to 3 parts that join back to the input, none before the last holding a newline, and the last newline-free unless there are 3 parts |
| Record.SplitRecord | filecache/s_cache.go:83-93 | a written record splits back into its etime line, ctime line and payload |
| Record.SplitRecord2 | filecache/s_cache.go:120-121 | two newline-free lines joined by one newline split into exactly two parts |
| Record.SplitAfterPrefix | filecache/s_cache.go:120 | splitting a newline-free prefix plus a rest only extends the rest's first part |
| Record.IndexAfterPrefix | filecache/s_cache.go:120 | the first newline of a newline-free prefix plus a rest is the rest's, shifted by the prefix length |
| Record.ReadByPath | filecache/s_cache.go:111-139 | a missing file is "not exists" and not expired; a read failure is expired with that error; every error counts as expired and carries no data; without data the call always returns |
| Record.ReadRoundTrip | filecache/s_cache.go:83-93 | a record written for an int64 expiry reads back as "expired iff expiry < now" with exactly the payload when data is wanted |
| Record.PrefixNotCompared | filecache/s_cache.go:125-129 | any six newline-free bytes in place of "etime=" read exactly alike |
| Record.TwoPartRecordPanics | filecache/s_cache.go:132-138 | every record with a parsable first line and no second newline panics when data is wanted, and without data reports expiry by the strict test |
| Record.SingleLineIsCorrupt | filecache/s_cache.go:121-122 | content without a newline is "invalid cache file" and expired |
| Record.ShortFirstLineIsCorrupt | filecache/s_cache.go:126-127 | a first line shorter than "etime=" is "not valid cache line" and expired |
| Record.NonIntegerIsError | filecache/s_cache.go:128-131 | a first line whose text after the six prefix bytes does not parse gives exactly the parse error, no data, and counts as expired |
| LegacyRecord.ReadLine | filecache/file.go:112 | `bufio.Reader.ReadLine` on a 4096-byte buffer: an error iff the input is empty; the line is at most 4096 bytes, holds no newline and starts the input |
| LegacyRecord.ReadLegacy | filecache/file.go:100-125 | a missing file is "not exists" at expiry 0; an open failure is returned as is; success yields an int64 expiry and data iff data was wanted; data has no newline and at most 4096 bytes |
| LegacyRecord.ReadLineWhole | filecache/file.go:112 | a short line not ending in '\r' and followed by a newline is returned whole, inner '\r' bytes included, with the rest after the newline |
| LegacyRecord.ReadLineCRLF | filecache/file.go:112 | a short line followed by "\r\n" is returned without those two bytes, with the rest after them |
| LegacyRecord.NonIntegerHeaderIsError | filecache/file.go:116-119 | a short first line (not ending in '\r') that does not parse gives exactly the parse error at expiry 0 with no data |
| LegacyRecord.ReadLineLast | filecache/file.go:123 | a short final line without a newline is returned whole, '\r' bytes included |
| LegacyRecord.HeaderLine | filecache/file.go:85-86 | the first line of a written record is the formatted expiry, and it parses back |
| LegacyRecord.FormatIntLength | filecache/file.go:85 | a formatted int64 has at most 20 bytes, so the header fits the buffer |
| LegacyRecord.DigitsLength | filecache/file.go:85 | a number below 10^k has at most k digits |
| LegacyRecord.LegacyRoundTrip | filecache/file.go:84-87 | a non-empty newline-free payload shorter than the buffer, whatever '\r' bytes it holds, written with an int64 expiry reads back as that expiry and payload |
| LegacyRecord.NewlineTruncatesPayload | filecache/file.go:123 | a payload containing a newline reads back only up to it (when the part before it does not end in '\r') |
| LegacyRecord.EmptyPayloadIsEOF | filecache/file.go:123-124 | an empty payload reads back as the EOF error |
| LegacyRecord.BoundaryDisagreement | filecache/file.go:54 | `Get`'s expiry test and `Has`'s liveness test both fail exactly at the expiry second and agree everywhere else |
| FileOption.AutoGcTime | filecache/option.go:46-51 | the GC interval is 300 s when unset and the configured one otherwise |
| FileOption.CachePath | filecache/option.go:59-65 | the path starts with the directory, ends in ".cache" and has a fixed length |
| FileOption.CachePathLayout | filecache/option.go:62 | where each digest slice lands in the path |
| FileOption.CachePathSame | filecache/option.go:62 | two digests give the same path iff they agree everywhere except character 15, which never reaches the path |
| FileOption.SamePrintSamePath | filecache/option.go:60-61 | keys that print alike share a path |
| FileOption.Check | filecache/option.go:68-77 | a configuration is accepted iff the embedded check passes and the directory is non-empty; the embedded error comes first |
| FileSystem.Disk.constructor | filecache/s_cache.go:111-116 | the disk holds the given files |
| FileSystem.Lookup | filecache/s_cache.go:112-116 | content is present iff the file exists, and is that file's content |
| FileSystem.NoSuchFile | filecache/s_cache.go:239 | the error `os.Remove` reports for a missing path is not the cache sentinel |
| FileSystem.Remove | filecache/s_cache.go:239 | a missing file is an error; otherwise the file is gone unless removal fails, in which case nothing changes |
| FileSystem.Unlink | filecache/s_cache.go:237-246 | 0 and no error for a missing file, 1 when removed, 0 and the failure otherwise, and the disk changes only on removal |
| FileSystem.PublishError | filecache/s_cache.go:77-102 | a write fails iff one of create/flush/close/rename fails, with the first such failure |
| FileSystem.Publish | filecache/s_cache.go:77-103 | success places the record at the path; failure leaves every file but the temp file as it was, and the temp file is gone too unless its removal failed |
| FileCache.TempNameIsNotRecord | filecache/s_cache.go:77 | a temp name (record path plus digits) never ends in ".cache" |
| FileCache.RecordPathNeverReclaimed | filecache/s_cache.go:215-217 | `checkFile` never removes a record path |
| FileCache.MissingNeverReclaimed | filecache/s_cache.go:218-219 | `checkFile` never removes a missing file |
| FileCache.WellFormedReclaimedIffExpired | filecache/s_cache.go:218-221 | a foreign file holding a complete record is removed iff its expiry has passed |
| FileCache.CorruptForeignFileReclaimed | filecache/s_cache.go:218-221 | a foreign file without a newline is removed at once |
| FileCache.ResetTargets | filecache/s_cache.go:164-166 | the `.cache` files below the directory |
| FileCache.GcTargets | filecache/s_cache.go:204-206 | the files below the directory that `checkFile` would remove |
| FileCache.Removable | filecache/s_cache.go:166 | the targets whose removal succeeds |
| FileCache.SweepsDisjoint | filecache/s_cache.go:164-217 | `Reset` and the garbage collector never target the same file |
| FileCache.SCache.constructor | filecache/s_cache.go:28-35 | a fresh engine with the given options and a zero GC timestamp |
| FileCache.SCache.AutoGc | filecache/s_cache.go:175-184 | a sweep is claimed iff the interval has passed since the last claim, and the timestamp then moves to now |
| FileCache.SCache.Get | filecache/s_cache.go:46-58 | errors come back as is; an expired record is deleted and reported missing; a live one yields its payload and the decoder; a two-part record panics; the GC rule is applied |
| FileCache.SCache.Set | filecache/s_cache.go:61-104 | a marshal failure changes nothing; otherwise the record with the wrapped expiry and the creation second is published, with `Publish`'s guarantees; the GC rule is applied |
| FileCache.SCache.Has | filecache/s_cache.go:142-153 | present iff the record reads without error and is not expired; a missing file is "not exists" |
| FileCache.SCache.Delete | filecache/s_cache.go:156-160 | `unlink` of the key's path: 1 when removed, 0 otherwise |
| FileCache.SCache.Reset | filecache/s_cache.go:163-173 | an unreadable root panics and changes nothing; otherwise every removable `.cache` file below the directory is removed and nothing else; removal failures are not reported |
| FileCache.SCache.CheckFile | filecache/s_cache.go:214-224 | a reclaimable file is removed (or the removal failure returned); any other file is left alone |
| FileCache.SCache.Gc | filecache/s_cache.go:196-212 | a running sweep or an unreadable root changes nothing; otherwise exactly the removable GC targets go; the running flag is restored |
| FileCache.SCache.Sweep | filecache/s_cache.go:204-211 | the disk loses exactly the reclaimable files below the directory whose removal succeeds |
| FileCache.NewSCache | filecache/s_cache.go:28-35 | an engine is built iff `Check` passes, and its error is returned otherwise |
| FileCache.SetThenGet | filecache/s_cache.go:61-104 | with no I/O failure and a round-tripping codec, a value set is read back until its expiry |
| LegacyFileCache.LegacySCache.constructor | filecache/file.go:28-30 | an engine over the given options and disk |
| LegacyFileCache.LegacySCache.Get | filecache/file.go:49-59 | errors come back as is; a record whose expiry second is before the current second is deleted and reported missing; otherwise its first payload line is served |
| LegacyFileCache.LegacySCache.Set | filecache/file.go:61-98 | a marshal failure changes nothing; otherwise the record with the expiry second of now+ttl is published with `Publish`'s guarantees |
| LegacyFileCache.LegacySCache.Has | filecache/file.go:127-136 | present iff the record reads and the current second is before its expiry second |
| LegacyFileCache.LegacySCache.Delete | filecache/file.go:138-142 | `unlink` of the key's path |
| LegacyFileCache.New | filecache/file.go:23-36 | an engine is built iff `Check` passes |
| LegacyFileCache.SetThenGet | filecache/file.go:61-125 | a short one-line value set is read back by every `Get` whose current second is at most the expiry second, matching `expireAt < time.Now().Unix()` |
| LegacyFileCache.ExpirySecond | filecache/file.go:54-133 | at the expiry second `Get` serves the payload while `Has` reports absent |
| LruCache.ExpiryBoundary | lrucache/value.go:20-22 | an entry is live at its expiry instant and expired just after, whatever its key and data |
| LruCache.Without | lrucache/s_cache.go:44-52 | removing a key from the recency list keeps every other key, keeps them distinct and shrinks the list by one iff the key was there |
| LruCache.Assign | lrucache/s_cache.go:133-142 | the decoder handed out ignores the bytes and yields the stored value |
| LruCache.SCache.constructor | lrucache/s_cache.go:20-26 | an empty, consistent engine with the given capacity |
| LruCache.SCache.Get | lrucache/s_cache.go:37-53 | a miss changes nothing; an expired entry is removed and reported missing; a live one moves to the front and its value is served |
| LruCache.SCache.Set | lrucache/s_cache.go:56-76 | an existing key is replaced and moved to the front; a new key is pushed and past the capacity the least recent entry is evicted; the list never exceeds the capacity; with capacity ≥ 1 the key is stored at the front |
| LruCache.SCache.WeedOut | lrucache/s_cache.go:78-86 | the list's last key goes from the list and from the map |
| LruCache.SCache.Has | lrucache/s_cache.go:89-108 | true iff the key holds a live entry; either way the key is gone afterwards |
| LruCache.SCache.Delete | lrucache/s_cache.go:111-121 | 1 iff the key was present; the key is gone from map and list |
| LruCache.SCache.Reset | lrucache/s_cache.go:124-129 | map and list are emptied |
| Batch.Recover | cache/m_cache.go:82-85 | a returned result is kept; a panic becomes the operation's panic result |
| Batch.RunAll | cache/m_cache.go:77-96 | the keys of the batch result are exactly the keys of the items |
| Batch.FanOut | cache/m_cache.go:77-96 | the inline loop produces exactly the sequential meaning `RunAll` |
| Batch.LastOccurrence | cache/m_cache.go:87 | each key's entry is the recovered result of the call at its last occurrence, on the state the earlier items left |
| Batch.PanicStaysWithItsKey | cache/m_cache.go:82-88 | a panicking item records the panic error under its own key |
| Batch.PanicGet | cache/m_cache.go:84 | the Get panic result reports the panic error and no decoder |
| Batch.PanicSet | cache/m_cache.go:111 | the Set panic result carries the panic error |
| Batch.PanicDelete | cache/m_cache.go:138 | the Delete panic result is the panic error with count 0 |
| Batch.PanicHas | cache/m_cache.go:165 | the Has panic result is the panic error and "absent" |
| Batch.MGet | cache/m_cache.go:73-97 | one entry per distinct key, each the result of its last occurrence |
| Batch.MDelete | cache/m_cache.go:127-151 | one entry per distinct key, each the result of its last occurrence |
| Batch.MHas | cache/m_cache.go:153-178 | one entry per distinct key, each the result of its last occurrence |
| Batch.Pairs | cache/m_cache.go:103 | the key-value pairs in visiting order |
| Batch.PairsKeys | cache/m_cache.go:103 | the pairs carry exactly the keys of the map |
| Batch.SetAll | cache/m_cache.go:99-125 | the result has exactly the map's keys, and each key's entry is `Set(k, kvs[k], ttl)` with the shared ttl |
| Batch.MSet | cache/m_cache.go:99-125 | the result has exactly the map's keys, and each key's entry is `Set(k, kvs[k], ttl)` with the shared ttl |
| Batch.HasError | cache/m_cache.go:35-42 | true iff some entry reports an error |
| Batch.TotalRemove | cache/m_cache.go:50-52 | the sum of the counts does not depend on the order entries are added |
| Batch.Num | cache/m_cache.go:48-54 | the loop returns the sum of the entries' counts |
| Batch.TotalOfOnes | cache/m_cache.go:48-54 | when each entry counts 1, the sum is the number of entries |
| Batch.MSetHasError | cache/m_cache.go:35-42 | true iff some Set result holds an error |
| Batch.MDeleteNum | cache/m_cache.go:48-54 | the sum of the deleted counts, equal to the number of entries when each deleted one record |
| Batch.DeletedAll | cache/m_cache.go:48-54 | deleting distinct keys that each remove one record reports as many deletions as keys |
| FsBatch.PanicGet | m_cache.go:105 | the Get panic result carries the panic error, which `Value` reports |
| FsBatch.PanicSet | m_cache.go:135 | the Set panic result carries the panic error |
| FsBatch.PanicDelete | m_cache.go:165 | the Delete panic result is the panic error with count 0 |
| FsBatch.PanicHas | m_cache.go:195 | the Has panic result is the panic error and "absent" |
| FsBatch.MGet | m_cache.go:91-118 | a native batch method is used unchanged; otherwise one entry per distinct key, each its last occurrence's result |
| FsBatch.MSet | m_cache.go:120-149 | a native batch method is used unchanged; otherwise the result keys equal the map's keys, each `Set` with the shared ttl |
| FsBatch.MDelete | m_cache.go:151-178 | a native batch method is used unchanged; otherwise one entry per distinct key |
| FsBatch.MHas | m_cache.go:180-208 | a native batch method is used unchanged; otherwise one entry per distinct key |
| FsBatch.MSetHasError | m_cache.go:53-60 | true iff some Set result holds an error |
| FsBatch.MDeleteNum | m_cache.go:66-72 | the sum of the `Deleted` counts, equal to the number of entries when each deleted one record |
| Chains.FirstHit | chains/chains.go:34-39 | the index of the first tier reporting presence, every earlier one reporting absence, or the tier count when none does |
| Chains.SChains.constructor | chains/chains.go:23-30 | a chain over the given tiers and ttl rules |
| Chains.SChains.GetReports | chains/chains.go:35 | what each tier's Get reports |
| Chains.SChains.HasReports | chains/chains.go:56 | what each tier's Has reports |
| Chains.SChains.Get | chains/chains.go:32-45 | the first hit's result is returned; tiers before a hit get `Set(key, nil, 0)`; without a hit the last tier's result is returned and nothing is written; later tiers are untouched |
| Chains.SChains.Set | chains/chains.go:47-52 | every tier is written with its own ttl rule; the last tier's result is returned |
| Chains.SChains.Has | chains/chains.go:54-61 | the first tier reporting presence answers and later tiers are not asked; otherwise the last tier's answer |
| Chains.SChains.Delete | chains/chains.go:63-68 | every tier deletes; the last tier's result is returned |
| Chains.SChains.Reset | chains/chains.go:70-75 | every tier resets; only the last tier's error is returned |
| MapCache.MapCache.constructor | mapcache/cache.go:15-32 | an empty cache with the given settings |
| MapCache.MapCache.GetCaption | mapcache/cache.go:34-39 | the capacity, 100000 when unset |
| MapCache.MapCache.GetTTL | mapcache/cache.go:41-46 | the ttl, one minute when unset |
| MapCache.MapCache.GetContext | mapcache/cache.go:54-70 | a live entry is returned as stored; otherwise `New`'s result is returned unchanged, stored only for a new key (with `getTTL()` on success, with `FailTTL` on failure when positive); with room the new state is the old map plus that entry, past the capacity it is that map minus exactly the keys `Chosen` names for the visiting order; from a capacity of 5 the entry count stays within it |
| MapCache.MapCache.Store | mapcache/cache.go:72-86 | an existing entry is kept; a new one is inserted and, past the capacity, exactly the keys `Chosen` names for the visiting order are swept (at most 5, never the new one), every other entry unchanged; from a capacity of 5 the count stays within it |
| MapCache.Others | mapcache/cache.go:91-95 | the keys `Range` visits other than the new key are exactly those of the order without it |
| MapCache.FirstExpired | mapcache/cache.go:109-114 | the index of the first expired key, every key before it live |
| MapCache.Chosen | mapcache/cache.go:88-115 | past an overflow of 10 the first five visited keys (or all, when fewer) are taken; up to 10 at most one key is taken, and it is expired or the fifth visited |
| MapCache.ChosenFacts | mapcache/cache.go:88-115 | the keys taken are distinct, never the new key, at most 5, at most 1 for an overflow up to 10, and exactly 1 then once six entries exist |
| MapCache.ExpiredPreferred | mapcache/cache.go:103-114 | for an overflow up to 10, an expired key among the first four visited means the first such key is the one taken |
| MapCache.FifthWhenAllLive | mapcache/cache.go:103-107 | for an overflow up to 10, when the first four visited are live the fifth is taken |
| MapCache.MapCache.Victims | mapcache/cache.go:88-115 | the `Range` loop takes exactly the keys `Chosen` names for the visiting order, with the bounds of `ChosenFacts` |
| MapCache.MapCache.DeleteAll | mapcache/cache.go:117-119 | every listed key is deleted, the other entries are unchanged, and the count drops by the number of keys |
| MapCache.MapCache.Clear | mapcache/cache.go:88-120 | exactly the chosen keys are removed: the new key survives, surviving entries are unchanged, and at most 5 (at most 1 for an overflow up to 10, exactly 1 with at least 6 entries) go |
| MapCache.MapCache.Delete | mapcache/cache.go:123-130 | 1 and the counter decremented iff the key had an entry; the key is gone |

## Left out

- `Strconv.ParseInt`: its errors are the bare `invalid syntax` and
  `value out of range` texts. Go wraps them in a `*strconv.NumError` that
  also names the function and quotes the input; the quoting is not modelled.
- `Record.ErrInvalidLine`: the text stops before the `, got=%q` detail,
  which quotes the offending first line; Go's quoting is not modelled.
- Concurrency is left out.
  - The batch layer's `concurrent` mode, with goroutines, the mutex and the
    wait group, is not modelled. `runFn` is modelled in its inline mode
    only.
  - The atomic compare-and-swap in `autoGC` is not modelled.
  - `sync.Map` races are not modelled.
  - All calls are sequential.
- `FileCache.SCache.AutoGc`: the sweep runs as the separate method `Gc`
  after a claim, not as a background goroutine. The claim compares against
  `AutoGcTime()`; `GetGCInterval()`, which the source calls, is not part of
  this model.
- `FileCache.SCache.Set`: `time.Now()` is read once. The ctime line uses the
  same instant as the expiry.
- Directory creation (`MkdirAll`) is not modelled.
- The `os.Stat` errors of `fileExists` other than "not exists" are not
  modelled.
- Path cleaning by `filepath.Join` is reduced to joining with "/".
- Logging is not modelled.
- The msgpack codecs are not modelled. Marshal and unmarshal are functions
  given to the engine.
- md5 and `fmt.Sprint` are functions given to the engine; only their output
  shapes are used.
- The bytes that `lrucache` stores in a miss result are not modelled; they
  are read only by `String()`, which this model leaves out.
- `MapCache.MapCache.GetContext`: the clock is read once per call, not
  separately by the lookup, the store and the sweep.
- `FileCache.SCache.Get`: the clock is read once per call. The source reads it
  again in `autoGC` after reading the record.
- `FileCache.SCache.Has`: the clock is read once per call. The source reads it
  again in its deferred `autoGC` after reading the record.
- `FileCache.SCache.Gc`: one instant serves the whole walk. The source reads
  the clock again for every file it checks.
- `FileCache.SCache.Sweep`: one instant serves the whole walk, as in `Gc`.
- The `index` field of `mapcache` values is never used and is dropped.
- `lrucache/option.go`'s capacity check is not part of this model.
  - The engine accepts any capacity.
  - A capacity below 1 keeps nothing.
- `AddCache` of the chain interface has no implementation in
  `chains/chains.go` and is not part of this model.
- `Chains.SChains.Get`: "a result reports presence" is a parameter.
  `chains/chains.go:35` calls a `Has()` method that `cache.GetResult` does
  not declare.
