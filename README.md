# go-kv storage engine, modelled in Dafny

This project models the storage engine of the go-kv server and proves
properties of that model. The engine has four parts:

- a **memtable**, an in-memory map from key to value that takes every write;
- **segments** (SST files) `sst-{n}.json`, each written once by a flush, holding
  one record per key in ascending key order;
- a **manifest** (`manifest.txt`), an append-only list of segment names whose
  last line is the *reservation*, the name the next flush will write;
- the **engine**, which reads from the memtable first and then scans the
  written segments from newest to oldest, and which flushes the memtable once a
  write brings it to 2000 keys.

Start-up of the server is modelled too. It either creates a fresh store whose
manifest is the single line `sst-1.json`, or recovers the segment counter by
scanning every manifest line with `Sscanf("sst-%d.json")`. The small Rust
in-memory `KvStore` of the `kvs` crate is modelled beside it; its `get` is a
plain map lookup, whose answers the contracts of `new`, `set` and `remove` state.

Modules, one per file:

- `Failures` (failures.dfy): `Option`, and `Outcome`, which is `Ok(value)` or
  `Panic(cause)`. Every place where the Go code calls `panic` becomes a
  `Panic` outcome.
- `KeyOrder` (key_order.dfy): the byte-wise string order of `sort.Strings`,
  proved to be a strict total order, and `SortKeys`, a sort with a
  sorted-permutation contract.
- `SstNames` (sst_names.dfy): `%d` formatting, the segment name `sst-{n}.json`,
  a model of `fmt.Sscanf("sst-%d.json")`, and `ManifestFor(n)`, the manifest
  of a store after n-1 flushes.
- `Segments` (segments.dfy): `LogEntry`, segment lines, the sorted-dump shape
  `IsSegmentOf`, and the scan of one segment.
- `MemTables` (memtable.dfy): class `MemTable` and the open segment file it
  persists to.
- `Engines` (engine.dfy): class `Engine` (Get, Put, getKeyFromSST,
  persistMemTable), the reference functions `SstValue` and `Answer`, and the
  lemmas about lookup order and flushes.
- `Recovery` (recovery.dfy): `Bootstrap`, the start-up branch of `main`.
- `Kvs` (kvs.dfy): class `KvStore`.

Several things are abstracted:

- The file system is two fields of the engine: `manifest` (the lines of
  `manifest.txt`) and `files` (segment name to its lines). A name missing from
  `files` is a segment that `os.Open` cannot open.
- A segment line is `Record(entry)`, the JSON encoding of a record, or
  `Garbled(text)`, a line that does not decode.
- I/O failures are inputs. `FlushEnv` says whether `os.Create` succeeds, how
  many records the new file takes, and whether the segment and manifest
  `Sync` calls succeed. `DataDir` says what start-up finds on disk.

Points where the code's behaviour is easy to misread:

- Recovery scans every manifest line and keeps the number from the last line
  that `Sscanf` accepts, not just the number on the last line. A manifest
  where no line is accepted leaves the counter at 0.
- `Sscanf` stores the number as soon as it has scanned it. What follows the
  number is never checked, so `sst-7.txt` sets the counter to 7.
- A segment is created with `os.Create`, which truncates a file that already
  exists, so a flush under a name already used replaces that segment.
- The error of writing the first manifest line at a fresh start is not
  checked. When that write fails the server starts with counter 1 over an
  empty manifest, and its first flush leaves `sst-2.json` as the only line,
  so the segment it wrote is never read.
- A panic inside a request handler does not stop the server: net/http
  recovers it for that connection, and the deferred unlock frees the mutex.
  Later requests see the state the panic left. After a failed manifest
  Sync, for example, the manifest already ends with `sst-{n+1}.json` while
  the counter is still n, so the next flush re-creates `sst-{n}.json` over
  the segment just written and its keys can no longer be read.
- A segment that stores the value "" is reported as not found (see Findings).

## Model

| member | source | states |
|---|---|---|
| KeyOrder.LessIrreflexive | go-kv/server/engine/memtable.go:43 | no key sorts before itself |
| KeyOrder.LessTransitive | go-kv/server/engine/memtable.go:43 | the key order used by the sort is transitive |
| KeyOrder.LessTotal | go-kv/server/engine/memtable.go:43 | any two different keys are ordered one way or the other |
| KeyOrder.SortKeys | go-kv/server/engine/memtable.go:43 | `sort.Strings`: the result is ascending and a permutation of the keys |
| KeyOrder.SortedDistinctIsStrict | go-kv/server/engine/memtable.go:38-43 | sorting the distinct keys of a map gives a strictly ascending sequence |
| SstNames.DecimalRoundTrip | go-kv/server/main.go:47 | reading the decimal digits of n back gives n |
| SstNames.ScanSstName | go-kv/server/main.go:47 | `Sscanf("sst-%d.json")` applied to the name formatted from any 64-bit n gives back n |
| SstNames.SstNameInjective | go-kv/server/engine/engine.go:119 | different counters give different segment names |
| SstNames.ManifestGrows | go-kv/server/engine/engine.go:134-135 | appending the reservation `sst-{n+1}.json` to ManifestFor(n) gives ManifestFor(n+1) |
| SstNames.ManifestNamesDistinct | go-kv/server/engine/engine.go:119 | no segment name appears twice in a manifest built by flushes |
| SstNames.FreshManifest | go-kv/server/main.go:34-35 | the manifest written at fresh start is ManifestFor(1) = ["sst-1.json"] |
| Segments.RecordLinesComplete | go-kv/server/engine/memtable.go:45-51 | writing each key of the map once, ascending, with its value, gives the segment of the map |
| Segments.RecordLinesPrefix | go-kv/server/engine/memtable.go:45-51 | the records written for the first n sorted keys are a prefix of the segment: ascending records of the map with no key skipped |
| Segments.SegmentUnique | go-kv/server/engine/memtable.go:38-51 | two segments of the same map are equal, so a flush's output is fully determined by the memtable |
| Segments.ScanFindsFirstMatch | go-kv/server/engine/engine.go:98-109 | the scan of one segment returns the value of the first record whose key matches exactly |
| Segments.ScanMisses | go-kv/server/engine/engine.go:98-112 | a segment without the key, where every line decodes, is a miss |
| Segments.ScanSegmentOf | go-kv/server/engine/engine.go:98-112 | scanning the segment of a map answers as a lookup in that map |
| MemTables.SegmentFile.Write | go-kv/server/engine/memtable.go:47 | a record is appended exactly when the file still has room |
| MemTables.SegmentFile.Sync | go-kv/server/engine/memtable.go:53 | sync reports the device's outcome |
| MemTables.WriteRecords | go-kv/server/engine/memtable.go:45-51 | the write loop emits the records of the given keys in order; it fails iff the keys do not all fit, and then it has written exactly the records of the keys that fit, in order |
| MemTables.MemTable.constructor | go-kv/server/engine/memtable.go:18-22 | a new memtable is empty: size 0, every get misses |
| MemTables.MemTable.Put | go-kv/server/engine/memtable.go:24-35 | after put(k, v), get(k) is (v, true) and every other get is unchanged; size grows by 1 for a new key, 0 for an existing one |
| MemTables.MemTable.CollectKeys | go-kv/server/engine/memtable.go:38-41 | the range loop collects every key of the map exactly once |
| MemTables.MemTable.SortedKeys | go-kv/server/engine/memtable.go:38-43 | after `sort.Strings`, the keys are every key of the map once, strictly ascending |
| MemTables.MemTable.Persist | go-kv/server/engine/memtable.go:37-60 | success iff every write and the sync succeed; on success the file holds the sorted dump (one record per key, its value, ascending) and the memtable is empty; on failure the memtable is unchanged and the file holds a prefix of the sorted dump: all of it when only the sync failed, otherwise as many records as the file took |
| Engines.ScanPastNewer | go-kv/server/engine/engine.go:90-113 | segments that cannot be opened or miss are passed over, and the scan goes on to older ones |
| Engines.NewestMatchWins | go-kv/server/engine/engine.go:90-108 | the newest written segment that holds the key decides the result; older segments are shadowed |
| Engines.KeyInNoSegment | go-kv/server/engine/engine.go:90-114 | a key in no memtable and no openable segment reads as ("", not found), also over an empty manifest |
| Engines.CorruptSegmentIsFatal | go-kv/server/engine/engine.go:101-104 | an undecodable line met before a match ends the lookup as a fatal failure, not "not found" |
| Engines.EmptySegmentValueReadsAbsent | go-kv/server/engine/engine.go:44-46 | a "" value in the newest segment holding the key reads as not found, and older segments are not consulted |
| Engines.ScanFrame | go-kv/server/engine/engine.go:90-91 | the scan from index i reads only manifest lines 0..i and their files |
| Engines.ReservationNeverRead | go-kv/server/engine/engine.go:90 | the file named by the last manifest line never affects a lookup, provided that name is not also an earlier line (which ManifestNamesDistinct gives for ManifestFor(next)) |
| Engines.FlushPreservesSstValue | go-kv/server/engine/engine.go:117-142 | after a flush of mem into the reserved segment, the segment scan answers mem's value for mem's keys, and what it answered before for every other key |
| Engines.FlushAnswers | go-kv/server/engine/engine.go:117-142 | what every read answers after a successful flush, in terms of the memtable and the reads before it |
| Engines.FlushPreservesAnswer | go-kv/server/engine/engine.go:117-142 | no entry is lost: every key whose value is not "" reads the same before and after a flush |
| Engines.FlushHidesEmptyValue | go-kv/server/engine/engine.go:44-46 | as written, a key holding "" reads found before a flush and not found after it |
| Engines.FlushPreservesIntendedAnswer | go-kv/server/engine/engine.go:117-142 | with a hit in a segment counted as found, a flush changes no answer |
| Engines.FlushKeepsManifest | go-kv/server/engine/engine.go:133-142 | a successful flush appends exactly `sst-{n+1}.json`, sets next to n+1, and keeps manifest = ManifestFor(next) |
| Engines.ManifestSyncFailureReusesName | go-kv/server/engine/engine.go:133-142 | after a failed manifest Sync the memtable is empty, the manifest is ManifestFor(n+1) but the counter is still n; the next successful flush, of any new memtable, re-creates sst-{n}.json with that memtable and appends sst-{n+1}.json a second time, so a key with a non-empty value held only by the first flush reads as found after it and as not found after the second |
| Engines.Engine.constructor | go-kv/server/engine/engine.go:27-33 | NewStorageEngine: an empty memtable over the given counter and manifest |
| Engines.Engine.Get | go-kv/server/engine/engine.go:41-47 | a memtable hit returns its value as found without consulting segments; otherwise the segment value, with "" meaning not found |
| Engines.Engine.GetFromSst | go-kv/server/engine/engine.go:80-115 | reads the manifest, skips the reservation, scans written segments newest first, and returns the first exact match, "" when none matches, or a fatal outcome on a corrupt line |
| Engines.Engine.Put | go-kv/server/engine/engine.go:72-77 | the key is inserted; the engine flushes iff the memtable then holds at least 2000 keys; on success the memtable stays below 2000 and the manifest invariant is kept; the key reads back with its value, found unless its value is "" and the put flushed (see Findings); other keys read as before unless they held "" in the flushed memtable |
| Engines.Engine.PersistMemTable | go-kv/server/engine/engine.go:117-143 | writes `sst-{n}.json` with the sorted memtable, empties it, appends `sst-{n+1}.json` and increments the counter; each failing step panics at that point and leaves the state reached so far, including a partial segment that is a prefix of the sorted dump of the size the file took |
| Recovery.LastScannedLineWins | go-kv/server/main.go:44-48 | the counter is the number of the last line that Sscanf accepts; later lines that do not scan leave it |
| Recovery.NoScannedLine | go-kv/server/main.go:44-48 | with no accepted line, including an empty manifest, the counter is 0 |
| Recovery.RecoverAfterFlushes | go-kv/server/main.go:44-48 | restarting on the manifest of a store whose counter is n restores n |
| Recovery.Bootstrap | go-kv/server/main.go:21-50 | a fresh store gets the manifest ["sst-1.json"] and the counter 1, or an empty manifest when the unchecked write of that line fails; an existing one keeps its manifest and gets the recovered counter; each failing step panics |
| Recovery.UnwrittenManifestLosesFirstFlush | go-kv/server/main.go:34-35 | starting with counter 1 over an empty manifest, the first flush leaves the manifest ["sst-2.json"], and every key then reads as not found although sst-1.json holds the memtable |
| Kvs.KvStore.constructor | kvs/src/lib.rs:8-12 | a new store answers None for every key |
| Kvs.KvStore.Default | kvs/src/lib.rs:27-31 | the default store is a fresh, empty store |
| Kvs.KvStore.Set | kvs/src/lib.rs:18-20 | after set(k, v), get(k) is Some(v), overwriting any earlier value; every other key is unchanged |
| Kvs.KvStore.Remove | kvs/src/lib.rs:22-24 | after remove(k), get(k) is None, also when k was absent; every other key is unchanged |

## Findings

| source | as written | input that shows it | evidently intended | confidence | as-written member | corrected member |
|---|---|---|---|---|---|---|
| go-kv/server/engine/engine.go:44-46 | a value read from a segment counts as found only when it is not "", because getKeyFromSST returns "" for "no match" | put("k", "") then 1999 puts of other keys: get("k") is found with "" before the 2000th put and not found after the flush it triggers | a key present in a segment is found whatever its value, so a flush changes no read | not executed | Engines.FlushHidesEmptyValue | Engines.FlushPreservesIntendedAnswer |

`Engines.Answer` and `Engines.Engine.Get` model the code as written.
`Engines.IntendedAnswer` is the corrected reading, and
`Engines.FlushPreservesIntendedAnswer` proves the flush property for it with
no condition on the values.

## Left out

- HTTP plumbing: routing, the JSON request and response bodies, and the status codes. Get and Put take and return plain values.
- The mutex: each Get and Put is one atomic step.
- File handles, Seek, Close and the durability that Sync gives. A write or a Sync is a success or failure outcome.
- The JSON encoding of records and its escaping. A line is either a record or undecodable text.
- The 64 KiB line limit of `bufio.Scanner`, which would end a scan early on a longer line.
- Path handling: `filepath.Join` with the data directory, and path cleaning. Segment files are keyed by the manifest line as written.
- The error of the manifest `Fprintf`, which the code ignores. The line is modelled as always appended; only the manifest Sync can fail.
- The 64-bit wrap-around of `next_sst_filenum += 1` and of the `+1` in the reservation name. The counter is unbounded in the model. Recovery accepts a counter up to 2^63-1, so a restart on a manifest ending in `sst-9223372036854775807.json` would wrap at the next flush; the model instead names the next segment `sst-9223372036854775808.json`.
- Logging (`fmt.Printf`) and the rest of `main` after start-up: the router, the middleware and `ListenAndServe`.
- net/http's recovery of a handler's panic, which lies outside the engine. The panics of engine.go (lines 103, 124, 130 and 139) do not end the server; `Panic` records the state the panic left, which later calls start from. Only the panics of main.go (lines 26, 32 and 41) end the process. `Engines.Engine.Put` promises `BelowThreshold` and `ManifestInvariant` only when it returns `Ok`, so they hold along runs without a panic and not after one.
- A partial write of the first manifest line: a failed `WriteString` is modelled as writing nothing.
- Byte strings: keys and values are Dafny strings of Unicode scalar values, while Go strings are byte strings that may hold invalid UTF-8. The key order compares characters, which agrees with Go's byte order on valid UTF-8.
- go-kv/server/kv/kv.go, go-kv/client/main.go and go-kv/cli/main.go are not part of this model. They are an earlier handler over a bare map and network/terminal clients.
- kvs/src/bin/kvs.rs and kvs/src/bin/bench.rs are not part of this model. They parse command-line arguments and time a benchmark.
