# rn-disk-cache: the cache store, in Dafny

This project models `CacheStore`, the class at the heart of rn-disk-cache: a
time-to-live memoisation cache kept on disk.  Each named store owns a directory
under `<documents>/__caches__/<name>`.  Every entry is a file named by the
millisecond timestamp at which it was written, holding the JSON text of the
cached value.  A file `.lock` in the same directory marks a write in progress.
`poll` returns the newest entry if it is younger than `maxAge` seconds.
Otherwise it calls the producer, writes the value and returns it.  On any
exception it deletes every file of the store and rethrows.

The model has three modules:

- `Json` (Json.dfy) stands in for `JSON.stringify` and `JSON.parse`.  It is a
  subset of JSON: null, booleans, integers and arrays.  It has a printer, a
  parser that can fail, and a proof that parsing what was printed gives the
  value back.
- `Entries` (Entries.dfy) holds the parts of the class that compute on one
  snapshot of the directory:
  - file names (`Name` is `Stamp(ms)` or `LockFile`);
  - the sort behind `getCaches`;
  - the staleness decision of `getValidCache`;
  - the parse-and-wrap of `read`;
  - the files `clean` deletes.
- `Store` (CacheStore.dfy) holds the state.
  - `Disk` is the store directory: whether it exists and a `map<Name, string>`
    of its files.  Its methods are the filesystem calls the class makes.
  - `CacheStore` has the class's constant parameters and a reference to its
    `Disk`.  Its methods are the class's methods.  Each one states the new
    directory in terms of the old one.
  - The methods `ColdStartThenWarm`, `ExpiredEntryIsReplaced` and
    `CorruptEntryIsWiped` chain calls to `Poll` as a caller would, and prove
    what such a caller sees.

Time is a parameter.  Each operation that reads `Date.now()` takes it as
`now`, in whole milliseconds.  An entry is stale when `now - timestamp >=
maxAge * 1000`.  The producer is a parameter too: `Returns(v)` or `Throws`.
`Poll` reports whether it called the producer.

Each operation ends in an `Outcome`: `Done(value)`, `Raised(fault)` or `Hung`.
`Hung` means the source's promise never settles.

## Where the code does not do what it evidently means

The model follows the code as written.  Where the code evidently means
something else, the model also gives the intended version (see "## Findings").

- **The lock file is listed.**  The filter at src/CacheStore.ts:109 is
  evidently meant to keep only the numeric file names, the entries.  But it
  compares `Number(name) !== NaN`, which holds for every name, since NaN
  equals nothing.  So `getCaches` lists `.lock` along with the entries.
- **The lock file's position follows `readDir`.**  The comparator gives NaN
  whenever the lock file is involved, and the language's sort treats NaN as
  "equal".  The sort is stable, so beside a single entry the lock file keeps
  the place `readDir` gave it.  Beside two or more entries the comparator is
  no longer consistent (the lock file ties with entries that do not tie with
  each other), and the result is up to the engine.
  - The model sorts with one stable insertion sort that uses that comparator.
    `SortByAge` states the permutation and the stability.
  - `readDir`'s order is left open.
  - `GetCaches` promises an order among the entries only when there is no
    lock file.  `NewestFirstUnique` shows that in that case every correct
    sort gives the same order.
- **A listed lock file is fresh.**  Its age is NaN, and `NaN >= maxAge` is
  false.  If the sort puts it first, `read` parses its empty contents, which
  throws (`LockFirstIsFresh`, `LockFileIsMalformed`).  A lock file left behind
  beside stale entries therefore makes every poll hang or throw
  (`StuckLockNeverReturns`).
- **`clean` treats the lock file as an entry.**  The comment at
  src/CacheStore.ts:190 says `write` deletes "all except the most recent
  cache".  But `clean(false)` runs while the lock is held, and the lock file
  is in its listing.
  - If the lock file is listed first, every old entry is deleted, and the
    write succeeds with only the new entry left.
  - If an old entry is listed first, the lock file is deleted instead.  That
    entry survives, and `unlock` throws because `.lock` is gone.  `poll` then
    wipes the store and rethrows.  `CleanCanDeleteLock` shows a listing that
    does this: `readDir` gives the entry before `.lock`, and the stable sort
    keeps that order.  `CleanKeepsListedLock` shows the other order.
  - `Write`, `Poll` and `ExpiredEntryIsReplaced` state both outcomes.  With
    no old entry, the write always succeeds.
  - `GetEntries`, `CleanEntries` and `WriteIntended` use the intended filter.
    `WriteIntended` always succeeds, leaves no lock file, and keeps exactly
    the newest old entry beside the new one.

## Model

| member | source | states |
|---|---|---|
| `Json.ParseRoundTrip` | src/CacheStore.ts:162-163 | `JSON.parse` of what `JSON.stringify` wrote gives the same value back |
| `Json.ParseStringify` | src/CacheStore.ts:199-200 | a printed value is parsed back exactly, with the text after it left over, whatever comma or bracket follows |
| `Json.Parse` | src/CacheStore.ts:163 | the empty text does not parse: `JSON.parse('')` throws |
| `Json.Stringify` | src/CacheStore.ts:199 | `JSON.stringify` gives a non-empty text that starts neither with `,` nor with `]`, so the elements of an array can be told apart |
| `Entries.FileName` | src/CacheStore.ts:198 | an entry is named by the numeral of its timestamp, and `Number` of that name gives the timestamp back; the lock file's name `.lock` does not start with a digit |
| `Entries.FileNameInjective` | src/CacheStore.ts:198 | two file names are equal exactly when they name the same entry, or both name the lock file; a timestamp's decimal name never collides with `.lock` |
| `Entries.GoesBefore` | src/CacheStore.ts:110 | the comparator is negative exactly when both names are entries and the first is newer; when the lock file is involved (NaN) neither goes first |
| `Entries.Insert` | src/CacheStore.ts:110 | inserting a name into the sorted list adds exactly that name, keeps the order of the names already sorted, and puts it before every name that does not go before it (stability) |
| `Entries.InsertNewestFirst` | src/CacheStore.ts:110 | inserting an entry that is not yet listed into a newest-first list keeps it newest first |
| `Entries.SortByAge` | src/CacheStore.ts:107-110 | the sorted listing is a permutation of the directory listing, and it is stable: a name listed before another stays before it unless the other goes before it |
| `Entries.SortByAgeNewestFirst` | src/CacheStore.ts:107-110 | without the lock file, the sort orders entries strictly by decreasing timestamp (newest first) |
| `Entries.NewestFirstUnique` | src/CacheStore.ts:95-112 | two newest-first orders of the same names are equal, so without the lock file the listing does not depend on `readDir`'s order |
| `Entries.IsStale` | src/CacheStore.ts:128-130 | the lock file, whose age is NaN, is never stale; an entry is stale exactly when it is at least `maxAge` seconds old |
| `Entries.ValidCache` | src/CacheStore.ts:120-138 | an empty listing gives nothing; otherwise the result is the first listed file exactly when that file is not stale; no other file is ever returned |
| `Entries.StaleAtMaxAge` | src/CacheStore.ts:129-130 | an entry exactly `maxAge` seconds old is stale |
| `Entries.NewestDecides` | src/CacheStore.ts:121-138 | for a newest-first listing, `getValidCache` finds nothing exactly when every entry is stale, so an older fresh entry never exists unseen |
| `Entries.LockFirstIsFresh` | src/CacheStore.ts:128-135 | a lock file listed first has NaN age, is not stale, and is returned as the valid cache |
| `Entries.Wrap` | src/CacheStore.ts:158-171 | `read` gives nothing exactly when no entry was chosen; a chosen entry throws exactly when its contents do not parse, and the throw is `MalformedEntry`; a returned value is the parsed contents |
| `Entries.WrapRoundTrip` | src/CacheStore.ts:162-168 | a chosen entry written as `stringify(v)` reads back as `Some(v)` |
| `Entries.CachedNullIsFound` | src/CacheStore.ts:164-168 | a cached `null` reads back as a present value, not as "no cache" |
| `Entries.LockFileIsMalformed` | src/CacheStore.ts:56-59 | reading the empty lock file as an entry throws a parse error |
| `Entries.LeftoverLockReads` | src/CacheStore.ts:121-168 | with an empty lock file and no fresh entry, `read` finds nothing or throws the parse error; it never returns a value |
| `Entries.Doomed` | src/CacheStore.ts:148 | `clean(true)` deletes the whole listing; `clean(false)` deletes everything after the first listed file, which is the one kept |
| `Entries.Pruned` | src/CacheStore.ts:149-153 | after the unlinks exactly the files not deleted remain, each with its contents |
| `Entries.PrunedKeepsFirst` | src/CacheStore.ts:147-153 | after unlinking what `clean` selects, `clean(true)` leaves no file and `clean(false)` leaves only the first listed file, with its contents |
| `Entries.CleanCanDeleteLock` | src/CacheStore.ts:109-110 | with an older entry listed before `.lock`, the sort keeps that order, and `clean(false)` deletes `.lock` and keeps the entry |
| `Entries.CleanKeepsListedLock` | src/CacheStore.ts:109-110 | with `.lock` listed before an older entry, the sort keeps that order, and `clean(false)` deletes the entry and keeps `.lock` |
| `Entries.EntriesOf` | src/CacheStore.ts:109 | the intended filter keeps exactly the entries of the listing, none more often than listed |
| `Entries.EntriesListing` | src/CacheStore.ts:106-109 | the entries of a listing of the directory list the directory without its lock file, each once |
| `Entries.KeepNewest` | src/CacheStore.ts:190 | what the intended `clean(false)` keeps: nothing for an empty directory, else a single file, an entry with its contents, at least as new as every entry |
| `Entries.PrunedEntries` | src/CacheStore.ts:144-154 | the intended `clean` leaves the lock file alone, and leaves no entry (`all`) or only the newest one |
| `Entries.NothingFreshReadsAbsent` | src/CacheStore.ts:117-138 | without a lock file, `read` finds nothing exactly when every entry in the directory is stale |
| `Entries.FreshEntryReadsBack` | src/CacheStore.ts:158-171 | a single entry younger than `maxAge` reads back as the value it was written from |
| `Entries.StaleEntryReadsAbsent` | src/CacheStore.ts:128-138 | a single entry `maxAge` seconds old or older reads as nothing |
| `Store.Disk.Mkdir` | src/CacheStore.ts:102 | the directory exists afterwards, with its files unchanged |
| `Store.Disk.ReadDir` | src/CacheStore.ts:106 | lists every file of the directory exactly once |
| `Store.Disk.ReadFile` | src/CacheStore.ts:162 | the contents of the file, or nothing when there is no such file |
| `Store.Disk.WriteFile` | src/CacheStore.ts:200 | creates or overwrites the file, fails exactly when the directory is missing, and changes no other file |
| `Store.Disk.Unlink` | src/CacheStore.ts:65 | removes the file, changes no other file, and fails exactly when the file was not there |
| `Store.Disk.Exists` | src/CacheStore.ts:71 | true exactly when the file exists |
| `Store.Disk.UnlinkAll` | src/CacheStore.ts:149-153 | unlinking files that exist, each named once, removes exactly those files, and none of the unlinks fails |
| `Store.CacheStore.constructor` | src/CacheStore.ts:37-44 | the store directory is `<documents>/__caches__/<name>`, the lock file is `.lock` inside it, and the disk is the directory at that path |
| `Store.CacheStore.PathOf` | src/CacheStore.ts:42-43 | a file's path is the store directory's path with the file's name appended |
| `Store.CacheStore.PathsOfFiles` | src/CacheStore.ts:42-43 | the lock file's path is a file path of the store directory, and distinct names have distinct paths |
| `Store.CacheStore.Lock` | src/CacheStore.ts:56-59 | the lock file now exists, empty, and nothing else changed |
| `Store.CacheStore.Unlock` | src/CacheStore.ts:63-66 | the lock file is gone, nothing else changed, and it fails exactly when there was no lock file |
| `Store.CacheStore.IsLocked` | src/CacheStore.ts:70-72 | true exactly when the lock file exists |
| `Store.CacheStore.WaitForUnlock` | src/CacheStore.ts:76-93 | it proceeds exactly when the lock file is absent |
| `Store.CacheStore.GetCaches` | src/CacheStore.ts:98-113 | the directory exists afterwards with its files unchanged; the result lists every file once; without the lock file the entries are strictly newest first |
| `Store.CacheStore.GetValidCache` | src/CacheStore.ts:117-139 | an empty directory gives nothing; a returned file exists and is not stale; without the lock file the result is the newest entry when it is fresh, else nothing |
| `Store.CacheStore.Clean` | src/CacheStore.ts:144-154 | `clean(true)` empties the directory; `clean(false)` keeps exactly the first listed file with its contents; no other change |
| `Store.CacheStore.Read` | src/CacheStore.ts:158-172 | nothing when `getValidCache` chose nothing, else the chosen entry's parsed contents wrapped, or the parse error; the directory is unchanged; with a leftover empty lock file and nothing fresh, nothing or the parse error |
| `Store.CacheStore.Write` | src/CacheStore.ts:176-205 | a fresh entry is returned with the directory untouched; otherwise, with the lock file absent, afterwards there is no lock file, the new entry holds `stringify(value)`, at most one old entry survives unchanged, and the result is `value` with only the new entry left, or an `unlock` failure; with a leftover lock file and nothing fresh, it hangs or throws the parse error and changes nothing |
| `Store.WriteEnds` | src/CacheStore.ts:193-203 | whether the lock file or an old entry was listed first, the end of `write` satisfies `FreshWrite` |
| `Store.CacheStore.GetEntries` | src/CacheStore.ts:98-113 | `getCaches` with the intended filter: the entries of the directory without the lock file, strictly newest first, with the directory unchanged |
| `Store.CacheStore.CleanEntries` | src/CacheStore.ts:144-154 | `clean` with the intended filter: the lock file is untouched; no entry is left for `all`, otherwise only the newest entry with its contents |
| `Store.CacheStore.WriteIntended` | src/CacheStore.ts:176-205 | `write` with the intended filter: a fresh entry, a parse error or a held lock end as in `Write`; otherwise the result is `value`, no lock file remains, and the directory is the newest old entry plus the new one |
| `Store.CacheStore.Poll` | src/CacheStore.ts:213-241 | a fresh cached value is returned without calling the producer; on a miss the producer is called and its value is written and returned; every failure wipes the store and is rethrown wrapped; with a leftover lock file and nothing fresh, no value is ever returned |
| `Store.ColdStartThenWarm` | src/CacheStore.ts:222-228 | a poll on an empty store writes the produced value; a poll under `maxAge` later returns it without calling the producer |
| `Store.ExpiredEntryIsReplaced` | src/CacheStore.ts:188-203 | a poll after `maxAge` calls the producer; the new value replaces the old entry, or the poll throws and leaves the store empty |
| `Store.CorruptEntryIsWiped` | src/CacheStore.ts:230-237 | a fresh entry that does not parse makes `poll` throw a wrapped parse error and leaves no file |
| `Store.StuckLockNeverReturns` | src/CacheStore.ts:180-188 | a poll over a leftover lock file and a stale entry hangs, or throws the parse error and leaves no file |
| `Store.IntendedWriteKeepsNewest` | src/CacheStore.ts:190-203 | with the intended filter, a write after a stale entry keeps that entry beside the new one and returns the value |

## Findings

| source | as written | input that shows it | evidently intended | confidence | as-written member | corrected member |
|---|---|---|---|---|---|---|
| src/CacheStore.ts:109 | the filter `Number(f.name) !== NaN` keeps every name, so `.lock` is listed and `clean(false)` inside `write` may delete it instead of the old entries | `write` over one stale entry `t`, with `readDir` giving `t` before `.lock`: the stable sort keeps `[t, .lock]`, `clean(false)` unlinks `.lock`, `unlock` throws and `poll` wipes the store | keep only numeric names (`!isNaN(Number(f.name))`): the write keeps the newest old entry, adds the new one, unlocks and returns the value | not executed; high | `Entries.CleanCanDeleteLock` | `Store.CacheStore.WriteIntended` |

`Poll` and the scenario methods built on it keep the code as written.
`GetEntries`, `CleanEntries` and `WriteIntended` stand beside `GetCaches`,
`Clean` and `Write` with the intended filter.

## Left out

- `waitForUnlock`'s polling loop with its random `setTimeout` is modelled as one look at the lock file. In a single-caller model nobody else removes a lock file, so when the lock file is there the loop never ends, and the model reports `Hung`.
- Concurrent callers, and the race between `isLocked` and `lock`, are not modelled. The model has a single caller.
- `clean` unlinks its files in parallel with `Promise.all`. The model unlinks them one after another, which ends in the same directory.
- Filesystem failures that the directory state does not decide (I/O errors, permissions) are not modelled. The model's filesystem calls fail only when the state decides it: unlinking or reading a missing file, or writing into a missing directory.
- react-native-fs, `DocumentDirectoryPath` and `path.join` are outside the model. The directory is kept in memory. A path is a sequence of segments, without normalisation of `..` or separators inside a name.
- The type parameter `T` is fixed to `Json.Value`, a JSON subset of null, booleans, integers and arrays. Strings, objects, fractions, exponents and whitespace are left out. The parser rejects text outside the subset, so such a file reads as malformed.
- The age is computed as a float, `(Date.now() - ts) / 1000`. The model uses whole milliseconds, so a non-integer `maxAge` is out of scope.
- `Date.now()` is read once per call. `Poll` uses one `now` for its read, for the re-read inside `write`, and for the new file's name. The source reads the clock at each of these points.
- File names are either a timestamp or `.lock`. Any other file in the directory would be listed and compared as NaN, like the lock file. Such files are not modelled.
- Logging and the `silent` flag only print diagnostics, as does the elapsed-time report in `poll`'s `finally`. `silent` is kept as a constant of the store.
- Store.CacheStore.Write: does not promise that the old entry surviving a failed write is the previously newest one. While the lock file is listed beside two or more entries, the sort's order is engine-defined, even among entries. `WriteIntended` proves that the newest entry is kept when the lock file is not listed.
- Store.CacheStore.GetCaches: promises no order when the lock file is present, for the same reason.
- src/index.ts and the files under dist/ are not part of this model.
