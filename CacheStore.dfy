/**
 * The cache store of src/CacheStore.ts: one directory per store name holding
 * timestamp-named entry files and, while a write is in progress, the lock
 * file.  `Disk` stands for the filesystem calls the store makes on its
 * directory; `CacheStore` holds the store's parameters and drives them.
 */
module Store {
  import opened Json
  import opened Entries

  /** A path, as its segments; `join` appends them. */
  type Path = seq<string>

  const CachesDirName := "__caches__"

  /**
   * The store directory: whether it exists, and its files by name.  Its
   * methods are the filesystem calls the store uses: mkdir, readDir,
   * readFile, writeFile, unlink and exists.
   */
  class Disk {
    const path: Path
    var present: bool
    var files: map<Name, string>

    /** A directory that does not exist holds no files. */
    ghost predicate Valid()
      reads this
    {
      !present ==> files == map[]
    }

    /** The directory at `path` before the store ever created it. */
    constructor (path: Path)
      ensures this.path == path
      ensures Valid() && !present && files == map[]
    {
      this.path := path;
      present := false;
      files := map[];
    }

    /** Creates the directory if it is missing; an existing one is kept as it is. */
    method Mkdir()
      requires Valid()
      modifies this
      ensures Valid() && present && files == old(files)
    {
      present := true;
    }

    /** The names in the directory, each once, in an order the platform chooses. */
    method ReadDir() returns (listing: seq<Name>)
      requires present
      ensures Listing(listing, files)
    {
      listing := [];
      var rest := files.Keys;
      while rest != {}
        invariant rest <= files.Keys
        invariant Distinct(listing)
        invariant forall n :: n in listing <==> n in files && n !in rest
        decreases rest
      {
        var n :| n in rest;
        assert n !in multiset(listing);
        listing := listing + [n];
        rest := rest - {n};
      }
    }

    /** The contents of a file, or nothing when it does not exist (the call throws). */
    method ReadFile(n: Name) returns (text: Option<string>)
      ensures text == if n in files then Some(files[n]) else None
    {
      text := if n in files then Some(files[n]) else None;
    }

    /** Creates or overwrites a file; fails when the directory does not exist. */
    method WriteFile(n: Name, text: string) returns (ok: bool)
      requires Valid()
      modifies this
      ensures Valid() && present == old(present)
      ensures ok == present
      ensures files == if ok then old(files)[n := text] else old(files)
    {
      ok := present;
      if ok {
        files := files[n := text];
      }
    }

    /** Deletes a file; fails when there is no such file. */
    method Unlink(n: Name) returns (ok: bool)
      requires Valid()
      modifies this
      ensures Valid() && present == old(present)
      ensures ok == (n in old(files))
      ensures files == old(files) - {n}
    {
      ok := n in files;
      files := files - {n};
    }

    /**
     * Deletes each of the named files, one after another; none fails, since
     * each is there and named once.
     */
    method UnlinkAll(doomed: seq<Name>)
      requires Valid() && present
      requires Distinct(doomed) && forall n :: n in doomed ==> n in files
      modifies this
      ensures Valid() && present
      ensures files == old(files) - Elements(doomed)
    {
      var i := 0;
      while i < |doomed|
        invariant 0 <= i <= |doomed|
        invariant Valid() && present
        invariant files == old(files) - Elements(doomed[..i])
      {
        NotBefore(doomed, i);
        var ok := Unlink(doomed[i]);
        assert ok;
        assert doomed[..i + 1] == doomed[..i] + [doomed[i]];
        i := i + 1;
      }
      assert doomed[..i] == doomed;
    }

    method Exists(n: Name) returns (b: bool)
      ensures b == (n in files)
    {
      b := n in files;
    }
  }

  /**
   * A memoisation cache kept on disk: entries older than `maxAge` seconds
   * are stale.  The object keeps nothing between calls but its parameters;
   * every operation reads the directory afresh.  `now`, the value of
   * `Date.now()`, is a parameter of the operations that read the clock.
   */
  class CacheStore {
    const name: string
    const maxAge: int
    const silent: bool
    const cachePath: Path
    const lockFile: Path
    const disk: Disk

    /**
     * The store's paths agree: the lock file is `.lock` inside the store
     * directory, and `disk` is the directory at that path, so two stores of
     * different names never share one.
     */
    ghost predicate Valid() {
      lockFile == cachePath + [LockFileName] && disk.path == cachePath
    }

    /**
     * The store `name` under `<documents>/__caches__`, with its lock file
     * inside it; `disk` stands for the directory at that path.
     */
    constructor (name: string, maxAge: int, silent: bool, documents: Path, disk: Disk)
      requires disk.path == documents + [CachesDirName, name]
      ensures Valid()
      ensures this.name == name && this.maxAge == maxAge && this.silent == silent
      ensures this.disk == disk
      ensures cachePath == documents + [CachesDirName, name]
      ensures lockFile == cachePath + [LockFileName]
    {
      this.name := name;
      this.maxAge := maxAge;
      this.silent := silent;
      this.disk := disk;
      cachePath := documents + [CachesDirName] + [name];
      lockFile := documents + [CachesDirName] + [name] + [LockFileName];
    }

    /** `join(this.cachePath, name)`: the path of a file directly inside the store directory. */
    function PathOf(n: Name): (p: Path)
      ensures |p| == |cachePath| + 1 && p[..|cachePath|] == cachePath
      ensures p[|cachePath|] == FileName(n)
    {
      cachePath + [FileName(n)]
    }

    /**
     * The lock file is one of the files of the store directory, and distinct
     * names have distinct paths.
     */
    lemma PathsOfFiles(a: Name, b: Name)
      requires Valid()
      ensures PathOf(LockFile) == lockFile
      ensures PathOf(a) == PathOf(b) <==> a == b
    {
      FileNameInjective(a, b);
      if PathOf(a) == PathOf(b) {
        assert PathOf(a)[|cachePath|] == FileName(a);
      }
    }

    /** `lock`: writes the empty lock file. */
    method Lock() returns (ok: bool)
      requires disk.Valid()
      modifies disk
      ensures disk.Valid() && disk.present == old(disk.present)
      ensures ok == disk.present
      ensures disk.files == if ok then old(disk.files)[LockFile := ""] else old(disk.files)
    {
      ok := disk.WriteFile(LockFile, "");
    }

    /** `unlock`: deletes the lock file; throws when it is not there. */
    method Unlock() returns (ok: bool)
      requires disk.Valid()
      modifies disk
      ensures disk.Valid() && disk.present == old(disk.present)
      ensures ok == (LockFile in old(disk.files))
      ensures disk.files == old(disk.files) - {LockFile}
    {
      ok := disk.Unlink(LockFile);
    }

    method IsLocked() returns (locked: bool)
      ensures locked == (LockFile in disk.files)
    {
      locked := disk.Exists(LockFile);
    }

    /**
     * One look at the lock file, standing for `waitForUnlock`.  When the lock
     * file is there, no other caller exists in this model to delete it, so
     * the source's polling would never end.
     */
    method WaitForUnlock() returns (unlocked: bool)
      ensures unlocked == (LockFile !in disk.files)
    {
      var locked := IsLocked();
      unlocked := !locked;
    }

    /**
     * `getCaches`: makes sure the directory exists and lists it sorted by
     * increasing age.  The lock file is listed too, and ties with every
     * entry; beside two or more entries the language's sort may then order
     * them as it likes, so only a directory without it has a promised order:
     * entries strictly newest first.
     */
    method GetCaches() returns (caches: seq<Name>)
      requires disk.Valid()
      modifies disk
      ensures disk.Valid() && disk.present && disk.files == old(disk.files)
      ensures Listing(caches, disk.files)
      ensures LockFile !in disk.files ==> NewestFirst(caches) && caches == Canonical(disk.files)
    {
      disk.Mkdir();
      var listing := disk.ReadDir();
      caches := SortByAge(listing);
      PermutedListing(listing, caches, disk.files);
      if LockFile !in disk.files {
        SortByAgeNewestFirst(listing);
        ListingsAgree(caches, Canonical(disk.files), disk.files);
        NewestFirstUnique(caches, Canonical(disk.files));
      }
    }

    /**
     * `getValidCache`: the first listed file when it is not stale.  Without
     * the lock file that is the newest entry, and nothing is returned exactly
     * when every entry is stale.
     */
    method GetValidCache(now: nat) returns (entry: Option<Name>)
      requires disk.Valid()
      modifies disk
      ensures disk.Valid() && disk.present && disk.files == old(disk.files)
      ensures disk.files == map[] ==> entry == None
      ensures entry.Some? ==> entry.value in disk.files && !IsStale(entry.value, now, maxAge)
      ensures LockFile !in disk.files ==> entry == ValidCache(Canonical(disk.files), now, maxAge)
    {
      var caches := GetCaches();
      entry := ValidCache(caches, now, maxAge);
    }

    /**
     * `clean`: lists the directory and unlinks every listed file (`all`) or
     * every one but the first.  The unlinks run one after another here; the
     * source runs them together and waits for all, which ends in the same
     * directory.
     */
    method Clean(all: bool) returns (ghost caches: seq<Name>)
      requires disk.Valid()
      modifies disk
      ensures disk.Valid() && disk.present
      ensures Listing(caches, old(disk.files))
      ensures LockFile !in old(disk.files) ==> caches == Canonical(old(disk.files))
      ensures disk.files == Pruned(old(disk.files), caches, all)
      ensures all || |caches| == 0 ==> disk.files == map[]
      ensures !all && |caches| > 0 ==> disk.files == map[caches[0] := old(disk.files)[caches[0]]]
    {
      var listed := GetCaches();
      caches := listed;
      var doomed := Doomed(listed, all);
      ghost var before := disk.files;
      DoomedListed(before, listed, all);
      disk.UnlinkAll(doomed);
      PrunedKeepsFirst(before, listed, all);
    }

    /**
     * `read`: the parsed contents of the entry `getValidCache` chose,
     * wrapped; nothing when it chose none; `JSON.parse`'s exception when the
     * contents do not parse.
     */
    method Read(now: nat) returns (r: Outcome<Option<Value>>, ghost entry: Option<Name>)
      requires disk.Valid()
      modifies disk
      ensures disk.Valid() && disk.present && disk.files == old(disk.files)
      ensures entry.Some? ==> entry.value in disk.files && !IsStale(entry.value, now, maxAge)
      ensures LockFile !in disk.files ==> entry == ValidCache(Canonical(disk.files), now, maxAge)
      ensures r == Wrap(entry, disk.files)
      ensures LockFile !in disk.files ==> r == ReadSpec(disk.files, now, maxAge)
      ensures LeftoverLock(disk.files, now, maxAge) ==> r == Done(None) || r == Raised(MalformedEntry)
    {
      var cache := GetValidCache(now);
      entry := cache;
      if LeftoverLock(disk.files, now, maxAge) {
        LeftoverLockReads(entry, disk.files, now, maxAge);
      }
      if cache.None? {
        r := Done(None);
      } else {
        var text := disk.ReadFile(cache.value);
        match Parse(text.value)
        case Parsed(v) =>
          r := Done(Some(v));
        case SyntaxError =>
          r := Raised(MalformedEntry);
      }
    }

    /**
     * `write`: reads again and hands back a fresh entry if there now is one.
     * Otherwise it waits for the lock file to go, writes it, cleans all but
     * the first listed file, writes the value under `now` and deletes the
     * lock file.  The lock file is itself listed by that `clean`: when the
     * sort put it first, the old entries go and the write succeeds; when it
     * put an entry first, the lock file goes with the rest, the old entry
     * stays, and `unlock` throws.
     */
    method Write(value: Value, now: nat) returns (r: Outcome<Value>, ghost found: Outcome<Option<Value>>)
      requires disk.Valid()
      modifies disk
      ensures disk.Valid() && disk.present
      ensures !found.Hung?
      ensures LockFile !in old(disk.files) ==> found == ReadSpec(old(disk.files), now, maxAge)
      ensures found.Raised? ==> r == Raised(found.fault) && disk.files == old(disk.files)
      ensures found.Done? && found.value.Some? ==>
        r == Done(found.value.value) && disk.files == old(disk.files)
      ensures found == Done(None) && LockFile in old(disk.files) ==>
        r == Hung && disk.files == old(disk.files)
      ensures found == Done(None) && LockFile !in old(disk.files) ==>
        FreshWrite(old(disk.files), disk.files, r, value, now)
      ensures LeftoverLock(old(disk.files), now, maxAge) ==>
        (r.Hung? || r == Raised(MalformedEntry)) && disk.files == old(disk.files)
    {
      ghost var entry;
      var cached;
      cached, entry := Read(now);
      found := cached;
      if cached.Raised? {
        r := Raised(cached.fault);
        return;
      }
      if cached.value.Some? {
        r := Done(cached.value.value);
        return;
      }
      var unlocked := WaitForUnlock();
      if !unlocked {
        r := Hung;
        return;
      }
      ghost var before := disk.files;
      var locked := Lock();
      assert locked;  // read created the directory
      ghost var caches := Clean(false);
      assert LockFile in caches;
      ghost var first := caches[0];
      assert first == LockFile || first in before;
      var written := disk.WriteFile(Stamp(now), Stringify(value));
      assert written;
      var released := Unlock();
      if released {
        r := Done(value);
      } else {
        r := Raised(MissingFile(LockFile));
      }
      WriteEnds(before, disk.files, first, r, value, now);
    }

    /**
     * `getCaches` with the filter it evidently means (`!isNaN(Number(name))`):
     * only the entries, and always strictly newest first.
     */
    method GetEntries() returns (caches: seq<Name>)
      requires disk.Valid()
      modifies disk
      ensures disk.Valid() && disk.present && disk.files == old(disk.files)
      ensures NewestFirst(caches)
      ensures caches == Canonical(disk.files - {LockFile})
    {
      disk.Mkdir();
      var listing := disk.ReadDir();
      var entries := EntriesOf(listing);
      ghost var stored := disk.files - {LockFile};
      EntriesListing(listing, disk.files);
      caches := SortByAge(entries);
      PermutedListing(entries, caches, stored);
      SortByAgeNewestFirst(entries);
      ListingsAgree(caches, Canonical(stored), stored);
      NewestFirstUnique(caches, Canonical(stored));
    }

    /**
     * `clean` over the entries-only listing: the lock file is left as it is;
     * `clean(true)` deletes every entry and `clean(false)` every entry but
     * the newest.
     */
    method CleanEntries(all: bool)
      requires disk.Valid()
      modifies disk
      ensures disk.Valid() && disk.present
      ensures disk.files - {LockFile} ==
        if all then map[] else KeepNewest(old(disk.files) - {LockFile})
      ensures LockFile in disk.files <==> LockFile in old(disk.files)
      ensures LockFile in disk.files ==> disk.files[LockFile] == old(disk.files)[LockFile]
    {
      ghost var before := disk.files;
      var caches := GetEntries();
      var doomed := Doomed(caches, all);
      DoomedListed(before - {LockFile}, caches, all);
      disk.UnlinkAll(doomed);
      PrunedEntries(before, all);
    }

    /**
     * `write` over the entries-only listing, as its comment at
     * src/CacheStore.ts:190 means it: with no fresh entry and no lock file it
     * keeps the newest old entry, adds the value under `now`, releases the
     * lock and returns the value.
     */
    method WriteIntended(value: Value, now: nat) returns (r: Outcome<Value>, ghost found: Outcome<Option<Value>>)
      requires disk.Valid()
      modifies disk
      ensures disk.Valid() && disk.present
      ensures !found.Hung?
      ensures LockFile !in old(disk.files) ==> found == ReadSpec(old(disk.files), now, maxAge)
      ensures found.Raised? ==> r == Raised(found.fault) && disk.files == old(disk.files)
      ensures found.Done? && found.value.Some? ==>
        r == Done(found.value.value) && disk.files == old(disk.files)
      ensures found == Done(None) && LockFile in old(disk.files) ==>
        r == Hung && disk.files == old(disk.files)
      ensures found == Done(None) && LockFile !in old(disk.files) ==>
        r == Done(value) && disk.files == KeepNewest(old(disk.files))[Stamp(now) := Stringify(value)]
    {
      ghost var entry;
      var cached;
      cached, entry := Read(now);
      found := cached;
      if cached.Raised? {
        r := Raised(cached.fault);
        return;
      }
      if cached.value.Some? {
        r := Done(cached.value.value);
        return;
      }
      var unlocked := WaitForUnlock();
      if !unlocked {
        r := Hung;
        return;
      }
      ghost var before := disk.files;
      var locked := Lock();
      assert locked;
      CleanEntries(false);
      ghost var cleaned := disk.files;
      var written := disk.WriteFile(Stamp(now), Stringify(value));
      assert written;
      var released := Unlock();
      assert released;
      r := Done(value);
      IntendedEnds(before, cleaned, disk.files, value, now);
    }

    /** `poll`: the cached value if there is a fresh one, else the producer's, written; on any exception the store is wiped and the exception rethrown. */
    method Poll(produce: Production, now: nat)
      returns (r: Outcome<Value>, invoked: bool, ghost first: Outcome<Option<Value>>)
      requires disk.Valid()
      modifies disk
      ensures disk.Valid() && disk.present
      ensures !first.Hung?
      ensures LockFile !in old(disk.files) ==> first == ReadSpec(old(disk.files), now, maxAge)
      ensures invoked <==> first == Done(None)
      ensures first.Done? && first.value.Some? ==>
        r == Done(first.value.value) && disk.files == old(disk.files)
      ensures first.Raised? ==> r == Raised(Rethrown(first.fault))
      ensures invoked && produce.Throws? ==> r == Raised(Rethrown(ProducerFailed))
      ensures r.Raised? ==> r.fault.Rethrown? && disk.files == map[]
      ensures r.Hung? ==> invoked && LockFile in old(disk.files) && disk.files == old(disk.files)
      ensures invoked && produce.Returns? && LockFile !in old(disk.files) ==>
        (r == Done(produce.value) && disk.files == map[Stamp(now) := Stringify(produce.value)]) ||
        (r == Raised(Rethrown(MissingFile(LockFile))) && disk.files == map[])
      ensures invoked && produce.Returns? && old(disk.files) == map[] ==>
        r == Done(produce.value) && disk.files == map[Stamp(now) := Stringify(produce.value)]
      ensures LeftoverLock(old(disk.files), now, maxAge) ==>
        r.Hung? || (r.Raised? && disk.files == map[])
      ensures LeftoverLock(old(disk.files), now, maxAge) && produce.Returns? ==>
        r.Hung? || r == Raised(Rethrown(MalformedEntry))
    {
      invoked := false;
      ghost var entry;
      var cached;
      cached, entry := Read(now);
      first := cached;
      var fault: Fault;
      if cached.Done? && cached.value.Some? {
        r := Done(cached.value.value);
        return;
      } else if cached.Raised? {
        fault := cached.fault;
      } else {
        invoked := true;
        match produce
        case Throws =>
          fault := ProducerFailed;
        case Returns(v) =>
          ghost var found;
          var written;
          written, found := Write(v, now);
          if !written.Raised? {
            r := written;
            return;
          }
          fault := written.fault;
      }
      ghost var wiped := Clean(true);
      r := Raised(Rethrown(fault));
    }
  }

  /**
   * What a write that found no fresh entry and no lock file leaves: no lock
   * file, the value under `now`, and at most one other file, an entry kept
   * from before with its old contents.  It succeeds with only the new entry
   * left, or throws from `unlock`; with no entry before, it succeeds.
   */
  ghost predicate FreshWrite(before: map<Name, string>, after: map<Name, string>,
                             r: Outcome<Value>, value: Value, now: nat)
  {
    && LockFile !in after
    && Stamp(now) in after && after[Stamp(now)] == Stringify(value)
    && (forall n :: n in after && n != Stamp(now) ==> n in before && after[n] == before[n])
    && (forall m, n :: m in after && n in after && m != Stamp(now) && n != Stamp(now) ==> m == n)
    && (r.Done? ==> r == Done(value) && after == map[Stamp(now) := Stringify(value)])
    && (!r.Done? ==> r == Raised(MissingFile(LockFile)))
    && (before == map[] ==> r.Done?)
  }

  /** The end of `write` in the two cases: the lock file or an old entry was listed first. */
  lemma WriteEnds(before: map<Name, string>, after: map<Name, string>, first: Name,
                  r: Outcome<Value>, value: Value, now: nat)
    requires LockFile !in before
    requires first == LockFile || first in before
    requires before == map[] ==> first == LockFile
    requires var kept := map[first := before[LockFile := ""][first]];
      after == kept[Stamp(now) := Stringify(value)] - {LockFile}
    requires r == (if first == LockFile then Done(value) else Raised(MissingFile(LockFile)))
    ensures FreshWrite(before, after, r, value, now)
  {
    if first == LockFile {
      assert after == map[Stamp(now) := Stringify(value)];
    }
  }

  /**
   * The round trip of the cache: a poll on an empty store calls the producer
   * and keeps its value; a poll less than `maxAge` seconds later returns that
   * value without calling the producer.
   */
  method ColdStartThenWarm(store: CacheStore, v: Value, t1: nat, t2: nat, later: Production)
    returns (r1: Outcome<Value>, r2: Outcome<Value>, invoked1: bool, invoked2: bool)
    requires store.disk.Valid() && store.disk.files == map[]
    requires t1 <= t2 < t1 + store.maxAge * 1000
    modifies store.disk
    ensures invoked1 && r1 == Done(v)
    ensures !invoked2 && r2 == Done(v)
    ensures store.disk.files == map[Stamp(t1) := Stringify(v)]
  {
    ghost var first1, first2;
    r1, invoked1, first1 := store.Poll(Returns(v), t1);
    FreshEntryReadsBack(v, t1, t2, store.maxAge);
    r2, invoked2, first2 := store.Poll(later, t2);
  }

  /**
   * Once the entry is `maxAge` seconds old the producer is called again.
   * Its value replaces the old entry, unless the lock file was not listed
   * first by the write's clean, in which case the poll throws and leaves the
   * store empty.
   */
  method ExpiredEntryIsReplaced(store: CacheStore, v: Value, w: Value, t1: nat, t2: nat)
    returns (r: Outcome<Value>, invoked: bool)
    requires store.disk.Valid() && store.disk.files == map[Stamp(t1) := Stringify(v)]
    requires t2 >= t1 + store.maxAge * 1000
    modifies store.disk
    ensures invoked
    ensures (r == Done(w) && store.disk.files == map[Stamp(t2) := Stringify(w)]) ||
            (r == Raised(Rethrown(MissingFile(LockFile))) && store.disk.files == map[])
  {
    ghost var first;
    StaleEntryReadsAbsent(v, t1, t2, store.maxAge);
    r, invoked, first := store.Poll(Returns(w), t2);
  }

  /** An entry that does not parse makes the poll throw and leaves the store empty. */
  method CorruptEntryIsWiped(store: CacheStore, ts: nat, now: nat, produce: Production)
    returns (r: Outcome<Value>, invoked: bool)
    requires store.disk.Valid() && store.disk.files == map[Stamp(ts) := "{"]
    requires now - ts < store.maxAge * 1000
    modifies store.disk
    ensures !invoked && r == Raised(Rethrown(MalformedEntry))
    ensures store.disk.files == map[]
  {
    ghost var first;
    ghost var files := store.disk.files;
    assert Stamp(ts) in Canonical(files);
    assert Canonical(files)[0] in files;
    r, invoked, first := store.Poll(produce, now);
  }

  /**
   * A lock file left behind by a writer that never unlocked, beside a stale
   * entry: a poll never returns a value.  It waits for the lock forever, or
   * reads the lock file as the newest entry, throws and wipes the store.
   */
  method StuckLockNeverReturns(store: CacheStore, v: Value, w: Value, ts: nat, now: nat)
    returns (r: Outcome<Value>, invoked: bool)
    requires store.disk.Valid()
    requires store.disk.files == map[LockFile := "", Stamp(ts) := Stringify(v)]
    requires now - ts >= store.maxAge * 1000
    modifies store.disk
    ensures r.Hung? || (r == Raised(Rethrown(MalformedEntry)) && store.disk.files == map[])
  {
    ghost var first;
    r, invoked, first := store.Poll(Returns(w), now);
  }

  /**
   * The intended write over a stale entry: the entry, the newest of the old
   * ones, stays beside the new one, the lock file is gone and the value is
   * returned.
   */
  method IntendedWriteKeepsNewest(store: CacheStore, v: Value, w: Value, t1: nat, t2: nat)
    returns (r: Outcome<Value>)
    requires store.disk.Valid() && store.disk.files == map[Stamp(t1) := Stringify(v)]
    requires t2 >= t1 + store.maxAge * 1000 && t2 != t1
    modifies store.disk
    ensures r == Done(w)
    ensures store.disk.files == map[Stamp(t1) := Stringify(v), Stamp(t2) := Stringify(w)]
  {
    ghost var files := store.disk.files;
    StaleEntryReadsAbsent(v, t1, t2, store.maxAge);
    assert KeepNewest(files) == files by {
      var k := KeepNewest(files);
      assert Stamp(t1) in k;
    }
    ghost var found;
    r, found := store.WriteIntended(w, t2);
  }
}
