/**
 * The pure part of the cache store (src/CacheStore.ts): the names of the files
 * in a store directory, the `getCaches` sort, the staleness decision of
 * `getValidCache`, the parse-and-wrap of `read` and the choice of the files
 * `clean` deletes.  Each works on a snapshot of the directory.
 */
module Entries {
  import opened Json

  datatype Option<T> = None | Some(value: T)

  /**
   * A file in a store directory: an entry, named by the millisecond timestamp
   * at which it was written, or the lock file `.lock`, which sits in the same
   * directory.
   */
  datatype Name = Stamp(ms: nat) | LockFile

  const LockFileName := ".lock"

  /**
   * The file's name on disk: `${Date.now()}` for an entry, `.lock` for the
   * lock file.  An entry's name is a numeral, and `Number` of it gives the
   * timestamp back; the lock file's name does not start with a digit.
   */
  function FileName(n: Name): (s: string)
    ensures |s| > 0 && (n.Stamp? <==> IsDigit(s[0]))
    ensures n.Stamp? ==> (forall i :: 0 <= i < |s| ==> IsDigit(s[i])) && DigitsValue(s) == n.ms
  {
    match n
    case Stamp(ms) => DigitsRoundTrip(ms); Digits(ms)
    case LockFile => LockFileName
  }

  /** No two names denote the same file, so a directory is a map keyed by `Name`. */
  lemma FileNameInjective(a: Name, b: Name)
    ensures FileName(a) == FileName(b) <==> a == b
  {
    if a.Stamp? && b.Stamp? {
      if FileName(a) == FileName(b) {
        DigitsInjective(a.ms, b.ms);
      }
    } else if a.Stamp? || b.Stamp? {
      assert FileName(a)[0] != FileName(b)[0];
    }
  }

  // ---------------------------------------------------------------------------
  // Snapshots of the directory

  /** Each name occurs at most once. */
  ghost predicate Distinct(s: seq<Name>) {
    forall x :: multiset(s)[x] <= 1
  }

  /** `caches` lists the files of `files`, each exactly once, in some order. */
  ghost predicate Listing(caches: seq<Name>, files: map<Name, string>) {
    Distinct(caches) && forall n :: n in caches <==> n in files
  }

  /** Two listings of one directory hold the same names. */
  lemma ListingsAgree(a: seq<Name>, b: seq<Name>, files: map<Name, string>)
    requires Listing(a, files) && Listing(b, files)
    ensures multiset(a) == multiset(b)
  {
    forall x
      ensures multiset(a)[x] == multiset(b)[x]
    {
      if x in files {
        assert x in a && x in b;
      } else {
        assert x !in a && x !in b;
      }
    }
  }

  /** A reordering of a listing is a listing. */
  lemma PermutedListing(a: seq<Name>, b: seq<Name>, files: map<Name, string>)
    requires Listing(a, files) && multiset(a) == multiset(b)
    ensures Listing(b, files)
  {
    forall n
      ensures n in b <==> n in files
    {
      assert n in b <==> n in multiset(b);
      assert n in a <==> n in multiset(a);
    }
  }

  // ---------------------------------------------------------------------------
  // getCaches: sort by increasing age

  /**
   * `Number(name)`: the timestamp of an entry; `None` stands for the NaN the
   * lock file's name gives.
   */
  function NumberOf(n: Name): Option<int> {
    match n
    case Stamp(ms) => Some(ms)
    case LockFile => None
  }

  /**
   * The comparator `Number(b.name) - Number(a.name)` says `a` goes before `b`:
   * its result is negative.  A NaN result counts as zero, as the language's
   * sort does, so the lock file goes before nothing and nothing before it.
   */
  predicate GoesBefore(a: Name, b: Name)
    ensures GoesBefore(a, b) <==> a.Stamp? && b.Stamp? && a.ms > b.ms
  {
    match (NumberOf(a), NumberOf(b))
    case (Some(x), Some(y)) => y - x < 0
    case _ => false
  }

  /** `a` occurs in `s` at some position before one where `b` occurs. */
  ghost predicate Before(s: seq<Name>, a: Name, b: Name) {
    exists i, j :: 0 <= i < j < |s| && s[i] == a && s[j] == b
  }

  /** Putting a name in front keeps every order, and puts it before every other name. */
  lemma ConsBefore(y: Name, s: seq<Name>)
    ensures forall a, b :: Before(s, a, b) ==> Before([y] + s, a, b)
    ensures forall b :: b in s ==> Before([y] + s, y, b)
  {
    var r := [y] + s;
    forall a, b | Before(s, a, b)
      ensures Before(r, a, b)
    {
      var i, j :| 0 <= i < j < |s| && s[i] == a && s[j] == b;
      assert r[i + 1] == a && r[j + 1] == b;
    }
    forall b | b in s
      ensures Before(r, y, b)
    {
      var j :| 0 <= j < |s| && s[j] == b;
      assert r[0] == y && r[j + 1] == b;
    }
  }

  /** An order in a list is its head before a later name, or an order in its tail. */
  lemma UnconsBefore(s: seq<Name>)
    requires |s| > 0
    ensures forall a, b :: Before(s, a, b) ==> (a == s[0] && b in s[1..]) || Before(s[1..], a, b)
  {
    forall a, b | Before(s, a, b)
      ensures (a == s[0] && b in s[1..]) || Before(s[1..], a, b)
    {
      var i, j :| 0 <= i < j < |s| && s[i] == a && s[j] == b;
      assert s[j] == s[1..][j - 1];
      if i > 0 {
        assert s[i] == s[1..][i - 1];
      }
    }
  }

  /**
   * Inserts `x` in front of the first element that does not go before it.
   * The names already sorted keep their order, and `x`, which was listed
   * before them, stays in front of every one that does not go before it:
   * the insertion is stable.
   */
  function Insert(x: Name, sorted: seq<Name>): (r: seq<Name>)
    ensures multiset(r) == multiset(sorted) + multiset{x}
    ensures forall a, b :: Before(sorted, a, b) ==> Before(r, a, b)
    ensures forall b :: b in sorted && !GoesBefore(b, x) ==> Before(r, x, b)
  {
    if |sorted| == 0 then [x]
    else if !GoesBefore(sorted[0], x) then
      ConsBefore(x, sorted);
      [x] + sorted
    else
      assert sorted == [sorted[0]] + sorted[1..];
      var tail := Insert(x, sorted[1..]);
      assert forall b :: b in sorted[1..] ==> b in tail by {
        forall b | b in sorted[1..] ensures b in tail {
          assert b in multiset(tail);
        }
      }
      UnconsBefore(sorted);
      ConsBefore(sorted[0], tail);
      [sorted[0]] + tail
  }

  /**
   * `.sort((a, b) => Number(b.name) - Number(a.name))`, as a stable insertion
   * sort: the result is a permutation of the listing, and a name listed
   * before another stays before it unless the other goes before it.  The
   * filter in front of it keeps every name (`Number(name) !== NaN` always
   * holds), so the lock file is sorted with the entries.
   */
  function SortByAge(listing: seq<Name>): (r: seq<Name>)
    ensures multiset(r) == multiset(listing)
    ensures forall a, b :: Before(listing, a, b) && !GoesBefore(b, a) ==> Before(r, a, b)
  {
    if |listing| == 0 then []
    else
      assert listing == [listing[0]] + listing[1..];
      var sorted := SortByAge(listing[1..]);
      assert forall b :: b in listing[1..] ==> b in sorted by {
        forall b | b in listing[1..] ensures b in sorted {
          assert b in multiset(sorted);
        }
      }
      UnconsBefore(listing);
      Insert(listing[0], sorted)
  }

  /** Only entries, and strictly newest first. */
  predicate NewestFirst(caches: seq<Name>) {
    LockFile !in caches &&
    forall i, j :: 0 <= i < j < |caches| ==> caches[i].ms > caches[j].ms
  }

  /** An entry newer than every element of a newest-first list may go in front of it. */
  lemma ConsNewestFirst(h: Name, t: seq<Name>)
    requires h.Stamp? && NewestFirst(t)
    requires forall k :: 0 <= k < |t| ==> h.ms > t[k].ms
    ensures NewestFirst([h] + t)
  {
    var r := [h] + t;
    forall i, j | 0 <= i < j < |r|
      ensures r[i].Stamp? && r[j].Stamp? && r[i].ms > r[j].ms
    {
      assert r[j] == t[j - 1];
      if i > 0 {
        assert r[i] == t[i - 1];
      }
    }
  }

  /** The tail of a newest-first list is newest first, and older than its head. */
  lemma UnconsNewestFirst(a: seq<Name>)
    requires NewestFirst(a) && |a| > 0
    ensures a[0].Stamp? && NewestFirst(a[1..])
    ensures forall k :: 0 <= k < |a| - 1 ==> a[0].ms > a[1..][k].ms
  {
    assert a[0] in a;
    forall i, j | 0 <= i < j < |a| - 1
      ensures a[1..][i].ms > a[1..][j].ms
    {
      assert a[1..][i] == a[i + 1] && a[1..][j] == a[j + 1];
    }
  }

  /** An entry that does not go before another, and differs from it, is older. */
  lemma NotBeforeIsOlder(x: Name, y: Name)
    requires x.Stamp? && y.Stamp? && x != y && !GoesBefore(x, y)
    ensures y.ms > x.ms
  {
  }

  lemma {:induction false} InsertNewestFirst(x: Name, sorted: seq<Name>)
    requires x.Stamp? && x !in sorted && NewestFirst(sorted)
    ensures NewestFirst(Insert(x, sorted))
  {
    if |sorted| == 0 {
      ConsNewestFirst(x, []);
      assert [x] + [] == [x];
    } else {
      UnconsNewestFirst(sorted);
      var h := sorted[0];
      if !GoesBefore(h, x) {
        assert h in sorted;
        NotBeforeIsOlder(h, x);
        forall k | 0 <= k < |sorted|
          ensures x.ms > sorted[k].ms
        {
          if k > 0 {
            assert sorted[k] == sorted[1..][k - 1];
          }
        }
        ConsNewestFirst(x, sorted);
      } else {
        var t := sorted[1..];
        assert x !in t by {
          assert sorted == [h] + t;
        }
        InsertNewestFirst(x, t);
        var tail := Insert(x, t);
        forall k | 0 <= k < |tail|
          ensures h.ms > tail[k].ms
        {
          assert tail[k] in multiset(t) + multiset{x};
          if tail[k] != x {
            var i :| 0 <= i < |t| && t[i] == tail[k];
          }
        }
        ConsNewestFirst(h, tail);
      }
    }
  }

  /** A list whose names occur once each: its tail too, and without its head. */
  lemma DistinctTail(listing: seq<Name>)
    requires Distinct(listing) && |listing| > 0
    ensures Distinct(listing[1..]) && listing[0] !in listing[1..]
  {
    var x := listing[0];
    assert listing == [x] + listing[1..];
    assert multiset(listing)[x] <= 1;
    assert multiset(listing)[x] == multiset(listing[1..])[x] + 1;
    forall y ensures multiset(listing[1..])[y] <= 1 {
      assert multiset(listing)[y] >= multiset(listing[1..])[y];
    }
  }

  /** Without the lock file, the sort puts the entries newest first. */
  lemma {:induction false} SortByAgeNewestFirst(listing: seq<Name>)
    requires LockFile !in listing && Distinct(listing)
    ensures NewestFirst(SortByAge(listing))
  {
    if |listing| > 0 {
      var x := listing[0];
      var t := listing[1..];
      DistinctTail(listing);
      assert x in listing;
      assert LockFile !in t by {
        assert listing == [x] + t;
      }
      SortByAgeNewestFirst(t);
      var sorted := SortByAge(t);
      assert x !in multiset(t);
      assert x !in multiset(sorted);
      InsertNewestFirst(x, sorted);
    }
  }

  /** Newest first, the first element is the newest of all. */
  lemma FirstIsNewest(a: seq<Name>, x: Name)
    requires NewestFirst(a) && x in a
    ensures x == a[0] || x.ms < a[0].ms
  {
    var i :| 0 <= i < |a| && a[i] == x;
  }

  /**
   * Newest first, a listing has only one order: any sort that honours the
   * comparator gives the same result when there is no lock file.
   */
  lemma {:induction false} NewestFirstUnique(a: seq<Name>, b: seq<Name>)
    requires NewestFirst(a) && NewestFirst(b) && multiset(a) == multiset(b)
    ensures a == b
  {
    assert |a| == |multiset(a)| == |multiset(b)| == |b|;
    if |a| > 0 {
      SameHead(a, b);
      UnconsNewestFirst(a);
      UnconsNewestFirst(b);
      TailMultiset(a);
      TailMultiset(b);
      NewestFirstUnique(a[1..], b[1..]);
      assert a == [a[0]] + a[1..] && b == [b[0]] + b[1..];
    }
  }

  /** The tail of a list holds its names less the head. */
  lemma TailMultiset(a: seq<Name>)
    requires |a| > 0
    ensures multiset(a[1..]) == multiset(a) - multiset{a[0]}
  {
    assert a == [a[0]] + a[1..];
  }

  /** Two non-empty newest-first orders of the same names start alike. */
  lemma SameHead(a: seq<Name>, b: seq<Name>)
    requires NewestFirst(a) && NewestFirst(b) && multiset(a) == multiset(b)
    requires |a| > 0 && |b| > 0
    ensures a[0] == b[0]
  {
    assert a[0] in multiset(b) && b[0] in multiset(a);
    FirstIsNewest(b, a[0]);
    FirstIsNewest(a, b[0]);
  }

  // ---------------------------------------------------------------------------
  // getValidCache: is the newest entry still fresh?

  /**
   * `(now - Number(name)) / 1000 >= maxAge`, in whole milliseconds.  The lock
   * file's age is NaN, and NaN is not at least anything, so it is never stale.
   */
  predicate IsStale(n: Name, now: int, maxAge: int)
    ensures IsStale(n, now, maxAge) ==> n.Stamp?
    ensures n.Stamp? ==> (IsStale(n, now, maxAge) <==> now - n.ms >= maxAge * 1000)
  {
    match NumberOf(n)
    case Some(ts) => now - ts >= maxAge * 1000
    case None => false
  }

  /** The first listed file if it is not stale; nothing if there is none or it is. */
  function ValidCache(caches: seq<Name>, now: int, maxAge: int): (r: Option<Name>)
    ensures |caches| == 0 ==> r == None
    ensures r.Some? ==> r.value == caches[0]
    ensures r.Some? <==> |caches| > 0 && !IsStale(caches[0], now, maxAge)
  {
    if |caches| == 0 then None
    else if IsStale(caches[0], now, maxAge) then None
    else Some(caches[0])
  }

  /** An entry exactly `maxAge` seconds old is stale. */
  lemma StaleAtMaxAge(ts: nat, rest: seq<Name>, maxAge: int)
    ensures ValidCache([Stamp(ts)] + rest, ts + maxAge * 1000, maxAge) == None
  {
  }

  /**
   * Looking only at the newest entry decides the same as looking at all:
   * with the entries newest first, none is fresh exactly when the first is
   * not.  An older entry is never returned, and never needs to be.
   */
  lemma {:induction false} NewestDecides(caches: seq<Name>, now: int, maxAge: int)
    requires NewestFirst(caches)
    ensures ValidCache(caches, now, maxAge) == None <==>
      forall i :: 0 <= i < |caches| ==> IsStale(caches[i], now, maxAge)
  {
    if ValidCache(caches, now, maxAge) == None && |caches| > 0 {
      forall i | 0 <= i < |caches|
        ensures IsStale(caches[i], now, maxAge)
      {
        if i > 0 {
          assert caches[0].ms > caches[i].ms;
        }
      }
    }
  }

  /** A lock file that the sort put first is taken for a fresh entry. */
  lemma LockFirstIsFresh(rest: seq<Name>, now: int, maxAge: int)
    ensures ValidCache([LockFile] + rest, now, maxAge) == Some(LockFile)
  {
  }

  // ---------------------------------------------------------------------------
  // read: parse the fresh entry and wrap it

  /** Why an operation of the store throws. */
  datatype Fault =
    | MalformedEntry          // JSON.parse threw on a file's contents
    | MissingFile(name: Name) // unlink of a file that is not there
    | ProducerFailed          // the function being cached threw or rejected
    | Rethrown(cause: Fault)  // poll's `new Error(`Error: ${error}`)`

  /** How an operation of the store ends: with a value, with an exception, or never. */
  datatype Outcome<T> = Done(value: T) | Raised(fault: Fault) | Hung

  /** What the function being cached does when called. */
  datatype Production = Returns(value: Value) | Throws

  /**
   * `read` after `getValidCache` chose `entry`: nothing (`null`) when it chose
   * none, else the parsed contents wrapped, so that a cached `null` comes
   * back as `Some(Null)` and not as nothing.
   */
  function Wrap(entry: Option<Name>, files: map<Name, string>): (r: Outcome<Option<Value>>)
    requires entry.Some? ==> entry.value in files
    ensures !r.Hung?
    ensures r == Done(None) <==> entry == None
    ensures r.Raised? ==> r.fault == MalformedEntry
    ensures entry.Some? ==> (r.Raised? <==> Parse(files[entry.value]).SyntaxError?)
    ensures r.Done? && r.value.Some? ==> Parse(files[entry.value]) == Parsed(r.value.value)
  {
    match entry
    case None => Done(None)
    case Some(n) =>
      match Parse(files[n])
      case Parsed(v) => Done(Some(v))
      case SyntaxError => Raised(MalformedEntry)
  }

  /** An entry written with `Stringify(v)` reads back as `v`, `Null` included. */
  lemma WrapRoundTrip(n: Name, files: map<Name, string>, v: Value)
    requires n in files && files[n] == Stringify(v)
    ensures Wrap(Some(n), files) == Done(Some(v))
  {
    ParseRoundTrip(v);
  }

  /** A cached `null` is told apart from "no cache". */
  lemma CachedNullIsFound(n: Name, files: map<Name, string>)
    requires n in files && files[n] == Stringify(Null)
    ensures Wrap(Some(n), files) != Wrap(None, files)
  {
    WrapRoundTrip(n, files, Null);
  }

  /** The lock file's empty contents do not parse, so reading it throws. */
  lemma LockFileIsMalformed(files: map<Name, string>)
    requires LockFile in files && files[LockFile] == ""
    ensures Wrap(Some(LockFile), files) == Raised(MalformedEntry)
  {
  }

  // ---------------------------------------------------------------------------
  // clean: delete every file, or every file but the first

  /**
   * `all ? caches : caches.slice(1)`: every listed file, or every one but the
   * first, which is the one kept.
   */
  function Doomed(caches: seq<Name>, all: bool): (d: seq<Name>)
    ensures all ==> d == caches
    ensures !all && |caches| > 0 ==> caches == [caches[0]] + d
    ensures !all && |caches| == 0 ==> d == []
  {
    if all then caches else if |caches| == 0 then [] else caches[1..]
  }

  function Elements(s: seq<Name>): set<Name> {
    set n | n in s
  }

  /** What `clean` unlinks are files of the directory, each named once. */
  lemma DoomedListed(files: map<Name, string>, caches: seq<Name>, all: bool)
    requires Listing(caches, files)
    ensures Distinct(Doomed(caches, all))
    ensures forall n :: n in Doomed(caches, all) ==> n in files
  {
    if !all && |caches| > 0 {
      DistinctTail(caches);
      forall n | n in caches[1..] ensures n in files {
        assert caches == [caches[0]] + caches[1..];
      }
    }
  }

  /** In a list whose names occur once each, no element occurs before its own position. */
  lemma NotBefore(s: seq<Name>, i: nat)
    requires Distinct(s) && i < |s|
    ensures s[i] !in s[..i]
  {
    assert s == s[..i] + [s[i]] + s[i + 1..];
    assert multiset(s)[s[i]] <= 1;
  }

  /** The directory once every doomed file is unlinked. */
  function Pruned(files: map<Name, string>, caches: seq<Name>, all: bool): (r: map<Name, string>)
    ensures forall n :: n in r <==> n in files && n !in Doomed(caches, all)
    ensures forall n :: n in r ==> r[n] == files[n]
  {
    files - Elements(Doomed(caches, all))
  }

  /**
   * `clean(true)` leaves the directory empty; `clean(false)` leaves exactly
   * the first listed file, with its contents untouched.
   */
  lemma PrunedKeepsFirst(files: map<Name, string>, caches: seq<Name>, all: bool)
    requires Listing(caches, files)
    ensures all || |caches| == 0 ==> Pruned(files, caches, all) == map[]
    ensures !all && |caches| > 0 ==>
      Pruned(files, caches, all) == map[caches[0] := files[caches[0]]]
  {
    var p := Pruned(files, caches, all);
    if !all && |caches| > 0 {
      assert caches == [caches[0]] + caches[1..];
      assert caches[0] !in caches[1..] by {
        assert multiset(caches)[caches[0]] == multiset(caches[1..])[caches[0]] + 1;
      }
      forall n | n in files && n != caches[0]
        ensures n in Elements(caches[1..])
      {
        assert n in caches;
      }
      assert p.Keys == {caches[0]};
    } else {
      forall n | n in files
        ensures n in Elements(Doomed(caches, all))
      {
        assert n in caches;
      }
      assert p.Keys == {};
    }
  }

  // ---------------------------------------------------------------------------
  // The order a lock-free directory is listed in

  ghost function SetToSeq(s: set<Name>): (r: seq<Name>)
    ensures Distinct(r) && forall n :: n in r <==> n in s
  {
    if s == {} then []
    else
      var x :| x in s;
      var r := [x] + SetToSeq(s - {x});
      assert forall y :: multiset(r)[y] == (if y == x then 1 else 0) + multiset(SetToSeq(s - {x}))[y];
      r
  }

  /**
   * The directory sorted by age.  Without the lock file this is the one order
   * every call of `getCaches` returns.
   */
  ghost function Canonical(files: map<Name, string>): (r: seq<Name>)
    ensures Listing(r, files)
    ensures LockFile !in files ==> NewestFirst(r)
  {
    var listing := SetToSeq(files.Keys);
    PermutedListing(listing, SortByAge(listing), files);
    if LockFile in files then SortByAge(listing)
    else (SortByAgeNewestFirst(listing); SortByAge(listing))
  }

  /** What `read` gives for a directory without a lock file. */
  ghost function ReadSpec(files: map<Name, string>, now: int, maxAge: int): Outcome<Option<Value>> {
    Wrap(ValidCache(Canonical(files), now, maxAge), files)
  }

  /** Without a lock file, `read` finds nothing exactly when every entry is stale. */
  lemma NothingFreshReadsAbsent(files: map<Name, string>, now: int, maxAge: int)
    requires LockFile !in files
    ensures ReadSpec(files, now, maxAge) == Done(None) <==>
      forall n :: n in files ==> IsStale(n, now, maxAge)
  {
    var caches := Canonical(files);
    NewestDecides(caches, now, maxAge);
    if forall i :: 0 <= i < |caches| ==> IsStale(caches[i], now, maxAge) {
      forall n | n in files
        ensures IsStale(n, now, maxAge)
      {
        assert n in caches;
      }
    }
  }

  /** A single entry younger than `maxAge` reads back as the value written. */
  lemma FreshEntryReadsBack(v: Value, ts: nat, now: int, maxAge: int)
    requires now - ts < maxAge * 1000
    ensures ReadSpec(map[Stamp(ts) := Stringify(v)], now, maxAge) == Done(Some(v))
  {
    var files := map[Stamp(ts) := Stringify(v)];
    var caches := Canonical(files);
    assert Stamp(ts) in caches;
    assert caches[0] in files;
    WrapRoundTrip(Stamp(ts), files, v);
  }

  /** A single entry `maxAge` seconds old or older reads as nothing. */
  lemma StaleEntryReadsAbsent(v: Value, ts: nat, now: int, maxAge: int)
    requires now - ts >= maxAge * 1000
    ensures ReadSpec(map[Stamp(ts) := Stringify(v)], now, maxAge) == Done(None)
  {
    var files := map[Stamp(ts) := Stringify(v)];
    var caches := Canonical(files);
    assert Stamp(ts) in caches;
    assert caches[0] in files;
  }

  /**
   * A lock file left behind with its empty contents, and no fresh entry: the
   * directory a writer leaves when it stops between `lock` and `unlock`.
   */
  ghost predicate LeftoverLock(files: map<Name, string>, now: int, maxAge: int) {
    && LockFile in files && files[LockFile] == ""
    && forall n :: n in files && n != LockFile ==> IsStale(n, now, maxAge)
  }

  /**
   * Over such a directory `read` finds nothing, or takes the lock file for a
   * fresh entry and throws: it never returns a value.
   */
  lemma LeftoverLockReads(entry: Option<Name>, files: map<Name, string>, now: int, maxAge: int)
    requires LeftoverLock(files, now, maxAge)
    requires entry.Some? ==> entry.value in files && !IsStale(entry.value, now, maxAge)
    ensures Wrap(entry, files) == Done(None) || Wrap(entry, files) == Raised(MalformedEntry)
  {
    if entry.Some? {
      assert entry.value == LockFile;
      LockFileIsMalformed(files);
    }
  }

  // ---------------------------------------------------------------------------
  // The listing `getCaches` evidently means

  /**
   * When `write` runs over one older entry `t`, the lock file is in the
   * listing.  The comparator ties the two (NaN counts as "equal"), so the
   * stable sort keeps `readDir`'s order; when that order is `t` first,
   * `clean(false)` deletes the lock file and keeps the entry.
   */
  lemma CleanCanDeleteLock(t: nat, text: string)
    ensures Listing([Stamp(t), LockFile], map[Stamp(t) := text, LockFile := ""])
    ensures SortByAge([Stamp(t), LockFile]) == [Stamp(t), LockFile]
    ensures Pruned(map[Stamp(t) := text, LockFile := ""], [Stamp(t), LockFile], false)
      == map[Stamp(t) := text]
  {
    var listing := [Stamp(t), LockFile];
    assert multiset(listing) == multiset{LockFile, Stamp(t)};
    assert listing[1..] == [LockFile] && [LockFile][1..] == [];
    assert SortByAge([LockFile]) == [LockFile];
    assert Doomed([Stamp(t), LockFile], false) == [LockFile];
    var p := Pruned(map[Stamp(t) := text, LockFile := ""], [Stamp(t), LockFile], false);
    assert p.Keys == {Stamp(t)};
  }

  /** Listed the other way round, the lock file stays first, so `clean(false)` deletes the entry. */
  lemma CleanKeepsListedLock(t: nat, text: string)
    ensures SortByAge([LockFile, Stamp(t)]) == [LockFile, Stamp(t)]
    ensures Pruned(map[Stamp(t) := text, LockFile := ""], [LockFile, Stamp(t)], false)
      == map[LockFile := ""]
  {
    var listing := [LockFile, Stamp(t)];
    assert listing[1..] == [Stamp(t)] && [Stamp(t)][1..] == [];
    assert SortByAge([Stamp(t)]) == [Stamp(t)];
    assert Doomed(listing, false) == [Stamp(t)];
    var p := Pruned(map[Stamp(t) := text, LockFile := ""], listing, false);
    assert p.Keys == {LockFile};
  }

  /**
   * `.filter((f) => !isNaN(Number(f.name)))`, the filter the code evidently
   * means: the entries of a listing, in the order given, without the lock file.
   */
  function EntriesOf(listing: seq<Name>): (r: seq<Name>)
    ensures forall n :: n in r <==> n in listing && n != LockFile
    ensures forall n :: multiset(r)[n] <= multiset(listing)[n]
  {
    if |listing| == 0 then []
    else
      assert listing == [listing[0]] + listing[1..];
      if listing[0] == LockFile then EntriesOf(listing[1..])
      else [listing[0]] + EntriesOf(listing[1..])
  }

  /** The entries of a listing of a directory list the directory without its lock file. */
  lemma EntriesListing(listing: seq<Name>, files: map<Name, string>)
    requires Listing(listing, files)
    ensures Listing(EntriesOf(listing), files - {LockFile})
  {
    var r := EntriesOf(listing);
    forall x
      ensures multiset(r)[x] <= 1
    {
      assert multiset(r)[x] <= multiset(listing)[x];
    }
  }

  /** A directory is empty exactly when its sorted listing is. */
  lemma CanonicalEmpty(files: map<Name, string>)
    ensures |Canonical(files)| == 0 <==> files == map[]
  {
    var c := Canonical(files);
    if |c| > 0 {
      assert c[0] in files;
    }
  }

  /** Without the lock file, the first of the sorted listing is the newest entry. */
  lemma CanonicalFirst(files: map<Name, string>)
    requires LockFile !in files && files != map[]
    ensures |Canonical(files)| > 0 && Canonical(files)[0] in files
    ensures forall n :: n in files ==> n.Stamp? && Canonical(files)[0].ms >= n.ms
  {
    var c := Canonical(files);
    CanonicalEmpty(files);
    assert c[0] in files;
    forall n | n in files
      ensures n.Stamp? && c[0].ms >= n.ms
    {
      assert n in c;
      FirstIsNewest(c, n);
    }
  }

  /**
   * The newest entry of a lock-free directory with its contents; nothing when
   * the directory is empty.  This is what `clean(false)` is meant to keep.
   */
  ghost function KeepNewest(files: map<Name, string>): (r: map<Name, string>)
    requires LockFile !in files
    ensures r == map[] <==> files == map[]
    ensures forall n :: n in r ==> n in files && r[n] == files[n]
    ensures forall m, n :: m in r && n in r ==> m == n
    ensures forall m, n :: m in r && n in files ==> m.Stamp? && n.Stamp? && m.ms >= n.ms
  {
    if files == map[] then map[]
    else
      CanonicalFirst(files);
      var newest := Canonical(files)[0];
      assert newest in map[newest := files[newest]];
      map[newest := files[newest]]
  }

  /** Unlinking files other than the lock file commutes with setting the lock file aside. */
  lemma PrunedAside(files: map<Name, string>, caches: seq<Name>, all: bool)
    requires LockFile !in Doomed(caches, all)
    ensures Pruned(files, caches, all) - {LockFile} == Pruned(files - {LockFile}, caches, all)
    ensures LockFile in Pruned(files, caches, all) <==> LockFile in files
  {
    var a := Pruned(files, caches, all) - {LockFile};
    var b := Pruned(files - {LockFile}, caches, all);
    assert forall n :: n in a <==> n in b;
    assert forall n :: n in a ==> a[n] == b[n];
  }

  /**
   * `clean` over the entries-only listing leaves the lock file alone, and
   * leaves no entry (`all`) or only the newest one.
   */
  lemma PrunedEntries(files: map<Name, string>, all: bool)
    ensures var p := Pruned(files, Canonical(files - {LockFile}), all);
      && (p - {LockFile} == if all then map[] else KeepNewest(files - {LockFile}))
      && (LockFile in p <==> LockFile in files)
      && (LockFile in p ==> p[LockFile] == files[LockFile])
  {
    var stored := files - {LockFile};
    var caches := Canonical(stored);
    assert LockFile !in Doomed(caches, all) by {
      assert LockFile !in caches;
      if !all && |caches| > 0 {
        assert caches == [caches[0]] + Doomed(caches, all);
      }
    }
    PrunedAside(files, caches, all);
    PrunedKeepsFirst(stored, caches, all);
    CanonicalEmpty(stored);
  }

  /**
   * The end of the intended `write`: the lock file, kept by the clean, is
   * deleted by `unlock`, leaving the newest old entry and the new one.
   */
  lemma IntendedEnds(before: map<Name, string>, cleaned: map<Name, string>,
                     after: map<Name, string>, value: Value, now: nat)
    requires LockFile !in before
    requires cleaned - {LockFile} == KeepNewest(before[LockFile := ""] - {LockFile})
    requires after == cleaned[Stamp(now) := Stringify(value)] - {LockFile}
    ensures after == KeepNewest(before)[Stamp(now) := Stringify(value)]
  {
    LockAside(before);
    UnlockAfterWrite(cleaned, KeepNewest(before), Stamp(now), Stringify(value));
  }

  /** Writing the lock file into a lock-free directory and setting it aside again changes nothing. */
  lemma LockAside(files: map<Name, string>)
    requires LockFile !in files
    ensures files[LockFile := ""] - {LockFile} == files
  {
    var a := files[LockFile := ""] - {LockFile};
    assert forall n :: n in a <==> n in files;
  }

  /** Writing an entry and then deleting the lock file leaves the rest with the entry. */
  lemma UnlockAfterWrite(cleaned: map<Name, string>, rest: map<Name, string>, n: Name, text: string)
    requires cleaned - {LockFile} == rest && n != LockFile
    ensures cleaned[n := text] - {LockFile} == rest[n := text]
  {
    var a := cleaned[n := text] - {LockFile};
    var b := rest[n := text];
    assert forall m :: m in a <==> m in b;
    assert forall m :: m in a ==> a[m] == b[m];
  }
}
