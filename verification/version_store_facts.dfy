/**
  Properties of the version store: what `getCode` replies, what pruning
  keeps, and what a save followed by a read returns.
 */
module VersionStoreFacts {
  import opened Wrappers
  import opened Decimal
  import opened VersionNames
  import opened VersionStore
  import AllowList

  /** Every ".go" name of the directory is one `saveCode` could have written: `"%d.go"` of its own timestamp. */
  ghost predicate CanonicalDir(dir: Dir) {
    && Stamped(GoFiles(dir))
    && forall n :: n in GoFiles(dir) ==> VersionFileName(Stamp(n)) == n
  }

  /** The names at positions `lo` to `hi` of a listing order. */
  ghost function Slice(order: seq<string>, lo: nat, hi: nat): set<string>
    requires lo <= hi <= |order|
  {
    set i | lo <= i < hi :: order[i]
  }

  /** A duplicate-free order has as many distinct names in a prefix as the prefix is long. */
  lemma {:induction false} DistinctPrefixCard(order: seq<string>, k: nat)
    requires k <= |order|
    requires forall i, j :: 0 <= i < j < |order| ==> order[i] != order[j]
    ensures |Slice(order, 0, k)| == k
  {
    if k > 0 {
      DistinctPrefixCard(order, k - 1);
      assert Slice(order, 0, k) == Slice(order, 0, k - 1) + {order[k - 1]};
      assert order[k - 1] !in Slice(order, 0, k - 1);
    }
  }

  /** A name strictly newer than all others comes first in every newest-first order. */
  lemma UniqueNewestFirst(ts: map<string, int>, order: seq<string>, n: string)
    requires IsNewestFirst(ts, order)
    requires n in ts
    requires forall m :: m in ts && m != n ==> ts[m] < ts[n]
    ensures |order| > 0 && order[0] == n
  {
    var j :| 0 <= j < |order| && order[j] == n;
  }

  /**
    The code `getCode` replies with is the content of a newest ".go" file,
    and "" with no versions when the note holds none.
   */
  lemma GetCodeRepliesNewest(store: Store, noteId: string)
    requires GetCode(store, noteId).Success?
    ensures noteId in store && Stamped(GoFiles(store[noteId]))
    ensures GoFiles(store[noteId]) == {} ==> GetCode(store, noteId).value == CodeReply("", [])
    ensures GoFiles(store[noteId]) != {} ==>
      exists n :: n in Stamps(store[noteId]) && IsNewestIn(n, Stamps(store[noteId]))
        && GetCode(store, noteId).value.code == store[noteId][n]
  {
    var dir := store[noteId];
    var reply := GetCode(store, noteId).value;
    var ts := Stamps(dir);
    var order :| IsNewestFirst(ts, order) && reply.versions == VersionsOf(dir, ts, order);
    if GoFiles(dir) != {} {
      var n := order[0];
      forall m | m in ts
        ensures ts[m] <= ts[n]
      {
        var j :| 0 <= j < |order| && order[j] == m;
      }
      assert IsNewestIn(n, ts);
    }
  }

  /** Reading fails exactly when the note was never created or some ".go" name does not parse. */
  lemma GetCodeFailsIff(store: Store, noteId: string)
    ensures GetCode(store, noteId).Failure? <==>
      noteId !in store || !Stamped(GoFiles(store[noteId]))
  {
  }

  /**
    Pruning a directory of canonical names keeps the `limit` newest versions
    (all of them when there are no more), removes every older one, and keeps
    the directory canonical.
   */
  lemma CleanupKeepsNewest(dir: Dir, limit: nat)
    requires CanonicalDir(dir)
    ensures CanonicalDir(Cleanup(dir, limit))
    ensures GoFiles(Cleanup(dir, limit)) <= GoFiles(dir)
    ensures |GoFiles(Cleanup(dir, limit))| == (if |GoFiles(dir)| <= limit then |GoFiles(dir)| else limit)
    ensures forall n, m ::
      (n in GoFiles(Cleanup(dir, limit)) && m in GoFiles(dir) - GoFiles(Cleanup(dir, limit)) ==> Stamp(n) > Stamp(m))
  {
    var d := Cleanup(dir, limit);
    assert GoFiles(d) <= GoFiles(dir);
    if |GoFiles(dir)| > limit {
      var ts := Stamps(dir);
      var order := NewestFirst(ts);
      PrunedFront(dir, limit);
      DistinctPrefixCard(order, limit);
      CanonicalStamps(dir);
      FrontNewerAll(ts, order, limit);
    }
  }

  /** Pruning a canonical directory leaves exactly the first `limit` names of its listing order. */
  lemma PrunedFront(dir: Dir, limit: nat)
    requires CanonicalDir(dir) && |GoFiles(dir)| > limit
    ensures var order := NewestFirst(Stamps(dir));
      && limit <= |order|
      && GoFiles(Cleanup(dir, limit)) == Slice(order, 0, limit)
  {
    var ts := Stamps(dir);
    var order := NewestFirst(ts);
    PrunedListing(dir, limit);
    CanonicalStamps(dir);
    RebuiltNames(dir, ts, limit, order);
    GoFilesWithout(dir, Slice(order, limit, |order|));
    KeptIsFront(ts, order, limit);
  }

  /** With distinct timestamps, every name before position `limit` is strictly newer than every name after it. */
  lemma FrontNewerAll(ts: map<string, int>, order: seq<string>, limit: nat)
    requires IsNewestFirst(ts, order)
    requires forall a, b :: a in ts && b in ts && ts[a] == ts[b] ==> a == b
    requires limit <= |order|
    ensures forall n, m :: n in Slice(order, 0, limit) && m in ts && m !in Slice(order, 0, limit) ==> ts[n] > ts[m]
  {
    forall n, m | n in Slice(order, 0, limit) && m in ts && m !in Slice(order, 0, limit)
      ensures ts[n] > ts[m]
    {
      FrontNewer(ts, order, limit, n, m);
    }
  }

  /** What pruning removes from a directory whose listing holds more than `limit` versions. */
  lemma PrunedListing(dir: Dir, limit: nat)
    requires Stamped(GoFiles(dir)) && |GoFiles(dir)| > limit
    ensures var ts := Stamps(dir);
      && IsNewestFirst(ts, NewestFirst(ts))
      && |NewestFirst(ts)| == |GoFiles(dir)|
      && Cleanup(dir, limit) == dir - StaleNames(VersionsOf(dir, ts, NewestFirst(ts)), limit)
  {
    var ts := Stamps(dir);
    ListingOrderLength(dir);
    ListingIsNewestFirst(dir);
    CleanupIsPrune(dir, limit);
    PruneLong(dir, VersionsOf(dir, ts, NewestFirst(ts)), limit);
  }

  /** The listing has one version per ".go" entry. */
  lemma ListingOrderLength(dir: Dir)
    requires Stamped(GoFiles(dir))
    ensures |NewestFirst(Stamps(dir))| == |GoFiles(dir)|
  {
    var ts := Stamps(dir);
    assert |ts| == |ts.Keys|;
  }

  /** The listing is the versions of the `NewestFirst` order of the stamps. */
  lemma ListingIsNewestFirst(dir: Dir)
    requires Stamped(GoFiles(dir))
    ensures ListVersions(Some(dir)) == Success(VersionsOf(dir, Stamps(dir), NewestFirst(Stamps(dir))))
  {
  }

  /** Pruning a directory is pruning it by its own listing. */
  lemma CleanupIsPrune(dir: Dir, limit: nat)
    ensures Cleanup(dir, limit) == Prune(dir, ListVersions(Some(dir)), limit)
  {
  }

  lemma PruneLong(dir: Dir, vs: seq<CodeVersion>, limit: nat)
    requires |vs| > limit
    ensures Prune(dir, Success(vs), limit) == dir - StaleNames(vs, limit)
  {
  }

  /** Distinct timestamps never differ in name only: no two canonical names share a timestamp, and each is rebuilt from its own. */
  lemma CanonicalStamps(dir: Dir)
    requires CanonicalDir(dir)
    ensures forall n :: n in Stamps(dir) ==> VersionFileName(Stamps(dir)[n]) == n
    ensures forall n, m :: n in Stamps(dir) && m in Stamps(dir) && Stamps(dir)[n] == Stamps(dir)[m] ==> n == m
  {
    var ts := Stamps(dir);
    forall n | n in ts
      ensures VersionFileName(ts[n]) == n
    {
      assert ts[n] == Stamp(n);
    }
  }

  lemma GoFilesWithout(dir: Dir, names: set<string>)
    ensures GoFiles(dir - names) == GoFiles(dir) - names
  {
  }

  /** For canonical names, the names pruning rebuilds are exactly the names past `limit` in the listing order. */
  lemma RebuiltNames(dir: Dir, ts: map<string, int>, limit: nat, order: seq<string>)
    requires forall n :: n in ts ==> VersionFileName(ts[n]) == n && n in dir
    requires IsNewestFirst(ts, order)
    requires limit <= |order|
    ensures StaleNames(VersionsOf(dir, ts, order), limit) == Slice(order, limit, |order|)
  {
    var vs := VersionsOf(dir, ts, order);
    forall i | limit <= i < |vs|
      ensures VersionFileName(vs[i].timestamp) == order[i]
    {
      assert vs[i].timestamp == ts[order[i]];
    }
    SameImage(vs, order, limit);
  }

  lemma SameImage(vs: seq<CodeVersion>, order: seq<string>, limit: nat)
    requires |vs| == |order| && limit <= |order|
    requires forall i :: limit <= i < |vs| ==> VersionFileName(vs[i].timestamp) == order[i]
    ensures StaleNames(vs, limit) == Slice(order, limit, |order|)
  {
    forall x | x in Slice(order, limit, |order|)
      ensures x in StaleNames(vs, limit)
    {
      var i :| limit <= i < |order| && x == order[i];
      assert x == VersionFileName(vs[i].timestamp);
    }
  }

  /** With distinct timestamps, a name before position `limit` is strictly newer than one after it. */
  lemma FrontNewer(ts: map<string, int>, order: seq<string>, limit: nat, n: string, m: string)
    requires IsNewestFirst(ts, order)
    requires forall a, b :: a in ts && b in ts && ts[a] == ts[b] ==> a == b
    requires limit <= |order|
    requires n in Slice(order, 0, limit) && m in ts && m !in Slice(order, 0, limit)
    ensures ts[n] > ts[m]
  {
    var i :| 0 <= i < limit && order[i] == n;
    var j :| 0 <= j < |order| && order[j] == m;
    assert j >= limit;
  }

  /** After removing the names past `limit` of a listing order, the names left are its first `limit`. */
  lemma KeptIsFront(ts: map<string, int>, order: seq<string>, limit: nat)
    requires IsNewestFirst(ts, order)
    requires limit <= |order|
    ensures ts.Keys - Slice(order, limit, |order|) == Slice(order, 0, limit)
  {
    OrderIsKeys(ts, order);
    SliceSplit(order, limit);
  }

  lemma OrderIsKeys(ts: map<string, int>, order: seq<string>)
    requires IsNewestFirst(ts, order)
    ensures Slice(order, 0, |order|) == ts.Keys
  {
    forall n | n in ts
      ensures n in Slice(order, 0, |order|)
    {
      var i :| 0 <= i < |order| && order[i] == n;
    }
  }

  /** A duplicate-free order splits at `k` into two disjoint parts. */
  lemma SliceSplit(order: seq<string>, k: nat)
    requires k <= |order|
    requires forall i, j :: 0 <= i < j < |order| ==> order[i] != order[j]
    ensures Slice(order, 0, |order|) == Slice(order, 0, k) + Slice(order, k, |order|)
    ensures Slice(order, 0, k) !! Slice(order, k, |order|)
  {
  }

  /** Pruning never removes a file strictly newer than every other version, when it keeps at least one. */
  lemma CleanupKeepsUniqueNewest(dir: Dir, limit: nat, n: string)
    requires limit >= 1
    requires Stamped(GoFiles(dir)) && n in GoFiles(dir)
    requires forall m :: m in GoFiles(dir) && m != n ==> Stamp(m) < Stamp(n)
    ensures n in Cleanup(dir, limit)
  {
    if |GoFiles(dir)| > limit {
      var ts := Stamps(dir);
      var order := NewestFirst(ts);
      PrunedListing(dir, limit);
      UniqueNewestFirst(ts, order, n);
      FirstNotStale(dir, ts, order, limit);
    }
  }

  /** The first name of a listing order whose timestamps are unique is not rebuilt from any later position. */
  lemma FirstNotStale(dir: Dir, ts: map<string, int>, order: seq<string>, limit: nat)
    requires IsNewestFirst(ts, order) && |order| > 0 && limit >= 1
    requires forall m :: m in ts ==> m in dir && ParseTimestamp(m) == Some(ts[m])
    requires forall m :: m in ts && m != order[0] ==> ts[m] < ts[order[0]]
    ensures order[0] !in StaleNames(VersionsOf(dir, ts, order), limit)
  {
    var vs := VersionsOf(dir, ts, order);
    forall i | limit <= i < |vs|
      ensures VersionFileName(vs[i].timestamp) != order[0]
    {
      assert vs[i].timestamp == ts[order[i]] && order[i] != order[0];
      if VersionFileName(vs[i].timestamp) == order[0] {
        VersionFileNameRoundTrip(vs[i].timestamp);
      }
    }
  }

  /** Writing a version adds its name to the ".go" names and changes no other file. */
  lemma WrittenGoFiles(dir: Dir, code: string, now: int)
    ensures GoFiles(WriteVersion(dir, code, now)) == GoFiles(dir) + {VersionFileName(now)}
    ensures WriteVersion(dir, code, now)[VersionFileName(now)] == code
    ensures forall n :: n in dir && n != VersionFileName(now) ==> WriteVersion(dir, code, now)[n] == dir[n]
  {
    VersionFileNameParts(now);
  }

  /** A save at a time later than every stored version makes the new file the unique newest one. */
  lemma WriteMakesUniqueNewest(dir: Dir, code: string, now: int)
    requires IsInt64(now)
    requires Stamped(GoFiles(dir)) && forall n :: n in GoFiles(dir) ==> Stamp(n) < now
    ensures var written := WriteVersion(dir, code, now);
      && Stamped(GoFiles(written))
      && VersionFileName(now) in GoFiles(written)
      && Stamp(VersionFileName(now)) == now
      && forall m :: m in GoFiles(written) && m != VersionFileName(now) ==> Stamp(m) < now
  {
    WrittenGoFiles(dir, code, now);
    VersionFileNameRoundTrip(now);
  }

  /** A directory whose newest file is unique replies with that file's content, listed first. */
  lemma ReplyOfUniqueNewest(store: Store, noteId: string, n: string)
    requires noteId in store
    requires Stamped(GoFiles(store[noteId])) && n in GoFiles(store[noteId])
    requires forall m :: m in GoFiles(store[noteId]) && m != n ==> Stamp(m) < Stamp(n)
    ensures GetCode(store, noteId).Success?
    ensures GetCode(store, noteId).value.code == store[noteId][n]
    ensures |GetCode(store, noteId).value.versions| > 0
    ensures GetCode(store, noteId).value.versions[0] == CodeVersion(store[noteId][n], Stamp(n))
  {
    var dir := store[noteId];
    var ts := Stamps(dir);
    var order := NewestFirst(ts);
    GetCodeOfListing(store, noteId);
    forall m | m in ts && m != n
      ensures ts[m] < ts[n]
    {
      assert ts[m] == Stamp(m);
    }
    UniqueNewestFirst(ts, order, n);
  }

  /** A readable note replies with its `NewestFirst` listing and that listing's first content. */
  lemma GetCodeOfListing(store: Store, noteId: string)
    requires noteId in store && Stamped(GoFiles(store[noteId]))
    ensures var dir := store[noteId];
      var vs := VersionsOf(dir, Stamps(dir), NewestFirst(Stamps(dir)));
      GetCode(store, noteId) == Success(CodeReply(Latest(vs), vs))
  {
    ListingIsNewestFirst(store[noteId]);
  }

  /**
    Saving code and then reading the note returns that code as the latest
    version, when the clock has moved past every stored version and at
    least one version is kept.
   */
  lemma SaveThenGetLatest(allowed: seq<string>, clientIP: string, store: Store, noteId: string,
                          code: string, now: int, limit: nat)
    requires AllowList.IsAllowedIP(allowed, clientIP)
    requires limit >= 1 && IsInt64(now)
    requires noteId in store ==>
      Stamped(GoFiles(store[noteId])) && forall n :: n in GoFiles(store[noteId]) ==> Stamp(n) < now
    ensures SaveCode(allowed, clientIP, store, noteId, code, now, limit).Success?
    ensures var saved := SaveCode(allowed, clientIP, store, noteId, code, now, limit).value;
      && GetCode(saved.store, noteId).Success?
      && GetCode(saved.store, noteId).value.code == code
      && |GetCode(saved.store, noteId).value.versions| > 0
      && GetCode(saved.store, noteId).value.versions[0] == CodeVersion(code, now)
  {
    var d := SavedDir(store, noteId, code, now, limit);
    SavedNoteNewest(EnsureDir(store, noteId), code, now, limit);
    var saved := SaveCode(allowed, clientIP, store, noteId, code, now, limit).value;
    assert saved.store == store[noteId := d];
    ReplyOfUniqueNewest(saved.store, noteId, VersionFileName(now));
  }

  /** After a save later than every stored version, the new file is the unique newest one left. */
  lemma SavedNoteNewest(prior: Dir, code: string, now: int, limit: nat)
    requires limit >= 1 && IsInt64(now)
    requires Stamped(GoFiles(prior)) && forall n :: n in GoFiles(prior) ==> Stamp(n) < now
    ensures var d := Cleanup(WriteVersion(prior, code, now), limit);
      && Stamped(GoFiles(d))
      && VersionFileName(now) in GoFiles(d)
      && d[VersionFileName(now)] == code
      && Stamp(VersionFileName(now)) == now
      && forall m :: m in GoFiles(d) && m != VersionFileName(now) ==> Stamp(m) < now
  {
    var written := WriteVersion(prior, code, now);
    var name := VersionFileName(now);
    WriteMakesUniqueNewest(prior, code, now);
    WrittenGoFiles(prior, code, now);
    CleanupKeepsUniqueNewest(written, limit, name);
    var d := Cleanup(written, limit);
    assert GoFiles(d) <= GoFiles(written);
  }

  /**
    A note holding a ".go" file whose stem is not a timestamp cannot be read,
    even right after a successful save to it: the listing rejects the stray
    name, pruning is skipped, and the save neither removes nor overwrites it.
   */
  lemma UnparsedNameBlocksRead(allowed: seq<string>, clientIP: string, store: Store, noteId: string,
                               code: string, now: int, limit: nat, stray: string)
    requires AllowList.IsAllowedIP(allowed, clientIP) && IsInt64(now)
    requires noteId in store && stray in GoFiles(store[noteId]) && ParseTimestamp(stray).None?
    ensures SaveCode(allowed, clientIP, store, noteId, code, now, limit).Success?
    ensures GetCode(SaveCode(allowed, clientIP, store, noteId, code, now, limit).value.store, noteId).Failure?
  {
    var written := WriteVersion(EnsureDir(store, noteId), code, now);
    VersionFileNameRoundTrip(now);
    WrittenGoFiles(EnsureDir(store, noteId), code, now);
    assert stray in GoFiles(written) && !Stamped(GoFiles(written));
    var saved := SaveCode(allowed, clientIP, store, noteId, code, now, limit).value;
    assert saved.store[noteId] == written;
    GetCodeFailsIff(saved.store, noteId);
  }

  /**
    One save into a canonical note at a time later than every stored version
    leaves a canonical note holding the `limit` newest of the old versions
    and the new one, the new one among them when `limit` is at least one.
   */
  lemma SaveRetainsNewest(store: Store, noteId: string, code: string, now: int, limit: nat)
    requires IsInt64(now)
    requires noteId in store ==>
      CanonicalDir(store[noteId]) && forall n :: n in GoFiles(store[noteId]) ==> Stamp(n) < now
    ensures var before := GoFiles(EnsureDir(store, noteId)) + {VersionFileName(now)};
      var d := SavedDir(store, noteId, code, now, limit);
      && CanonicalDir(d)
      && Stamped(before)
      && VersionFileName(now) !in GoFiles(EnsureDir(store, noteId))
      && GoFiles(d) <= before
      && |GoFiles(d)| == (if |before| <= limit then |before| else limit)
      && (forall n, m :: n in GoFiles(d) && m in before - GoFiles(d) ==> Stamp(n) > Stamp(m))
      && (limit >= 1 ==> VersionFileName(now) in d && d[VersionFileName(now)] == code)
  {
    var prior := EnsureDir(store, noteId);
    var written := WriteVersion(prior, code, now);
    WrittenGoFiles(prior, code, now);
    WriteKeepsCanonical(prior, code, now);
    CleanupKeepsNewest(written, limit);
    assert GoFiles(written) == GoFiles(prior) + {VersionFileName(now)};
    NewNameIsFresh(prior, now);
    if limit >= 1 {
      SavedNoteNewest(prior, code, now, limit);
    }
  }

  /** A name newer than every stored version is not among the stored names. */
  lemma NewNameIsFresh(dir: Dir, now: int)
    requires IsInt64(now)
    requires Stamped(GoFiles(dir)) && forall n :: n in GoFiles(dir) ==> Stamp(n) < now
    ensures VersionFileName(now) !in GoFiles(dir)
  {
    VersionFileNameRoundTrip(now);
  }

  /** Writing a version under its own `"%d.go"` name keeps a canonical directory canonical. */
  lemma WriteKeepsCanonical(dir: Dir, code: string, now: int)
    requires IsInt64(now)
    requires CanonicalDir(dir)
    ensures CanonicalDir(WriteVersion(dir, code, now))
  {
    WrittenGoFiles(dir, code, now);
    VersionFileNameRoundTrip(now);
  }

  /**
    Pruning removes the names it rebuilds with `"%d.go"` from the parsed
    timestamps, so a ".go" file whose name is not the canonical spelling of
    its own timestamp is never removed, however old it is.
   */
  lemma NonCanonicalNameSurvivesPruning(dir: Dir, limit: nat, n: string)
    requires n in dir && ParseTimestamp(n).Some?
    requires VersionFileName(Stamp(n)) != n
    ensures n in Cleanup(dir, limit) && Cleanup(dir, limit)[n] == dir[n]
  {
    if Stamped(GoFiles(dir)) {
      var vs := ListVersions(Some(dir)).value;
      ListedTimestampsFit(dir);
      NotRebuilt(vs, limit, n);
      CleanupIsPrune(dir, limit);
    }
  }

  /** Every listed timestamp was parsed, so it is a 64-bit integer. */
  lemma ListedTimestampsFit(dir: Dir)
    requires Stamped(GoFiles(dir))
    ensures var vs := ListVersions(Some(dir)).value;
      forall i :: 0 <= i < |vs| ==> IsInt64(vs[i].timestamp)
  {
    var ts := Stamps(dir);
    var order := NewestFirst(ts);
    var vs := VersionsOf(dir, ts, order);
    assert ListVersions(Some(dir)).value == vs;
    forall i | 0 <= i < |vs|
      ensures IsInt64(vs[i].timestamp)
    {
      assert vs[i].timestamp == Stamp(order[i]);
    }
  }

  /** No timestamp in range rebuilds a name that is not the canonical spelling of its own timestamp. */
  lemma NotRebuilt(vs: seq<CodeVersion>, limit: nat, n: string)
    requires forall i :: 0 <= i < |vs| ==> IsInt64(vs[i].timestamp)
    requires ParseTimestamp(n).Some? && VersionFileName(Stamp(n)) != n
    ensures n !in StaleNames(vs, limit)
  {
    forall i | limit <= i < |vs|
      ensures VersionFileName(vs[i].timestamp) != n
    {
      if VersionFileName(vs[i].timestamp) == n {
        VersionFileNameRoundTrip(vs[i].timestamp);
      }
    }
  }

  /** "05.go" is such a name: it parses to 5, whose canonical name is "5.go". */
  lemma ZeroPaddedNameIsNotCanonical()
    ensures ParseTimestamp("05.go") == Some(5)
    ensures VersionFileName(5) == "5.go" != "05.go"
  {
    GoFileIffSuffix("05.go");
    assert Stem("05.go") == "05";
    assert Value("05") == 5;
    assert FormatInt(5) == "5";
  }
}
