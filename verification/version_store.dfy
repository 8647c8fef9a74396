/**
  The per-note version store (backend/main.go: getCodeVersions,
  cleanupOldVersions, saveCode, and the latest-version choice in getCode).

  A note directory is a map from file name to content; the persistent
  directory maps note identifiers to the note directories that exist. The
  clock reading `time.Now().UnixNano()` and the retention limit
  (`config.Docker.MaxContainers`) are parameters.
 */
module VersionStore {
  import opened Wrappers
  import opened Decimal
  import opened VersionNames
  import AllowList

  /** A note directory: file name to file content. */
  type Dir = map<string, string>

  /** The persistent code directory: note identifier to the note's directory, once created. */
  type Store = map<string, Dir>

  /** One listed version (`CodeVersion`): its content and its nanosecond timestamp. */
  datatype CodeVersion = CodeVersion(content: string, timestamp: int)

  datatype StoreError =
    | DirUnreadable   // os.ReadDir failed: the note directory does not exist
    | BadTimestamp    // some ".go" entry's stem is not a 64-bit decimal
    | Forbidden       // the client is not on the allow-list

  /** The entries the listing reads: those `filepath.Ext` calls ".go". */
  function GoFiles(dir: Dir): set<string> {
    set n | n in dir && IsGoFile(n)
  }

  /** Every name in `names` parses as a timestamp. */
  predicate Stamped(names: set<string>) {
    forall n :: n in names ==> ParseTimestamp(n).Some?
  }

  function Stamp(name: string): int
    requires ParseTimestamp(name).Some?
  {
    ParseTimestamp(name).value
  }

  /** The parsed timestamp of every ".go" entry of a directory whose ".go" names all parse. */
  function Stamps(dir: Dir): (ts: map<string, int>)
    requires Stamped(GoFiles(dir))
    ensures ts.Keys == GoFiles(dir)
    ensures forall n :: n in ts ==> ts[n] == Stamp(n)
  {
    map n | n in GoFiles(dir) :: Stamp(n)
  }

  /** No name of `ts` is newer than `n`. */
  predicate IsNewestIn(n: string, ts: map<string, int>)
    requires n in ts
  {
    forall m :: m in ts ==> ts[m] <= ts[n]
  }

  /**
    `order` lists every name of `ts` once and nothing else, newest first.
    Names with equal timestamps may come in any order: the source sorts
    with the unstable `sort.Slice`.
   */
  ghost predicate IsNewestFirst(ts: map<string, int>, order: seq<string>) {
    && |order| == |ts|
    && (forall i :: 0 <= i < |order| ==> order[i] in ts)
    && (forall n :: n in ts ==> n in order)
    && (forall i, j :: 0 <= i < j < |order| ==> order[i] != order[j])
    && (forall i, j :: 0 <= i < j < |order| ==> ts[order[i]] >= ts[order[j]])
  }

  /** A finite non-empty set of stamped names has a newest member. */
  lemma {:induction false} NewestExists(ts: map<string, int>)
    requires |ts| > 0
    ensures exists n :: n in ts && IsNewestIn(n, ts)
    decreases |ts|
  {
    var x :| x in ts;
    var rest := ts - {x};
    assert rest.Keys == ts.Keys - {x};
    if |rest| == 0 {
      assert ts.Keys == {x};
      assert IsNewestIn(x, ts);
    } else {
      NewestExists(rest);
      var y :| y in rest && IsNewestIn(y, rest);
      var n := if ts[x] >= ts[y] then x else y;
      forall m | m in ts
        ensures ts[m] <= ts[n]
      {
        if m != x {
          assert m in rest;
        }
      }
      assert IsNewestIn(n, ts);
    }
  }

  /**
    The timestamp sort of the listing: repeatedly take a newest remaining
    name. Which of several equally new names comes first is left open.
   */
  ghost function NewestFirst(ts: map<string, int>): (order: seq<string>)
    ensures IsNewestFirst(ts, order)
    decreases |ts|
  {
    if |ts| == 0 then []
    else
      NewestExists(ts);
      var n :| n in ts && IsNewestIn(n, ts);
      assert (ts - {n}).Keys == ts.Keys - {n};
      var rest := NewestFirst(ts - {n});
      NewestFirstCons(n, ts, rest);
      [n] + rest
  }

  /** A newest name followed by a newest-first listing of the others lists them all newest first. */
  lemma NewestFirstCons(n: string, ts: map<string, int>, rest: seq<string>)
    requires n in ts && IsNewestIn(n, ts)
    requires IsNewestFirst(ts - {n}, rest)
    ensures IsNewestFirst(ts, [n] + rest)
  {
    ConsCovers(n, ts, rest);
    ConsOrdered(n, ts, rest);
  }

  lemma ConsCovers(n: string, ts: map<string, int>, rest: seq<string>)
    requires n in ts
    requires IsNewestFirst(ts - {n}, rest)
    ensures |[n] + rest| == |ts|
    ensures forall i :: 0 <= i < |[n] + rest| ==> ([n] + rest)[i] in ts
    ensures forall m :: m in ts ==> m in [n] + rest
  {
    assert (ts - {n}).Keys == ts.Keys - {n};
    forall m | m in ts
      ensures m in [n] + rest
    {
      if m != n {
        assert m in ts - {n};
      }
    }
  }

  lemma ConsOrdered(n: string, ts: map<string, int>, rest: seq<string>)
    requires n in ts && IsNewestIn(n, ts)
    requires IsNewestFirst(ts - {n}, rest)
    ensures forall i, j :: 0 <= i < j < |[n] + rest| ==>
      ([n] + rest)[i] != ([n] + rest)[j] && ts[([n] + rest)[i]] >= ts[([n] + rest)[j]]
  {
    var order := [n] + rest;
    forall i, j | 0 <= i < j < |order|
      ensures order[i] != order[j] && ts[order[i]] >= ts[order[j]]
    {
      assert order[j] == rest[j - 1] && order[j] in ts - {n};
      if i > 0 {
        assert order[i] == rest[i - 1];
      }
    }
  }

  /** The listed versions of the names in `order`. */
  function VersionsOf(dir: Dir, ts: map<string, int>, order: seq<string>): (vs: seq<CodeVersion>)
    requires forall i :: 0 <= i < |order| ==> order[i] in dir && order[i] in ts
    ensures |vs| == |order|
    ensures forall i :: 0 <= i < |order| ==> vs[i] == CodeVersion(dir[order[i]], ts[order[i]])
  {
    if |order| == 0 then []
    else [CodeVersion(dir[order[0]], ts[order[0]])] + VersionsOf(dir, ts, order[1..])
  }

  /** `vs` is a listing of `dir`: one version per ".go" entry, newest first. */
  ghost predicate IsListing(dir: Dir, vs: seq<CodeVersion>) {
    && Stamped(GoFiles(dir))
    && exists order :: IsNewestFirst(Stamps(dir), order) && vs == VersionsOf(dir, Stamps(dir), order)
  }

  /**
    `getCodeVersions`: reading a missing directory fails, one unparsable
    ".go" name fails the whole listing, and otherwise the result holds one
    version per ".go" entry, newest first.
   */
  ghost function ListVersions(dir: Option<Dir>): (r: Result<seq<CodeVersion>, StoreError>)
    ensures dir.None? ==> r == Failure(DirUnreadable)
    ensures dir.Some? && !Stamped(GoFiles(dir.value)) ==> r == Failure(BadTimestamp)
    ensures dir.Some? && Stamped(GoFiles(dir.value)) ==> r.Success? && IsListing(dir.value, r.value)
  {
    match dir
    case None => Failure(DirUnreadable)
    case Some(d) =>
      if !Stamped(GoFiles(d)) then Failure(BadTimestamp)
      else
        var ts := Stamps(d);
        var order := NewestFirst(ts);
        Success(VersionsOf(d, ts, order))
  }

  /** The latest code `getCode` replies with: the first listed version, or "" when there is none. */
  function Latest(vs: seq<CodeVersion>): string {
    if |vs| > 0 then vs[0].content else ""
  }

  /** The names pruning removes: those rebuilt with `"%d.go"` from the versions past `limit`. */
  function StaleNames(vs: seq<CodeVersion>, limit: nat): set<string> {
    set i | limit <= i < |vs| :: VersionFileName(vs[i].timestamp)
  }

  lemma StaleNamesAreGoFiles(vs: seq<CodeVersion>, limit: nat)
    ensures forall n :: n in StaleNames(vs, limit) ==> IsGoFile(n)
  {
    forall i | limit <= i < |vs| {
      VersionFileNameParts(vs[i].timestamp);
    }
  }

  /**
    The removal step of `cleanupOldVersions`, given the listing it read: a
    failed listing, or one of at most `limit` versions, removes nothing;
    otherwise the files named `"%d.go"` after the timestamps of the versions
    past position `limit` are removed (a name with no file removes nothing).
    Removal is the only change, and only ".go" names are removed.
   */
  function Prune(dir: Dir, listing: Result<seq<CodeVersion>, StoreError>, limit: nat): (d: Dir)
    ensures d.Keys <= dir.Keys
    ensures forall n :: n in d ==> d[n] == dir[n]
    ensures forall n :: n in dir && !IsGoFile(n) ==> n in d
    ensures listing.Failure? || |listing.value| <= limit ==> d == dir
    ensures listing.Success? && |listing.value| > limit ==>
      forall n :: n in dir ==> (n in d <==> n !in StaleNames(listing.value, limit))
  {
    match listing
    case Failure(_) => dir
    case Success(vs) =>
      if |vs| <= limit then dir
      else
        StaleNamesAreGoFiles(vs, limit);
        dir - StaleNames(vs, limit)
  }

  /**
    `cleanupOldVersions`: list the note directory, then prune it to the
    `limit` newest versions. A directory with an unparsable ".go" name, or
    with at most `limit` of them, is left as it is.
   */
  ghost function Cleanup(dir: Dir, limit: nat): (d: Dir)
    ensures d.Keys <= dir.Keys
    ensures forall n :: n in d ==> d[n] == dir[n]
    ensures forall n :: n in dir && !IsGoFile(n) ==> n in d
    ensures !Stamped(GoFiles(dir)) || |GoFiles(dir)| <= limit ==> d == dir
  {
    Prune(dir, ListVersions(Some(dir)), limit)
  }

  /** The reply of `getCode`: the latest code and every version, newest first. */
  datatype CodeReply = CodeReply(code: string, versions: seq<CodeVersion>)

  function NoteDir(store: Store, noteId: string): Option<Dir> {
    if noteId in store then Some(store[noteId]) else None
  }

  /**
    `getCode`: list the note's versions and reply with the first one's
    content. A note that was never saved has no directory, so it fails.
   */
  ghost function GetCode(store: Store, noteId: string): (r: Result<CodeReply, StoreError>)
    ensures noteId !in store ==> r == Failure(DirUnreadable)
    ensures r.Success? ==> IsListing(store[noteId], r.value.versions)
  {
    var vs :- ListVersions(NoteDir(store, noteId));
    Success(CodeReply(Latest(vs), vs))
  }

  /** What `saveCode` reports back, with the store it leaves. */
  datatype Saved = Saved(store: Store, timestamp: int)

  /** The note's directory as `saveCode` finds it after `os.MkdirAll`: empty when it did not exist. */
  function EnsureDir(store: Store, noteId: string): Dir {
    if noteId in store then store[noteId] else map[]
  }

  /** Writing the code under `"%d.go"` of `now`, replacing a file of that name. */
  function WriteVersion(dir: Dir, code: string, now: int): Dir {
    dir[VersionFileName(now) := code]
  }

  /** The note's directory after a save: written, then pruned. */
  ghost function SavedDir(store: Store, noteId: string, code: string, now: int, limit: nat): Dir {
    Cleanup(WriteVersion(EnsureDir(store, noteId), code, now), limit)
  }

  /**
    `saveCode`: refuse a client off the allow-list; otherwise create the note
    directory if needed, write the code under `"%d.go"` of `now` (replacing
    a file of that name), prune to `limit` versions, and report `now`.
    Other notes are untouched. `now` is `time.Now().UnixNano()`, a 64-bit
    nanosecond count.
   */
  ghost function SaveCode(allowed: seq<string>, clientIP: string, store: Store, noteId: string,
                          code: string, now: int, limit: nat): (r: Result<Saved, StoreError>)
    requires IsInt64(now)
    ensures r.Failure? <==> !AllowList.IsAllowedIP(allowed, clientIP)
    ensures r.Failure? ==> r.error == Forbidden
    ensures r.Success? ==> r.value.timestamp == now && noteId in r.value.store
    ensures r.Success? ==> r.value.store == store[noteId := r.value.store[noteId]]
  {
    if !AllowList.IsAllowedIP(allowed, clientIP) then Failure(Forbidden)
    else
      var note := SavedDir(store, noteId, code, now, limit);
      Success(Saved(store[noteId := note], now))
  }
}
