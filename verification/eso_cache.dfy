/**
 The ESO client's query cache: the file a query is cached under, the
 freshness rule for a cached result, and the read-through behaviour of
 `query_tap_service`. The cache directory is a map from file names to
 entries; the TAP service is an abstract reply; the hash of a query and the
 pickling writer are not part of this model and appear as parameters.
 */
module EsoCache {
  import opened Wrappers
  import opened PyText

  /** The client is configured for the development TAP endpoint. */
  const UseDevTap: bool := true
  const ArchiveTapUrl: string := "http://archive.eso.org/tap_obs"
  const DevTapUrl: string := "http://dfidev5.hq.eso.org:8123/tap_obs"

  /** `tap_url`. */
  function TapUrl(): (url: string)
    ensures url == DevTapUrl
  {
    if UseDevTap then DevTapUrl else ArchiveTapUrl
  }

  /** A result table: column names and rows. Its truth value in Python is
      its number of rows. */
  datatype Table = Table(colnames: seq<string>, rows: seq<seq<Scalar>>)

  predicate NonEmpty(t: Table) {
    |t.rows| > 0
  }

  /** What a cache file unpickles to: a table, or anything else. */
  datatype Stored = TableObject(table: Table) | OtherObject

  /** A cache file with its modification time in seconds. */
  datatype CacheFile = CacheFile(mtime: int, content: Stored)

  /** The cache directory, by file name. */
  type Store = map<string, CacheFile>

  /** `request_file`: the hash of the query and the service URL, with the
      `.pickle` extension, inside the cache directory. */
  function RequestFile(cacheDir: string, hash: (string, string) -> string, query: string): (f: string)
    ensures StartsWith(f, cacheDir + "/") && EndsWith(f, ".pickle")
    ensures |f| == |cacheDir| + 1 + |hash(query, TapUrl())| + 7
  {
    cacheDir + "/" + hash(query, TapUrl()) + ".pickle"
  }

  /** Two queries share a cache file only when their hashes agree. */
  lemma RequestFileSeparates(cacheDir: string, hash: (string, string) -> string, q1: string, q2: string)
    ensures RequestFile(cacheDir, hash, q1) == RequestFile(cacheDir, hash, q2)
            <==> hash(q1, TapUrl()) == hash(q2, TapUrl())
  {
    var h1, h2 := hash(q1, TapUrl()), hash(q2, TapUrl());
    var f1, f2 := RequestFile(cacheDir, hash, q1), RequestFile(cacheDir, hash, q2);
    if f1 == f2 {
      assert |h1| == |h2|;
      var n := |cacheDir| + 1;
      assert f1[n..n + |h1|] == h1;
      assert f2[n..n + |h2|] == h2;
    }
  }

  /** Whether an entry written at `mtime` is still usable at `now`: with no
      timeout it always is, otherwise its age may not exceed the timeout. */
  predicate Fresh(mtime: int, timeout: Option<int>, now: int) {
    timeout.None? || now - mtime <= timeout.value
  }

  /** `from_cache`: the cached table when the file exists, is fresh and holds
      a table; nothing otherwise. A missing file is not an error. */
  function FromCache(store: Store, file: string, timeout: Option<int>, now: int): (r: Option<Table>)
    ensures r.Some? ==> file in store && store[file].content == TableObject(r.value)
    ensures file !in store ==> r.None?
    ensures file in store && store[file].content.OtherObject? ==> r.None?
    ensures file in store && !Fresh(store[file].mtime, timeout, now) ==> r.None?
  {
    if file !in store then None
    else
      var entry := store[file];
      if !Fresh(entry.mtime, timeout, now) then None
      else match entry.content
        case TableObject(t) => Some(t)
        case OtherObject => None
  }

  /** A stored table is served while fresh, forever without a timeout, and
      once stale it stays stale. */
  lemma FromCacheFreshness(store: Store, file: string, t: Table, timeout: Option<int>, now: int, later: int)
    requires file in store && store[file].content == TableObject(t)
    ensures FromCache(store, file, None, now) == Some(t)
    ensures Fresh(store[file].mtime, timeout, now) <==> FromCache(store, file, timeout, now) == Some(t)
    ensures now <= later && FromCache(store, file, timeout, later) == Some(t)
            ==> FromCache(store, file, timeout, now) == Some(t)
  {
  }

  /** The TAP service's answer to a query: a table, a rejected query, or
      any other failure. */
  datatype RemoteReply = Rows(table: Table) | DalQueryError | OtherFailure

  /** The errors `query_tap_service` raises: a rejected query is raised
      again with the query text; any other failure propagates as it came,
      since the `except UnknownException` clause never fires (nothing
      raises that exception). */
  datatype TapError = QueryRejected(query: string) | Propagated

  /** One `query_tap_service` call: its result (`None` for an empty one),
      whether the cache was consulted, whether the service was asked, and
      the table handed to the cache writer with its file name. */
  datatype TapCall = TapCall(result: Result<Option<Table>, TapError>, readCache: bool,
                             remoteCalled: bool, written: Option<(string, Table)>)

  /** The table a call returns: an empty one is replaced by `None`. */
  function Returned(t: Table): (r: Option<Table>)
    ensures r.Some? <==> NonEmpty(t)
    ensures r.Some? ==> r.value == t
  {
    if |t.rows| > 0 then Some(t) else None
  }

  function AskService(query: string, remote: RemoteReply, file: Option<string>, readCache: bool): (c: TapCall)
    ensures c.remoteCalled && c.readCache == readCache
    ensures c.result.Failure? <==> !remote.Rows?
    ensures remote.Rows? ==> c.result == Success(Returned(remote.table))
    ensures remote.DalQueryError? ==> c.result == Failure(QueryRejected(query))
    ensures remote.OtherFailure? ==> c.result == Failure(Propagated)
    ensures c.written.Some? <==> remote.Rows? && file.Some?
    ensures c.written.Some? ==> c.written.value == (file.value, remote.table)
  {
    match remote
    case Rows(t) =>
      TapCall(Success(Returned(t)), readCache, true, if file.Some? then Some((file.value, t)) else None)
    case DalQueryError => TapCall(Failure(QueryRejected(query)), readCache, true, None)
    case OtherFailure => TapCall(Failure(Propagated), readCache, true, None)
  }

  /** `query_tap_service`. `cache` is the caller's choice, `globalCache` the
      configured default, `timeout` the configured cache timeout. */
  function QueryTapService(query: string, cache: Option<bool>, globalCache: bool,
                           timeout: Option<int>, now: int, store: Store,
                           cacheDir: string, hash: (string, string) -> string,
                           remote: RemoteReply): (c: TapCall)
    // no caller choice means the configured default
    ensures var useCache := cache.GetOr(globalCache);
      // with caching off the cache is neither read nor written
      && c.readCache == useCache
      && (!useCache ==> c.remoteCalled && c.written.None?)
      // with caching on, a non-empty cached table saves the remote call
      && var cached := FromCache(store, RequestFile(cacheDir, hash, query), timeout, now);
      && (useCache ==> (!c.remoteCalled <==> cached.Some? && NonEmpty(cached.value)))
      && (useCache && !c.remoteCalled ==> c.result == Success(cached))
      // and a fetched table is written under the query's cache file
      && (useCache && c.remoteCalled && remote.Rows? ==> c.written == Some((RequestFile(cacheDir, hash, query), remote.table)))
    ensures !c.remoteCalled ==> c.result.Success? && c.written.None?
    ensures c.result.Failure? <==> c.remoteCalled && !remote.Rows?
    // a fetched table is returned unless empty; a rejected query is raised
    // with its text, any other failure unchanged
    ensures c.remoteCalled && remote.Rows? ==> c.result == Success(Returned(remote.table))
    ensures c.remoteCalled && remote.DalQueryError? ==> c.result == Failure(QueryRejected(query))
    ensures c.remoteCalled && remote.OtherFailure? ==> c.result == Failure(Propagated)
    ensures c.result.Success? && c.result.value.Some? ==> NonEmpty(c.result.value.value)
  {
    var useCache := cache.GetOr(globalCache);
    if !useCache then AskService(query, remote, None, false)
    else
      var file := RequestFile(cacheDir, hash, query);
      var cached := FromCache(store, file, timeout, now);
      if cached.Some? && NonEmpty(cached.value) then TapCall(Success(cached), true, false, None)
      else AskService(query, remote, Some(file), true)
  }

  /** The cache writer, for the round trip below: it stores the table under
      the file name with the current time as modification time. */
  function AfterWrite(store: Store, written: Option<(string, Table)>, now: int): Store {
    if written.Some? then store[written.value.0 := CacheFile(now, TableObject(written.value.1))] else store
  }

  /** A fetched non-empty table is served from the cache to the next
      identical query while it is fresh, without asking the service again.
      The query is taken to be absent from the cache beforehand. */
  lemma CacheRoundTrip(query: string, globalCache: bool, timeout: Option<int>, now: int, later: int,
                       store: Store, cacheDir: string, hash: (string, string) -> string,
                       t: Table, remote2: RemoteReply)
    requires RequestFile(cacheDir, hash, query) !in store
    requires NonEmpty(t) && Fresh(now, timeout, later)
    ensures var first := QueryTapService(query, Some(true), globalCache, timeout, now, store, cacheDir, hash, Rows(t));
      var second := QueryTapService(query, Some(true), globalCache, timeout, later,
                                    AfterWrite(store, first.written, now), cacheDir, hash, remote2);
      first.result == Success(Some(t)) && !second.remoteCalled && second.result == Success(Some(t))
  {
    var file := RequestFile(cacheDir, hash, query);
    var first := QueryTapService(query, Some(true), globalCache, timeout, now, store, cacheDir, hash, Rows(t));
    assert first.written == Some((file, t));
    assert FromCache(AfterWrite(store, first.written, now), file, timeout, later) == Some(t);
  }

  /** An empty result is written to the cache but never served from it: the
      next identical query asks the service again. */
  lemma EmptyResultNotServed(query: string, timeout: Option<int>, now: int, later: int,
                             store: Store, cacheDir: string, hash: (string, string) -> string,
                             t: Table, remote2: RemoteReply)
    requires RequestFile(cacheDir, hash, query) !in store && !NonEmpty(t)
    ensures var first := QueryTapService(query, Some(true), false, timeout, now, store, cacheDir, hash, Rows(t));
      var second := QueryTapService(query, Some(true), false, timeout, later,
                                    AfterWrite(store, first.written, now), cacheDir, hash, remote2);
      first.result == Success(None) && first.written.Some? && second.remoteCalled
  {
    var file := RequestFile(cacheDir, hash, query);
    assert FromCache(AfterWrite(store, Some((file, t)), now), file, timeout, later) in {None, Some(t)};
  }
}
