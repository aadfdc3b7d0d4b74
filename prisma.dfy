/**
 * Store configuration: where the connection URL comes from, which engine
 * adapter a URL selects, and the process-wide memo of the store handle.
 */
module Prisma {
  import opened Options
  import opened JsString

  /** The process environment, `process.env`. */
  type Env = map<string, string>

  const DefaultDevDatabaseUrl: string := "file:./prisma/dev.db"

  /** The keys consulted for a connection URL, in priority order. */
  const DatabaseUrlEnvKeys: seq<string> := ["PRISMA_DB_URL", "POSTGRES_URL", "DATABASE_URL"]

  /** The trimmed value of `key`, when it is set and not blank. */
  function ConfiguredValue(env: Env, key: string): (r: Option<string>)
    ensures r.Some? ==> r.value != "" && key in env && r.value == Trim(env[key])
    ensures r.None? ==> key !in env || Trim(env[key]) == ""
  {
    if key in env && Trim(env[key]) != "" then Some(Trim(env[key])) else None
  }

  /** The configured value of each key, in order. */
  function ConfiguredValues(env: Env, keys: seq<string>): (r: seq<Option<string>>)
    ensures |r| == |keys|
    ensures forall i :: 0 <= i < |keys| ==> r[i] == ConfiguredValue(env, keys[i])
  {
    seq(|keys|, i requires 0 <= i < |keys| => ConfiguredValue(env, keys[i]))
  }

  /** The first present value of `values`. */
  function FirstPresent<T>(values: seq<Option<T>>): Option<T> {
    if values == [] then None
    else if values[0].Some? then values[0]
    else FirstPresent(values[1..])
  }

  /** What `getEnvDatabaseUrl()` returns for this environment. */
  function EnvDatabaseUrl(env: Env): Option<string> {
    FirstPresent(ConfiguredValues(env, DatabaseUrlEnvKeys))
  }

  /**
   * `FirstPresent` is a first-match search: it is absent exactly when every
   * value is, and otherwise it is a present value before which none is.
   */
  lemma {:induction false} FirstPresentIsFirstMatch<T>(values: seq<Option<T>>)
    ensures FirstPresent(values).None? <==> forall j :: 0 <= j < |values| ==> values[j].None?
    ensures FirstPresent(values).Some? ==>
      exists i :: 0 <= i < |values| && values[i] == FirstPresent(values) &&
        forall j :: 0 <= j < i ==> values[j].None?
  {
    if values != [] && values[0].None? {
      var rest := values[1..];
      FirstPresentIsFirstMatch(rest);
      assert forall j :: 0 < j < |values| ==> values[j] == rest[j - 1];
      if FirstPresent(values).Some? {
        var i :| 0 <= i < |rest| && rest[i] == FirstPresent(values) &&
          forall j :: 0 <= j < i ==> rest[j].None?;
        assert values[i + 1] == FirstPresent(values);
      }
    }
  }

  /**
   * The URL of the environment is the trimmed value of the first key set to
   * something other than blanks, and is absent when no key is.
   */
  lemma EnvDatabaseUrlIsFirstConfigured(env: Env)
    ensures EnvDatabaseUrl(env).None? <==>
      forall j :: 0 <= j < |DatabaseUrlEnvKeys| ==> ConfiguredValue(env, DatabaseUrlEnvKeys[j]).None?
    ensures EnvDatabaseUrl(env).Some? ==>
      exists i :: 0 <= i < |DatabaseUrlEnvKeys| && ConfiguredValue(env, DatabaseUrlEnvKeys[i]) == EnvDatabaseUrl(env) &&
        forall j :: 0 <= j < i ==> ConfiguredValue(env, DatabaseUrlEnvKeys[j]).None?
    ensures EnvDatabaseUrl(env).Some? ==> EnvDatabaseUrl(env).value != ""
  {
    FirstPresentIsFirstMatch(ConfiguredValues(env, DatabaseUrlEnvKeys));
  }

  /** `getEnvDatabaseUrl()`: the loop over the keys with its early return. */
  method GetEnvDatabaseUrl(env: Env) returns (url: Option<string>)
    ensures url == EnvDatabaseUrl(env)
  {
    var keys := DatabaseUrlEnvKeys;
    ghost var values := ConfiguredValues(env, keys);
    var i := 0;
    while i < |keys|
      invariant 0 <= i <= |keys|
      invariant FirstPresent(values[i..]) == FirstPresent(values)
    {
      var key := keys[i];
      if key in env {
        var value := Trim(env[key]);
        if value != "" {
          return Some(value);
        }
      }
      assert values[i..][1..] == values[i + 1..];
      i := i + 1;
    }
    return None;
  }

  /** `process.env["NODE_ENV"] === "production"` */
  predicate IsProduction(env: Env) {
    "NODE_ENV" in env && env["NODE_ENV"] == "production"
  }

  /** `getDatabaseUrlOptional()` */
  function DatabaseUrlOptional(env: Env): (r: Option<string>)
    ensures r.Some? ==> r.value != ""
  {
    EnvDatabaseUrlIsFirstConfigured(env);
    var configured := EnvDatabaseUrl(env);
    if configured.Some? then configured
    else if IsProduction(env) then None
    else Some(DefaultDevDatabaseUrl)
  }

  /**
   * A configured key wins whatever `NODE_ENV` says; with none configured the
   * URL is null exactly in production, and the development default otherwise.
   */
  lemma DatabaseUrlResolution(env: Env)
    ensures (exists j :: 0 <= j < |DatabaseUrlEnvKeys| && ConfiguredValue(env, DatabaseUrlEnvKeys[j]).Some?) ==>
      DatabaseUrlOptional(env) == EnvDatabaseUrl(env) && EnvDatabaseUrl(env).Some?
    ensures (forall j :: 0 <= j < |DatabaseUrlEnvKeys| ==> ConfiguredValue(env, DatabaseUrlEnvKeys[j]).None?) ==>
      (DatabaseUrlOptional(env).None? <==> IsProduction(env)) &&
      (!IsProduction(env) ==> DatabaseUrlOptional(env) == Some(DefaultDevDatabaseUrl))
  {
    EnvDatabaseUrlIsFirstConfigured(env);
  }

  /** `getIsSqliteUrl(url)` */
  predicate IsSqliteUrl(url: string) {
    url == ":memory:" || StartsWith(url, "file:")
  }

  /** Where the SQLite adapter keeps its data. */
  datatype SqliteTarget = InMemory | File(path: string)

  /** The driver adapter the client is built with. */
  datatype Adapter = BetterSqlite3(target: SqliteTarget) | Pg(connectionString: string)

  /**
   * The adapter choice of `createPrismaClient(constructor, url)`: SQLite for
   * `:memory:` and `file:` URLs, with the `file:` prefix removed from the
   * path; PostgreSQL, on a pool over the URL, for every other URL.
   */
  function CreateAdapter(url: string): (a: Adapter)
    ensures a.BetterSqlite3? <==> IsSqliteUrl(url)
    ensures a.Pg? ==> a.connectionString == url
    ensures a == BetterSqlite3(InMemory) <==> url == ":memory:"
  {
    if IsSqliteUrl(url) then
      BetterSqlite3(if url == ":memory:" then InMemory else File(url[|"file:"|..]))
    else
      Pg(url)
  }

  /** The URL an adapter connects to. */
  function AdapterUrl(a: Adapter): string {
    match a
    case BetterSqlite3(InMemory) => ":memory:"
    case BetterSqlite3(File(path)) => "file:" + path
    case Pg(connectionString) => connectionString
  }

  /** The adapter choice loses nothing: the URL can be read back from the adapter. */
  lemma CreateAdapterKeepsUrl(url: string)
    ensures AdapterUrl(CreateAdapter(url)) == url
  {
    if IsSqliteUrl(url) && url != ":memory:" {
      assert url == url[..|"file:"|] + url[|"file:"|..];
    }
  }

  /** The development default is a SQLite file, `./prisma/dev.db`. */
  lemma DefaultDevUrlIsSqliteFile()
    ensures CreateAdapter(DefaultDevDatabaseUrl) == BetterSqlite3(File("./prisma/dev.db"))
  {
    assert DefaultDevDatabaseUrl[..|"file:"|] == "file:";
    assert DefaultDevDatabaseUrl[|"file:"|..] == "./prisma/dev.db";
  }

  /** What awaiting `getPrismaOptional()` yields: no client, or a client over an adapter. */
  datatype StoreHandle = NoStore | Client(adapter: Adapter)

  /**
   * One call of `getPrismaOptional()` as a function of the memo before the
   * call and of the URL the call resolves: the memo after it and the handle
   * it yields. `clientExported` says whether the dynamically imported module
   * exports a client constructor.
   */
  function MemoStep(cached: Option<StoreHandle>, databaseUrl: Option<string>, clientExported: bool): (Option<StoreHandle>, StoreHandle) {
    match databaseUrl
    case None => (cached, NoStore)
    case Some(url) =>
      if cached.Some? then (cached, cached.value)
      else
        var handle := if clientExported then Client(CreateAdapter(url)) else NoStore;
        (Some(handle), handle)
  }

  /** The process-wide object holding the memoized promise of the store handle. */
  class GlobalThis {
    /** `globalThis.__prismaOptionalPromise`, as the value the promise settles to. */
    var prismaOptionalPromise: Option<StoreHandle>

    constructor ()
      ensures prismaOptionalPromise == None
    {
      prismaOptionalPromise := None;
    }

    /** `getPrismaOptional()` */
    method GetPrismaOptional(env: Env, clientExported: bool) returns (handle: StoreHandle)
      modifies this
      ensures (prismaOptionalPromise, handle) == MemoStep(old(prismaOptionalPromise), DatabaseUrlOptional(env), clientExported)
      ensures DatabaseUrlOptional(env).None? ==> handle == NoStore && unchanged(this)
      ensures old(prismaOptionalPromise).Some? ==> unchanged(this)
      ensures DatabaseUrlOptional(env).Some? ==> prismaOptionalPromise == Some(handle)
    {
      var databaseUrl := DatabaseUrlOptional(env);
      if databaseUrl.None? {
        return NoStore;
      }
      var cached := prismaOptionalPromise;
      if cached.Some? {
        return cached.value;
      }
      if !clientExported {
        prismaOptionalPromise := Some(NoStore);
      } else {
        prismaOptionalPromise := Some(Client(CreateAdapter(databaseUrl.value)));
      }
      return prismaOptionalPromise.value;
    }
  }

  /** One call of `getPrismaOptional()`: the URL it resolves from the environment and what the import yields. */
  datatype Call = Call(databaseUrl: Option<string>, clientExported: bool)

  predicate Resolves(call: Call) {
    call.databaseUrl.Some?
  }

  /** A sequence of calls from a given memo: the final memo and the handle of each call. */
  function Run(cached: Option<StoreHandle>, calls: seq<Call>): (r: (Option<StoreHandle>, seq<StoreHandle>))
    ensures |r.1| == |calls|
    decreases |calls|
  {
    if calls == [] then (cached, [])
    else
      var step := MemoStep(cached, calls[0].databaseUrl, calls[0].clientExported);
      var rest := Run(step.0, calls[1..]);
      (rest.0, [step.1] + rest.1)
  }

  /** Once the memo is set it is never written again, and every call that resolves a URL returns it. */
  lemma {:induction false} FilledMemoIsFinal(cached: Option<StoreHandle>, calls: seq<Call>)
    requires cached.Some?
    ensures Run(cached, calls).0 == cached
    ensures forall i :: 0 <= i < |calls| && Resolves(calls[i]) ==> Run(cached, calls).1[i] == cached.value
  {
    if calls != [] {
      FilledMemoIsFinal(cached, calls[1..]);
      var r := Run(cached, calls);
      forall i | 0 <= i < |calls| && Resolves(calls[i])
        ensures r.1[i] == cached.value
      {
        if i > 0 {
          assert calls[i] == calls[1..][i - 1];
        }
      }
    }
  }

  /**
   * All calls that resolve a URL return the same handle, even when the URL
   * or the imported module changed in between: a null client, once memoized,
   * is returned for good.
   */
  lemma {:induction false} ResolvingCallsAgree(cached: Option<StoreHandle>, calls: seq<Call>, i: nat, j: nat)
    requires i < |calls| && j < |calls|
    requires Resolves(calls[i]) && Resolves(calls[j])
    ensures Run(cached, calls).1[i] == Run(cached, calls).1[j]
  {
    var (next, handle) := MemoStep(cached, calls[0].databaseUrl, calls[0].clientExported);
    var r := Run(cached, calls);
    if Resolves(calls[0]) {
      assert next == Some(handle);
      FilledMemoIsFinal(next, calls[1..]);
      if i > 0 {
        assert calls[i] == calls[1..][i - 1];
      }
      if j > 0 {
        assert calls[j] == calls[1..][j - 1];
      }
    } else if i > 0 && j > 0 {
      assert calls[i] == calls[1..][i - 1];
      assert calls[j] == calls[1..][j - 1];
      ResolvingCallsAgree(next, calls[1..], i - 1, j - 1);
    }
  }
}
