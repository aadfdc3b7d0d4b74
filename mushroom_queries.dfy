/**
 * The two read operations of the catalogue: the filtered, sorted list and the
 * lookup by id, each served by the store when one is configured and by the
 * static fallback dataset otherwise or when the store throws.
 */
module MushroomQueries {
  import opened Options
  import opened JsString
  import opened Mushrooms
  import opened Prisma

  // ---------------------------------------------------------------------
  // Ordering by French common name

  /**
   * `a.localeCompare(b, "fr")`: the sign of the result orders `a` before,
   * with or after `b`. The collation tables themselves are not modelled.
   */
  type Collation = (string, string) -> int

  /** The collation is a total preorder on its "at most" relation, as a locale collation is. */
  ghost predicate IsTotalPreorder(collate: Collation) {
    && (forall a, b :: collate(a, b) <= 0 || collate(b, a) <= 0)
    && (forall a, b, c :: collate(a, b) <= 0 && collate(b, c) <= 0 ==> collate(a, c) <= 0)
  }

  /** `sortByCommonNameFr(a, b) <= 0`: `a` may come before `b`. */
  predicate InOrder(collate: Collation, a: Mushroom, b: Mushroom) {
    collate(a.commonNameFr, b.commonNameFr) <= 0
  }

  predicate SortedByCommonNameFr(collate: Collation, ms: seq<Mushroom>) {
    forall i, j :: 0 <= i < j < |ms| ==> InOrder(collate, ms[i], ms[j])
  }

  /** Inserts `m` before the first record it may precede, so equal names keep their order. */
  function Insert(collate: Collation, m: Mushroom, sorted: seq<Mushroom>): (r: seq<Mushroom>)
    ensures multiset(r) == multiset(sorted) + multiset{m}
  {
    if sorted == [] || InOrder(collate, m, sorted[0]) then [m] + sorted
    else
      assert sorted == [sorted[0]] + sorted[1..];
      [sorted[0]] + Insert(collate, m, sorted[1..])
  }

  /**
   * `.slice().sort(sortByCommonNameFr)`: a stable sort of a copy, here an
   * insertion sort, which yields the same order as any stable sort.
   */
  function SortByCommonNameFr(collate: Collation, ms: seq<Mushroom>): (r: seq<Mushroom>)
    ensures multiset(r) == multiset(ms)
  {
    if ms == [] then []
    else
      assert ms == [ms[0]] + ms[1..];
      Insert(collate, ms[0], SortByCommonNameFr(collate, ms[1..]))
  }

  lemma {:induction false} InsertKeepsSorted(collate: Collation, m: Mushroom, sorted: seq<Mushroom>)
    requires IsTotalPreorder(collate)
    requires SortedByCommonNameFr(collate, sorted)
    ensures SortedByCommonNameFr(collate, Insert(collate, m, sorted))
  {
    var r := Insert(collate, m, sorted);
    if sorted == [] {
    } else if InOrder(collate, m, sorted[0]) {
      forall i, j | 0 <= i < j < |r|
        ensures InOrder(collate, r[i], r[j])
      {
        if i == 0 && j > 1 {
          assert InOrder(collate, sorted[0], sorted[j - 1]);
        }
      }
    } else {
      var head := sorted[0];
      var tail := Insert(collate, m, sorted[1..]);
      InsertKeepsSorted(collate, m, sorted[1..]);
      assert InOrder(collate, head, m);
      assert forall k :: 0 <= k < |tail| ==> InOrder(collate, head, tail[k]) by {
        forall k | 0 <= k < |tail|
          ensures InOrder(collate, head, tail[k])
        {
          assert tail[k] in multiset(tail);
          if tail[k] != m {
            assert tail[k] in multiset(sorted[1..]);
            var p :| 0 <= p < |sorted[1..]| && sorted[1..][p] == tail[k];
            assert sorted[p + 1] == tail[k];
          }
        }
      }
      assert r == [head] + tail;
    }
  }

  /** The sort puts the records in collation order of their French common names. */
  lemma {:induction false} SortIsSorted(collate: Collation, ms: seq<Mushroom>)
    requires IsTotalPreorder(collate)
    ensures SortedByCommonNameFr(collate, SortByCommonNameFr(collate, ms))
  {
    if ms != [] {
      SortIsSorted(collate, ms[1..]);
      InsertKeepsSorted(collate, ms[0], SortByCommonNameFr(collate, ms[1..]));
    }
  }

  // ---------------------------------------------------------------------
  // The fallback list

  /** `Array.prototype.filter`: the records `keep` accepts, in their order. */
  function Filter(keep: Mushroom -> bool, ms: seq<Mushroom>): (r: seq<Mushroom>)
    ensures forall m :: multiset(r)[m] == if keep(m) then multiset(ms)[m] else 0
  {
    if ms == [] then []
    else
      assert ms == [ms[0]] + ms[1..];
      (if keep(ms[0]) then [ms[0]] else []) + Filter(keep, ms[1..])
  }

  /** The status filter of the fallback: a recognised status keeps only the records with its code. */
  predicate HasStatus(status: Option<EdibilityStatus>, m: Mushroom) {
    status.Some? ==> m.edibilityStatus == Code(status.value)
  }

  /** A dataset filtered by status, then by query, then sorted. */
  function FilterAndSort(dataset: seq<Mushroom>, query: string, status: Option<EdibilityStatus>,
                         collate: Collation): seq<Mushroom> {
    SortByCommonNameFr(collate,
      Filter(m => MatchesQuery(m, query),
        Filter(m => HasStatus(status, m), dataset)))
  }

  /**
   * The filtered list holds exactly the records of the dataset with the
   * status that match the query, each as often as in the dataset, and is in
   * collation order of the French common names.
   */
  lemma FilterAndSortSpec(dataset: seq<Mushroom>, query: string, status: Option<EdibilityStatus>, collate: Collation)
    requires IsTotalPreorder(collate)
    ensures forall m :: (multiset(FilterAndSort(dataset, query, status, collate))[m] ==
      if HasStatus(status, m) && MatchesQuery(m, query) then multiset(dataset)[m] else 0)
    ensures SortedByCommonNameFr(collate, FilterAndSort(dataset, query, status, collate))
  {
    var byStatus := Filter(m => HasStatus(status, m), dataset);
    var byQuery := Filter(m => MatchesQuery(m, query), byStatus);
    assert multiset(FilterAndSort(dataset, query, status, collate)) == multiset(byQuery);
    SortIsSorted(collate, byQuery);
  }

  /** Without a status and with a blank query nothing is filtered out: the list is the dataset, reordered. */
  lemma UnfilteredListIsWholeDataset(dataset: seq<Mushroom>, query: string, collate: Collation)
    requires AllWhiteSpace(query)
    ensures multiset(FilterAndSort(dataset, query, None, collate)) == multiset(dataset)
  {
    var byStatus := Filter(m => HasStatus(None, m), dataset);
    var byQuery := Filter(m => MatchesQuery(m, query), byStatus);
    assert multiset(FilterAndSort(dataset, query, None, collate)) == multiset(byQuery);
    forall m
      ensures multiset(FilterAndSort(dataset, query, None, collate))[m] == multiset(dataset)[m]
    {
      BlankQueryMatchesAll(m, query);
    }
  }

  // ---------------------------------------------------------------------
  // The store query

  /** `getIsSqliteDatabaseUrl()`: no URL counts as SQLite. */
  predicate IsSqliteDatabaseUrl(env: Env) {
    var url := DatabaseUrlOptional(env);
    url.None? || IsSqliteUrl(url.value)
  }

  /** The `contains` condition on one field; `insensitive` is `mode: "insensitive"`. */
  datatype ContainsFilter = ContainsFilter(contains: string, insensitive: bool)

  /** `getContainsFilter(query)` */
  function GetContainsFilter(env: Env, query: string): (f: ContainsFilter)
    ensures f.contains == query
    ensures f.insensitive <==> DatabaseUrlOptional(env).Some? && !IsSqliteUrl(DatabaseUrlOptional(env).value)
  {
    if IsSqliteDatabaseUrl(env) then ContainsFilter(query, false)
    else ContainsFilter(query, true)
  }

  /**
   * The search is case-insensitive exactly when a URL resolves and the
   * client built for it talks to PostgreSQL; SQLite and no store at all
   * get the plain, case-sensitive condition.
   */
  lemma CaseInsensitiveExactlyOnPostgres(env: Env, query: string)
    ensures GetContainsFilter(env, query).insensitive <==>
      DatabaseUrlOptional(env).Some? && CreateAdapter(DatabaseUrlOptional(env).value).Pg?
  {
  }

  /** Outside production with no URL configured, the store is the SQLite file and search is case-sensitive. */
  lemma DevelopmentDefaultIsCaseSensitive(env: Env, query: string)
    requires forall j :: 0 <= j < |DatabaseUrlEnvKeys| ==> ConfiguredValue(env, DatabaseUrlEnvKeys[j]).None?
    requires !IsProduction(env)
    ensures !GetContainsFilter(env, query).insensitive
    ensures DatabaseUrlOptional(env) == Some(DefaultDevDatabaseUrl)
  {
    DatabaseUrlResolution(env);
    DefaultDevUrlIsSqliteFile();
  }

  /** The six fields a free-text search looks at. */
  datatype SearchField = CommonNameFr | ScientificName | Family | CapColor | HymenophoreType | Habitat

  const SearchedFields: seq<SearchField> := [CommonNameFr, ScientificName, Family, CapColor, HymenophoreType, Habitat]

  /** The value of a searched field, a null field reading as the empty string. */
  function FieldValue(m: Mushroom, field: SearchField): string {
    match field
    case CommonNameFr => m.commonNameFr
    case ScientificName => m.scientificName
    case Family => m.family.GetOr("")
    case CapColor => m.capColor.GetOr("")
    case HymenophoreType => m.hymenophoreType.GetOr("")
    case Habitat => m.habitat.GetOr("")
  }

  datatype FieldCondition = FieldCondition(field: SearchField, filter: ContainsFilter)

  /** The `where` object: an optional status equality and an optional `OR` of field conditions. */
  datatype WhereClause = WhereClause(edibilityStatus: Option<string>, anyOf: Option<seq<FieldCondition>>)

  /** `orderBy: { commonNameFr: "asc" }` */
  datatype SortOrder = CommonNameFrAscending

  datatype FindManyArgs = FindManyArgs(where: WhereClause, orderBy: SortOrder)

  /** A record passes the status part of a where clause. */
  predicate StatusConditionHolds(w: WhereClause, m: Mushroom) {
    w.edibilityStatus.Some? ==> m.edibilityStatus == w.edibilityStatus.value
  }

  /** The `where` object `listMushrooms` builds from the trimmed query and the normalized status. */
  function BuildWhere(env: Env, query: string, status: Option<EdibilityStatus>): (w: WhereClause)
    ensures w.edibilityStatus.Some? <==> status.Some?
    ensures forall m :: StatusConditionHolds(w, m) <==> HasStatus(status, m)
    ensures w.anyOf.Some? <==> query != ""
    ensures w.anyOf.Some? ==>
      |w.anyOf.value| == |SearchedFields| &&
      forall k :: 0 <= k < |SearchedFields| ==>
        w.anyOf.value[k] == FieldCondition(SearchedFields[k], GetContainsFilter(env, query))
  {
    var filter := GetContainsFilter(env, query);
    WhereClause(
      if status.Some? then Some(Code(status.value)) else None,
      if query != "" then
        Some([ FieldCondition(CommonNameFr, filter), FieldCondition(ScientificName, filter),
               FieldCondition(Family, filter), FieldCondition(CapColor, filter),
               FieldCondition(HymenophoreType, filter), FieldCondition(Habitat, filter) ])
      else None)
  }

  /**
   * The search mode follows the URL the current call resolves, while the
   * client is the memoised one: after an SQLite client has been memoised, a
   * call whose environment now resolves a non-SQLite URL still reaches the
   * SQLite client, and asks it for the case-insensitive mode.
   */
  lemma MemoisedSqliteClientGetsInsensitiveMode(path: string, env: Env, clientExported: bool, query: string,
                                                status: Option<EdibilityStatus>)
    requires DatabaseUrlOptional(env).Some? && !IsSqliteUrl(DatabaseUrlOptional(env).value)
    requires query != ""
    ensures MemoStep(Some(Client(BetterSqlite3(File(path)))), DatabaseUrlOptional(env), clientExported).1 ==
      Client(BetterSqlite3(File(path)))
    ensures var w := FindManyArgsFor(env, query, status).where;
      w.anyOf.Some? && |w.anyOf.value| == 6 && forall c :: c in w.anyOf.value ==> c.filter.insensitive
  {
  }

  /** The store searches the same six fields, in the same order, as the fallback's `matchesQuery`. */
  lemma StoreSearchesMatchedFields(m: Mushroom)
    ensures |SearchedFields| == |SearchFields(m)|
    ensures forall k :: 0 <= k < |SearchedFields| ==> FieldValue(m, SearchedFields[k]) == SearchFields(m)[k]
  {
  }

  function FindManyArgsFor(env: Env, query: string, status: Option<EdibilityStatus>): FindManyArgs {
    FindManyArgs(BuildWhere(env, query, status), CommonNameFrAscending)
  }

  /** What a store call does: it returns a value or throws. */
  datatype StoreOutcome<T> = Returned(value: T) | Threw

  /** `MushroomFilters`; an absent and a null status are both `None`. */
  datatype MushroomFilters = MushroomFilters(query: Option<string>, edibilityStatus: Option<string>)

  /**
   * `listMushrooms(filters)` once `getPrismaOptional()` has yielded `handle`;
   * `fallback` is the static dataset and `findMany` the store's answer to a
   * query.
   */
  function ListWithHandle(handle: StoreHandle, fallback: seq<Mushroom>, env: Env, filters: MushroomFilters,
                          collate: Collation, findMany: FindManyArgs -> StoreOutcome<seq<Mushroom>>): seq<Mushroom> {
    var query := Trim(filters.query.GetOr(""));
    var status := NormalizeEdibilityStatus(filters.edibilityStatus);
    if handle.NoStore? then FilterAndSort(fallback, query, status, collate)
    else
      match findMany(FindManyArgsFor(env, query, status))
      case Returned(items) => items
      case Threw => FilterAndSort(fallback, query, status, collate)
  }

  /** A store that throws gives the same list as no store at all. */
  lemma StoreFailureFallsBack(adapter: Adapter, fallback: seq<Mushroom>, env: Env, filters: MushroomFilters, collate: Collation,
                              findMany: FindManyArgs -> StoreOutcome<seq<Mushroom>>,
                              noStore: FindManyArgs -> StoreOutcome<seq<Mushroom>>)
    requires findMany(FindManyArgsFor(env, Trim(filters.query.GetOr("")),
                                      NormalizeEdibilityStatus(filters.edibilityStatus))) == Threw
    ensures ListWithHandle(Client(adapter), fallback, env, filters, collate, findMany) ==
      ListWithHandle(NoStore, fallback, env, filters, collate, noStore)
  {
  }

  /** With a live store the list is its answer to the query, untouched. */
  lemma StoreAnswerIsReturned(adapter: Adapter, fallback: seq<Mushroom>, env: Env, filters: MushroomFilters, collate: Collation,
                              findMany: FindManyArgs -> StoreOutcome<seq<Mushroom>>)
    requires findMany(FindManyArgsFor(env, Trim(filters.query.GetOr("")),
                                      NormalizeEdibilityStatus(filters.edibilityStatus))).Returned?
    ensures ListWithHandle(Client(adapter), fallback, env, filters, collate, findMany) ==
      findMany(FindManyArgsFor(env, Trim(filters.query.GetOr("")),
                               NormalizeEdibilityStatus(filters.edibilityStatus))).value
  {
  }

  /**
   * Without a store, every listed record has the requested status and
   * matches the trimmed query, every such record of the dataset is listed,
   * and the list is sorted by French common name.
   */
  lemma ListWithoutStore(fallback: seq<Mushroom>, env: Env, filters: MushroomFilters, collate: Collation,
                         findMany: FindManyArgs -> StoreOutcome<seq<Mushroom>>)
    requires IsTotalPreorder(collate)
    ensures var list := ListWithHandle(NoStore, fallback, env, filters, collate, findMany);
      && list == FilterAndSort(fallback, Trim(filters.query.GetOr("")),
                               NormalizeEdibilityStatus(filters.edibilityStatus), collate)
      && SortedByCommonNameFr(collate, list)
      && forall m :: (multiset(list)[m] ==
           if HasStatus(NormalizeEdibilityStatus(filters.edibilityStatus), m) &&
              MatchesQuery(m, Trim(filters.query.GetOr("")))
           then multiset(fallback)[m] else 0)
  {
    var query := Trim(filters.query.GetOr(""));
    var status := NormalizeEdibilityStatus(filters.edibilityStatus);
    FilterAndSortSpec(fallback, query, status, collate);
  }

  /** The list depends on the filters only through the trimmed query and the normalized status. */
  lemma ListDependsOnNormalizedFilters(handle: StoreHandle, fallback: seq<Mushroom>, env: Env,
                                       f1: MushroomFilters, f2: MushroomFilters, collate: Collation,
                                       findMany: FindManyArgs -> StoreOutcome<seq<Mushroom>>)
    requires Trim(f1.query.GetOr("")) == Trim(f2.query.GetOr(""))
    requires NormalizeEdibilityStatus(f1.edibilityStatus) == NormalizeEdibilityStatus(f2.edibilityStatus)
    ensures ListWithHandle(handle, fallback, env, f1, collate, findMany) ==
      ListWithHandle(handle, fallback, env, f2, collate, findMany)
  {
  }

  /** A status written in any case or padded with white space lists the same as its code. */
  lemma StatusFilterIgnoresCaseAndPadding(handle: StoreHandle, fallback: seq<Mushroom>, env: Env, query: Option<string>,
                                          st: EdibilityStatus, written: string, before: string, after: string,
                                          collate: Collation, findMany: FindManyArgs -> StoreOutcome<seq<Mushroom>>)
    requires ToLowerCase(written) == Code(st)
    requires AllWhiteSpace(before) && AllWhiteSpace(after)
    ensures ListWithHandle(handle, fallback, env, MushroomFilters(query, Some(before + written + after)), collate, findMany) ==
      ListWithHandle(handle, fallback, env, MushroomFilters(query, Some(Code(st))), collate, findMany)
  {
    var padded := before + written + after;
    var code := Code(st);
    WrittenStatusNormalizes(st, written, before, after);
    NormalizeCodeIsIdentity(st);
    assert NormalizeEdibilityStatus(Some(padded)) == NormalizeEdibilityStatus(Some(code));
    ListDependsOnNormalizedFilters(handle, fallback, env, MushroomFilters(query, Some(padded)),
                                   MushroomFilters(query, Some(code)), collate, findMany);
  }

  /** An unrecognised status lists the same as no status at all. */
  lemma UnknownStatusIsIgnored(handle: StoreHandle, fallback: seq<Mushroom>, env: Env, query: Option<string>, status: string,
                               collate: Collation, findMany: FindManyArgs -> StoreOutcome<seq<Mushroom>>)
    requires forall st :: ToLowerCase(Trim(status)) != Code(st)
    ensures ListWithHandle(handle, fallback, env, MushroomFilters(query, Some(status)), collate, findMany) ==
      ListWithHandle(handle, fallback, env, MushroomFilters(query, None), collate, findMany)
  {
    UnknownStatusNormalizesToNull(status);
    ListDependsOnNormalizedFilters(handle, fallback, env, MushroomFilters(query, Some(status)),
                                   MushroomFilters(query, None), collate, findMany);
  }

  // ---------------------------------------------------------------------
  // Lookup by id

  /** `Array.prototype.find` on the id: the first record with that id. */
  function FindById(ms: seq<Mushroom>, id: string): (r: Option<Mushroom>)
    ensures r.None? <==> forall i :: 0 <= i < |ms| ==> ms[i].id != id
    ensures r.Some? ==> exists i :: (0 <= i < |ms| && ms[i] == r.value && r.value.id == id &&
      forall j :: 0 <= j < i ==> ms[j].id != id)
  {
    if ms == [] then None
    else if ms[0].id == id then Some(ms[0])
    else
      var r := FindById(ms[1..], id);
      assert forall i :: 0 < i < |ms| ==> ms[i] == ms[1..][i - 1];
      r
  }

  datatype FindUniqueArgs = FindUniqueArgs(id: string)

  /** `getMushroomById(id)` once `getPrismaOptional()` has yielded `handle`. */
  function ByIdWithHandle(handle: StoreHandle, id: string,
                          findUnique: FindUniqueArgs -> StoreOutcome<Option<Mushroom>>): Option<Mushroom> {
    if handle.NoStore? then FindById(FallbackMushrooms, id)
    else
      match findUnique(FindUniqueArgs(id))
      case Returned(item) => item
      case Threw => FindById(FallbackMushrooms, id)
  }

  /** In a dataset whose ids are pairwise distinct, each record is found by its own id. */
  lemma {:induction false} FindByDistinctId(ms: seq<Mushroom>, k: nat)
    requires k < |ms|
    requires forall i, j :: 0 <= i < j < |ms| ==> ms[i].id != ms[j].id
    ensures FindById(ms, ms[k].id) == Some(ms[k])
  {
    if k > 0 {
      assert ms[0].id != ms[k].id;
      FindByDistinctId(ms[1..], k - 1);
    }
  }

  /**
   * Without a store (or when it throws) each fallback record is found by its
   * id, which is `ToId` of its scientific name, and an id of no record finds
   * nothing.
   */
  lemma FallbackLookupById(k: nat, id: string, findUnique: FindUniqueArgs -> StoreOutcome<Option<Mushroom>>)
    requires k < |FallbackMushrooms|
    ensures ByIdWithHandle(NoStore, FallbackMushrooms[k].id, findUnique) == Some(FallbackMushrooms[k])
    ensures ByIdWithHandle(NoStore, ToId(FallbackMushrooms[k].scientificName), findUnique) == Some(FallbackMushrooms[k])
    ensures (forall i :: 0 <= i < |FallbackMushrooms| ==> FallbackMushrooms[i].id != id) ==>
      ByIdWithHandle(NoStore, id, findUnique).None?
  {
    FallbackIdsDistinct();
    FindByDistinctId(FallbackMushrooms, k);
    FallbackIdIsSlugOfScientificName(k);
  }

  /** A store that throws on the lookup answers as no store at all. */
  lemma LookupFailureFallsBack(adapter: Adapter, id: string,
                               findUnique: FindUniqueArgs -> StoreOutcome<Option<Mushroom>>,
                               noStore: FindUniqueArgs -> StoreOutcome<Option<Mushroom>>)
    requires findUnique(FindUniqueArgs(id)) == Threw
    ensures ByIdWithHandle(Client(adapter), id, findUnique) == ByIdWithHandle(NoStore, id, noStore)
  {
  }

  // ---------------------------------------------------------------------
  // The operations against the process-wide memo

  /** `listMushrooms(filters)`: resolve the store handle, then list. */
  method ListMushrooms(globals: GlobalThis, env: Env, clientExported: bool, filters: MushroomFilters,
                       collate: Collation, findMany: FindManyArgs -> StoreOutcome<seq<Mushroom>>)
    returns (items: seq<Mushroom>)
    modifies globals
    ensures var step := MemoStep(old(globals.prismaOptionalPromise), DatabaseUrlOptional(env), clientExported);
      globals.prismaOptionalPromise == step.0 && items == ListWithHandle(step.1, FallbackMushrooms, env, filters, collate, findMany)
  {
    var handle := globals.GetPrismaOptional(env, clientExported);
    items := ListWithHandle(handle, FallbackMushrooms, env, filters, collate, findMany);
  }

  /** `getMushroomById(id)`: resolve the store handle, then look up. */
  method GetMushroomById(globals: GlobalThis, env: Env, clientExported: bool, id: string,
                         findUnique: FindUniqueArgs -> StoreOutcome<Option<Mushroom>>)
    returns (item: Option<Mushroom>)
    modifies globals
    ensures var step := MemoStep(old(globals.prismaOptionalPromise), DatabaseUrlOptional(env), clientExported);
      globals.prismaOptionalPromise == step.0 && item == ByIdWithHandle(step.1, id, findUnique)
  {
    var handle := globals.GetPrismaOptional(env, clientExported);
    item := ByIdWithHandle(handle, id, findUnique);
  }
}
