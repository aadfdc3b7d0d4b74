# Champipedia catalogue core, modelled in Dafny

Champipedia is a small French-language mushroom catalogue. This project models its core:

- **The dataset and its helpers** (`src/lib/mushrooms.ts`):
  - the slug function `toId`;
  - the three-entry fallback dataset `fallbackMushrooms`;
  - the free-text match `matchesQuery`;
  - the status normaliser `normalizeEdibilityStatus`.
- **Database URL and store client resolution** (`src/lib/prisma.ts`):
  - the search of `PRISMA_DB_URL`, `POSTGRES_URL` and `DATABASE_URL`;
  - the development default `file:./prisma/dev.db`;
  - the null result in production;
  - the choice between the SQLite adapter and the Postgres adapter;
  - the process-wide memo of the client promise, `globalThis.__prismaOptionalPromise`.
- **The queries** (`src/lib/mushroomQueries.ts`):
  - listing with a status filter and a search query, either through the store or over the fallback dataset;
  - falling back to the dataset when no client is available or when the query to the store throws (a failure while building the client is not caught: see "## Left out");
  - the `where` clause handed to the store, including the case-insensitive mode off SQLite;
  - lookup by id.
- **The catalogue page** (`src/app/champignons/page.tsx`):
  - reading the first value of a search parameter;
  - mapping an empty status to null;
  - the status label and the status badge.

Modules:

| module | file | models |
|---|---|---|
| `Options` | `js_string.dfy` | the Option value |
| `JsString` | `js_string.dfy` | the JavaScript string operations the core uses: `trim` (the ECMAScript white-space and line-terminator set), `toLowerCase`, `includes`, `join` and `startsWith` |
| `Mushrooms` | `mushrooms.dfy` | `mushrooms.ts` |
| `Prisma` | `prisma.dfy` | `prisma.ts` |
| `MushroomQueries` | `mushroom_queries.dfy` | `mushroomQueries.ts` |
| `ChampignonsPage` | `champignons_page.dfy` | the helpers of `page.tsx` |

Outside influences are parameters:

- The process environment is a `map<string, string>`.
- Whether `import("@prisma/client")` exports a `PrismaClient` is a boolean.
- The store's `findMany` and `findUnique` are functions from the query arguments to either a returned value or a thrown error.
- French collation (`localeCompare(…, "fr")`) is a comparison function. The proofs assume only that it is a total preorder.

Each file is written in its source's own form:

- `getEnvDatabaseUrl` loops over the keys, so it is a method with a `while` loop, proved equal to the function `EnvDatabaseUrl`.
- `getPrismaOptional` writes a global once, so it is a method of the class `GlobalThis`, which has the field `prismaOptionalPromise`.
- `listMushrooms` and `getMushroomById` are methods that update that memo.
- Everything else is pure: functions and lemmas.

## Model

| member | source | states |
|---|---|---|
| JsString.TrimStart | src/lib/mushrooms.ts:83 | the result is a suffix of the input; everything dropped is white space; the result is empty or starts with a non-white-space character |
| JsString.TrimEnd | src/lib/mushrooms.ts:83 | the result is a prefix of the input; everything dropped is white space; the result is empty or ends with a non-white-space character |
| JsString.ToLowerCase | src/lib/mushrooms.ts:95 | same length; each character is lower-cased on its own |
| JsString.Trim | src/lib/mushrooms.ts:83 | definition only (`TrimEnd` of `TrimStart`); its properties are stated by `TrimStart`, `TrimEnd` and the `Trim…` lemmas |
| JsString.Includes | src/lib/mushrooms.ts:97 | definition only (some position starts with the needle); its properties are stated by `IncludesPartOfJoin` and `IncludesJoinOnlyInParts` |
| JsString.Join | src/lib/mushrooms.ts:94 | definition only (parts separated by the separator); its properties are stated by `LowerJoin`, `IncludesPartOfJoin`, `IncludesJoinOnlyInParts` and `ToIdOfWords` |
| JsString.StartsWith | src/lib/prisma.ts:35 | definition only (the string begins with the prefix); it is the `file:` test inside `Prisma.IsSqliteUrl`, whose effect the contract of `CreateAdapter` states |
| JsString.TrimEmptyIffAllWhiteSpace | src/lib/mushrooms.ts:83-84 | a trimmed string is empty exactly when the input is all white space |
| JsString.TrimLowerCommute | src/lib/mushrooms.ts:101 | trimming and lower-casing commute |
| JsString.TrimIdempotent | src/lib/mushroomQueries.ts:29 | trimming twice is trimming once |
| JsString.TrimIgnoresPadding | src/lib/mushrooms.ts:101 | white space added on either side does not change the trimmed string |
| JsString.LowerIdempotent | src/lib/mushrooms.ts:83 | lower-casing twice is lower-casing once |
| JsString.LowerDistributes | src/lib/mushrooms.ts:94-95 | lower-casing distributes over concatenation |
| JsString.LowerJoin | src/lib/mushrooms.ts:86-95 | lower-casing a joined list is joining the lower-cased parts, for a separator that is already lower case |
| JsString.IncludesPartOfJoin | src/lib/mushrooms.ts:94-97 | a needle found in one part is found in the joined string |
| JsString.IncludesJoinOnlyInParts | src/lib/mushrooms.ts:94-97 | a non-empty needle that does not contain the one-character separator is found in a joined string only if it is found in one of the parts |
| Mushrooms.StripCombiningMarks | src/lib/mushrooms.ts:24 | no U+0300..U+036F mark is left; a string without such marks is unchanged |
| Mushrooms.StripCombiningMarksAppend | src/lib/mushrooms.ts:24 | stripping distributes over concatenation |
| Mushrooms.StripCombiningMarksOfChar | src/lib/mushrooms.ts:24 | a single mark is deleted and any other single character is kept; with the lemma above this determines the result of every input: the other characters, kept in order |
| Mushrooms.CollapseNonSlugRuns | src/lib/mushrooms.ts:26 | the result has no doubled hyphen and no characters outside `a-z0-9-`; it is empty exactly when the input is; it starts with a hyphen exactly when the input starts with a character outside `a-z0-9` |
| Mushrooms.TrimEdgeHyphens | src/lib/mushrooms.ts:27 | definition only (one hyphen removed from each end); its effect is stated by `TrimEdgeHyphensMakesSlug` and `TrimEdgeHyphensOfPadded` |
| Mushrooms.TrimEdgeHyphensMakesSlug | src/lib/mushrooms.ts:27 | removing the edge hyphens from a collapsed string leaves a slug |
| Mushrooms.TrimEdgeHyphensOfPadded | src/lib/mushrooms.ts:27 | a string with at most one hyphen added at each end gets exactly those hyphens removed |
| Mushrooms.ToId | src/lib/mushrooms.ts:21-28 | definition only (strip marks, lower-case, collapse runs, trim edge hyphens); its properties are the `ToId…` lemmas below |
| Mushrooms.CollapseOfNonSlugRun | src/lib/mushrooms.ts:26 | a whole non-empty run of characters outside `a-z0-9` becomes exactly one hyphen |
| Mushrooms.CollapseOfSlugPrefix | src/lib/mushrooms.ts:26 | characters of `a-z0-9` are copied unchanged |
| Mushrooms.CollapseOfWords | src/lib/mushrooms.ts:26 | words of `a-z0-9` separated by non-empty runs become the words joined by single hyphens |
| Mushrooms.ToIdOfWords | src/lib/mushrooms.ts:21-28 | a value whose lower-cased, mark-stripped form is words of `a-z0-9` separated by runs of other characters, with optional runs at either end, gets the id `words.join("-")`; this places every hyphen |
| Mushrooms.ToIdOfNoWords | src/lib/mushrooms.ts:21-28 | a value with no character of `a-z0-9` gets the empty id |
| Mushrooms.ToIdIsSlug | src/lib/mushrooms.ts:21-28 | every id `toId` builds is a slug: only `a-z0-9` and single hyphens, with no hyphen at either end |
| Mushrooms.ToIdKeepsLettersAndDigits | src/lib/mushrooms.ts:21-28 | the letters and digits of the id are exactly those of the lower-cased, mark-stripped input, in order |
| Mushrooms.ToIdFixesSlugs | src/lib/mushrooms.ts:21-28 | a slug is its own id |
| Mushrooms.ToIdIdempotent | src/lib/mushrooms.ts:21-28 | applying `toId` twice gives the same id as applying it once |
| Mushrooms.TwoWordNameId | src/lib/mushrooms.ts:21-28 | a two-word name whose lower-cased words use only `a-z0-9` gets the id `first-second` (the case of `ToIdOfWords` with one space between two words) |
| Mushrooms.FallbackIdsDistinct | src/lib/mushrooms.ts:30-80 | the fallback dataset has three entries with ids `boletus-edulis`, `cantharellus-cibarius` and `amanita-phalloides`, and the ids are pairwise distinct |
| Mushrooms.FallbackIdIsSlugOfScientificName | src/lib/mushrooms.ts:32 | each fallback id is `toId` of that entry's scientific name |
| Mushrooms.MatchesQuery | src/lib/mushrooms.ts:82-98 | definition only (the trimmed, lower-cased query is blank or included in the lower-cased join of the six fields); its properties are the four lemmas below |
| Mushrooms.SearchFields | src/lib/mushrooms.ts:86-93 | definition only (the six searched fields in source order, a null field read as `""`); its use is stated by `FieldHitMatches`, `MatchOfSpaceFreeQueryIsInOneField` and `MushroomQueries.StoreSearchesMatchedFields` |
| Mushrooms.BlankQueryMatchesAll | src/lib/mushrooms.ts:83-84 | a query that is empty or all white space matches every mushroom |
| Mushrooms.FieldHitMatches | src/lib/mushrooms.ts:86-97 | a case-insensitive hit in any one of the six searched fields is a match |
| Mushrooms.MatchOfSpaceFreeQueryIsInOneField | src/lib/mushrooms.ts:86-97 | a match of a non-blank query without spaces lies within one of the six fields |
| Mushrooms.MatchesQueryIgnoresCase | src/lib/mushrooms.ts:83 | the match depends on the query and the fields only up to case |
| Mushrooms.StatusOfCode | src/lib/mushrooms.ts:103-107 | a string is recognised as a status exactly when it is that status's code, `inconnu` included |
| Mushrooms.NormalizeEdibilityStatus | src/lib/mushrooms.ts:100-108 | the result is a status exactly when the trimmed, lower-cased input is that status's code; otherwise, and for an absent input, null |
| Mushrooms.NormalizeCodeIsIdentity | src/lib/mushrooms.ts:100-108 | each of the four codes normalises to its own status |
| Mushrooms.WrittenStatusNormalizes | src/lib/mushrooms.ts:101 | any capitalisation of a code, padded with white space, normalises to that status |
| Mushrooms.UnknownStatusNormalizesToNull | src/lib/mushrooms.ts:102-107 | a value that is not a code after trimming and lower-casing normalises to null, the same as an absent value |
| Mushrooms.NormalizeIgnoresCaseAndPadding | src/lib/mushrooms.ts:101 | two values equal up to case and padding normalise alike |
| Prisma.ConfiguredValue | src/lib/prisma.ts:20-22 | a key counts as configured exactly when it is set and its trimmed value is non-empty; the value is the trimmed one |
| Prisma.FirstPresentIsFirstMatch | src/lib/prisma.ts:19-24 | the scan gives null exactly when no entry is present; otherwise it gives the first present entry, with all earlier ones absent |
| Prisma.EnvDatabaseUrl | src/lib/prisma.ts:18-25 | definition only (the first present value among the keys); its properties are stated by `EnvDatabaseUrlIsFirstConfigured`, and `GetEnvDatabaseUrl` is proved equal to it |
| Prisma.EnvDatabaseUrlIsFirstConfigured | src/lib/prisma.ts:16-25 | the environment URL is the trimmed value of the first configured key in the order `PRISMA_DB_URL`, `POSTGRES_URL`, `DATABASE_URL`; it is null exactly when none is configured; it is never empty |
| Prisma.GetEnvDatabaseUrl | src/lib/prisma.ts:18-25 | the loop returns exactly the first-configured URL above |
| Prisma.DatabaseUrlOptional | src/lib/prisma.ts:27-32 | a resolved URL is never empty |
| Prisma.IsProduction | src/lib/prisma.ts:30 | definition only (`NODE_ENV` is set to `production`); it is the condition in the contract of `DatabaseUrlResolution` |
| Prisma.DatabaseUrlResolution | src/lib/prisma.ts:27-32 | a configured key wins; with none configured the result is null exactly in production, and otherwise it is `file:./prisma/dev.db` |
| Prisma.IsSqliteUrl | src/lib/prisma.ts:34-36 | definition only (`:memory:` or a `file:` prefix); it is the condition in the contracts of `CreateAdapter` and `GetContainsFilter` |
| Prisma.CreateAdapter | src/lib/prisma.ts:34-53 | the SQLite adapter is chosen exactly for `:memory:` and `file:` URLs; the in-memory database is chosen exactly for `:memory:`; a Postgres pool gets the URL unchanged |
| Prisma.CreateAdapterKeepsUrl | src/lib/prisma.ts:38-53 | the URL can be recovered from the adapter, so the adapter choice loses nothing |
| Prisma.DefaultDevUrlIsSqliteFile | src/lib/prisma.ts:14 | the development default opens the SQLite file `./prisma/dev.db` |
| Prisma.GlobalThis.constructor | src/lib/prisma.ts:55-57 | the memo starts out unset |
| Prisma.MemoStep | src/lib/prisma.ts:59-80 | definition only (one call as a function of the memo and the resolved URL); its properties are stated by `GlobalThis.GetPrismaOptional`, `FilledMemoIsFinal` and `ResolvingCallsAgree` |
| Prisma.GlobalThis.GetPrismaOptional | src/lib/prisma.ts:59-80 | without a URL: no client, and the memo is untouched. With a memo already set: the memo is returned and stays as it was. Otherwise: the memo is set to the new handle (a client over `createPrismaClient`'s adapter, or none when the module exports no client), and that handle is returned |
| Prisma.Run | src/lib/prisma.ts:59-80 | a sequence of calls yields one handle per call |
| Prisma.FilledMemoIsFinal | src/lib/prisma.ts:63-64 | once the memo is set, no later call changes it, and every call that resolves a URL returns the memo |
| Prisma.ResolvingCallsAgree | src/lib/prisma.ts:59-80 | any two calls that resolve a URL return the same handle, even if the environment has changed between them |
| MushroomQueries.Insert | src/lib/mushroomQueries.ts:37 | inserting adds exactly the one element |
| MushroomQueries.InOrder | src/lib/mushroomQueries.ts:5-7 | definition only: the comparator `sortByCommonNameFr`, read as "`a` may come before `b`" (the collation of the French common names is at most 0); it is the order in the contracts of `InsertKeepsSorted`, `SortIsSorted` and `FilterAndSortSpec` |
| MushroomQueries.SortByCommonNameFr | src/lib/mushroomQueries.ts:36-37 | the `.slice().sort(…)` call with the comparator `InOrder`: the sorted list is a permutation of the input |
| MushroomQueries.InsertKeepsSorted | src/lib/mushroomQueries.ts:5-7 | inserting into a list ordered by the collation of `commonNameFr` keeps it ordered |
| MushroomQueries.SortIsSorted | src/lib/mushroomQueries.ts:5-7 | the result is ordered by the collation of `commonNameFr` (for every pair of positions) |
| MushroomQueries.Filter | src/lib/mushroomQueries.ts:34-35 | each element is kept with its full multiplicity if it passes, and dropped otherwise |
| MushroomQueries.HasStatus | src/lib/mushroomQueries.ts:34 | definition only (no status requested, or the record has that status's code); it is the status condition in the contracts of `FilterAndSortSpec` and `ListWithoutStore` |
| MushroomQueries.FilterAndSort | src/lib/mushroomQueries.ts:33-37 | definition only (status filter, query filter, sort); its properties are stated by `FilterAndSortSpec` |
| MushroomQueries.FilterAndSortSpec | src/lib/mushroomQueries.ts:33-37 | the fallback list holds exactly the entries with the requested status (any entry when no status is requested) that match the query, with their multiplicity, ordered by French common name |
| MushroomQueries.UnfilteredListIsWholeDataset | src/lib/mushroomQueries.ts:33-37 | with no status and a blank query, the list is a permutation of the whole dataset, whatever the comparator |
| MushroomQueries.IsSqliteDatabaseUrl | src/lib/mushroomQueries.ts:9-13 | definition only (no URL, or an SQLite URL); the contract of `GetContainsFilter` states its effect |
| MushroomQueries.GetContainsFilter | src/lib/mushroomQueries.ts:9-20 | the filter searches for the query itself; it is case-insensitive exactly when a URL resolves and it is not an SQLite URL |
| MushroomQueries.CaseInsensitiveExactlyOnPostgres | src/lib/mushroomQueries.ts:9-20 | the case-insensitive mode is used exactly when the URL this call resolves selects the Postgres adapter (not necessarily the adapter of the memoised client) |
| MushroomQueries.MemoisedSqliteClientGetsInsensitiveMode | src/lib/mushroomQueries.ts:9-20 | the mode is read from the current URL while the client stays memoised: after an SQLite client was memoised, a call whose environment now resolves a non-SQLite URL still gets the SQLite client, and all six of its search conditions ask for the case-insensitive mode |
| MushroomQueries.DevelopmentDefaultIsCaseSensitive | src/lib/mushroomQueries.ts:9-13 | with no URL configured outside production, the default SQLite file is used and the search is case-sensitive |
| MushroomQueries.BuildWhere | src/lib/mushroomQueries.ts:42-56 | the status key is present exactly when a status is requested, and a row passes it exactly when it has that status. The `OR` list is present exactly for a non-empty query; it holds the six searched fields in order, each with `getContainsFilter(query)` |
| MushroomQueries.StoreSearchesMatchedFields | src/lib/mushroomQueries.ts:46-53 | the store searches the same six fields, in the same order, as `matchesQuery` |
| MushroomQueries.ListWithHandle | src/lib/mushroomQueries.ts:29-67 | definition only (`listMushrooms` once the handle is known); its properties are stated by `StoreAnswerIsReturned`, `StoreFailureFallsBack`, `ListWithoutStore` and the filter lemmas |
| MushroomQueries.StoreAnswerIsReturned | src/lib/mushroomQueries.ts:40-60 | when the store answers `findMany`, its rows are returned as they are |
| MushroomQueries.StoreFailureFallsBack | src/lib/mushroomQueries.ts:61-67 | when `findMany` throws, the list is the same one the no-store path gives |
| MushroomQueries.ListWithoutStore | src/lib/mushroomQueries.ts:29-38 | without a client: the filters are trimmed and normalised; the list holds exactly the matching fallback entries and is ordered by French common name |
| MushroomQueries.ListDependsOnNormalizedFilters | src/lib/mushroomQueries.ts:29-30 | two filter sets with the same trimmed query and the same normalised status give the same list |
| MushroomQueries.StatusFilterIgnoresCaseAndPadding | src/lib/mushroomQueries.ts:30 | a status written in any case and with padding filters the same as its code |
| MushroomQueries.UnknownStatusIsIgnored | src/lib/mushroomQueries.ts:30 | an unrecognised status lists the same as no status |
| MushroomQueries.FindById | src/lib/mushroomQueries.ts:73 | the lookup finds the first entry with that id, and finds nothing exactly when no entry has it |
| MushroomQueries.ByIdWithHandle | src/lib/mushroomQueries.ts:72-81 | definition only (`getMushroomById` once the handle is known); its properties are stated by `FallbackLookupById` and `LookupFailureFallsBack` |
| MushroomQueries.FindByDistinctId | src/lib/mushroomQueries.ts:73 | when ids are distinct, looking up an entry's id finds that entry |
| MushroomQueries.FallbackLookupById | src/lib/mushroomQueries.ts:72-74 | without a store: each fallback entry is found by its id and by `toId` of its scientific name; an unknown id gives null |
| MushroomQueries.LookupFailureFallsBack | src/lib/mushroomQueries.ts:76-81 | when `findUnique` throws, the lookup is the same one the no-store path gives |
| MushroomQueries.ListMushrooms | src/lib/mushroomQueries.ts:27-68 | resolves the handle through the memo (and updates the memo as `getPrismaOptional` does), then lists through that handle over the fallback dataset |
| MushroomQueries.GetMushroomById | src/lib/mushroomQueries.ts:70-82 | resolves the handle through the memo (and updates the memo as `getPrismaOptional` does), then looks up through that handle |
| ChampignonsPage.GetFirstSearchParam | src/app/champignons/page.tsx:14-20 | an absent or empty string gives the default; a list gives its first entry, and an empty list gives the default |
| ChampignonsPage.FirstSearchParamIsSupplied | src/app/champignons/page.tsx:14-20 | the result is the default or one of the supplied strings |
| ChampignonsPage.EmptyFirstEntryIsKept | src/app/champignons/page.tsx:18-19 | an empty string is replaced by the default, but an empty first entry of a list is kept |
| ChampignonsPage.PageFilters | src/app/champignons/page.tsx:43-50 | the query is the first `q` (empty by default); the status is null exactly when the first `status` is empty, and is otherwise passed on unchanged |
| ChampignonsPage.StatusLinkSelectsStatus | src/app/champignons/page.tsx:45-50 | a `?status=<code>` link filters on exactly that status |
| ChampignonsPage.BarePageListsWholeFallback | src/app/champignons/page.tsx:43-50 | without search parameters and without a store, the page lists a permutation of the whole fallback dataset, whatever the comparator |
| ChampignonsPage.ToStatusLabel | src/app/champignons/page.tsx:22-27 | definition only (the three labels and `Inconnu`); its properties are stated by `UnknownLabelForEveryOtherValue` and `LabelPartitionsByDisplayedStatus` |
| ChampignonsPage.StatusBadgeClasses | src/app/champignons/page.tsx:29-40 | definition only (the four class strings, copied from the source); its properties are stated by `BadgePartitionsByDisplayedStatus` and `LabelAndBadgeAgree` |
| ChampignonsPage.DisplayedStatusOfCode | src/app/champignons/page.tsx:22-27 | each code is displayed as its own status; any other value is displayed as unknown |
| ChampignonsPage.UnknownLabelForEveryOtherValue | src/app/champignons/page.tsx:22-27 | the label is `Inconnu` exactly when the value is not one of the three known codes, so `inconnu` and every unrecognised value get it; the codes `comestible`, `toxique`, `non_comestible` and `inconnu` are labelled `Comestible`, `Toxique`, `Non comestible` and `Inconnu` |
| ChampignonsPage.LabelPartitionsByDisplayedStatus | src/app/champignons/page.tsx:22-27 | two values get the same label exactly when they are displayed as the same status |
| ChampignonsPage.BadgePartitionsByDisplayedStatus | src/app/champignons/page.tsx:29-40 | two values get the same badge classes exactly when they are displayed as the same status (the four badges are distinct) |
| ChampignonsPage.LabelAndBadgeAgree | src/app/champignons/page.tsx:22-40 | two values share a label exactly when they share a badge |

## Left out

- Unicode NFKD decomposition (`normalize("NFKD")`) is not modelled. `ToId` takes a string that is already decomposed, while the stripping of combining marks U+0300..U+036F is modelled. The fallback scientific names are ASCII, and NFKD leaves ASCII unchanged.
- JsString.ToLowerCase: `toLowerCase` is modelled for ASCII `A-Z` and for the Latin-1 capitals U+00C0..U+00DE except U+00D7. Every other character is left unchanged, and the full Unicode case mapping is not modelled. This affects `ToId`, `MatchesQuery` and `NormalizeEdibilityStatus`: their case-insensitivity is relative to this table. For example, JavaScript lower-cases `ŒUF` to `œuf`, so the source matches a field `œuf` with the query `ŒUF`, and the model does not.
- Mushrooms.FallbackMushrooms: the ids are written out as literals. `FallbackIdIsSlugOfScientificName` proves that each one equals `toId` of its scientific name, as the source computes them.
- MushroomQueries.SortByCommonNameFr: French collation is an abstract comparison that is assumed to be a total preorder. Its tables are not modelled. Sortedness and permutation are proved; stability (`Array.prototype.sort` keeps equal elements in order) is built into the insertion sort but not stated as a lemma.
- MushroomQueries.ListWithHandle takes the dataset it falls back to as a parameter. `ListMushrooms` passes `fallbackMushrooms` for it.
- The store (Prisma over better-sqlite3 or pg): the meaning of `findMany`, `findUnique`, `contains`, `mode: "insensitive"` and `orderBy` is not modelled. Their answers, or the errors they throw, are parameters. The model proves which arguments are sent and what is done with the answer. So the model does not show that the SQLite store's case-sensitive `contains` can return fewer rows than `matchesQuery` on the fallback dataset.
- Prisma.CreateAdapter: `path.resolve(process.cwd(), …)` is not modelled. The SQLite file adapter keeps the path with `file:` removed, unresolved.
- Prisma.GetPrismaOptional: a failure while building the client is not modelled. That covers a failing `import("@prisma/client")` and a throwing `new PrismaClientConstructor(…)`, `PrismaBetterSqlite3` or `pg.Pool`. Such a failure makes the memoised promise reject, and the memo keeps the rejected promise. `listMushrooms` and `getMushroomById` await it outside their `try` (src/lib/mushroomQueries.ts:28 and :71), so from then on both reject on every call that resolves a URL, with no fallback to the dataset. A call that resolves no URL still gets no client before the memo is read (src/lib/prisma.ts:60-61) and is served from the dataset. The model assumes the import and the constructors succeed; only whether the module exports `PrismaClient` varies.
- Prisma.GetPrismaOptional: the memo stores the value the promise settles to, not a promise. Interleaving of concurrent calls between the store and the `await` is not modelled; the calls run one after another.
- MushroomQueries.GetContainsFilter: it re-reads the environment on each call, while the client stays memoised. The model states this mismatch in `MemoisedSqliteClientGetsInsensitiveMode` but not its effect: what an SQLite store does with `mode: "insensitive"` is not modelled.
- MushroomQueries.IsSqliteDatabaseUrl: `getIsSqliteDatabaseUrl`'s `!databaseUrl` branch treats an empty URL like a missing one. `DatabaseUrlOptional` never returns an empty URL, so the model keeps only the missing-URL case.
- The page's rendering (JSX markup, links, metadata), the other pages and API routes, photo upload, the seed script and the Prisma schema are not modelled. They are outside this core.

