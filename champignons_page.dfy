/**
 * The catalogue page: how its search parameters become the filters of the
 * list, and how a status code is shown as a label and a badge.
 */
module ChampignonsPage {
  import opened Options
  import opened JsString
  import opened Mushrooms
  import opened Prisma
  import opened MushroomQueries

  /** One search parameter as the framework hands it over: a string, or every value of a repeated key. */
  datatype SearchParamValue = One(value: string) | Many(values: seq<string>)

  /** The resolved `searchParams`; an undefined value is an absent key. */
  type SearchParams = map<string, SearchParamValue>

  /**
   * `getFirstSearchParam(value, defaultValue)`: an absent or empty string
   * gives the default, a list gives its first entry (even an empty one),
   * and only an empty list falls back to the default.
   */
  function GetFirstSearchParam(value: Option<SearchParamValue>, defaultValue: string): (r: string)
    ensures value.None? ==> r == defaultValue
    ensures value.Some? && value.value.One? ==>
      r == (if value.value.value == "" then defaultValue else value.value.value)
    ensures value.Some? && value.value.Many? ==>
      r == (if value.value.values == [] then defaultValue else value.value.values[0])
  {
    match value
    case None => defaultValue
    case Some(One(s)) => if s == "" then defaultValue else s
    case Some(Many(values)) => if |values| > 0 then values[0] else defaultValue
  }

  /** The result is the default or one of the strings supplied. */
  lemma FirstSearchParamIsSupplied(value: Option<SearchParamValue>, defaultValue: string)
    ensures var r := GetFirstSearchParam(value, defaultValue);
      || r == defaultValue
      || (value.Some? && value.value.One? && r == value.value.value)
      || (value.Some? && value.value.Many? && r in value.value.values)
  {
  }

  /** An empty string is replaced by the default, but an empty first entry of a list is kept. */
  lemma EmptyFirstEntryIsKept(rest: seq<string>, defaultValue: string)
    requires defaultValue != ""
    ensures GetFirstSearchParam(Some(One("")), defaultValue) == defaultValue
    ensures GetFirstSearchParam(Some(Many([""] + rest)), defaultValue) == ""
  {
  }

  function Lookup(params: SearchParams, key: string): Option<SearchParamValue> {
    if key in params then Some(params[key]) else None
  }

  /**
   * The filters the page passes to `listMushrooms`: the first `q` as the
   * query, and the first `status` when it is not empty, null otherwise.
   */
  function PageFilters(searchParams: Option<SearchParams>): (f: MushroomFilters)
    ensures f.query == Some(GetFirstSearchParam(Lookup(searchParams.GetOr(map[]), "q"), ""))
    ensures var status := GetFirstSearchParam(Lookup(searchParams.GetOr(map[]), "status"), "");
      && (f.edibilityStatus.None? <==> status == "")
      && (f.edibilityStatus.Some? ==> f.edibilityStatus.value == status)
  {
    var params := searchParams.GetOr(map[]);
    var query := GetFirstSearchParam(Lookup(params, "q"), "");
    var status := GetFirstSearchParam(Lookup(params, "status"), "");
    MushroomFilters(Some(query), if |status| > 0 then Some(status) else None)
  }

  /** A status link `?status=<code>` filters the list on exactly that status. */
  lemma StatusLinkSelectsStatus(st: EdibilityStatus, params: SearchParams)
    requires "status" in params && params["status"] == One(Code(st))
    ensures NormalizeEdibilityStatus(PageFilters(Some(params)).edibilityStatus) == Some(st)
  {
    NormalizeCodeIsIdentity(st);
  }

  /** The page without search parameters and without a store lists the whole fallback dataset. */
  lemma BarePageListsWholeFallback(fallback: seq<Mushroom>, env: Env, collate: Collation,
                                   findMany: FindManyArgs -> StoreOutcome<seq<Mushroom>>)
    ensures multiset(ListWithHandle(NoStore, fallback, env, PageFilters(None), collate, findMany)) ==
      multiset(fallback)
  {
    var f := PageFilters(None);
    assert f == MushroomFilters(Some(""), None);
    assert Trim("") == "";
    UnfilteredListIsWholeDataset(fallback, "", collate);
  }

  // ---------------------------------------------------------------------
  // Status presentation

  /** `toStatusLabel(value)` */
  function ToStatusLabel(value: string): string {
    if value == "comestible" then "Comestible"
    else if value == "toxique" then "Toxique"
    else if value == "non_comestible" then "Non comestible"
    else "Inconnu"
  }

  /** `statusBadgeClasses(value)` */
  function StatusBadgeClasses(value: string): string {
    if value == "comestible" then
      "border-emerald-500/20 bg-emerald-500/10 text-emerald-700 dark:text-emerald-300"
    else if value == "toxique" then
      "border-red-500/20 bg-red-500/10 text-red-700 dark:text-red-300"
    else if value == "non_comestible" then
      "border-amber-500/20 bg-amber-500/10 text-amber-800 dark:text-amber-300"
    else
      "border-zinc-500/20 bg-zinc-500/10 text-zinc-700 dark:text-zinc-300"
  }

  /** The status a value is displayed as: one of the three recognised codes, or unknown. */
  function DisplayedStatus(value: string): EdibilityStatus {
    if value == "comestible" then Comestible
    else if value == "toxique" then Toxique
    else if value == "non_comestible" then NonComestible
    else Inconnu
  }

  /** Every status code is displayed as its own status; any other value is displayed as unknown. */
  lemma DisplayedStatusOfCode(st: EdibilityStatus, value: string)
    ensures DisplayedStatus(Code(st)) == st
    ensures (forall s :: value != Code(s)) ==> DisplayedStatus(value) == Inconnu
  {
    if forall s :: value != Code(s) {
      assert value != Code(Comestible) && value != Code(Toxique) && value != Code(NonComestible);
    }
  }

  /**
   * The three known codes are labelled as themselves; every other value,
   * `inconnu` included, is labelled unknown.
   */
  lemma UnknownLabelForEveryOtherValue(value: string)
    ensures ToStatusLabel(value) == "Inconnu" <==> forall st :: st != Inconnu ==> value != Code(st)
    ensures ToStatusLabel(Code(Comestible)) == "Comestible"
    ensures ToStatusLabel(Code(Toxique)) == "Toxique"
    ensures ToStatusLabel(Code(NonComestible)) == "Non comestible"
    ensures ToStatusLabel(Code(Inconnu)) == "Inconnu"
  {
    if forall st :: st != Inconnu ==> value != Code(st) {
      assert value != Code(Comestible) && value != Code(Toxique) && value != Code(NonComestible);
    }
  }

  /**
   * The length of each badge's class list. The four lengths differ, so the
   * partition proofs below tell badges apart by length rather than by
   * comparing the class strings character by character.
   */
  function BadgeWidth(st: EdibilityStatus): nat {
    match st
    case Comestible => 78
    case Toxique => 62
    case NonComestible => 70
    case Inconnu => 66
  }

  lemma ComestibleBadgeWidth(v: string)
    requires v == "comestible"
    ensures |StatusBadgeClasses(v)| == 78
  {
  }

  lemma ToxiqueBadgeWidth(v: string)
    requires v == "toxique"
    ensures |StatusBadgeClasses(v)| == 62
  {
  }

  lemma NonComestibleBadgeWidth(v: string)
    requires v == "non_comestible"
    ensures |StatusBadgeClasses(v)| == 70
  {
  }

  lemma UnknownBadgeWidth(v: string)
    requires DisplayedStatus(v) == Inconnu
    ensures |StatusBadgeClasses(v)| == 66
  {
  }

  lemma BadgeWidthOfDisplayedStatus(v: string)
    ensures |StatusBadgeClasses(v)| == BadgeWidth(DisplayedStatus(v))
  {
    if v == "comestible" {
      ComestibleBadgeWidth(v);
    } else if v == "toxique" {
      ToxiqueBadgeWidth(v);
    } else if v == "non_comestible" {
      NonComestibleBadgeWidth(v);
    } else {
      UnknownBadgeWidth(v);
    }
  }

  lemma BadgeFollowsDisplayedStatus(a: string, b: string)
    requires DisplayedStatus(a) == DisplayedStatus(b)
    ensures StatusBadgeClasses(a) == StatusBadgeClasses(b)
  {
    if a == "comestible" {
      assert b == a;
    } else if a == "toxique" {
      assert b == a;
    } else if a == "non_comestible" {
      assert b == a;
    } else {
      assert b != "comestible" && b != "toxique" && b != "non_comestible";
    }
  }

  /** Two values get the same label exactly when they are displayed as the same status. */
  lemma LabelPartitionsByDisplayedStatus(a: string, b: string)
    ensures ToStatusLabel(a) == ToStatusLabel(b) <==> DisplayedStatus(a) == DisplayedStatus(b)
  {
  }

  /** Two values get the same badge exactly when they are displayed as the same status. */
  lemma BadgePartitionsByDisplayedStatus(a: string, b: string)
    ensures StatusBadgeClasses(a) == StatusBadgeClasses(b) <==> DisplayedStatus(a) == DisplayedStatus(b)
  {
    if DisplayedStatus(a) != DisplayedStatus(b) {
      BadgeWidthOfDisplayedStatus(a);
      BadgeWidthOfDisplayedStatus(b);
      assert |StatusBadgeClasses(a)| != |StatusBadgeClasses(b)|;
    } else {
      BadgeFollowsDisplayedStatus(a, b);
    }
  }

  /** The label and the badge partition the status values alike. */
  lemma LabelAndBadgeAgree(a: string, b: string)
    ensures ToStatusLabel(a) == ToStatusLabel(b) <==> StatusBadgeClasses(a) == StatusBadgeClasses(b)
  {
    LabelPartitionsByDisplayedStatus(a, b);
    BadgePartitionsByDisplayedStatus(a, b);
  }
}
