/**
 * The catalog page's query-string state: reading the filters from the URL
 * search parameters, the edits its controls make to them, and the rule that
 * the router navigates only when the serialized query changes.
 */
module FilmLibrary {
  import opened Wrappers
  import opened JsText
  import opened Collections
  import opened FilmTypes
  import opened FilmUtils
  import opened UrlSearchParams

  const DIRECTOR_KEY: string := "director"
  const PRODUCER_KEY: string := "producer"
  const YEAR_KEY: string := "year"

  // ================================================================ reading the query

  /** `getNumberParam`: the leading integer of the parameter's value, or `default` when there is none. */
  function GetNumberParam(ps: Params, key: string, default: int): (r: int)
    ensures Get(ps, key).None? ==> r == default
  {
    assert "" + "" + "" == "";
    ParseIntNoLeadingInteger("", "", "");
    match ParseInt(Get(ps, key).GetOr(""))
    case Some(v) => v
    case None => default
  }

  /** A parameter holding a written-out non-negative integer reads as that integer. */
  lemma GetNumberParamOfNat(ps: Params, key: string, default: int, n: nat)
    requires Get(ps, key) == Some(NatToString(n))
    ensures GetNumberParam(ps, key, default) == n
  {
    ParseIntOfNatToString(n);
  }

  /** A parameter holding a leading integer reads as that integer, whatever follows it. */
  lemma GetNumberParamLeading(ps: Params, key: string, default: int, ws: string, sign: string, ds: string, rest: string)
    requires Get(ps, key) == Some(ws + sign + ds + rest)
    requires AllWhitespace(ws)
    requires sign == "" || sign == "+" || sign == "-"
    requires ds != [] && AllDigits(ds)
    requires rest == [] || !IsDigit(rest[0])
    ensures GetNumberParam(ps, key, default) == Signed(sign == "-", DigitsValue(ds))
  {
    ParseIntLeading(ws, sign, ds, rest);
  }

  /** A parameter in which no digit follows the white space and the optional sign reads as the default. */
  lemma GetNumberParamNoLeadingInteger(ps: Params, key: string, default: int, ws: string, sign: string, rest: string)
    requires Get(ps, key) == Some(ws + sign + rest)
    requires AllWhitespace(ws)
    requires sign == "" || sign == "+" || sign == "-"
    requires rest == [] || !IsDigit(rest[0])
    requires sign == "" && rest != [] ==> !IsJsWhitespace(rest[0]) && rest[0] != '+' && rest[0] != '-'
    ensures GetNumberParam(ps, key, default) == default
  {
    ParseIntNoLeadingInteger(ws, sign, rest);
  }

  predicate IsSortOption(s: string) {
    s == "title-asc" || s == "release-desc" || s == "rating-desc"
  }

  /** `getSortParam`: the `sort` parameter when it names a known order, `"title-asc"` otherwise. */
  function GetSortParam(ps: Params): (r: string)
    ensures IsSortOption(r)
    ensures Get(ps, "sort").Some? && IsSortOption(Get(ps, "sort").value) ==> r == Get(ps, "sort").value
    ensures !(Get(ps, "sort").Some? && IsSortOption(Get(ps, "sort").value)) ==> r == "title-asc"
  {
    match Get(ps, "sort")
    case Some(v) => if IsSortOption(v) then v else "title-asc"
    case None => "title-asc"
  }

  /** `Math.min(Math.max(value, 0), 100)`. */
  function ClampScore(value: int): (r: int)
    ensures 0 <= r <= 100
    ensures 0 <= value <= 100 ==> r == value
    ensures value < 0 ==> r == 0
    ensures value > 100 ==> r == 100
  {
    Min(Max(value, 0), 100)
  }

  function SearchValue(ps: Params): string {
    Get(ps, "search").GetOr("")
  }

  /** The minimum score the page filters by: the `minScore` parameter clamped into [0, 100], 0 by default. */
  function MinScore(ps: Params): (r: int)
    ensures 0 <= r <= 100
    ensures Get(ps, "minScore").None? ==> r == 0
  {
    ClampScore(GetNumberParam(ps, "minScore", 0))
  }

  /** The filters the page derives from its query, completed by `createDefaultFilters`. */
  function ReadFilters(ps: Params): (f: FilmFilters)
    ensures f.search == SearchValue(ps)
    ensures f.directors == GetAll(ps, DIRECTOR_KEY) && f.producers == GetAll(ps, PRODUCER_KEY) && f.years == GetAll(ps, YEAR_KEY)
    ensures f.minScore == MinScore(ps) && 0 <= f.minScore <= 100
    ensures f.sort == GetSortParam(ps) && IsSortOption(f.sort)
    ensures f.page == 1 && f.pageSize == DEFAULT_PAGE_SIZE
  {
    CreateDefaultFilters(FilterOverrides(
      Some(SearchValue(ps)), Some(GetAll(ps, DIRECTOR_KEY)), Some(GetAll(ps, PRODUCER_KEY)),
      Some(GetAll(ps, YEAR_KEY)), Some(MinScore(ps)), Some(GetSortParam(ps)), None, None))
  }

  /** The films the page shows: filtered by the query, then sorted by it. */
  function VisibleFilms(films: seq<Film>, ps: Params): seq<Film> {
    var filters := ReadFilters(ps);
    ApplySort(ApplyFilters(films, filters), filters.sort)
  }

  /** `hasActiveFilters`. */
  predicate HasActiveFilters(ps: Params) {
    || Trim(SearchValue(ps)) != []
    || GetAll(ps, DIRECTOR_KEY) != []
    || GetAll(ps, PRODUCER_KEY) != []
    || GetAll(ps, YEAR_KEY) != []
    || MinScore(ps) > 0
    || GetSortParam(ps) != "title-asc"
  }

  /** Without active filters the page shows every film, in title order. */
  lemma InactiveShowsAll(films: seq<Film>, ps: Params)
    requires !HasActiveFilters(ps)
    ensures ApplyFilters(films, ReadFilters(ps)) == films
    ensures VisibleFilms(films, ps) == ApplySort(films, "title-asc")
  {
    TrimEmptyIff(SearchValue(ps));
    NoCriteriaKeepsAll(films, ReadFilters(ps));
  }

  // ================================================================ editing the query

  /** What an `updateQuery` callback does to the copied parameters. */
  datatype QueryEdit =
    | SetParam(key: string, value: Option<string>)
    | SetArrayParam(key: string, values: seq<string>)
    | ClearAll

  /** `values.filter(Boolean)`: the non-empty strings, in order. */
  function NonEmpty(values: seq<string>): (r: seq<string>)
    ensures forall v :: v in r <==> v in values && v != ""
  {
    if values == [] then []
    else
      var last := values[|values| - 1];
      var init := values[..|values| - 1];
      assert forall v :: v in values <==> v in init || v == last;
      NonEmpty(init) + (if last != "" then [last] else [])
  }

  /** `filter(Boolean)` keeps the non-empty values in their order, each as often as it occurs. */
  lemma {:induction false} NonEmptyKeepsOrder(values: seq<string>)
    ensures IsSubsequence(NonEmpty(values), values)
    ensures forall v :: v != "" ==> multiset(NonEmpty(values))[v] == multiset(values)[v]
  {
    if values != [] {
      var last := values[|values| - 1];
      var init := values[..|values| - 1];
      assert values == init + [last];
      NonEmptyKeepsOrder(init);
      SubsequenceSnoc(NonEmpty(init), init, last);
      if last == "" {
        assert NonEmpty(values) == NonEmpty(init);
      } else {
        assert NonEmpty(values) == NonEmpty(init) + [last];
      }
    }
  }

  /** The pairs `(key, v)` for each of `values`, appended in order. */
  function AppendAll(ps: Params, key: string, values: seq<string>): Params {
    if values == [] then ps
    else AppendAll(ps, key, values[..|values| - 1]) + [(key, values[|values| - 1])]
  }

  /** The appended values come after the name's earlier values. */
  lemma {:induction false} AppendAllValues(ps: Params, key: string, values: seq<string>)
    ensures GetAll(AppendAll(ps, key, values), key) == GetAll(ps, key) + values
  {
    if values != [] {
      var init := values[..|values| - 1];
      var last := values[|values| - 1];
      var before := AppendAll(ps, key, init);
      calc {
        GetAll(AppendAll(ps, key, values), key);
        GetAll(before + [(key, last)], key);
        { GetAllAppend(before, key, last, key); }
        GetAll(before, key) + [last];
        { AppendAllValues(ps, key, init); }
        (GetAll(ps, key) + init) + [last];
        { SnocAssoc(GetAll(ps, key), init, last, values); }
        GetAll(ps, key) + values;
      }
    }
  }

  lemma SnocAssoc<T>(g: seq<T>, init: seq<T>, last: T, values: seq<T>)
    requires values == init + [last]
    ensures (g + init) + [last] == g + values
  {
  }

  /** Appending pairs of one name leaves the values of every other name alone. */
  lemma {:induction false} AppendAllOthers(ps: Params, key: string, values: seq<string>, other: string)
    requires other != key
    ensures GetAll(AppendAll(ps, key, values), other) == GetAll(ps, other)
  {
    if values != [] {
      var init := values[..|values| - 1];
      AppendAllOthers(ps, key, init, other);
      GetAllAppend(AppendAll(ps, key, init), key, values[|values| - 1], other);
    }
  }

  /** One more value: `filter` keeps it when non-empty, and `append` adds its pair. */
  lemma AppendOne(ps: Params, key: string, values: seq<string>, i: nat)
    requires i < |values|
    ensures NonEmpty(values[..i + 1]) == NonEmpty(values[..i]) + (if values[i] != "" then [values[i]] else [])
    ensures AppendAll(ps, key, NonEmpty(values[..i]) + [values[i]]) == AppendAll(ps, key, NonEmpty(values[..i])) + [(key, values[i])]
  {
    assert values[..i + 1][..i] == values[..i];
    var x := NonEmpty(values[..i]) + [values[i]];
    assert x[..|x| - 1] == NonEmpty(values[..i]);
  }

  /** The six parameters "clear all" removes. */
  const FILTER_KEYS: seq<string> := ["search", DIRECTOR_KEY, PRODUCER_KEY, YEAR_KEY, "minScore", "sort"]

  /** `params.delete(k)` for each of `keys` in turn. */
  function DeletedAll(ps: Params, keys: seq<string>): Params
    decreases |keys|
  {
    if keys == [] then ps else DeletedAll(Deleted(ps, keys[0]), keys[1..])
  }

  /** After the deletions no pair carries any of the names. */
  lemma {:induction false} DeletedAllRemoves(ps: Params, keys: seq<string>, k: string)
    requires k in keys
    ensures Get(DeletedAll(ps, keys), k).None? && GetAll(DeletedAll(ps, keys), k) == []
    decreases |keys|
  {
    if k == keys[0] {
      DeletedAllKeepsGone(Deleted(ps, keys[0]), keys[1..], k);
    } else {
      DeletedAllRemoves(Deleted(ps, keys[0]), keys[1..], k);
    }
  }

  lemma {:induction false} DeletedAllKeepsGone(ps: Params, keys: seq<string>, k: string)
    requires Get(ps, k).None?
    ensures Get(DeletedAll(ps, keys), k).None? && GetAll(DeletedAll(ps, keys), k) == []
    decreases |keys|
  {
    if keys != [] {
      if k != keys[0] {
        DeletedKeepsOthers(ps, keys[0], k);
      }
      DeletedAllKeepsGone(Deleted(ps, keys[0]), keys[1..], k);
    }
  }

  lemma {:induction false} DeletedAllKeepsOthers(ps: Params, keys: seq<string>, other: string)
    requires other !in keys
    ensures GetAll(DeletedAll(ps, keys), other) == GetAll(ps, other)
    decreases |keys|
  {
    if keys != [] {
      DeletedKeepsOthers(ps, keys[0], other);
      DeletedAllKeepsOthers(Deleted(ps, keys[0]), keys[1..], other);
    }
  }

  /** The parameters after an edit. */
  function Edited(ps: Params, edit: QueryEdit): Params {
    match edit
    case SetParam(key, value) =>
      if value.None? || value.value == "" then Deleted(ps, key) else WithValue(ps, key, value.value)
    case SetArrayParam(key, values) => AppendAll(Deleted(ps, key), key, NonEmpty(values))
    case ClearAll => DeletedAll(ps, FILTER_KEYS)
  }

  /** `setParam`: a missing or empty value removes the name, any other value becomes its only value; other names keep theirs. */
  lemma SetParamEffect(ps: Params, key: string, value: Option<string>, other: string)
    ensures value.None? || value.value == "" ==> Get(Edited(ps, SetParam(key, value)), key).None?
    ensures value.Some? && value.value != "" ==>
      Get(Edited(ps, SetParam(key, value)), key) == value && GetAll(Edited(ps, SetParam(key, value)), key) == [value.value]
    ensures other != key ==> GetAll(Edited(ps, SetParam(key, value)), other) == GetAll(ps, other)
  {
    if other != key {
      if value.None? || value.value == "" {
        DeletedKeepsOthers(ps, key, other);
      } else {
        WithValueKeepsOthers(ps, key, value.value, other);
      }
    }
  }

  /** `setArrayParam`: the name's values become the non-empty `values`, in order; other names keep theirs. */
  lemma SetArrayParamEffect(ps: Params, key: string, values: seq<string>, other: string)
    ensures GetAll(Edited(ps, SetArrayParam(key, values)), key) == NonEmpty(values)
    ensures other != key ==> GetAll(Edited(ps, SetArrayParam(key, values)), other) == GetAll(ps, other)
  {
    AppendAllValues(Deleted(ps, key), key, NonEmpty(values));
    if other != key {
      AppendAllOthers(Deleted(ps, key), key, NonEmpty(values), other);
      DeletedKeepsOthers(ps, key, other);
    }
  }

  /** `handleClearAll`: no filter is active afterwards and every other parameter keeps its values. */
  lemma ClearAllEffect(ps: Params, other: string)
    ensures !HasActiveFilters(Edited(ps, ClearAll))
    ensures other !in FILTER_KEYS ==> GetAll(Edited(ps, ClearAll), other) == GetAll(ps, other)
  {
    var r := Edited(ps, ClearAll);
    DeletedAllRemoves(ps, FILTER_KEYS, "search");
    DeletedAllRemoves(ps, FILTER_KEYS, DIRECTOR_KEY);
    DeletedAllRemoves(ps, FILTER_KEYS, PRODUCER_KEY);
    DeletedAllRemoves(ps, FILTER_KEYS, YEAR_KEY);
    DeletedAllRemoves(ps, FILTER_KEYS, "minScore");
    DeletedAllRemoves(ps, FILTER_KEYS, "sort");
    assert SearchValue(r) == "";
    TrimEmptyIff("");
    assert MinScore(r) == 0;
    assert GetSortParam(r) == "title-asc";
    if other !in FILTER_KEYS {
      DeletedAllKeepsOthers(ps, FILTER_KEYS, other);
    }
  }

  /** `handleSearchChange`: blank text removes `search`, other text is kept as typed. */
  function SearchEdit(value: string): QueryEdit {
    SetParam("search", if Trim(value) != [] then Some(value) else None)
  }

  /** `handleMinScoreChange`: the clamped score as text, removed when it is 0. */
  function MinScoreEdit(value: int): QueryEdit {
    var clamped := ClampScore(value);
    SetParam("minScore", if clamped > 0 then Some(NatToString(clamped)) else None)
  }

  /** `handleSortChange`: the default order removes `sort`. */
  function SortEdit(value: string): QueryEdit {
    SetParam("sort", if value == "title-asc" then None else Some(value))
  }

  /**
   * `handleToggle`: the selection as a `Set`, with `value` deleted when present
   * and added at the end otherwise.
   */
  function Toggled(selected: seq<string>, value: string): (r: seq<string>)
    ensures NoDuplicates(r)
    ensures forall x :: x in r <==> (x in selected && x != value) || (x == value && value !in selected)
    ensures value in selected ==> IsSubsequence(r, Distinct(selected))
    ensures value !in selected ==> r != [] && r[|r| - 1] == value && r[..|r| - 1] == Distinct(selected)
  {
    var chosen := Distinct(selected);
    if value in chosen then Remove(chosen, value)
    else
      assert NoDuplicates(chosen + [value]);
      chosen + [value]
  }

  function ToggleEdit(selected: seq<string>, value: string, key: string): QueryEdit {
    SetArrayParam(key, Toggled(selected, value))
  }

  /** Toggling the same value twice restores which values are selected. */
  lemma ToggleTwice(selected: seq<string>, value: string)
    ensures forall x :: x in Toggled(Toggled(selected, value), value) <==> x in selected
  {
  }

  /** The search box reads back what was typed, or nothing when it was blank. */
  lemma SearchRoundTrip(ps: Params, value: string)
    ensures SearchValue(Edited(ps, SearchEdit(value))) == if Trim(value) != [] then value else ""
  {
    TrimEmptyIff(value);
    if Trim(value) != [] {
      assert value != "";
    }
    SetParamEffect(ps, "search", if Trim(value) != [] then Some(value) else None, "search");
  }

  /** The score slider reads back the clamped score. */
  lemma MinScoreRoundTrip(ps: Params, value: int)
    ensures MinScore(Edited(ps, MinScoreEdit(value))) == ClampScore(value)
  {
    var clamped := ClampScore(value);
    var v := if clamped > 0 then Some(NatToString(clamped)) else None;
    SetParamEffect(ps, "minScore", v, "minScore");
    if clamped > 0 {
      GetNumberParamOfNat(Edited(ps, MinScoreEdit(value)), "minScore", 0, clamped);
    }
  }

  /** The sort menu reads back any known order. */
  lemma SortRoundTrip(ps: Params, value: string)
    requires IsSortOption(value)
    ensures GetSortParam(Edited(ps, SortEdit(value))) == value
  {
    SetParamEffect(ps, "sort", if value == "title-asc" then None else Some(value), "sort");
  }

  /** A toggle changes one selection list and leaves every other name's values alone. */
  lemma ToggleEffect(ps: Params, selected: seq<string>, value: string, key: string, other: string)
    ensures GetAll(Edited(ps, ToggleEdit(selected, value, key)), key) == NonEmpty(Toggled(selected, value))
    ensures other != key ==> GetAll(Edited(ps, ToggleEdit(selected, value, key)), other) == GetAll(ps, other)
  {
    SetArrayParamEffect(ps, key, Toggled(selected, value), other);
  }

  // ================================================================ applying edits

  /** The `apply` callbacks of `setParam`, `setArrayParam` and `handleClearAll`, run on the copy. */
  method ApplyEdit(params: SearchParams, edit: QueryEdit)
    modifies params
    ensures params.pairs == Edited(old(params.pairs), edit)
  {
    match edit
    case SetParam(key, value) =>
      if value.None? || value.value == "" {
        params.Delete(key);
      } else {
        params.Set(key, value.value);
      }
    case SetArrayParam(key, values) => ReplaceValues(params, key, values);
    case ClearAll => DeleteFilterKeys(params);
  }

  /** The callback of `setArrayParam`: delete the name, then append each non-empty value. */
  method ReplaceValues(params: SearchParams, key: string, values: seq<string>)
    modifies params
    ensures params.pairs == AppendAll(Deleted(old(params.pairs), key), key, NonEmpty(values))
  {
    params.Delete(key);
    AppendNonEmpty(params, key, values);
  }

  /** The `forEach` of `setArrayParam`: append `(key, v)` for each non-empty `v`, in order. */
  method AppendNonEmpty(params: SearchParams, key: string, values: seq<string>)
    modifies params
    ensures params.pairs == AppendAll(old(params.pairs), key, NonEmpty(values))
  {
    ghost var start := params.pairs;
    var i := 0;
    while i < |values|
      invariant 0 <= i <= |values|
      invariant params.pairs == AppendAll(start, key, NonEmpty(values[..i]))
    {
      AppendOne(start, key, values, i);
      if values[i] != "" {
        params.Append(key, values[i]);
      } else {
        assert NonEmpty(values[..i + 1]) == NonEmpty(values[..i]);
      }
      i := i + 1;
    }
    assert values[..i] == values;
  }

  /** The callback of `handleClearAll`. */
  method DeleteFilterKeys(params: SearchParams)
    modifies params
    ensures params.pairs == DeletedAll(old(params.pairs), FILTER_KEYS)
  {
    ghost var goal := DeletedAll(params.pairs, FILTER_KEYS);
    ghost var rest := FILTER_KEYS;
    params.Delete("search");
    rest := rest[1..];
    assert DeletedAll(params.pairs, rest) == goal;
    params.Delete(DIRECTOR_KEY);
    rest := rest[1..];
    assert DeletedAll(params.pairs, rest) == goal;
    params.Delete(PRODUCER_KEY);
    rest := rest[1..];
    assert DeletedAll(params.pairs, rest) == goal;
    params.Delete(YEAR_KEY);
    rest := rest[1..];
    assert DeletedAll(params.pairs, rest) == goal;
    params.Delete("minScore");
    rest := rest[1..];
    assert DeletedAll(params.pairs, rest) == goal;
    params.Delete("sort");
    rest := rest[1..];
    assert rest == [];
  }

  /** The URL `router.replace` receives: the path, with `?` and the query when there is one. */
  function Href(pathname: string, query: string): string {
    if query != "" then pathname + "?" + query else pathname
  }

  /** The page's view of the router: the current path, query, and the URLs replaced so far. */
  class Library {
    const pathname: string
    var query: Params
    var navigations: seq<string>

    constructor (pathname: string, query: Params)
      ensures this.pathname == pathname && this.query == query && navigations == []
    {
      this.pathname := pathname;
      this.query := query;
      navigations := [];
    }

    /**
     * `updateQuery`: apply the edit to a copy of the query and navigate to the
     * result only when its serialization differs from the current one, which
     * happens exactly when the parameters changed.
     */
    method UpdateQuery(edit: QueryEdit) returns (navigated: bool)
      modifies this
      ensures navigated <==> Edited(old(query), edit) != old(query)
      ensures query == Edited(old(query), edit)
      ensures navigations == old(navigations) + (if navigated then [Href(pathname, Serialize(query))] else [])
    {
      var current := Serialize(query);
      var params := new SearchParams(current, query);
      ApplyEdit(params, edit);
      var next := params.ToString();
      SerializeInjective(params.pairs, query);
      navigated := next != current;
      if navigated {
        navigations := navigations + [Href(pathname, next)];
        query := params.pairs;
      }
    }

    method HandleSearchChange(value: string) returns (navigated: bool)
      modifies this
      ensures query == Edited(old(query), SearchEdit(value))
      ensures navigated <==> query != old(query)
      ensures navigations == old(navigations) + (if navigated then [Href(pathname, Serialize(query))] else [])
      ensures SearchValue(query) == if Trim(value) != [] then value else ""
    {
      SearchRoundTrip(query, value);
      navigated := UpdateQuery(SearchEdit(value));
    }

    method HandleToggle(selected: seq<string>, value: string, key: string) returns (navigated: bool)
      modifies this
      ensures query == Edited(old(query), ToggleEdit(selected, value, key))
      ensures navigated <==> query != old(query)
      ensures navigations == old(navigations) + (if navigated then [Href(pathname, Serialize(query))] else [])
      ensures GetAll(query, key) == NonEmpty(Toggled(selected, value))
    {
      ToggleEffect(query, selected, value, key, key);
      navigated := UpdateQuery(ToggleEdit(selected, value, key));
    }

    method HandleMinScoreChange(value: int) returns (navigated: bool)
      modifies this
      ensures query == Edited(old(query), MinScoreEdit(value))
      ensures navigated <==> query != old(query)
      ensures navigations == old(navigations) + (if navigated then [Href(pathname, Serialize(query))] else [])
      ensures MinScore(query) == ClampScore(value)
    {
      MinScoreRoundTrip(query, value);
      navigated := UpdateQuery(MinScoreEdit(value));
    }

    method HandleSortChange(value: string) returns (navigated: bool)
      requires IsSortOption(value)
      modifies this
      ensures query == Edited(old(query), SortEdit(value))
      ensures navigated <==> query != old(query)
      ensures navigations == old(navigations) + (if navigated then [Href(pathname, Serialize(query))] else [])
      ensures GetSortParam(query) == value
    {
      SortRoundTrip(query, value);
      navigated := UpdateQuery(SortEdit(value));
    }

    method HandleClearAll() returns (navigated: bool)
      modifies this
      ensures query == Edited(old(query), ClearAll)
      ensures navigated <==> query != old(query)
      ensures navigations == old(navigations) + (if navigated then [Href(pathname, Serialize(query))] else [])
      ensures !HasActiveFilters(query)
    {
      ClearAllEffect(query, "");
      navigated := UpdateQuery(ClearAll);
    }
  }
}
