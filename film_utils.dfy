/**
 * The catalog engine: facet extraction, multi-criteria filtering, the three
 * sort orders, clamped pagination and default filters. Everything here is a
 * pure function of its arguments; nothing is modified in place.
 */
module FilmUtils {
  import opened Wrappers
  import opened JsText
  import opened Collections
  import opened StableSort
  import opened FilmTypes

  const DEFAULT_PAGE_SIZE: int := 12

  /** The RT score as an integer, 0 when the text holds no leading integer. */
  function NormalizeScore(score: string): int {
    ParseIntOrZero(score)
  }

  /** The release year as an integer, 0 when the text holds no leading integer. */
  function ParseYear(value: string): int {
    ParseIntOrZero(value)
  }

  /**
   * Both parsers read the leading decimal integer: white space, an optional
   * sign, the digits `ds`, then anything that is not a digit.
   */
  lemma ScoreAndYearReadLeadingInteger(ws: string, sign: string, ds: string, rest: string)
    requires AllWhitespace(ws)
    requires sign == "" || sign == "+" || sign == "-"
    requires ds != [] && AllDigits(ds)
    requires rest == [] || !IsDigit(rest[0])
    ensures NormalizeScore(ws + sign + ds + rest) == Signed(sign == "-", DigitsValue(ds))
    ensures ParseYear(ws + sign + ds + rest) == Signed(sign == "-", DigitsValue(ds))
  {
    ParseIntLeading(ws, sign, ds, rest);
  }

  /** Text in which no digit follows the white space and the optional sign scores 0 and dates to year 0. */
  lemma ScoreAndYearWithoutLeadingInteger(ws: string, sign: string, rest: string)
    requires AllWhitespace(ws)
    requires sign == "" || sign == "+" || sign == "-"
    requires rest == [] || !IsDigit(rest[0])
    requires sign == "" && rest != [] ==> !IsJsWhitespace(rest[0]) && rest[0] != '+' && rest[0] != '-'
    ensures NormalizeScore(ws + sign + rest) == 0 && ParseYear(ws + sign + rest) == 0
  {
    ParseIntNoLeadingInteger(ws, sign, rest);
  }

  // ================================================================ comparators

  /**
   * Lexicographic comparison of two strings by code unit: -1, 0 or 1.
   * This stands for `localeCompare`; ICU collation is not modelled.
   */
  function LexCompare(a: string, b: string): (r: int)
    ensures -1 <= r <= 1
  {
    if a == [] && b == [] then 0
    else if a == [] then -1
    else if b == [] then 1
    else if a[0] < b[0] then -1
    else if a[0] > b[0] then 1
    else LexCompare(a[1..], b[1..])
  }

  lemma {:induction false} LexCompareAntisymmetric(a: string, b: string)
    ensures LexCompare(a, b) == -LexCompare(b, a)
  {
    if a != [] && b != [] && a[0] == b[0] {
      LexCompareAntisymmetric(a[1..], b[1..]);
    }
  }

  lemma {:induction false} LexCompareZeroIffEqual(a: string, b: string)
    ensures LexCompare(a, b) == 0 <==> a == b
  {
    if a != [] && b != [] && a[0] == b[0] {
      LexCompareZeroIffEqual(a[1..], b[1..]);
      assert a == [a[0]] + a[1..] && b == [b[0]] + b[1..];
    }
  }

  lemma {:induction false} LexCompareTransitive(a: string, b: string, c: string)
    requires LexCompare(a, b) <= 0 && LexCompare(b, c) <= 0
    ensures LexCompare(a, c) <= 0
  {
    if a != [] && b != [] && c != [] && a[0] == b[0] && b[0] == c[0] {
      LexCompareTransitive(a[1..], b[1..], c[1..]);
    }
  }

  /** Text order (`a.localeCompare(b)`) as a comparator. */
  function TextOrder(): (string, string) -> int {
    (a: string, b: string) => LexCompare(a, b)
  }

  /** Ascending by parsed year, for the year facet. */
  function YearOrder(): (string, string) -> int {
    (a: string, b: string) => ParseYear(a) - ParseYear(b)
  }

  /** The sort options the catalog offers. */
  datatype SortOption = TitleAsc | ReleaseDesc | RatingDesc

  /**
   * `SORT_COMPARATORS[sort] ?? SORT_COMPARATORS['title-asc']` for keys that
   * are not property names inherited from `Object.prototype`.
   */
  function SortOptionOf(sort: string): SortOption {
    if sort == "release-desc" then ReleaseDesc
    else if sort == "rating-desc" then RatingDesc
    else TitleAsc
  }

  /** Title order, ignoring the case of ASCII letters. */
  function CompareTitles(a: Film, b: Film): int {
    LexCompare(ToLower(a.title), ToLower(b.title))
  }

  /** The comparator behind each sort option. */
  function Comparator(option: SortOption): (Film, Film) -> int {
    match option
    case TitleAsc => (a: Film, b: Film) => CompareTitles(a, b)
    case ReleaseDesc => (a: Film, b: Film) => ParseYear(b.release_date) - ParseYear(a.release_date)
    case RatingDesc => (a: Film, b: Film) => NormalizeScore(b.rt_score) - NormalizeScore(a.rt_score)
  }

  lemma TextOrderIsTotalPreorder()
    ensures TotalPreorder(TextOrder())
  {
    forall a, b ensures LexCompare(a, b) <= 0 || LexCompare(b, a) <= 0 {
      LexCompareAntisymmetric(a, b);
    }
    forall a, b, c | LexCompare(a, b) <= 0 && LexCompare(b, c) <= 0 ensures LexCompare(a, c) <= 0 {
      LexCompareTransitive(a, b, c);
    }
  }

  /** Every comparator of the catalog orders films totally (ties allowed). */
  lemma ComparatorIsTotalPreorder(option: SortOption)
    ensures TotalPreorder(Comparator(option))
  {
    if option == TitleAsc {
      var cmp := Comparator(option);
      forall a, b ensures cmp(a, b) <= 0 || cmp(b, a) <= 0 {
        LexCompareAntisymmetric(ToLower(a.title), ToLower(b.title));
      }
      forall a, b, c | cmp(a, b) <= 0 && cmp(b, c) <= 0 ensures cmp(a, c) <= 0 {
        LexCompareTransitive(ToLower(a.title), ToLower(b.title), ToLower(c.title));
      }
    }
  }

  // ================================================================ sorting

  /** `[...films].sort(comparator)`: a sorted copy; the input is a value and stays as it was. */
  function ApplySort(films: seq<Film>, sort: string): seq<Film> {
    SortWith(films, Comparator(SortOptionOf(sort)))
  }

  /**
   * The sorted copy is a permutation of the input, ordered by the selected
   * comparator (title-asc for any other key that is not an inherited
   * `Object.prototype` property name), with films that compare equal
   * left in their input order; sorting again changes nothing.
   */
  lemma ApplySortCorrect(films: seq<Film>, sort: string)
    ensures multiset(ApplySort(films, sort)) == multiset(films)
    ensures SortedBy(ApplySort(films, sort), Comparator(SortOptionOf(sort)))
    ensures forall e :: SameKey(ApplySort(films, sort), Comparator(SortOptionOf(sort)), e)
                        == SameKey(films, Comparator(SortOptionOf(sort)), e)
    ensures ApplySort(ApplySort(films, sort), sort) == ApplySort(films, sort)
  {
    ComparatorIsTotalPreorder(SortOptionOf(sort));
    SortWithCorrect(films, Comparator(SortOptionOf(sort)));
    SortWithIdempotent(films, Comparator(SortOptionOf(sort)));
  }

  /** What each order means for neighbouring positions of the result. */
  lemma ApplySortOrder(films: seq<Film>, sort: string, i: int, j: int)
    requires 0 <= i < j < |films|
    ensures var r := ApplySort(films, sort);
      |r| == |films| &&
      match SortOptionOf(sort)
      case ReleaseDesc => ParseYear(r[i].release_date) >= ParseYear(r[j].release_date)
      case RatingDesc => NormalizeScore(r[i].rt_score) >= NormalizeScore(r[j].rt_score)
      case TitleAsc => LexCompare(ToLower(r[i].title), ToLower(r[j].title)) <= 0
  {
    ApplySortCorrect(films, sort);
    var r := ApplySort(films, sort);
    assert |r| == |multiset(r)| == |multiset(films)| == |films|;
    assert Comparator(SortOptionOf(sort))(r[i], r[j]) <= 0;
  }

  // ================================================================ facets

  /** The three facet fields of a film. */
  datatype Facet = Director | Producer | ReleaseDate

  function FacetOf(film: Film, facet: Facet): string {
    match facet
    case Director => film.director
    case Producer => film.producer
    case ReleaseDate => film.release_date
  }

  /** The non-empty values of one facet, in film order (`if (film.director) ...`). */
  function FacetValues(films: seq<Film>, facet: Facet): (r: seq<string>)
    ensures forall v :: v in r <==> v != "" && exists i :: 0 <= i < |films| && FacetOf(films[i], facet) == v
  {
    if films == [] then []
    else
      var rest := FacetValues(films[1..], facet);
      assert forall i :: 1 <= i < |films| ==> films[i] == films[1..][i - 1];
      assert forall i :: 0 <= i < |films[1..]| ==> films[1..][i] == films[i + 1];
      var v := FacetOf(films[0], facet);
      if v != "" then [v] + rest else rest
  }

  /** The values of a catalog split in two are the values of the first part followed by those of the second. */
  lemma {:induction false} FacetValuesAppend(a: seq<Film>, b: seq<Film>, facet: Facet)
    ensures FacetValues(a + b, facet) == FacetValues(a, facet) + FacetValues(b, facet)
  {
    if a != [] {
      assert (a + b)[0] == a[0] && (a + b)[1..] == a[1..] + b;
      FacetValuesAppend(a[1..], b, facet);
    } else {
      assert a + b == b;
    }
  }

  datatype FilterOptions = FilterOptions(directors: seq<string>, producers: seq<string>, years: seq<string>)

  /**
   * `getFilterOptions`: each facet's values collected into an insertion-ordered
   * set, then sorted (directors and producers as text, years by parsed year).
   */
  function GetFilterOptions(films: seq<Film>): FilterOptions {
    FilterOptions(
      SortWith(Distinct(FacetValues(films, Director)), TextOrder()),
      SortWith(Distinct(FacetValues(films, Producer)), TextOrder()),
      SortWith(Distinct(FacetValues(films, ReleaseDate)), YearOrder()))
  }

  /** A text-sorted facet list holds each distinct non-empty value once, in strictly increasing order. */
  lemma TextFacetCorrect(films: seq<Film>, facet: Facet)
    ensures var r := SortWith(Distinct(FacetValues(films, facet)), TextOrder());
      && NoDuplicates(r)
      && (forall v :: v in r <==> v != "" && exists i :: 0 <= i < |films| && FacetOf(films[i], facet) == v)
      && (forall i, j :: 0 <= i < j < |r| ==> LexCompare(r[i], r[j]) < 0)
  {
    var d := Distinct(FacetValues(films, facet));
    var r := SortWith(d, TextOrder());
    assert multiset(r) == multiset(d) && SortedBy(r, TextOrder()) by {
      TextOrderIsTotalPreorder();
      SortWithCorrect(d, TextOrder());
    }
    NoDuplicatesPermutation(d, r);
    forall v ensures v in r <==> v in d {
      assert v in r <==> v in multiset(r);
    }
    SortedDistinctTextStrict(r);
  }

  /** Without duplicates, text order is strict between any two positions. */
  lemma SortedDistinctTextStrict(r: seq<string>)
    requires NoDuplicates(r) && SortedBy(r, TextOrder())
    ensures forall i, j :: 0 <= i < j < |r| ==> LexCompare(r[i], r[j]) < 0
  {
    forall i, j | 0 <= i < j < |r| ensures LexCompare(r[i], r[j]) < 0 {
      assert TextOrder()(r[i], r[j]) <= 0;
      LexCompareZeroIffEqual(r[i], r[j]);
    }
  }

  /**
   * The facet lists of `getFilterOptions`: distinct non-empty values of each
   * facet; directors and producers strictly increasing as text; years ordered
   * by parsed year, with years that parse alike in order of first appearance.
   */
  lemma GetFilterOptionsCorrect(films: seq<Film>)
    ensures var o := GetFilterOptions(films);
      && NoDuplicates(o.directors) && NoDuplicates(o.producers) && NoDuplicates(o.years)
      && (forall v :: v in o.directors <==> v != "" && exists i :: 0 <= i < |films| && FacetOf(films[i], Director) == v)
      && (forall v :: v in o.producers <==> v != "" && exists i :: 0 <= i < |films| && FacetOf(films[i], Producer) == v)
      && (forall v :: v in o.years <==> v != "" && exists i :: 0 <= i < |films| && FacetOf(films[i], ReleaseDate) == v)
      && (forall i, j :: 0 <= i < j < |o.directors| ==> LexCompare(o.directors[i], o.directors[j]) < 0)
      && (forall i, j :: 0 <= i < j < |o.producers| ==> LexCompare(o.producers[i], o.producers[j]) < 0)
      && (forall i, j :: 0 <= i < j < |o.years| ==> ParseYear(o.years[i]) <= ParseYear(o.years[j]))
      && (forall e :: SameKey(o.years, YearOrder(), e) == SameKey(Distinct(FacetValues(films, ReleaseDate)), YearOrder(), e))
  {
    TextFacetCorrect(films, Director);
    TextFacetCorrect(films, Producer);
    YearFacetCorrect(films);
  }

  lemma YearFacetCorrect(films: seq<Film>)
    ensures var d := Distinct(FacetValues(films, ReleaseDate));
      var y := SortWith(d, YearOrder());
      && NoDuplicates(y)
      && (forall v :: v in y <==> v in d)
      && (forall i, j :: 0 <= i < j < |y| ==> ParseYear(y[i]) <= ParseYear(y[j]))
      && (forall e :: SameKey(y, YearOrder(), e) == SameKey(d, YearOrder(), e))
  {
    var d := Distinct(FacetValues(films, ReleaseDate));
    var y := SortWith(d, YearOrder());
    SortWithCorrect(d, YearOrder());
    NoDuplicatesPermutation(d, y);
    forall v ensures v in y <==> v in d {
      assert v in y <==> v in multiset(y);
    }
    forall i, j | 0 <= i < j < |y| ensures ParseYear(y[i]) <= ParseYear(y[j]) {
      assert YearOrder()(y[i], y[j]) <= 0;
    }
  }

  /**
   * Years that parse alike are listed in the order in which they first appear
   * among the films' release dates (the insertion order of the `Set`, kept by the stable sort).
   */
  lemma YearTiesInFirstAppearanceOrder(films: seq<Film>)
    ensures var f := FacetValues(films, ReleaseDate);
      var y := SortWith(Distinct(f), YearOrder());
      forall i, j :: 0 <= i < j < |y| && ParseYear(y[i]) == ParseYear(y[j]) ==>
        y[i] in f && y[j] in f && FirstIndex(f, y[i]) < FirstIndex(f, y[j])
  {
    var f := FacetValues(films, ReleaseDate);
    var d := Distinct(f);
    var y := SortWith(d, YearOrder());
    YearFacetCorrect(films);
    forall i, j | 0 <= i < j < |y| && ParseYear(y[i]) == ParseYear(y[j])
      ensures y[i] in f && y[j] in f && FirstIndex(f, y[i]) < FirstIndex(f, y[j])
    {
      var e := y[i];
      assert Equivalent(YearOrder(), y[i], e) && Equivalent(YearOrder(), y[j], e);
      var p, q := SameKeyKeepsOrder(y, YearOrder(), e, i, j);
      assert SameKey(y, YearOrder(), e) == SameKey(d, YearOrder(), e);
      var a, b := SameKeyPositions(d, YearOrder(), e, p, q);
      assert y[i] in d && y[j] in d;
    }
  }

  // ================================================================ filtering

  /** The predicate `applyFilters` keeps a film by. */
  predicate Matches(film: Film, filters: FilmFilters) {
    var searchTerm := ToLower(Trim(filters.search));
    && (searchTerm == [] || Includes(ToLower(film.title + " " + film.description), searchTerm))
    && (filters.directors == [] || film.director in filters.directors)
    && (filters.producers == [] || film.producer in filters.producers)
    && (filters.years == [] || film.release_date in filters.years)
    && !(filters.minScore > 0 && NormalizeScore(film.rt_score) < filters.minScore)
  }

  /**
   * `applyFilters`: the films that match, as a subsequence of the input. A film
   * appears in the result exactly as often as in the input when it matches,
   * and not at all otherwise.
   */
  function ApplyFilters(films: seq<Film>, filters: FilmFilters): (r: seq<Film>)
    ensures IsSubsequence(r, films)
    ensures forall f :: f in r <==> f in films && Matches(f, filters)
    ensures forall f :: multiset(r)[f] == if Matches(f, filters) then multiset(films)[f] else 0
  {
    if films == [] then []
    else
      var rest := ApplyFilters(films[1..], filters);
      assert films == [films[0]] + films[1..];
      if Matches(films[0], filters) then
        assert ([films[0]] + rest)[1..] == rest;
        [films[0]] + rest
      else
        assert rest != [] ==> IsSubsequence(rest, films[1..]);
        rest
  }

  /**
   * When a film is kept: the lower-cased, trimmed term is empty or occurs at some position of the lower-cased
   * "title description" text, each non-empty selection holds the film's
   * value, and a positive minimum score is reached.
   */
  lemma MatchesIff(film: Film, filters: FilmFilters)
    ensures var term := ToLower(Trim(filters.search));
      var hay := ToLower(film.title) + " " + ToLower(film.description);
      Matches(film, filters) <==>
        && (term == [] || exists i :: OccursAt(hay, term, i))
        && (filters.directors != [] ==> film.director in filters.directors)
        && (filters.producers != [] ==> film.producer in filters.producers)
        && (filters.years != [] ==> film.release_date in filters.years)
        && (filters.minScore > 0 ==> NormalizeScore(film.rt_score) >= filters.minScore)
  {
    var term := ToLower(Trim(filters.search));
    ToLowerConcat(film.title + " ", film.description);
    ToLowerConcat(film.title, " ");
    assert ToLower(" ") == " ";
    IncludesIff(ToLower(film.title + " " + film.description), term);
  }

  /** A blank search, empty facet selections and no positive minimum keep every film, in order. */
  lemma {:induction false} NoCriteriaKeepsAll(films: seq<Film>, filters: FilmFilters)
    requires AllWhitespace(filters.search)
    requires filters.directors == [] && filters.producers == [] && filters.years == []
    requires filters.minScore <= 0
    ensures ApplyFilters(films, filters) == films
  {
    TrimEmptyIff(filters.search);
    if films != [] {
      NoCriteriaKeepsAll(films[1..], filters);
      assert films == [films[0]] + films[1..];
    }
  }

  // ================================================================ pagination

  function Max(a: int, b: int): int { if a < b then b else a }
  function Min(a: int, b: int): int { if a < b then a else b }

  datatype PageResult = PageResult(items: seq<Film>, totalPages: int, currentPage: int)

  /** `Math.ceil(n / d)` for a positive divisor. */
  function CeilDiv(n: nat, d: nat): (q: nat)
    requires d > 0
    ensures n > 0 ==> (q - 1) * d < n <= q * d
    ensures n == 0 ==> q == 0
  {
    (n + d - 1) / d
  }

  /** Where page `page` of `pageCount` starts, for `n` films: inside the list, and before its end when it has films. */
  lemma PageOffsetBounds(n: nat, pageSize: int, pageCount: int, page: int)
    requires pageSize > 0 && 1 <= page <= pageCount
    requires n > 0 ==> (pageCount - 1) * pageSize < n
    requires n == 0 ==> pageCount == 1
    ensures 0 <= (page - 1) * pageSize <= n
    ensures n > 0 ==> (page - 1) * pageSize < n
    ensures (page - 1) * pageSize + pageSize == page * pageSize
  {
    assert (page - 1) * pageSize <= (pageCount - 1) * pageSize by {
      MulMonotone(page - 1, pageCount - 1, pageSize);
    }
  }

  lemma MulMonotone(a: int, b: int, d: nat)
    requires 0 <= a <= b
    ensures 0 <= a * d <= b * d
  {
  }

  /** `Math.max(1, Math.ceil(n / pageSize))`: enough pages for `n` films, and no more. */
  function TotalPages(n: nat, pageSize: int): (t: int)
    requires pageSize > 0
    ensures t >= 1
    ensures n > 0 ==> (t - 1) * pageSize < n <= t * pageSize
    ensures n == 0 ==> t == 1
  {
    Max(1, CeilDiv(n, pageSize))
  }

  /** `Math.min(Math.max(1, page), totalPages)`. */
  function ClampPage(page: int, totalPages: int): (c: int)
    requires totalPages >= 1
    ensures 1 <= c <= totalPages
    ensures 1 <= page <= totalPages ==> c == page
    ensures page < 1 ==> c == 1
    ensures page > totalPages ==> c == totalPages
  {
    Min(Max(1, page), totalPages)
  }

  /**
   * `paginateFilms`: the number of pages is the ceiling of the count over the
   * page size, at least 1; the requested page is clamped into range; the
   * items are that page's slice of the films.
   */
  function PaginateFilms(films: seq<Film>, page: int, pageSize: int): (r: PageResult)
    requires pageSize > 0
    ensures r.totalPages == TotalPages(|films|, pageSize)
    ensures r.currentPage == ClampPage(page, r.totalPages)
    ensures 0 <= (r.currentPage - 1) * pageSize <= |films|
    ensures r.items == films[(r.currentPage - 1) * pageSize..Min(|films|, r.currentPage * pageSize)]
    ensures |r.items| <= pageSize
    ensures films != [] ==> r.items != []
  {
    var totalPages := TotalPages(|films|, pageSize);
    var currentPage := ClampPage(page, totalPages);
    var offset := (currentPage - 1) * pageSize;
    PageOffsetBounds(|films|, pageSize, totalPages, currentPage);
    assert offset + pageSize == currentPage * pageSize;
    var items := films[offset..Min(|films|, offset + pageSize)];
    assert |items| == Min(|films|, offset + pageSize) - offset <= pageSize;
    PageResult(items, totalPages, currentPage)
  }

  /** Pages 1..k laid end to end. */
  function PagesUpTo(films: seq<Film>, pageSize: int, k: nat): seq<Film>
    requires pageSize > 0
  {
    if k == 0 then [] else PagesUpTo(films, pageSize, k - 1) + PaginateFilms(films, k, pageSize).items
  }

  lemma {:induction false} PagesUpToPrefix(films: seq<Film>, pageSize: int, k: nat)
    requires pageSize > 0
    requires k <= PaginateFilms(films, 1, pageSize).totalPages
    ensures PagesUpTo(films, pageSize, k) == films[..Min(|films|, k * pageSize)]
  {
    if k > 0 {
      var n := |films|;
      var lo := (k - 1) * pageSize;
      var hi := Min(n, k * pageSize);
      assert 0 <= lo <= hi <= n && PaginateFilms(films, k, pageSize).items == films[lo..hi] by {
        var t := PaginateFilms(films, 1, pageSize).totalPages;
        PageOffsetBounds(n, pageSize, t, k);
      }
      PagesUpToPrefix(films, pageSize, k - 1);
      assert Min(n, (k - 1) * pageSize) == lo;
      SliceJoin(films, lo, hi);
    }
  }

  lemma SliceJoin<T>(s: seq<T>, lo: int, hi: int)
    requires 0 <= lo <= hi <= |s|
    ensures s[..lo] + s[lo..hi] == s[..hi]
  {
  }

  /** Every film is on exactly one page: the pages, in order, put back together the whole list. */
  lemma PagesPartitionFilms(films: seq<Film>, pageSize: int)
    requires pageSize > 0
    ensures PagesUpTo(films, pageSize, PaginateFilms(films, 1, pageSize).totalPages) == films
  {
    var t := PaginateFilms(films, 1, pageSize).totalPages;
    PagesUpToPrefix(films, pageSize, t);
    assert Min(|films|, t * pageSize) == |films| by {
      MulMonotone(1, t, pageSize);
    }
    assert films[..|films|] == films;
  }

  /** Page 3 of three films at two per page is clamped to the last page, which holds the third film. */
  lemma PaginateClampsPastEnd(films: seq<Film>)
    requires |films| == 3
    ensures var r := PaginateFilms(films, 3, 2);
      r.totalPages == 2 && r.currentPage == 2 && r.items == [films[2]]
  {
    var r := PaginateFilms(films, 3, 2);
    assert r.totalPages == 2;
    assert r.currentPage == 2;
  }

  // ================================================================ default filters

  /** `Partial<FilmFilters>`: `None` is an absent field. */
  datatype FilterOverrides = FilterOverrides(
    search: Option<string>,
    directors: Option<seq<string>>,
    producers: Option<seq<string>>,
    years: Option<seq<string>>,
    minScore: Option<int>,
    sort: Option<string>,
    page: Option<int>,
    pageSize: Option<int>
  )

  const NoOverrides := FilterOverrides(None, None, None, None, None, None, None, None)

  /** `createDefaultFilters`: the documented defaults, each replaced by the override given for it. */
  function CreateDefaultFilters(overrides: FilterOverrides): (f: FilmFilters)
    ensures overrides.search.None? ==> f.search == ""
    ensures overrides.directors.None? ==> f.directors == []
    ensures overrides.producers.None? ==> f.producers == []
    ensures overrides.years.None? ==> f.years == []
    ensures overrides.minScore.None? ==> f.minScore == 0
    ensures overrides.sort.None? ==> f.sort == "title-asc"
    ensures overrides.page.None? ==> f.page == 1
    ensures overrides.pageSize.None? ==> f.pageSize == DEFAULT_PAGE_SIZE
    ensures overrides.search.Some? ==> f.search == overrides.search.value
    ensures overrides.directors.Some? ==> f.directors == overrides.directors.value
    ensures overrides.producers.Some? ==> f.producers == overrides.producers.value
    ensures overrides.years.Some? ==> f.years == overrides.years.value
    ensures overrides.minScore.Some? ==> f.minScore == overrides.minScore.value
    ensures overrides.sort.Some? ==> f.sort == overrides.sort.value
    ensures overrides.page.Some? ==> f.page == overrides.page.value
    ensures overrides.pageSize.Some? ==> f.pageSize == overrides.pageSize.value
  {
    FilmFilters(
      search := overrides.search.GetOr(""),
      directors := overrides.directors.GetOr([]),
      producers := overrides.producers.GetOr([]),
      years := overrides.years.GetOr([]),
      minScore := overrides.minScore.GetOr(0),
      page := overrides.page.GetOr(1),
      pageSize := overrides.pageSize.GetOr(DEFAULT_PAGE_SIZE),
      sort := overrides.sort.GetOr("title-asc"))
  }

  /** The default filters keep every film, in order, and sort by title. */
  lemma DefaultFiltersKeepAll(films: seq<Film>)
    ensures ApplyFilters(films, CreateDefaultFilters(NoOverrides)) == films
    ensures SortOptionOf(CreateDefaultFilters(NoOverrides).sort) == TitleAsc
  {
    NoCriteriaKeepsAll(films, CreateDefaultFilters(NoOverrides));
  }
}
