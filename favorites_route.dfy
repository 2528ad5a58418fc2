/**
 * The favorites endpoint: session gating, lazy creation of film rows from
 * the upstream catalog, idempotent favorite creation, delete-many and the
 * caller's list, newest first. The database is the in-memory store of the
 * endpoint's integration harness: a film table keyed by film id, a favorites
 * table kept in insertion order and an auto-increment favorite id.
 */
module FavoritesRoute {
  import opened Wrappers
  import opened JsText
  import opened Collections
  import opened FilmTypes

  // ================================================================ sessions

  /** `session.user.id` as the session carries it: text or a number. */
  datatype UserIdValue = IdText(text: string) | IdNumber(number: int)

  /** JavaScript truthiness of an id: a non-empty string or a non-zero number. */
  predicate Truthy(id: UserIdValue) {
    match id
    case IdText(t) => t != []
    case IdNumber(n) => n != 0
  }

  /** A JavaScript number restricted to integers; `None` stands for NaN. */
  type JsNumber = Option<int>

  /** `===` on numbers: NaN equals nothing, not even itself. */
  predicate SameNumber(a: JsNumber, b: JsNumber) {
    a.Some? && a == b
  }

  /**
   * `Number(text)` for decimal integer text: white space around the number is
   * ignored, blank text is 0 and anything else is NaN.
   */
  function NumberOf(text: string): (n: JsNumber)
    ensures AllWhitespace(text) ==> n == Some(0)
  {
    TrimEmptyIff(text);
    var t := Trim(text);
    if t == [] then Some(0)
    else if (t[0] == '-' || t[0] == '+') && |t| > 1 && AllDigits(t[1..]) then Some(Signed(t[0] == '-', DigitsValue(t[1..])))
    else if AllDigits(t) then Some(DigitsValue(t))
    else None
  }

  /** Digits have no white space to trim. */
  lemma TrimOfDigits(ds: string)
    requires ds != [] && AllDigits(ds)
    ensures Trim(ds) == ds
  {
    var t := TrimStart(ds);
    var e := TrimEnd(t);
  }

  /** The text of a session id made from a non-negative integer converts back to it. */
  lemma NumberOfNatToString(n: nat)
    ensures NumberOf(NatToString(n)) == Some(n)
  {
    var s := NatToString(n);
    TrimOfDigits(s);
    NatToStringValue(n);
    assert !IsDigit('-') && !IsDigit('+');
  }

  /** `getUserId`: `Number(session.user.id)`. */
  function UserKey(id: UserIdValue): JsNumber {
    match id
    case IdText(t) => NumberOf(t)
    case IdNumber(n) => Some(n)
  }

  /** A numeric id and its decimal text name the same user. */
  lemma UserKeyOfNumberOrText(n: nat)
    ensures UserKey(IdNumber(n)) == UserKey(IdText(NatToString(n))) == Some(n)
  {
    NumberOfNatToString(n);
  }

  /** The session has a truthy user id; `None` stands for a missing session, user or id. */
  predicate Authorized(session: Option<UserIdValue>) {
    session.Some? && Truthy(session.value)
  }

  // ================================================================ requests and responses

  /** The `filmId` member of a JSON object body. */
  datatype FilmIdField = Missing | NotText | Text(value: string)

  /** What `request.json()` yields. */
  datatype RequestBody = InvalidJson | NotAnObject | JsonObject(filmId: FilmIdField)

  /** Why a handler throws instead of answering. */
  datatype Failure = BodyNotJson | SchemaRejected

  datatype FilmRow = FilmRow(id: string, title: string, director: string, producer: string,
                             releaseYear: int, rtScore: int, data: Film)

  datatype ResponseBody = ErrorMessage(error: string) | Success | FavoriteList(items: seq<FilmRow>)

  /** A handler answers with a status and a JSON body, or throws. */
  datatype Outcome = Respond(status: nat, body: ResponseBody) | Thrown(failure: Failure)

  const UNAUTHORIZED: Outcome := Respond(401, ErrorMessage("Unauthorized"))
  const FILM_NOT_FOUND: Outcome := Respond(404, ErrorMessage("Film not found"))

  /** `requireSession`: the 401 answer when the session has no truthy user id, `None` to go on. */
  function RequireSession(session: Option<UserIdValue>): (r: Option<Outcome>)
    ensures r.None? <==> Authorized(session)
    ensures r.Some? ==> r.value.Respond? && r.value.status == 401
  {
    if session.Some? && Truthy(session.value) then None else Some(UNAUTHORIZED)
  }

  /**
   * `request.json()` followed by `FavoriteSchema.parse`: the body must be an
   * object whose `filmId` is a non-empty string.
   */
  function ParseBody(body: RequestBody): (r: Result<string, Failure>)
    ensures r.Ok? <==> body.JsonObject? && body.filmId.Text? && body.filmId.value != []
    ensures r.Ok? ==> r.value == body.filmId.value
    ensures r.Err? ==> (r.error == BodyNotJson <==> body.InvalidJson?)
  {
    match body
    case InvalidJson => Err(BodyNotJson)
    case NotAnObject => Err(SchemaRejected)
    case JsonObject(Text(id)) => if id == [] then Err(SchemaRejected) else Ok(id)
    case JsonObject(_) => Err(SchemaRejected)
  }

  /** The film row created from an upstream film: the years and scores as integers, 0 when unparseable. */
  function RowOf(film: Film): FilmRow {
    FilmRow(film.id, film.title, film.director, film.producer,
            ParseIntOrZero(film.release_date), ParseIntOrZero(film.rt_score), film)
  }

  /** A release date or score that starts with an integer lands in the row as that integer. */
  lemma RowOfLeadingInteger(film: Film, ws: string, sign: string, ds: string, rest: string)
    requires AllWhitespace(ws)
    requires sign == "" || sign == "+" || sign == "-"
    requires ds != [] && AllDigits(ds)
    requires rest == [] || !IsDigit(rest[0])
    ensures film.release_date == ws + sign + ds + rest ==> RowOf(film).releaseYear == Signed(sign == "-", DigitsValue(ds))
    ensures film.rt_score == ws + sign + ds + rest ==> RowOf(film).rtScore == Signed(sign == "-", DigitsValue(ds))
  {
    ParseIntLeading(ws, sign, ds, rest);
  }

  /** A release date or score in which no digit follows the white space and the sign lands in the row as 0. */
  lemma RowOfNoLeadingInteger(film: Film, ws: string, sign: string, rest: string)
    requires AllWhitespace(ws)
    requires sign == "" || sign == "+" || sign == "-"
    requires rest == [] || !IsDigit(rest[0])
    requires sign == "" && rest != [] ==> !IsJsWhitespace(rest[0]) && rest[0] != '+' && rest[0] != '-'
    ensures film.release_date == ws + sign + rest ==> RowOf(film).releaseYear == 0
    ensures film.rt_score == ws + sign + rest ==> RowOf(film).rtScore == 0
  {
    ParseIntNoLeadingInteger(ws, sign, rest);
  }

  // ================================================================ the favorites table

  datatype FavoriteRow = FavoriteRow(id: nat, userId: JsNumber, filmId: string)

  /** A row records the pair (`user`, `filmId`). */
  predicate Matches(row: FavoriteRow, user: JsNumber, filmId: string) {
    SameNumber(row.userId, user) && row.filmId == filmId
  }

  predicate IsFavorited(favs: seq<FavoriteRow>, user: JsNumber, filmId: string) {
    exists row :: row in favs && Matches(row, user, filmId)
  }

  predicate IdsIncreasing(favs: seq<FavoriteRow>) {
    forall i, j :: 0 <= i < j < |favs| ==> favs[i].id < favs[j].id
  }

  predicate IdsDecreasing(favs: seq<FavoriteRow>) {
    forall i, j :: 0 <= i < j < |favs| ==> favs[i].id > favs[j].id
  }

  predicate IdsBelow(favs: seq<FavoriteRow>, bound: nat) {
    forall row :: row in favs ==> 1 <= row.id < bound
  }

  /** At most one row per (user, film) pair. */
  predicate PairsUnique(favs: seq<FavoriteRow>) {
    forall a, b :: a in favs && b in favs && Matches(b, a.userId, a.filmId) ==> a == b
  }

  predicate FilmsPresent(favs: seq<FavoriteRow>, films: map<string, FilmRow>) {
    forall row :: row in favs ==> row.filmId in films
  }

  /** The rows satisfying `p`, in table order. */
  function Keep(favs: seq<FavoriteRow>, p: FavoriteRow -> bool): (r: seq<FavoriteRow>)
    ensures forall row :: row in r <==> row in favs && p(row)
    ensures |r| <= |favs|
    ensures IsSubsequence(r, favs)
    ensures IdsIncreasing(favs) ==> IdsIncreasing(r)
  {
    if favs == [] then []
    else
      var rest := Keep(favs[1..], p);
      assert forall row :: row in favs <==> row == favs[0] || row in favs[1..];
      if p(favs[0]) then
        KeepHead(favs, rest);
        [favs[0]] + rest
      else
        rest
  }

  /** Keeping the first row in front of rows kept from the others keeps order and increasing ids. */
  lemma KeepHead(favs: seq<FavoriteRow>, rest: seq<FavoriteRow>)
    requires favs != []
    requires forall row :: row in rest ==> row in favs[1..]
    requires IsSubsequence(rest, favs[1..])
    requires IdsIncreasing(favs[1..]) ==> IdsIncreasing(rest)
    ensures IsSubsequence([favs[0]] + rest, favs)
    ensures IdsIncreasing(favs) ==> IdsIncreasing([favs[0]] + rest)
  {
    var r := [favs[0]] + rest;
    assert r[1..] == rest;
    if IdsIncreasing(favs) {
      assert IdsIncreasing(favs[1..]);
      forall i, j | 0 <= i < j < |r| ensures r[i].id < r[j].id {
        if i == 0 {
          assert r[j] in rest;
          var k :| 0 <= k < |favs[1..]| && favs[1..][k] == r[j];
          assert favs[k + 1] == r[j];
        } else {
          assert r[i] == rest[i - 1] && r[j] == rest[j - 1];
        }
      }
    }
  }

  /** Every row satisfying `p` is kept as often as it occurs, and no other row is kept. */
  lemma {:induction false} KeepCounts(favs: seq<FavoriteRow>, p: FavoriteRow -> bool, row: FavoriteRow)
    ensures multiset(Keep(favs, p))[row] == if p(row) then multiset(favs)[row] else 0
  {
    if favs != [] {
      KeepCounts(favs[1..], p, row);
      assert favs == [favs[0]] + favs[1..];
      if p(favs[0]) {
        assert Keep(favs, p) == [favs[0]] + Keep(favs[1..], p);
      }
    }
  }

  lemma KeepFirst(favs: seq<FavoriteRow>, p: FavoriteRow -> bool)
    requires favs != []
    ensures Keep(favs, p) == (if p(favs[0]) then [favs[0]] else []) + Keep(favs[1..], p)
  {
  }

  lemma {:induction false} KeepAppend(favs: seq<FavoriteRow>, row: FavoriteRow, p: FavoriteRow -> bool)
    ensures Keep(favs + [row], p) == Keep(favs, p) + (if p(row) then [row] else [])
  {
    if favs != [] {
      assert (favs + [row])[1..] == favs[1..] + [row];
      KeepAppend(favs[1..], row, p);
    }
  }

  lemma {:induction false} KeepAll(favs: seq<FavoriteRow>, p: FavoriteRow -> bool)
    requires forall row :: row in favs ==> p(row)
    ensures Keep(favs, p) == favs
  {
    if favs != [] {
      KeepAll(favs[1..], p);
    }
  }

  /** The rows that do not record the pair (`user`, `filmId`). */
  function OtherPair(user: JsNumber, filmId: string): FavoriteRow -> bool {
    (row: FavoriteRow) => !Matches(row, user, filmId)
  }

  lemma OtherPairHolds(row: FavoriteRow, user: JsNumber, filmId: string)
    ensures OtherPair(user, filmId)(row) <==> !Matches(row, user, filmId)
  {
  }

  /** `deleteMany({where: {userId, filmId}})`: every row of the pair taken out, the others kept in order. */
  function Without(favs: seq<FavoriteRow>, user: JsNumber, filmId: string): (r: seq<FavoriteRow>)
    ensures forall row :: row in r <==> row in favs && !Matches(row, user, filmId)
    ensures |r| <= |favs|
    ensures IsSubsequence(r, favs)
    ensures !IsFavorited(r, user, filmId)
  {
    Keep(favs, OtherPair(user, filmId))
  }

  /**
   * `favorite.upsert` with `update: {}`: the table unchanged when the pair is
   * present, otherwise a new row with the next id appended.
   */
  function Upserted(favs: seq<FavoriteRow>, nextId: nat, user: JsNumber, filmId: string): (r: seq<FavoriteRow>)
    ensures IsFavorited(favs, user, filmId) ==> r == favs
    ensures !IsFavorited(favs, user, filmId) ==> r == favs + [FavoriteRow(nextId, user, filmId)]
    ensures |favs| <= |r| <= |favs| + 1 && r[..|favs|] == favs
    ensures user.Some? ==> IsFavorited(r, user, filmId)
  {
    if IsFavorited(favs, user, filmId) then favs
    else
      var row := FavoriteRow(nextId, user, filmId);
      assert (favs + [row])[|favs|] == row && (favs + [row])[..|favs|] == favs;
      assert user.Some? ==> Matches(row, user, filmId);
      favs + [row]
  }

  /** Adding a favorite twice is adding it once (for a numeric user id; NaN matches no row). */
  lemma UpsertIdempotent(favs: seq<FavoriteRow>, n: nat, m: nat, user: JsNumber, filmId: string)
    requires user.Some?
    ensures Upserted(Upserted(favs, n, user, filmId), m, user, filmId) == Upserted(favs, n, user, filmId)
  {
    var once := Upserted(favs, n, user, filmId);
    if !IsFavorited(favs, user, filmId) {
      assert once[|favs|] in once && Matches(once[|favs|], user, filmId);
    }
  }

  /** Removing a favorite that was just added leaves the table as removing it would have (for a numeric user id). */
  lemma RemoveAfterAdd(favs: seq<FavoriteRow>, n: nat, user: JsNumber, filmId: string)
    requires user.Some?
    ensures Without(Upserted(favs, n, user, filmId), user, filmId) == Without(favs, user, filmId)
  {
    if !IsFavorited(favs, user, filmId) {
      var row := FavoriteRow(n, user, filmId);
      var p := OtherPair(user, filmId);
      KeepAppend(favs, row, p);
      assert !p(row);
      assert Keep(favs + [row], p) == Keep(favs, p);
    }
  }

  lemma WithoutFirst(favs: seq<FavoriteRow>, user: JsNumber, filmId: string)
    requires favs != []
    ensures Without(favs, user, filmId)
      == (if Matches(favs[0], user, filmId) then [] else [favs[0]]) + Without(favs[1..], user, filmId)
  {
    OtherPairHolds(favs[0], user, filmId);
    KeepFirst(favs, OtherPair(user, filmId));
  }

  /** Splicing out the element after `prefix`, or not, in a sequence laid out as `prefix + [x] + rest`. */
  lemma SpliceAfter(prefix: seq<FavoriteRow>, x: FavoriteRow, rest: seq<FavoriteRow>, splice: bool,
                    cur: seq<FavoriteRow>, next: seq<FavoriteRow>)
    requires cur == prefix + [x] + rest
    requires next == if splice then cur[..|prefix|] + cur[|prefix| + 1..] else cur
    ensures next == prefix + ((if splice then [] else [x]) + rest)
  {
    assert cur[..|prefix|] == prefix;
    assert cur[|prefix| + 1..] == rest;
  }

  /**
   * One step of the backward deletion: with the rows after `i` already
   * filtered, splicing out row `i` when it matches filters the rows from `i` on.
   */
  lemma DeleteStep(orig: seq<FavoriteRow>, i: nat, cur: seq<FavoriteRow>, next: seq<FavoriteRow>, user: JsNumber, filmId: string)
    requires i < |orig|
    requires cur == orig[..i + 1] + Without(orig[i + 1..], user, filmId)
    requires next == if Matches(cur[i], user, filmId) then cur[..i] + cur[i + 1..] else cur
    ensures next == orig[..i] + Without(orig[i..], user, filmId)
  {
    var rest := Without(orig[i + 1..], user, filmId);
    var x := orig[i];
    assert cur == orig[..i] + [x] + rest && cur[i] == x by {
      assert orig[..i + 1] == orig[..i] + [x];
    }
    SpliceAfter(orig[..i], x, rest, Matches(x, user, filmId), cur, next);
    assert Without(orig[i..], user, filmId) == (if Matches(x, user, filmId) then [] else [x]) + rest by {
      var tail := orig[i..];
      assert tail[0] == x && tail[1..] == orig[i + 1..];
      WithoutFirst(tail, user, filmId);
    }
  }

  /** Deleting rows keeps the table invariants. */
  lemma WithoutKeepsValid(favs: seq<FavoriteRow>, films: map<string, FilmRow>, bound: nat, user: JsNumber, filmId: string)
    requires IdsBelow(favs, bound) && IdsIncreasing(favs) && PairsUnique(favs) && FilmsPresent(favs, films)
    ensures var r := Without(favs, user, filmId);
      IdsBelow(r, bound) && IdsIncreasing(r) && PairsUnique(r) && FilmsPresent(r, films)
  {
  }

  /** Removing a pair that is not present leaves the table as it was. */
  lemma RemoveAbsent(favs: seq<FavoriteRow>, user: JsNumber, filmId: string)
    requires !IsFavorited(favs, user, filmId)
    ensures Without(favs, user, filmId) == favs
  {
    KeepAll(favs, OtherPair(user, filmId));
  }

  /** So adding and then removing a new favorite restores the table. */
  lemma AddThenRemoveRestores(favs: seq<FavoriteRow>, n: nat, user: JsNumber, filmId: string)
    requires user.Some?
    requires !IsFavorited(favs, user, filmId)
    ensures Without(Upserted(favs, n, user, filmId), user, filmId) == favs
  {
    RemoveAfterAdd(favs, n, user, filmId);
    RemoveAbsent(favs, user, filmId);
  }

  function Reverse(s: seq<FavoriteRow>): (r: seq<FavoriteRow>)
    ensures |r| == |s|
    ensures forall i :: 0 <= i < |s| ==> r[i] == s[|s| - 1 - i]
  {
    if s == [] then [] else Reverse(s[1..]) + [s[0]]
  }

  /** `findMany({where: {userId}, orderBy: {id: 'desc'}})`: the user's rows, newest first. */
  function NewestFirst(favs: seq<FavoriteRow>, user: JsNumber): (r: seq<FavoriteRow>)
    ensures forall row :: row in r <==> row in favs && SameNumber(row.userId, user)
    ensures IdsIncreasing(favs) ==> IdsDecreasing(r)
  {
    var mine := Keep(favs, (row: FavoriteRow) => SameNumber(row.userId, user));
    var r := Reverse(mine);
    assert forall row :: row in r <==> row in mine by {
      forall row ensures row in r <==> row in mine {
        if row in mine {
          var k :| 0 <= k < |mine| && mine[k] == row;
          assert r[|mine| - 1 - k] == row;
        }
      }
    }
    r
  }

  /** The body of GET: each of the user's favorites, newest first, as its film row. */
  function Listing(favs: seq<FavoriteRow>, films: map<string, FilmRow>, user: JsNumber): (r: seq<FilmRow>)
    requires FilmsPresent(favs, films)
    ensures |r| == |NewestFirst(favs, user)|
    ensures forall i :: 0 <= i < |r| ==> r[i] == films[NewestFirst(favs, user)[i].filmId]
  {
    var rows := NewestFirst(favs, user);
    seq(|rows|, i requires 0 <= i < |rows| => films[rows[i].filmId])
  }

  /** A user without favorites lists nothing. */
  lemma ListingEmpty(favs: seq<FavoriteRow>, films: map<string, FilmRow>, user: JsNumber)
    requires FilmsPresent(favs, films)
    requires forall row :: row in favs ==> !SameNumber(row.userId, user)
    ensures Listing(favs, films, user) == []
  {
  }

  /** A user's only favorite lists as its film row. */
  lemma ListingSingle(row: FavoriteRow, films: map<string, FilmRow>)
    requires row.userId.Some? && row.filmId in films
    ensures Listing([row], films, row.userId) == [films[row.filmId]]
  {
    var p := (r: FavoriteRow) => SameNumber(r.userId, row.userId);
    KeepFirst([row], p);
    assert [row][1..] == [];
    assert Keep([row], p) == [row];
    assert Reverse([row]) == [row];
  }

  // ================================================================ the store

  class FavoritesStore {
    var films: map<string, FilmRow>
    var favorites: seq<FavoriteRow>
    var nextId: nat

    ghost predicate Valid()
      reads this
    {
      && nextId >= 1
      && IdsBelow(favorites, nextId)
      && IdsIncreasing(favorites)
      && PairsUnique(favorites)
      && FilmsPresent(favorites, films)
    }

    /** The store holds what it held when the current method began. */
    twostate predicate Unchanged()
      reads this
    {
      films == old(films) && favorites == old(favorites) && nextId == old(nextId)
    }

    constructor ()
      ensures Valid() && films == map[] && favorites == [] && nextId == 1
    {
      films := map[];
      favorites := [];
      nextId := 1;
    }

    /**
     * `ensureFilmExists`: the stored row when there is one; otherwise the row
     * built from `upstream` (what `getFilmById` yields, `None` when it throws
     * or finds nothing), stored under the requested id. A stored row is never updated.
     */
    method EnsureFilmExists(filmId: string, upstream: Option<Film>) returns (row: Option<FilmRow>)
      requires Valid()
      modifies this
      ensures Valid() && favorites == old(favorites) && nextId == old(nextId)
      ensures row.Some? <==> filmId in films
      ensures filmId in old(films) ==> row == Some(old(films)[filmId]) && films == old(films)
      ensures filmId !in old(films) && upstream.None? ==> row.None? && films == old(films)
      ensures filmId !in old(films) && upstream.Some? ==>
        row == Some(RowOf(upstream.value)) && films == old(films)[filmId := RowOf(upstream.value)]
    {
      if filmId in films {
        return Some(films[filmId]);
      }
      if upstream.None? {
        return None;
      }
      var created := RowOf(upstream.value);
      films := films[filmId := created];
      row := Some(created);
    }

    /** `favorite.upsert` on the pair (`user`, `filmId`). */
    method UpsertFavorite(user: JsNumber, filmId: string)
      requires Valid() && filmId in films
      modifies this
      ensures Valid() && films == old(films)
      ensures favorites == Upserted(old(favorites), old(nextId), user, filmId)
      ensures nextId == if IsFavorited(old(favorites), user, filmId) then old(nextId) else old(nextId) + 1
    {
      var i := 0;
      while i < |favorites|
        invariant 0 <= i <= |favorites|
        invariant forall k :: 0 <= k < i ==> !Matches(favorites[k], user, filmId)
      {
        if Matches(favorites[i], user, filmId) {
          return;
        }
        i := i + 1;
      }
      var row := FavoriteRow(nextId, user, filmId);
      favorites := favorites + [row];
      nextId := nextId + 1;
    }

    /** `favorite.deleteMany`: every row of the pair is removed, and their number returned. */
    method DeleteMany(user: JsNumber, filmId: string) returns (count: nat)
      requires Valid()
      modifies this
      ensures Valid() && films == old(films) && nextId == old(nextId)
      ensures favorites == Without(old(favorites), user, filmId)
      ensures count == |old(favorites)| - |favorites|
    {
      var initialLength := |favorites|;
      SpliceOutMatches(user, filmId);
      WithoutKeepsValid(old(favorites), films, nextId, user, filmId);
      count := initialLength - |favorites|;
    }

    /** The loop of `deleteMany`: walking the table from the end, splicing out each matching row. */
    method SpliceOutMatches(user: JsNumber, filmId: string)
      modifies this
      ensures films == old(films) && nextId == old(nextId)
      ensures favorites == Without(old(favorites), user, filmId)
    {
      ghost var orig := favorites;
      var i := |favorites| - 1;
      while i >= 0
        invariant -1 <= i < |orig|
        invariant films == old(films) && nextId == old(nextId)
        invariant favorites == orig[..i + 1] + Without(orig[i + 1..], user, filmId)
      {
        ghost var cur := favorites;
        if Matches(favorites[i], user, filmId) {
          favorites := favorites[..i] + favorites[i + 1..];
        }
        DeleteStep(orig, i, cur, favorites, user, filmId);
        i := i - 1;
      }
      assert orig[0..] == orig;
    }

    /** GET: 401 without a session, otherwise the caller's films, newest favorite first. */
    method Get(session: Option<UserIdValue>) returns (out: Outcome)
      requires Valid()
      ensures !Authorized(session) ==> out == UNAUTHORIZED
      ensures Authorized(session) ==>
        out == Respond(200, FavoriteList(Listing(favorites, films, UserKey(session.value))))
    {
      var unauthorized := RequireSession(session);
      if unauthorized.Some? {
        return unauthorized.value;
      }
      out := Respond(200, FavoriteList(Listing(favorites, films, UserKey(session.value))));
    }

    /**
     * POST: 401 without a session; a throw for a body that does not parse;
     * 404 when the film is neither stored nor found upstream; otherwise the
     * film row exists, the favorite is upserted and the answer is 201.
     */
    method Post(session: Option<UserIdValue>, body: RequestBody, upstream: Option<Film>) returns (out: Outcome)
      requires Valid()
      modifies this
      ensures Valid()
      ensures !Authorized(session) ==> out == UNAUTHORIZED && Unchanged()
      ensures Authorized(session) && ParseBody(body).Err? ==> out == Thrown(ParseBody(body).error) && Unchanged()
      ensures Authorized(session) && ParseBody(body).Ok? ==>
        var filmId := ParseBody(body).value;
        if filmId !in old(films) && upstream.None? then
          out == FILM_NOT_FOUND && Unchanged()
        else
          && out == Respond(201, Success)
          && films == (if filmId in old(films) then old(films) else old(films)[filmId := RowOf(upstream.value)])
          && favorites == Upserted(old(favorites), old(nextId), UserKey(session.value), filmId)
          && nextId == if IsFavorited(old(favorites), UserKey(session.value), filmId) then old(nextId) else old(nextId) + 1
    {
      var unauthorized := RequireSession(session);
      if unauthorized.Some? {
        return unauthorized.value;
      }
      var parsed := ParseBody(body);
      if parsed.Err? {
        return Thrown(parsed.error);
      }
      var filmId := parsed.value;
      var row := EnsureFilmExists(filmId, upstream);
      if row.None? {
        assert filmId !in old(films) && upstream.None?;
        assert films == old(films) && favorites == old(favorites) && nextId == old(nextId);
        return FILM_NOT_FOUND;
      }
      UpsertFavorite(UserKey(session.value), filmId);
      out := Respond(201, Success);
    }

    /** DELETE: 401 without a session; a throw for a body that does not parse; otherwise every row of the pair removed and 200. */
    method Delete(session: Option<UserIdValue>, body: RequestBody) returns (out: Outcome)
      requires Valid()
      modifies this
      ensures Valid() && films == old(films) && nextId == old(nextId)
      ensures !Authorized(session) ==> out == UNAUTHORIZED && favorites == old(favorites)
      ensures Authorized(session) && ParseBody(body).Err? ==> out == Thrown(ParseBody(body).error) && favorites == old(favorites)
      ensures Authorized(session) && ParseBody(body).Ok? ==>
        out == Respond(200, Success) && favorites == Without(old(favorites), UserKey(session.value), ParseBody(body).value)
    {
      var unauthorized := RequireSession(session);
      if unauthorized.Some? {
        return unauthorized.value;
      }
      var parsed := ParseBody(body);
      if parsed.Err? {
        return Thrown(parsed.error);
      }
      var _ := DeleteMany(UserKey(session.value), parsed.value);
      out := Respond(200, Success);
    }
  }

  /** The first half of the integration scenario: user "1" adds a film to an empty store and lists it. */
  method AddAndList(store: FavoritesStore, film: Film) returns (added: Outcome, listed: Outcome)
    requires store.Valid() && store.films == map[] && store.favorites == [] && store.nextId == 1
    modifies store
    ensures store.Valid() && store.favorites == [FavoriteRow(1, Some(1), "test-film")]
    ensures added == Respond(201, Success)
    ensures listed == Respond(200, FavoriteList([RowOf(film)]))
  {
    var session := Some(IdText("1"));
    NumberOfNatToString(1);
    assert NatToString(1) == "1";
    var body := JsonObject(Text("test-film"));
    assert UserKey(session.value) == Some(1);
    assert !IsFavorited([], Some(1), "test-film");
    added := store.Post(session, body, Some(film));
    assert store.favorites == [FavoriteRow(1, Some(1), "test-film")];
    listed := store.Get(session);
    ListingSingle(store.favorites[0], store.films);
  }

  /** The second half: user "1" removes that favourite and lists again. */
  method RemoveAndList(store: FavoritesStore) returns (removed: Outcome, relisted: Outcome)
    requires store.Valid() && store.favorites == [FavoriteRow(1, Some(1), "test-film")]
    modifies store
    ensures removed == Respond(200, Success)
    ensures relisted == Respond(200, FavoriteList([]))
  {
    var session := Some(IdText("1"));
    NumberOfNatToString(1);
    assert NatToString(1) == "1";
    assert UserKey(session.value) == Some(1);
    var body := JsonObject(Text("test-film"));
    removed := store.Delete(session, body);
    relisted := store.Get(session);
    ListingEmpty(store.favorites, store.films, Some(1));
  }

  /**
   * The integration scenario: user "1" adds a film, lists it, removes it and
   * lists again; the first list holds the film's row, the second is empty.
   */
  method AddListRemove(film: Film) returns (added: Outcome, listed: Outcome, removed: Outcome, relisted: Outcome)
    ensures added == Respond(201, Success)
    ensures listed == Respond(200, FavoriteList([RowOf(film)]))
    ensures removed == Respond(200, Success)
    ensures relisted == Respond(200, FavoriteList([]))
  {
    var store := new FavoritesStore();
    added, listed := AddAndList(store, film);
    removed, relisted := RemoveAndList(store);
  }
}
