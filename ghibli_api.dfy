/**
 * The upstream catalog client: a process-wide response cache with a 60 000 ms
 * time to live in front of the film API. The clock reading and the upstream
 * HTTP response are parameters of each call.
 */
module GhibliApi {
  import opened Wrappers
  import opened JsText
  import opened FilmTypes

  const API_BASE_URL: string := "https://ghibliapi.vercel.app"
  const TTL_MS: int := 60000

  /** What a cache entry holds: the film list or one film. */
  datatype Payload = FilmList(films: seq<Film>) | OneFilm(film: Film)

  datatype CacheEntry = CacheEntry(data: Payload, expiresAt: int)

  /** The upstream answer to one request: status line and decoded JSON body. */
  datatype HttpResponse<T> = HttpResponse(status: nat, statusText: string, body: T) {
    /** `res.ok`: a status in the range 200-299. */
    predicate Ok() { 200 <= status <= 299 }
  }

  /** The cache key of the film list. */
  function FilmsKey(): string { "films" }

  /** The cache key of one film. */
  function FilmKey(id: string): string { "film-" + id }

  /** The list key is never a per-film key, and distinct ids never share a key. */
  lemma KeysAreDistinct(id: string, other: string)
    ensures FilmsKey() != FilmKey(id)
    ensures FilmKey(id) == FilmKey(other) ==> id == other
  {
    assert FilmKey(id)[4] == '-' && FilmsKey()[4] == 's';
    if FilmKey(id) == FilmKey(other) {
      assert id == FilmKey(id)[5..] && other == FilmKey(other)[5..];
    }
  }

  /** The message of the error thrown for a non-ok response. */
  function FailureMessage(url: string, status: nat, statusText: string): (m: string)
    ensures IsPrefix("Failed to fetch ", m)
    ensures exists i :: OccursAt(m, NatToString(status) + " " + statusText, i)
  {
    var tail := NatToString(status) + " " + statusText;
    var m := "Failed to fetch " + url + ": " + tail;
    assert OccursAt(m, tail, |m| - |tail|);
    m
  }

  /** A lookup at time `now` is served from the cache: the key has an entry that expires strictly later. */
  predicate IsFresh(entries: map<string, CacheEntry>, key: string, now: int) {
    key in entries && entries[key].expiresAt > now
  }

  /** Only the list key holds a film list. */
  predicate WellKeyed(entries: map<string, CacheEntry>) {
    forall k :: k in entries ==> (entries[k].data.FilmList? <==> k == FilmsKey())
  }

  class ApiCache {
    var entries: map<string, CacheEntry>
    /** The keys stored since the cache was created or last cleared, in order. */
    ghost var stored: seq<string>

    ghost predicate Valid()
      reads this
    {
      && entries.Keys == set k | k in stored
      && WellKeyed(entries)
    }

    constructor ()
      ensures Valid() && entries == map[] && stored == []
    {
      entries := map[];
      stored := [];
    }

    /**
     * `fetchJson`: serve a fresh entry; otherwise ask upstream (`response` is
     * its answer) and, on an ok status, store the body with expiry `now + TTL_MS`.
     * A non-ok status fails with a message naming the URL, status and reason,
     * and leaves the cache as it was.
     */
    method FetchJson(key: string, url: string, now: int, response: HttpResponse<Payload>)
      returns (r: Result<Payload, string>, fetched: bool)
      requires Valid()
      requires response.body.FilmList? <==> key == FilmsKey()
      modifies this
      ensures Valid()
      ensures fetched <==> !IsFresh(old(entries), key, now)
      ensures !fetched ==> r == Ok(old(entries)[key].data) && entries == old(entries) && stored == old(stored)
      ensures fetched && response.Ok() ==>
        && r == Ok(response.body)
        && entries == old(entries)[key := CacheEntry(response.body, now + TTL_MS)]
        && stored == old(stored) + [key]
      ensures fetched && !response.Ok() ==>
        r == Err(FailureMessage(url, response.status, response.statusText)) && entries == old(entries) && stored == old(stored)
    {
      if key in entries && entries[key].expiresAt > now {
        return Ok(entries[key].data), false;
      }
      fetched := true;
      if !response.Ok() {
        return Err(FailureMessage(url, response.status, response.statusText)), fetched;
      }
      entries := entries[key := CacheEntry(response.body, now + TTL_MS)];
      ghost var before := stored;
      stored := stored + [key];
      assert (set k | k in stored) == (set k | k in before) + {key};
      r := Ok(response.body);
    }

    /** `getFilms`: the film list under the key "films". */
    method GetFilms(now: int, response: HttpResponse<seq<Film>>)
      returns (r: Result<seq<Film>, string>, fetched: bool)
      requires Valid()
      modifies this
      ensures Valid()
      ensures fetched <==> !IsFresh(old(entries), FilmsKey(), now)
      ensures !fetched ==> entries == old(entries) && r.Ok? && old(entries)[FilmsKey()].data == FilmList(r.value)
      ensures fetched && response.Ok() ==>
        && r == Ok(response.body)
        && entries == old(entries)[FilmsKey() := CacheEntry(FilmList(response.body), now + TTL_MS)]
      ensures fetched && !response.Ok() ==>
        r == Err(FailureMessage(API_BASE_URL + "/films", response.status, response.statusText)) && entries == old(entries)
    {
      var res, f := FetchJson(FilmsKey(), API_BASE_URL + "/films", now,
                              HttpResponse(response.status, response.statusText, FilmList(response.body)));
      fetched := f;
      match res
      case Ok(p) => r := Ok(p.films);
      case Err(e) => r := Err(e);
    }

    /** `getFilmById`: one film under the key "film-" + id. */
    method GetFilmById(id: string, now: int, response: HttpResponse<Film>)
      returns (r: Result<Film, string>, fetched: bool)
      requires Valid()
      modifies this
      ensures Valid()
      ensures fetched <==> !IsFresh(old(entries), FilmKey(id), now)
      ensures !fetched ==> entries == old(entries) && r.Ok? && old(entries)[FilmKey(id)].data == OneFilm(r.value)
      ensures fetched && response.Ok() ==>
        && r == Ok(response.body)
        && entries == old(entries)[FilmKey(id) := CacheEntry(OneFilm(response.body), now + TTL_MS)]
      ensures fetched && !response.Ok() ==>
        r == Err(FailureMessage(API_BASE_URL + "/films/" + id, response.status, response.statusText)) && entries == old(entries)
    {
      KeysAreDistinct(id, id);
      var res, f := FetchJson(FilmKey(id), API_BASE_URL + "/films/" + id, now,
                              HttpResponse(response.status, response.statusText, OneFilm(response.body)));
      fetched := f;
      match res
      case Ok(p) => r := Ok(p.film);
      case Err(e) => r := Err(e);
    }

    /** `clearApiCache`. */
    method Clear()
      modifies this
      ensures Valid() && entries == map[] && stored == []
    {
      entries := map[];
      stored := [];
    }

    /** `getCacheSize`: the number of distinct keys stored since the last clear. */
    method Size() returns (n: nat)
      requires Valid()
      ensures n == |set k | k in stored|
    {
      n := |entries|;
      assert entries.Keys == set k | k in stored;
      assert |entries.Keys| == |entries|;
    }
  }

  /**
   * Two list requests at the same instant reach upstream once: the first
   * fetches and the second is served from the cache. A third one 61 seconds
   * later reaches upstream again. Every call answers with the list.
   */
  method FilmsCachedForTtl(t: int, films: seq<Film>) returns (fetched: seq<bool>, answers: seq<Result<seq<Film>, string>>)
    ensures fetched == [true, false, true]
    ensures answers == [Ok(films), Ok(films), Ok(films)]
  {
    var api := new ApiCache();
    var response := HttpResponse(200, "OK", films);
    var r1, f1 := api.GetFilms(t, response);
    var r2, f2 := api.GetFilms(t, response);
    var r3, f3 := api.GetFilms(t + 61000, response);
    fetched := [f1, f2, f3];
    answers := [r1, r2, r3];
  }

  /** An entry is served up to, but not at, its expiry instant: a call at `t + TTL_MS` reaches upstream. */
  method RefetchAtExpiry(t: int, films: seq<Film>, d: nat) returns (secondFetched: bool)
    ensures secondFetched <==> d >= TTL_MS
  {
    var api := new ApiCache();
    var response := HttpResponse(200, "OK", films);
    var r1, f1 := api.GetFilms(t, response);
    var r2, f2 := api.GetFilms(t + d, response);
    secondFetched := f2;
  }
}
