/**
 * The favourite toggle of a film card: a module-level cache of the signed-in
 * user's favourite film ids, shared by every button on the page, and the
 * button's own `isFavorite` / `initialised` state.
 *
 * The cache's pending request is a three-valued state (no request, pending,
 * resolved to a set); awaiting it is split into explicit steps so that two
 * loads sharing one request can be written down. Network answers are
 * parameters of the steps that receive them.
 */
module FavoriteButton {
  import opened Wrappers

  // ---------------------------------------------------------------- responses

  /** `response.ok`: a status in 200..299. */
  predicate IsOk(status: int) {
    200 <= status <= 299
  }

  /**
   * The answer to `GET /api/favorites`: a status and, when the body parses as
   * a JSON list of films, their ids; or a network failure (the fetch rejects).
   */
  datatype FavoritesResponse = Answered(status: int, body: Option<seq<string>>) | NetworkError

  /** The set of ids of a list of films (`new Set(favorites.map(f => f.id))`). */
  function IdsOf(ids: seq<string>): (r: set<string>)
    ensures forall id :: id in r <==> id in ids
    ensures |r| <= |ids|
  {
    if ids == [] then {} else {ids[0]} + IdsOf(ids[1..])
  }

  /**
   * What the request promise resolves to: the ids of the listed films when the
   * answer is ok and its body is a list, and the empty set on every failure
   * (non-ok status, unreadable body, network error), which `.catch` absorbs.
   */
  function Received(response: FavoritesResponse): (r: set<string>)
    ensures response.Answered? && IsOk(response.status) && response.body.Some? ==>
      forall id :: id in r <==> id in response.body.value
    ensures !(response.Answered? && IsOk(response.status) && response.body.Some?) ==> r == {}
  {
    match response
    case Answered(status, Some(ids)) => if IsOk(status) then IdsOf(ids) else {}
    case _ => {}
  }

  // ---------------------------------------------------------------- the cache

  /** `cache.promise`: none, a request not yet answered, or one that has resolved. */
  datatype PromiseState = NoPromise | Pending | Resolved(value: set<string>)

  /** The shared `cache` object: `data` and `promise`, plus the number of requests issued. */
  class FavoritesCache {
    var data: Option<set<string>>
    var promise: PromiseState
    /** How many `GET /api/favorites` requests this cache has issued. */
    var requests: nat

    /** Data is only ever stored from a resolved request (and patched afterwards). */
    ghost predicate Valid()
      reads this
    {
      data.Some? ==> promise.Resolved?
    }

    twostate predicate Unchanged()
      reads this
    {
      data == old(data) && promise == old(promise) && requests == old(requests)
    }

    constructor()
      ensures data == None && promise == NoPromise && requests == 0
      ensures Valid()
    {
      data := None;
      promise := NoPromise;
      requests := 0;
    }

    /**
     * The synchronous start of `loadFavorites`: stored data is answered at once
     * (`hit`); otherwise a request is issued unless one already exists, and the
     * caller goes on to await the promise.
     */
    method BeginLoad() returns (hit: Option<set<string>>)
      requires Valid()
      modifies this
      ensures Valid()
      ensures data == old(data)
      ensures old(data).Some? ==> hit == old(data) && promise == old(promise) && requests == old(requests)
      ensures old(data).None? && old(promise).NoPromise? ==>
        hit == None && promise == Pending && requests == old(requests) + 1
      ensures old(data).None? && !old(promise).NoPromise? ==>
        hit == None && promise == old(promise) && requests == old(requests)
    {
      if data.Some? {
        return data;
      }
      if promise.NoPromise? {
        promise := Pending;
        requests := requests + 1;
      }
      hit := None;
    }

    /** The pending request is answered: the promise resolves to what was received. */
    method Settle(response: FavoritesResponse)
      requires Valid() && promise.Pending?
      modifies this
      ensures Valid()
      ensures promise == Resolved(Received(response))
      ensures data == old(data) && requests == old(requests)
    {
      promise := Resolved(Received(response));
    }

    /** A load resumes after `await cache.promise`: the result is stored in `data` and returned. */
    method FinishLoad() returns (result: set<string>)
      requires Valid() && promise.Resolved?
      modifies this
      ensures Valid()
      ensures result == old(promise).value
      ensures data == Some(result) && promise == old(promise) && requests == old(requests)
    {
      result := promise.value;
      data := Some(result);
    }

    /**
     * `loadFavorites` run to completion with no other step in between: stored
     * data is reused without a request; otherwise the existing request is
     * awaited, or one new request is issued and `response` is its answer. The
     * outcome, failures included, is stored in `data`.
     */
    method Load(response: FavoritesResponse) returns (result: set<string>)
      requires Valid()
      modifies this
      ensures Valid()
      ensures old(data).Some? ==> result == old(data).value && Unchanged()
      ensures old(data).None? ==> data == Some(result) && promise == Resolved(result)
      ensures old(data).None? && old(promise).NoPromise? ==>
        result == Received(response) && requests == old(requests) + 1
      ensures old(data).None? && old(promise).Pending? ==>
        result == Received(response) && requests == old(requests)
      ensures old(data).None? && old(promise).Resolved? ==>
        result == old(promise).value && requests == old(requests)
    {
      var hit := BeginLoad();
      if hit.Some? {
        return hit.value;
      }
      if promise.Pending? {
        Settle(response);
      }
      result := FinishLoad();
    }

    /** `invalidateFavorites`: both the data and the request are dropped. */
    method Invalidate()
      modifies this
      ensures data == None && promise == NoPromise && requests == old(requests)
      ensures Valid()
    {
      data := None;
      promise := NoPromise;
    }
  }

  // ---------------------------------------------------------------- patching after a toggle

  /** The cached set after a successful toggle: `filmId` removed if it was a favourite, added if not. */
  function Patched(ids: set<string>, filmId: string, wasFavorite: bool): (r: set<string>)
    ensures filmId in r <==> !wasFavorite
    ensures forall id :: id != filmId ==> (id in r <==> id in ids)
  {
    if wasFavorite then ids - {filmId} else ids + {filmId}
  }

  /** A patch that agrees with the set, followed by the opposite patch, gives the set back. */
  lemma PatchedUndone(ids: set<string>, filmId: string, wasFavorite: bool)
    requires (filmId in ids) == wasFavorite
    ensures Patched(Patched(ids, filmId, wasFavorite), filmId, !wasFavorite) == ids
  {
    var once := Patched(ids, filmId, wasFavorite);
    var twice := Patched(once, filmId, !wasFavorite);
    forall id ensures id in twice <==> id in ids {
      if id == filmId {
        assert filmId in twice <==> wasFavorite;
      }
    }
  }

  // ---------------------------------------------------------------- the button

  /** `useSession().status`. */
  datatype SessionStatus = Loading | Authenticated | Unauthenticated

  /** The request a toggle sends: `DELETE` when the film is a favourite, `POST` otherwise. */
  datatype Mutation = Post(filmId: string) | Delete(filmId: string)

  /** The answer to that request: a status, or a network failure. */
  datatype MutationResponse = Replied(status: int) | Unreachable

  predicate Succeeded(response: MutationResponse) {
    response.Replied? && IsOk(response.status)
  }

  /** The request for a toggle from the given state. */
  function MutationFor(filmId: string, isFavorite: bool): (m: Mutation)
    ensures m.filmId == filmId
    ensures m.Delete? <==> isFavorite
  {
    if isFavorite then Delete(filmId) else Post(filmId)
  }

  /** One `FavoriteButton` for `filmId`, sharing `cache` with every other button. */
  class Button {
    const filmId: string
    const cache: FavoritesCache
    var isFavorite: bool
    var initialised: bool
    /** How many times `signIn` was called. */
    var signIns: nat
    /** The favourite requests sent, oldest first. */
    var sent: seq<Mutation>

    /** The button agrees with the cached set whenever there is one. */
    ghost predicate Consistent()
      reads this, cache
    {
      cache.data.Some? ==> (isFavorite <==> filmId in cache.data.value)
    }

    twostate predicate Unchanged()
      reads this
    {
      isFavorite == old(isFavorite) && initialised == old(initialised)
      && signIns == old(signIns) && sent == old(sent)
    }

    constructor(filmId: string, cache: FavoritesCache)
      ensures this.filmId == filmId && this.cache == cache
      ensures !isFavorite && !initialised && signIns == 0 && sent == []
    {
      this.filmId := filmId;
      this.cache := cache;
      isFavorite := false;
      initialised := false;
      signIns := 0;
      sent := [];
    }

    /**
     * The initialisation effect. It does nothing unless the user is signed in
     * and the button is not yet initialised; otherwise it loads the favourites
     * and, unless the effect was cleaned up meanwhile (`cancelled`), sets
     * `isFavorite` to whether `filmId` is among them.
     */
    method Initialise(status: SessionStatus, response: FavoritesResponse, cancelled: bool)
      requires cache.Valid()
      modifies this, cache
      ensures cache.Valid()
      ensures signIns == old(signIns) && sent == old(sent)
      ensures status != Authenticated || old(initialised) ==> Unchanged() && cache.Unchanged()
      ensures status == Authenticated && !old(initialised) ==>
        && cache.data.Some?
        && (old(cache.data).Some? ==> cache.Unchanged())
        && (old(cache.data).None? ==> cache.promise == Resolved(cache.data.value))
        && (old(cache.data).None? && old(cache.promise).NoPromise? ==>
              cache.data == Some(Received(response)) && cache.requests == old(cache.requests) + 1)
        && (old(cache.data).None? && old(cache.promise).Pending? ==>
              cache.data == Some(Received(response)) && cache.requests == old(cache.requests))
        && (old(cache.data).None? && old(cache.promise).Resolved? ==>
              cache.data == Some(old(cache.promise).value) && cache.requests == old(cache.requests))
        && (!cancelled ==> initialised && Consistent())
        && (cancelled ==> Unchanged())
    {
      if status != Authenticated || initialised {
        return;
      }
      var favorites := cache.Load(response);
      if !cancelled {
        isFavorite := filmId in favorites;
        initialised := true;
      }
    }

    /**
     * `toggleFavorite`. Signed out, it only calls `signIn`. Signed in, it sends
     * `DELETE` or `POST`; a failed request changes nothing more, and a
     * successful one flips `isFavorite` and patches the cached set, or drops
     * the cache when there is no set to patch.
     */
    method Toggle(status: SessionStatus, response: MutationResponse)
      requires cache.Valid()
      modifies this, cache
      ensures cache.Valid()
      ensures initialised == old(initialised) && cache.requests == old(cache.requests)
      ensures status != Authenticated ==>
        signIns == old(signIns) + 1 && sent == old(sent) && isFavorite == old(isFavorite) && cache.Unchanged()
      ensures status == Authenticated ==>
        signIns == old(signIns) && sent == old(sent) + [MutationFor(filmId, old(isFavorite))]
      ensures status == Authenticated && !Succeeded(response) ==>
        isFavorite == old(isFavorite) && cache.Unchanged()
      ensures status == Authenticated && Succeeded(response) ==>
        && isFavorite == !old(isFavorite)
        && (old(cache.data).Some? ==>
              cache.data == Some(Patched(old(cache.data).value, filmId, old(isFavorite)))
              && cache.promise == old(cache.promise))
        && (old(cache.data).None? ==> cache.data == None && cache.promise == NoPromise)
      ensures old(Consistent()) ==> Consistent()
    {
      if status != Authenticated {
        signIns := signIns + 1;
        return;
      }
      sent := sent + [MutationFor(filmId, isFavorite)];
      if !Succeeded(response) {
        return;
      }
      var wasFavorite := isFavorite;
      isFavorite := !isFavorite;
      if cache.data.Some? {
        cache.data := Some(Patched(cache.data.value, filmId, wasFavorite));
      } else {
        cache.Invalidate();
      }
    }
  }

  // ---------------------------------------------------------------- scenarios

  /**
   * Two loads that start before the request is answered share it: one request
   * is issued and both loads obtain the same set.
   */
  method SharedRequest(response: FavoritesResponse) returns (first: set<string>, second: set<string>, requests: nat)
    ensures first == second == Received(response)
    ensures requests == 1
  {
    var cache := new FavoritesCache();
    var hit1 := cache.BeginLoad();
    var hit2 := cache.BeginLoad();
    assert hit1 == None && hit2 == None;
    cache.Settle(response);
    first := cache.FinishLoad();
    second := cache.FinishLoad();
    requests := cache.requests;
  }

  /**
   * A failed load is stored like a successful one: the next load answers the
   * empty set from the cache, whatever the server would now say, until the
   * cache is invalidated.
   */
  method FailureIsKept(later: FavoritesResponse) returns (first: set<string>, second: set<string>, requests: nat)
    ensures first == {} && second == {}
    ensures requests == 1
  {
    var cache := new FavoritesCache();
    first := cache.Load(NetworkError);
    second := cache.Load(later);
    requests := cache.requests;
  }

  /**
   * A signed-in user adds a film and then removes it again: two requests,
   * `POST` then `DELETE`, and the cached set ends as it began.
   */
  method AddThenRemove(filmId: string, listed: seq<string>) returns (before: set<string>, after: set<string>, sent: seq<Mutation>)
    requires filmId !in listed
    ensures before == after == IdsOf(listed)
    ensures sent == [Post(filmId), Delete(filmId)]
  {
    var cache := new FavoritesCache();
    var button := new Button(filmId, cache);
    button.Initialise(Authenticated, Answered(200, Some(listed)), false);
    before := cache.data.value;
    assert !button.isFavorite;
    button.Toggle(Authenticated, Replied(201));
    assert button.isFavorite;
    button.Toggle(Authenticated, Replied(200));
    PatchedUndone(before, filmId, false);
    after := cache.data.value;
    sent := button.sent;
  }
}
