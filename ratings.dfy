/**
 * Star ratings (src/app/actions/ratings.ts): one rating per photo and
 * rating session, where the session is an anonymous id kept in a cookie.
 */
module Ratings {
  import opened Wrappers
  import opened Catalogue

  const SessionCookie := "rating_session"
  /** Five years, in seconds. */
  const SessionMaxAge: nat := 60 * 60 * 24 * 365 * 5

  datatype Cookie = Cookie(value: string, path: string, maxAge: nat, sameSite: string, httpOnly: bool)

  /** The request's cookie store, which the action may set a cookie in. */
  class CookieStore {
    var cookies: map<string, Cookie>

    constructor (cookies: map<string, Cookie>)
      ensures this.cookies == cookies
    {
      this.cookies := cookies;
    }
  }

  /** The session id the request carries; empty when it carries none. */
  function CarriedSession(cookies: map<string, Cookie>): string {
    if SessionCookie in cookies then cookies[SessionCookie].value else []
  }

  /**
   * The session id the rating is filed under: the carried one if it is
   * non-empty, otherwise the freshly generated `freshId`.
   */
  function SessionId(cookies: map<string, Cookie>, freshId: string): (r: string)
    requires freshId != []
    ensures r != []
    ensures CarriedSession(cookies) != [] ==> r == CarriedSession(cookies)
    ensures CarriedSession(cookies) == [] ==> r == freshId
  {
    if CarriedSession(cookies) != [] then CarriedSession(cookies) else freshId
  }

  /** The cookie store after the action: a new session cookie only when none was carried. */
  function IssueSession(cookies: map<string, Cookie>, freshId: string): (r: map<string, Cookie>)
    requires freshId != []
    ensures CarriedSession(cookies) != [] ==> r == cookies
    ensures CarriedSession(cookies) == [] ==>
      r == cookies[SessionCookie := Cookie(freshId, "/", SessionMaxAge, "lax", true)]
  {
    if CarriedSession(cookies) != [] then cookies
    else cookies[SessionCookie := Cookie(freshId, "/", SessionMaxAge, "lax", true)]
  }

  /**
   * Once a session has been issued, every later rating from the same cookie
   * store is filed under it, whatever fresh id those requests generate.
   */
  lemma SessionIsReused(cookies: map<string, Cookie>, freshId: string, laterId: string)
    requires freshId != [] && laterId != []
    ensures CarriedSession(IssueSession(cookies, freshId)) == SessionId(cookies, freshId)
    ensures SessionId(IssueSession(cookies, freshId), laterId) == SessionId(cookies, freshId)
    ensures IssueSession(IssueSession(cookies, freshId), laterId) == IssueSession(cookies, freshId)
  {
  }

  /** Rating the same photo again in the same session replaces the value: no entry is added. */
  lemma ResubmitReplaces(ratings: map<(string, string), int>, key: (string, string), value: int)
    requires key in ratings
    ensures ratings[key := value].Keys == ratings.Keys
    ensures |ratings[key := value]| == |ratings|
  {
    assert ratings[key := value].Keys == ratings.Keys;
  }

  /**
   * A JavaScript number as the action receives it: a finite value, or `NaN`.
   * The infinities are not separate: like any value past 5 or below 1 they
   * are turned away by the range check.
   */
  datatype Number = Finite(x: real) | NaN

  /** `value < 1 || value > 5`: every comparison with `NaN` is false, so `NaN` is not out of range. */
  predicate OutOfRange(value: Number) {
    value.Finite? && (value.x < 1.0 || value.x > 5.0)
  }

  /** A value the integer `value` column stores as it is. */
  predicate IsWhole(value: Number) {
    value.Finite? && value.x == value.x.Floor as real
  }

  /** `NaN` and the fractions between 1 and 5 both pass the range check. */
  lemma RangeCheckLetsThrough()
    ensures !OutOfRange(NaN) && !IsWhole(NaN)
    ensures !OutOfRange(Finite(2.5)) && !IsWhole(Finite(2.5))
  {
    assert (2.5).Floor == 2;
  }

  /** A whole number is accepted and stored exactly when it is one of 1..5. */
  lemma WholeValuesAccepted(v: int)
    ensures 1 <= v <= 5 <==> !OutOfRange(Finite(v as real)) && IsWhole(Finite(v as real))
  {
  }

  /**
   * `submitRating`. A value outside 1..5 is ignored. Otherwise the cookie is
   * set first, then the rating is upserted under (photo, session); the upsert
   * fails on the foreign key when the photo does not exist, and on the
   * column's integer type for `NaN` or a fraction that passed the range check.
   */
  method SubmitRating(db: Catalogue, store: CookieStore, photoId: string, value: Number, freshId: string)
    returns (out: Outcome)
    requires db.Valid() && freshId != []
    modifies db, store
    ensures db.Valid()
    ensures OutOfRange(value) ==> out == Done && unchanged(db) && unchanged(store)
    ensures !OutOfRange(value) ==> store.cookies == IssueSession(old(store.cookies), freshId)
    ensures !OutOfRange(value) && !IsWhole(value) ==> out == Threw(InvalidValue) && unchanged(db)
    ensures !OutOfRange(value) && IsWhole(value) && photoId !in old(db.photos) ==>
      out == Threw(ForeignKeyViolation) && unchanged(db)
    ensures !OutOfRange(value) && IsWhole(value) && photoId in old(db.photos) ==>
      && out == Done
      && 1 <= value.x.Floor <= 5
      && db.ratings == old(db.ratings)[(photoId, SessionId(old(store.cookies), freshId)) := value.x.Floor]
      && db.categories == old(db.categories) && db.photos == old(db.photos) && db.comments == old(db.comments)
  {
    if OutOfRange(value) {
      return Done;
    }
    var sessionId := SessionId(store.cookies, freshId);
    store.cookies := IssueSession(store.cookies, freshId);
    if !IsWhole(value) {
      return Threw(InvalidValue);
    }
    if photoId !in db.photos {
      return Threw(ForeignKeyViolation);
    }
    db.ratings := db.ratings[(photoId, sessionId) := value.x.Floor];
    out := Done;
  }
}
