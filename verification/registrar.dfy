/**
  The user routes: `POST /user` registers a name and hands out a session
  token, `GET /user/:id` hands the stored token of an existing user back.
  The token is what the response's `sessionId` cookie would carry.
 */
module Registrar {
  import opened Tables

  /**
    `POST /user`. `cookie` is the request's `sessionId` cookie, `newId` and
    `newToken` are the two identifiers the handler generates.
   */
  function Register(s: Store, name: string, cookie: Option<Token>, newId: Id, newToken: Token): (r: Response<Token>)
    ensures r.Err? <==> exists u :: u in s.users && u.name == name
    ensures r.Err? ==> r.error == UserAlreadyExists
    // a cookie the caller already holds is never reused
    ensures r.Ok? ==> r.out == newToken
    // exactly one user row is added; meals are untouched
    ensures r.Ok? ==> r.store.users == s.users + [User(newId, name, r.out)] && r.store.meals == s.meals
  {
    var sameName := SelectUsers(s.users, NameIs(name));
    if |sameName| > 0 then Err(UserAlreadyExists)
    else
      var token := if cookie.None? || |sameName| == 0 then newToken else cookie.GetOr(newToken);
      Ok(Store(s.users + [User(newId, name, token)], s.meals), token)
  }

  /** `GET /user/:id`: the stored token of the user with that id; the store is not modified. */
  function ResumeSession(s: Store, id: Id): (r: Response<Token>)
    ensures r.Err? <==> !HasUser(s.users, id)
    ensures r.Err? ==> r.error == UserNotFound
    ensures r.Ok? ==> r.store == s && exists u :: u in s.users && u.id == id && u.sessionId == r.out
  {
    var rows := SelectUsers(s.users, IdIs(id));
    if |rows| == 0 then Err(UserNotFound)
    else
      assert rows[0] in rows;
      Ok(s, rows[0].sessionId)
  }

  /** With unique ids, resuming returns exactly the token stored in that user's row. */
  lemma ResumeReturnsStoredToken(s: Store, u: User)
    requires UserIdsUnique(s.users)
    requires u in s.users
    ensures ResumeSession(s, u.id) == Ok(s, u.sessionId)
  {
  }

  /** The token a registration issues is the one a later resume by the new id returns. */
  lemma RegisterThenResume(s: Store, name: string, cookie: Option<Token>, newId: Id, newToken: Token)
    requires !HasUser(s.users, newId)
    requires Register(s, name, cookie, newId, newToken).Ok?
    ensures var s' := Register(s, name, cookie, newId, newToken).store;
            ResumeSession(s', newId) == Ok(s', newToken)
  {
  }

  /** Registering the same name a second time is rejected. */
  lemma RegisterTwiceRejected(s: Store, name: string, c1: Option<Token>, id1: Id, t1: Token,
                              c2: Option<Token>, id2: Id, t2: Token)
    requires Register(s, name, c1, id1, t1).Ok?
    ensures Register(Register(s, name, c1, id1, t1).store, name, c2, id2, t2) == Err(UserAlreadyExists)
  {
  }

  /** A registration with fresh identifiers keeps names and tokens unique and every meal owned. */
  lemma RegisterPreservesValid(s: Store, name: string, cookie: Option<Token>, newId: Id, newToken: Token)
    requires Valid(s)
    requires !HasUser(s.users, newId)
    requires forall u | u in s.users :: u.sessionId != newToken
    requires Register(s, name, cookie, newId, newToken).Ok?
    ensures Valid(Register(s, name, cookie, newId, newToken).store)
  {
  }
}
