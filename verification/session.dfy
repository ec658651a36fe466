/**
  The session guard every meal route starts with: the `sessionId` cookie is
  looked up in `users.session_id`, and the first row found is the acting user.
 */
module Session {
  import opened Tables

  ghost predicate TokenHeld(users: seq<User>, t: Token)
  {
    exists u :: u in users && u.sessionId == t
  }

  /** The acting user for a session token: the first user row holding it. */
  function SessionUser(users: seq<User>, t: Token): (r: Option<User>)
    ensures r.Some? <==> TokenHeld(users, t)
    ensures r.Some? ==> r.value in users && r.value.sessionId == t
  {
    var holders := SelectUsers(users, TokenIs(t));
    if |holders| == 0 then None
    else
      assert holders[0] in holders;
      Some(holders[0])
  }

  /** With unique tokens, the acting user is exactly the user holding the token. */
  lemma SessionUserIsHolder(users: seq<User>, t: Token, u: User)
    requires TokensUnique(users)
    requires u in users && u.sessionId == t
    ensures SessionUser(users, t) == Some(u)
  {
  }

  /**
    The ownership gate shared by update, delete and get: the token resolves to
    a user and a meal with this id belongs to that user. A missing meal and a
    meal of someone else both fail it.
   */
  ghost predicate MayAccessMeal(s: Store, t: Token, mealId: Id)
  {
    var holder := SessionUser(s.users, t);
    holder.Some? && OwnsMeal(s.meals, holder.value.id, mealId)
  }

  /** The gate of the per-user routes: one user row matches both the token and the requested id. */
  ghost predicate Authorised(users: seq<User>, t: Token, userId: Id)
  {
    exists u :: u in users && u.sessionId == t && u.id == userId
  }
}
