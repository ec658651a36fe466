/**
  The meal routes: create, update, delete, fetch one meal, and list the
  meals of a user. Every route first resolves the `sessionId` cookie to the
  acting user; update, delete and fetch then require that the meal with the
  requested id belongs to that user.
 */
module Ledger {
  import opened Tables
  import opened Session

  /** Every row with id `mealId` rewritten with the new fields, owner and stamp; the other rows untouched. */
  function SetFields(meals: seq<Meal>, mealId: Id, owner: Id, f: MealFields, now: Timestamp): seq<Meal>
  {
    seq(|meals|, i requires 0 <= i < |meals| =>
      if meals[i].id == mealId then Meal(mealId, owner, f, Some(now)) else meals[i])
  }

  /** `POST /meal`: appends one meal owned by the session's user. `newMealId` is the generated id. */
  function CreateMeal(s: Store, cookie: Option<Token>, f: MealFields, newMealId: Id): (r: Response<()>)
    ensures r.Ok? <==> cookie.Some? && TokenHeld(s.users, cookie.value)
    ensures r.Err? ==> r.error == (if cookie.None? then NoSession else UserNotFoundOrNoPermission)
    ensures r.Ok? ==> r.store.users == s.users && |r.store.meals| == |s.meals| + 1 && r.store.meals[..|s.meals|] == s.meals
    ensures r.Ok? ==>
              var m := r.store.meals[|s.meals|];
              && m.id == newMealId && m.fields == f && m.updatedAt == None
              && exists u :: u in s.users && u.sessionId == cookie.value && u.id == m.userId
  {
    if cookie.None? then Err(NoSession)
    else
      var holder := SessionUser(s.users, cookie.value);
      if holder.Some? then
        Ok(Store(s.users, s.meals + [Meal(newMealId, holder.value.id, f, None)]), ())
      else
        Err(UserNotFoundOrNoPermission)
  }

  /**
    `PUT /meal/:id`: replaces the fields of the caller's meal and stamps it
    with `now`; the owner column is written back from the row found by the
    ownership check.
   */
  function UpdateMeal(s: Store, cookie: Option<Token>, mealId: Id, f: MealFields, now: Timestamp): (r: Response<()>)
    ensures r == Err(NoSession) <==> cookie.None?
    ensures r == Err(UserNotFound) <==> cookie.Some? && !TokenHeld(s.users, cookie.value)
    ensures r == Err(MealNotFoundOrNoPermission) <==>
              cookie.Some? && TokenHeld(s.users, cookie.value) && !MayAccessMeal(s, cookie.value, mealId)
    ensures r.Ok? <==> cookie.Some? && MayAccessMeal(s, cookie.value, mealId)
    ensures r.Ok? ==> r.store.users == s.users && |r.store.meals| == |s.meals|
    ensures r.Ok? ==> forall i | 0 <= i < |s.meals| && s.meals[i].id != mealId :: r.store.meals[i] == s.meals[i]
    ensures r.Ok? ==> forall i | 0 <= i < |s.meals| && s.meals[i].id == mealId ::
              r.store.meals[i] == Meal(mealId, SessionUser(s.users, cookie.value).value.id, f, Some(now))
  {
    if cookie.None? then Err(NoSession)
    else
      var holder := SessionUser(s.users, cookie.value);
      if holder.None? then Err(UserNotFound)
      else
        var owned := SelectMeals(s.meals, MealIdAndOwnerAre(mealId, holder.value.id));
        if |owned| > 0 then
          assert owned[0] in owned;
          Ok(Store(s.users, SetFields(s.meals, mealId, owned[0].userId, f, now)), ())
        else
          Err(MealNotFoundOrNoPermission)
  }

  /** `DELETE /meal/:id`: removes the caller's meal. */
  function DeleteMeal(s: Store, cookie: Option<Token>, mealId: Id): (r: Response<()>)
    ensures r == Err(NoSession) <==> cookie.None?
    ensures r == Err(UserNotFound) <==> cookie.Some? && !TokenHeld(s.users, cookie.value)
    ensures r == Err(MealNotFoundOrNoPermission) <==>
              cookie.Some? && TokenHeld(s.users, cookie.value) && !MayAccessMeal(s, cookie.value, mealId)
    ensures r.Ok? <==> cookie.Some? && MayAccessMeal(s, cookie.value, mealId)
    ensures r.Ok? ==> r.store.users == s.users && |r.store.meals| < |s.meals|
    ensures r.Ok? ==> forall m :: m in r.store.meals <==> m in s.meals && m.id != mealId
    ensures r.Ok? ==> forall m: Meal | m.id != mealId :: multiset(r.store.meals)[m] == multiset(s.meals)[m]
  {
    if cookie.None? then Err(NoSession)
    else
      var holder := SessionUser(s.users, cookie.value);
      if holder.None? then Err(UserNotFound)
      else
        var owned := SelectMeals(s.meals, MealIdAndOwnerAre(mealId, holder.value.id));
        if |owned| > 0 then
          assert owned[0] in owned && MealMatches(owned[0], MealIdIs(mealId));
          SelectDeletePartition(s.meals, MealIdIs(mealId));
          DeleteMealsMultiset(s.meals, MealIdIs(mealId));
          Ok(Store(s.users, DeleteMeals(s.meals, MealIdIs(mealId))), ())
        else
          Err(MealNotFoundOrNoPermission)
  }

  /** `GET /meal/:id`: the rows with this id that the caller owns; the store is not modified. */
  function GetMeal(s: Store, cookie: Option<Token>, mealId: Id): (r: Response<seq<Meal>>)
    ensures r == Err(NoSession) <==> cookie.None?
    ensures r == Err(UserNotFound) <==> cookie.Some? && !TokenHeld(s.users, cookie.value)
    ensures r == Err(MealNotFound) <==>
              cookie.Some? && TokenHeld(s.users, cookie.value) && !MayAccessMeal(s, cookie.value, mealId)
    ensures r.Ok? <==> cookie.Some? && MayAccessMeal(s, cookie.value, mealId)
    ensures r.Ok? ==> r.store == s && |r.out| > 0
    ensures r.Ok? ==> forall m :: m in r.out <==>
              m in s.meals && m.id == mealId && m.userId == SessionUser(s.users, cookie.value).value.id
  {
    if cookie.None? then Err(NoSession)
    else
      var holder := SessionUser(s.users, cookie.value);
      if holder.None? then Err(UserNotFound)
      else
        var owned := SelectMeals(s.meals, MealIdAndOwnerAre(mealId, holder.value.id));
        if |owned| > 0 then
          assert owned[0] in owned;
          Ok(s, owned)
        else
          Err(MealNotFound)
  }

  /**
    `GET /meals/:id`: every meal of user `userId`, in table order. The caller
    must be that user, and a user without meals is an error.
   */
  function ListMeals(s: Store, cookie: Option<Token>, userId: Id): (r: Response<seq<Meal>>)
    ensures r == Err(NoSession) <==> cookie.None?
    ensures r == Err(UserNotFoundOrNoPermission) <==> cookie.Some? && !Authorised(s.users, cookie.value, userId)
    ensures r == Err(MealsNotFound) <==>
              cookie.Some? && Authorised(s.users, cookie.value, userId) && !exists m :: m in s.meals && m.userId == userId
    ensures r.Ok? <==>
              cookie.Some? && Authorised(s.users, cookie.value, userId) && exists m :: m in s.meals && m.userId == userId
    ensures r.Ok? ==> r.store == s
    ensures r.Ok? ==> forall m :: multiset(r.out)[m] == if m.userId == userId then multiset(s.meals)[m] else 0
  {
    if cookie.None? then Err(NoSession)
    else
      var me := SelectUsers(s.users, TokenAndIdAre(cookie.value, userId));
      if |me| == 0 then Err(UserNotFoundOrNoPermission)
      else
        var rows := SelectMeals(s.meals, OwnerIs(userId));
        SelectMealsMultiset(s.meals, OwnerIs(userId));
        if |rows| > 0 then Ok(s, rows) else Err(MealsNotFound)
  }

  // ---------------------------------------------------------------------------
  // Invariant preservation

  /** Creating a meal under a fresh id keeps the store valid: the new meal's owner exists. */
  lemma CreatePreservesValid(s: Store, cookie: Option<Token>, f: MealFields, newMealId: Id)
    requires Valid(s)
    requires forall m | m in s.meals :: m.id != newMealId
    requires CreateMeal(s, cookie, f, newMealId).Ok?
    ensures Valid(CreateMeal(s, cookie, f, newMealId).store)
  {
  }

  /** With unique meal ids an update writes back the row's own owner: no meal changes hands. */
  lemma UpdateKeepsOwner(s: Store, cookie: Option<Token>, mealId: Id, f: MealFields, now: Timestamp)
    requires MealIdsUnique(s.meals)
    requires UpdateMeal(s, cookie, mealId, f, now).Ok?
    ensures var s' := UpdateMeal(s, cookie, mealId, f, now).store;
            forall i | 0 <= i < |s.meals| :: s'.meals[i].id == s.meals[i].id && s'.meals[i].userId == s.meals[i].userId
  {
  }

  lemma UpdatePreservesValid(s: Store, cookie: Option<Token>, mealId: Id, f: MealFields, now: Timestamp)
    requires Valid(s)
    requires UpdateMeal(s, cookie, mealId, f, now).Ok?
    ensures Valid(UpdateMeal(s, cookie, mealId, f, now).store)
  {
  }

  lemma DeletePreservesValid(s: Store, cookie: Option<Token>, mealId: Id)
    requires Valid(s)
    requires DeleteMeal(s, cookie, mealId).Ok?
    ensures Valid(DeleteMeal(s, cookie, mealId).store)
  {
    DeleteKeepsIdsUnique(s.meals, MealIdIs(mealId));
  }

  /** In a valid store a delete removes exactly one row. */
  lemma DeleteRemovesOne(s: Store, cookie: Option<Token>, mealId: Id)
    requires Valid(s)
    requires DeleteMeal(s, cookie, mealId).Ok?
    ensures |DeleteMeal(s, cookie, mealId).store.meals| == |s.meals| - 1
  {
    var m :| m in s.meals && m.id == mealId && m.userId == SessionUser(s.users, cookie.value).value.id;
    assert AtMostOneMeal(s.meals, MealIdIs(mealId));
    SelectMealsSingle(s.meals, MealIdIs(mealId), m);
    SelectDeletePartition(s.meals, MealIdIs(mealId));
  }

  /** Deleting rows from a table whose ids are unique leaves the ids unique. */
  lemma {:induction false} DeleteKeepsIdsUnique(meals: seq<Meal>, f: MealFilter)
    requires MealIdsUnique(meals)
    ensures MealIdsUnique(DeleteMeals(meals, f))
    decreases |meals|
  {
    if |meals| > 0 {
      var rest := DeleteMeals(meals[1..], f);
      DeleteKeepsIdsUnique(meals[1..], f);
      if !MealMatches(meals[0], f) {
        var r := [meals[0]] + rest;
        forall i, j | 0 <= i < j < |r| ensures r[i].id != r[j].id {
          if i == 0 {
            assert r[j] in rest;
            var k :| 0 <= k < |meals[1..]| && meals[1..][k] == r[j];
            assert meals[k + 1] == r[j];
          } else {
            assert r[i] == rest[i - 1] && r[j] == rest[j - 1];
          }
        }
      }
    }
  }

  // ---------------------------------------------------------------------------
  // Behaviour across routes

  /** In a valid store the owner fetching a meal gets exactly that one row. */
  lemma GetOwnMeal(s: Store, u: User, m: Meal)
    requires Valid(s)
    requires u in s.users && m in s.meals && m.userId == u.id
    ensures GetMeal(s, Some(u.sessionId), m.id) == Ok(s, [m])
  {
    SessionUserIsHolder(s.users, u.sessionId, u);
    assert AtMostOneMeal(s.meals, MealIdAndOwnerAre(m.id, u.id));
    SelectMealsSingle(s.meals, MealIdAndOwnerAre(m.id, u.id), m);
  }

  /**
    Another user's meal is as invisible as a missing one: fetching, updating
    and deleting it fail exactly as for an id that does not exist, and
    nothing changes.
   */
  lemma OthersMealsAreHidden(s: Store, other: User, m: Meal, f: MealFields, now: Timestamp)
    requires Valid(s)
    requires other in s.users && m in s.meals && m.userId != other.id
    ensures GetMeal(s, Some(other.sessionId), m.id) == Err(MealNotFound)
    ensures UpdateMeal(s, Some(other.sessionId), m.id, f, now) == Err(MealNotFoundOrNoPermission)
    ensures DeleteMeal(s, Some(other.sessionId), m.id) == Err(MealNotFoundOrNoPermission)
  {
  }

  /** After an update the owner reads back exactly the new fields, the old owner and the new stamp. */
  lemma UpdateThenGet(s: Store, u: User, m: Meal, f: MealFields, now: Timestamp)
    requires Valid(s)
    requires u in s.users && m in s.meals && m.userId == u.id
    ensures UpdateMeal(s, Some(u.sessionId), m.id, f, now).Ok?
    ensures var s' := UpdateMeal(s, Some(u.sessionId), m.id, f, now).store;
            GetMeal(s', Some(u.sessionId), m.id) == Ok(s', [Meal(m.id, m.userId, f, Some(now))])
  {
    SessionUserIsHolder(s.users, u.sessionId, u);
    var s' := UpdateMeal(s, Some(u.sessionId), m.id, f, now).store;
    UpdatePreservesValid(s, Some(u.sessionId), m.id, f, now);
    var k :| 0 <= k < |s.meals| && s.meals[k] == m;
    assert s'.meals[k] in s'.meals;
    GetOwnMeal(s', u, Meal(m.id, m.userId, f, Some(now)));
  }

  /** After a delete, fetching the same id fails. */
  lemma DeleteThenGet(s: Store, cookie: Option<Token>, mealId: Id)
    requires DeleteMeal(s, cookie, mealId).Ok?
    ensures GetMeal(DeleteMeal(s, cookie, mealId).store, cookie, mealId) == Err(MealNotFound)
  {
  }

  /** A created meal can be fetched by its creator under the new id. */
  lemma CreateThenGet(s: Store, u: User, f: MealFields, newMealId: Id)
    requires Valid(s)
    requires u in s.users
    requires forall m | m in s.meals :: m.id != newMealId
    ensures CreateMeal(s, Some(u.sessionId), f, newMealId).Ok?
    ensures var s' := CreateMeal(s, Some(u.sessionId), f, newMealId).store;
            GetMeal(s', Some(u.sessionId), newMealId) == Ok(s', [Meal(newMealId, u.id, f, None)])
  {
    SessionUserIsHolder(s.users, u.sessionId, u);
    var s' := CreateMeal(s, Some(u.sessionId), f, newMealId).store;
    CreatePreservesValid(s, Some(u.sessionId), f, newMealId);
    assert s'.meals[|s.meals|] in s'.meals;
    GetOwnMeal(s', u, Meal(newMealId, u.id, f, None));
  }

  /**
    Adding a meal to the table adds it to the end of its owner's list and
    leaves every other user's list as it was.
   */
  lemma ListAppend(users: seq<User>, meals: seq<Meal>, x: Meal, cookie: Option<Token>, userId: Id)
    requires ListMeals(Store(users, meals), cookie, userId).Ok?
    ensures ListMeals(Store(users, meals + [x]), cookie, userId).Ok?
    ensures ListMeals(Store(users, meals + [x]), cookie, userId).out
            == ListMeals(Store(users, meals), cookie, userId).out + (if x.userId == userId then [x] else [])
  {
    SelectAppend(meals, x, OwnerIs(userId));
  }

  /**
    A delete keeps the order of the rows that survive: every `select` on the
    new table is the old `select` without the deleted id. In particular the
    owner's list afterwards is the old list without that meal.
   */
  lemma DeleteKeepsOrder(s: Store, cookie: Option<Token>, mealId: Id, c: Option<Token>, userId: Id)
    requires DeleteMeal(s, cookie, mealId).Ok?
    ensures var s' := DeleteMeal(s, cookie, mealId).store;
            ListMeals(s', c, userId).Ok? ==>
              && ListMeals(s, c, userId).Ok?
              && ListMeals(s', c, userId).out == DeleteMeals(ListMeals(s, c, userId).out, MealIdIs(mealId))
  {
    SelectDeleteCommute(s.meals, OwnerIs(userId), MealIdIs(mealId));
  }

  /**
    In a valid store, a delete leaves every `select` whose rows all belong to
    other users than the deleting one exactly as it was, order included.
   */
  lemma DeleteLeavesOthersRows(s: Store, cookie: Option<Token>, mealId: Id, f: MealFilter)
    requires Valid(s)
    requires DeleteMeal(s, cookie, mealId).Ok?
    requires forall m | m in s.meals && MealMatches(m, f) :: m.userId != SessionUser(s.users, cookie.value).value.id
    ensures SelectMeals(DeleteMeal(s, cookie, mealId).store.meals, f) == SelectMeals(s.meals, f)
  {
    var owner := SessionUser(s.users, cookie.value).value.id;
    var m0 :| m0 in s.meals && m0.id == mealId && m0.userId == owner;
    assert AtMostOneMeal(s.meals, MealIdIs(mealId));
    SelectMealsSingle(s.meals, MealIdIs(mealId), m0);
    SelectDeleteCommute(s.meals, f, MealIdIs(mealId));
    DeleteMealsNone(SelectMeals(s.meals, f), MealIdIs(mealId));
  }

  /** In a valid store, deleting a meal does not change another user's list. */
  lemma DeleteKeepsOthersList(s: Store, cookie: Option<Token>, mealId: Id, c: Option<Token>, userId: Id)
    requires Valid(s)
    requires DeleteMeal(s, cookie, mealId).Ok?
    requires userId != SessionUser(s.users, cookie.value).value.id
    ensures var s' := DeleteMeal(s, cookie, mealId).store;
            ListMeals(s', c, userId)
            == if ListMeals(s, c, userId).Ok? then Ok(s', ListMeals(s, c, userId).out) else ListMeals(s, c, userId)
  {
    DeleteLeavesOthersRows(s, cookie, mealId, OwnerIs(userId));
  }
}
