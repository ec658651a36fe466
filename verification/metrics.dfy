/**
  `GET /metrics/:id`: summary counts over one user's meals. The `sequence`
  figure is the list of names of the in-diet meals, in table order; it is not
  a run or streak of any kind.
 */
module Metrics {
  import opened Tables
  import opened Session
  import Ledger

  datatype Report = Report(total: nat, isTrue: nat, isFalse: nat, sequence: seq<string>)

  /** `select('name')`: the name column of the rows, in order. */
  function Names(meals: seq<Meal>): seq<string>
  {
    seq(|meals|, i requires 0 <= i < |meals| => meals[i].fields.name)
  }

  /** The name column of one more row is one more name at the end. */
  lemma NamesAppend(rows: seq<Meal>, x: Meal)
    ensures Names(rows + [x]) == Names(rows) + [x.fields.name]
  {
  }

  /** Each meal of a user is either in the diet or not, never both. */
  lemma InsideSplitsOwner(meals: seq<Meal>, owner: Id)
    ensures |Positions(meals, OwnerIs(owner))|
            == |Positions(meals, OwnerAndInsideAre(owner, true))| + |Positions(meals, OwnerAndInsideAre(owner, false))|
  {
    var inDiet := Positions(meals, OwnerAndInsideAre(owner, true));
    var offDiet := Positions(meals, OwnerAndInsideAre(owner, false));
    assert Positions(meals, OwnerIs(owner)) == inDiet + offDiet;
    assert inDiet * offDiet == {};
  }

  /** A name is in the `sequence` figure exactly when some in-diet meal of the owner carries it. */
  lemma InDietNames(meals: seq<Meal>, owner: Id)
    ensures forall n :: n in Names(SelectMeals(meals, OwnerAndInsideAre(owner, true))) <==>
              exists m :: m in meals && m.userId == owner && m.fields.inside && m.fields.name == n
  {
    var rows := SelectMeals(meals, OwnerAndInsideAre(owner, true));
    var names := Names(rows);
    forall n ensures n in names <==> exists m :: m in meals && m.userId == owner && m.fields.inside && m.fields.name == n {
      if n in names {
        var i :| 0 <= i < |names| && names[i] == n;
        assert rows[i] in rows;
      }
      if exists m :: m in meals && m.userId == owner && m.fields.inside && m.fields.name == n {
        var m :| m in meals && m.userId == owner && m.fields.inside && m.fields.name == n;
        assert m in rows;
        var i :| 0 <= i < |rows| && rows[i] == m;
        assert names[i] == n;
      }
    }
  }

  /** The four queries of the metrics route, run for one owner. */
  function Figures(meals: seq<Meal>, owner: Id): Report
  {
    var inDiet := SelectMeals(meals, OwnerAndInsideAre(owner, true));
    Report(|SelectMeals(meals, OwnerIs(owner))|, |inDiet|,
           |SelectMeals(meals, OwnerAndInsideAre(owner, false))|, Names(inDiet))
  }

  /** The metrics of user `userId`; the caller must be that user. */
  function Metrics(s: Store, cookie: Option<Token>, userId: Id): (r: Response<Report>)
    ensures r == Err(NoSession) <==> cookie.None?
    ensures r == Err(UserNotFound) <==> cookie.Some? && !Authorised(s.users, cookie.value, userId)
    ensures r.Ok? <==> cookie.Some? && Authorised(s.users, cookie.value, userId)
    ensures r.Ok? ==> r.store == s
    ensures r.Ok? ==> r.out.total == |Positions(s.meals, OwnerIs(userId))|
    ensures r.Ok? ==> r.out.isTrue == |Positions(s.meals, OwnerAndInsideAre(userId, true))|
    ensures r.Ok? ==> r.out.isFalse == |Positions(s.meals, OwnerAndInsideAre(userId, false))|
    ensures r.Ok? ==> r.out.total == r.out.isTrue + r.out.isFalse
    ensures r.Ok? ==> |r.out.sequence| == r.out.isTrue
    ensures r.Ok? ==> forall n :: n in r.out.sequence <==>
              exists m :: m in s.meals && m.userId == userId && m.fields.inside && m.fields.name == n
  {
    if cookie.None? then Err(NoSession)
    else if |SelectUsers(s.users, TokenAndIdAre(cookie.value, userId))| == 0 then Err(UserNotFound)
    else
      SelectCountsPositions(s.meals, OwnerIs(userId));
      SelectCountsPositions(s.meals, OwnerAndInsideAre(userId, true));
      SelectCountsPositions(s.meals, OwnerAndInsideAre(userId, false));
      InsideSplitsOwner(s.meals, userId);
      InDietNames(s.meals, userId);
      Ok(s, Figures(s.meals, userId))
  }

  /**
    The metrics and the meal list agree: when the list succeeds, `total` is
    its length; when it fails only because the user has no meals, the metrics
    still succeed with every figure zero.
   */
  lemma MetricsAgreeWithList(s: Store, cookie: Option<Token>, userId: Id)
    ensures Ledger.ListMeals(s, cookie, userId).Ok? ==>
              Metrics(s, cookie, userId).Ok? && Metrics(s, cookie, userId).out.total == |Ledger.ListMeals(s, cookie, userId).out|
    ensures Ledger.ListMeals(s, cookie, userId) == Err(MealsNotFound) ==>
              Metrics(s, cookie, userId) == Ok(s, Report(0, 0, 0, []))
  {
  }

  /** With no meals every figure is zero and the sequence is empty. */
  lemma MetricsEmpty(users: seq<User>, cookie: Option<Token>, userId: Id)
    requires Metrics(Store(users, []), cookie, userId).Ok?
    ensures Metrics(Store(users, []), cookie, userId).out == Report(0, 0, 0, [])
  {
  }

  /**
    Adding a meal to the table adds one to its owner's total and to the
    in-diet or off-diet count it falls under, and an in-diet meal's name goes
    to the end of the sequence; every other user's figures stay as they were.
    With `MetricsEmpty` this fixes the sequence as the in-diet names in table
    order, each as often as the table holds it.
   */
  lemma MetricsAppend(users: seq<User>, meals: seq<Meal>, x: Meal, cookie: Option<Token>, userId: Id)
    requires Metrics(Store(users, meals), cookie, userId).Ok?
    ensures Metrics(Store(users, meals + [x]), cookie, userId).Ok?
    ensures var before := Metrics(Store(users, meals), cookie, userId).out;
            var after := Metrics(Store(users, meals + [x]), cookie, userId).out;
            var mine := x.userId == userId;
            && after.total == before.total + (if mine then 1 else 0)
            && after.isTrue == before.isTrue + (if mine && x.fields.inside then 1 else 0)
            && after.isFalse == before.isFalse + (if mine && !x.fields.inside then 1 else 0)
            && after.sequence == before.sequence + (if mine && x.fields.inside then [x.fields.name] else [])
  {
    assert Metrics(Store(users, meals), cookie, userId).out == Figures(meals, userId);
    assert Metrics(Store(users, meals + [x]), cookie, userId).out == Figures(meals + [x], userId);
    FiguresAppend(meals, x, userId);
  }

  lemma FiguresAppend(meals: seq<Meal>, x: Meal, owner: Id)
    ensures var mine := x.userId == owner;
            && Figures(meals + [x], owner).total == Figures(meals, owner).total + (if mine then 1 else 0)
            && Figures(meals + [x], owner).isTrue == Figures(meals, owner).isTrue + (if mine && x.fields.inside then 1 else 0)
            && Figures(meals + [x], owner).isFalse == Figures(meals, owner).isFalse + (if mine && !x.fields.inside then 1 else 0)
            && Figures(meals + [x], owner).sequence
               == Figures(meals, owner).sequence + (if mine && x.fields.inside then [x.fields.name] else [])
  {
    var inDiet := OwnerAndInsideAre(owner, true);
    SelectAppend(meals, x, OwnerIs(owner));
    SelectAppend(meals, x, inDiet);
    SelectAppend(meals, x, OwnerAndInsideAre(owner, false));
    NamesAppend(SelectMeals(meals, inDiet), x);
  }

  lemma ExampleQueries(u: User, a: Meal, x: Meal, b: Meal)
    requires a.userId == u.id && x.userId == u.id && b.userId == u.id
    requires a.fields.inside && !x.fields.inside && b.fields.inside
    ensures SelectMeals([a, x, b], OwnerIs(u.id)) == [a, x, b]
    ensures SelectMeals([a, x, b], OwnerAndInsideAre(u.id, true)) == [a, b]
    ensures SelectMeals([a, x, b], OwnerAndInsideAre(u.id, false)) == [x]
  {
    assert [a, x, b][1..] == [x, b] && [x, b][1..] == [b] && [b][1..] == [];
    assert SelectMeals([b], OwnerIs(u.id)) == [b];
    assert SelectMeals([b], OwnerAndInsideAre(u.id, true)) == [b];
    assert SelectMeals([b], OwnerAndInsideAre(u.id, false)) == [];
  }

  /**
    A user with three meals, the middle one off the diet: the figures are 3,
    2, 1 and the names of the first and the last meal, in that order.
   */
  lemma ThreeMealsExample(u: User, a: Meal, x: Meal, b: Meal)
    requires a.userId == u.id && x.userId == u.id && b.userId == u.id
    requires a.fields.inside && !x.fields.inside && b.fields.inside
    ensures var s := Store([u], [a, x, b]);
            Metrics(s, Some(u.sessionId), u.id) == Ok(s, Report(3, 2, 1, [a.fields.name, b.fields.name]))
  {
    assert SelectUsers([u], TokenAndIdAre(u.sessionId, u.id)) == [u] by {
      assert [u][1..] == [];
    }
    ExampleQueries(u, a, x, b);
    assert Names([a, b]) == [a.fields.name, b.fields.name];
  }

  /** In a valid store, deleting a meal does not change another user's metrics. */
  lemma DeleteKeepsOthersMetrics(s: Store, cookie: Option<Token>, mealId: Id, c: Option<Token>, userId: Id)
    requires Valid(s)
    requires Ledger.DeleteMeal(s, cookie, mealId).Ok?
    requires userId != SessionUser(s.users, cookie.value).value.id
    ensures var s' := Ledger.DeleteMeal(s, cookie, mealId).store;
            Metrics(s', c, userId)
            == if Metrics(s, c, userId).Ok? then Ok(s', Metrics(s, c, userId).out) else Metrics(s, c, userId)
  {
    var s' := Ledger.DeleteMeal(s, cookie, mealId).store;
    Ledger.DeleteLeavesOthersRows(s, cookie, mealId, OwnerIs(userId));
    Ledger.DeleteLeavesOthersRows(s, cookie, mealId, OwnerAndInsideAre(userId, true));
    Ledger.DeleteLeavesOthersRows(s, cookie, mealId, OwnerAndInsideAre(userId, false));
    assert Figures(s'.meals, userId) == Figures(s.meals, userId);
  }
}
