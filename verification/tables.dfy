/**
  The persisted state of the diet service: the `users` and `meals` tables,
  the `where` clauses the route handlers filter them with, and the invariants
  a well-formed store keeps.

  A table is a sequence of rows; the order of a `select` is the order of the
  sequence, so "the first row the query returns" is the first matching row.
 */
module Tables {

  type Id = string
  type Token = string
  type Timestamp = nat

  datatype Option<+T> = None | Some(value: T) {
    /** The carried value, or `default` when there is none. */
    function GetOr(default: T): T
    {
      match this
      case Some(v) => v
      case None => default
    }
  }

  /** A row of `users`. */
  datatype User = User(id: Id, name: string, sessionId: Token)

  /** The caller-supplied part of a meal: everything an update replaces. */
  datatype MealFields = MealFields(name: string, description: string, date: string, hour: string, inside: bool)

  /** A row of `meals`. `updatedAt` is None until the first update stamps it. */
  datatype Meal = Meal(id: Id, userId: Id, fields: MealFields, updatedAt: Option<Timestamp>)

  datatype Store = Store(users: seq<User>, meals: seq<Meal>)

  /** One constructor per error the route handlers raise. */
  datatype DietError =
    | NoSession                   // no `sessionId` cookie on the request
    | UserAlreadyExists
    | UserNotFound
    | UserNotFoundOrNoPermission
    | MealNotFoundOrNoPermission
    | MealNotFound
    | MealsNotFound

  /** What a handler yields: the new store and its output, or an error (the store is then unchanged). */
  datatype Response<+T> = Ok(store: Store, out: T) | Err(error: DietError)

  /** The `where` clauses run against `users`. */
  datatype UserFilter =
    | NameIs(name: string)
    | IdIs(id: Id)
    | TokenIs(token: Token)
    | TokenAndIdAre(token: Token, id: Id)

  predicate UserMatches(u: User, f: UserFilter)
  {
    match f
    case NameIs(n) => u.name == n
    case IdIs(id) => u.id == id
    case TokenIs(t) => u.sessionId == t
    case TokenAndIdAre(t, id) => u.sessionId == t && u.id == id
  }

  /** The `where` clauses run against `meals`. */
  datatype MealFilter =
    | MealIdIs(id: Id)
    | MealIdAndOwnerAre(id: Id, owner: Id)
    | OwnerIs(owner: Id)
    | OwnerAndInsideAre(owner: Id, inside: bool)

  predicate MealMatches(m: Meal, f: MealFilter)
  {
    match f
    case MealIdIs(id) => m.id == id
    case MealIdAndOwnerAre(id, owner) => m.id == id && m.userId == owner
    case OwnerIs(owner) => m.userId == owner
    case OwnerAndInsideAre(owner, inside) => m.userId == owner && m.fields.inside == inside
  }

  /** `select` on `users`: the matching rows, in table order. */
  function SelectUsers(users: seq<User>, f: UserFilter): (r: seq<User>)
    ensures |r| <= |users|
    ensures forall u :: u in r <==> u in users && UserMatches(u, f)
    ensures |r| > 0 <==> exists u :: u in users && UserMatches(u, f)
    decreases |users|
  {
    if |users| == 0 then []
    else
      var rest := SelectUsers(users[1..], f);
      if UserMatches(users[0], f) then [users[0]] + rest else rest
  }

  /** `select` on `meals`: every matching row, with its multiplicity, in table order. */
  function SelectMeals(meals: seq<Meal>, f: MealFilter): (r: seq<Meal>)
    ensures |r| <= |meals|
    ensures forall m :: m in r <==> m in meals && MealMatches(m, f)
    ensures |r| == 0 ==> forall m | m in meals :: !MealMatches(m, f)
    decreases |meals|
  {
    if |meals| == 0 then []
    else
      var rest := SelectMeals(meals[1..], f);
      if MealMatches(meals[0], f) then [meals[0]] + rest else rest
  }

  /** `del()` on `meals`: the rows that survive, in table order. */
  function DeleteMeals(meals: seq<Meal>, f: MealFilter): (r: seq<Meal>)
    ensures |r| <= |meals|
    ensures forall m :: m in r <==> m in meals && !MealMatches(m, f)
    decreases |meals|
  {
    if |meals| == 0 then []
    else
      var rest := DeleteMeals(meals[1..], f);
      if MealMatches(meals[0], f) then rest else [meals[0]] + rest
  }

  /** The rows a `del()` removes and the rows it keeps add up to the table. */
  lemma {:induction false} SelectDeletePartition(meals: seq<Meal>, f: MealFilter)
    ensures |SelectMeals(meals, f)| + |DeleteMeals(meals, f)| == |meals|
    decreases |meals|
  {
    if |meals| > 0 {
      SelectDeletePartition(meals[1..], f);
    }
  }

  /** The positions of the table that hold a matching row: what SQL `count(id)` counts. */
  ghost function Positions(meals: seq<Meal>, f: MealFilter): set<int>
  {
    set i | 0 <= i < |meals| && MealMatches(meals[i], f)
  }

  /** A `select` keeps every matching row as often as the table holds it, and no other row. */
  lemma {:induction false} SelectMealsMultiset(meals: seq<Meal>, f: MealFilter)
    ensures forall m :: multiset(SelectMeals(meals, f))[m] == if MealMatches(m, f) then multiset(meals)[m] else 0
    decreases |meals|
  {
    if |meals| > 0 {
      assert meals == [meals[0]] + meals[1..];
      SelectMealsMultiset(meals[1..], f);
    }
  }

  /** A `del()` keeps every non-matching row as often as the table holds it, and no other row. */
  lemma {:induction false} DeleteMealsMultiset(meals: seq<Meal>, f: MealFilter)
    ensures forall m :: multiset(DeleteMeals(meals, f))[m] == if MealMatches(m, f) then 0 else multiset(meals)[m]
    decreases |meals|
  {
    if |meals| > 0 {
      assert meals == [meals[0]] + meals[1..];
      DeleteMealsMultiset(meals[1..], f);
    }
  }

  /** Regrouping a concatenation; stated on its own to keep `SelectAppend`'s proof small. */
  lemma ConcatAssoc<T>(a: seq<T>, b: seq<T>, c: seq<T>)
    ensures a + (b + c) == (a + b) + c
  {
  }

  /** Appending a row appends it to every `select` it matches. */
  lemma {:induction false} SelectAppend(meals: seq<Meal>, x: Meal, f: MealFilter)
    ensures SelectMeals(meals + [x], f) == SelectMeals(meals, f) + (if MealMatches(x, f) then [x] else [])
    decreases |meals|
  {
    if |meals| == 0 {
      assert meals + [x] == [x];
      assert [x][1..] == [];
      assert SelectMeals([], f) == [];
    } else {
      var xs := meals + [x];
      assert xs[0] == meals[0];
      assert xs[1..] == meals[1..] + [x];
      SelectAppend(meals[1..], x, f);
      var tail := if MealMatches(x, f) then [x] else [];
      var head := if MealMatches(meals[0], f) then [meals[0]] else [];
      assert SelectMeals(xs, f) == head + SelectMeals(xs[1..], f);
      assert SelectMeals(meals, f) == head + SelectMeals(meals[1..], f);
      ConcatAssoc(head, SelectMeals(meals[1..], f), tail);
    }
  }

  /** Appending a row adds its position to those it matches. */
  lemma PositionsAppend(meals: seq<Meal>, x: Meal, f: MealFilter)
    ensures Positions(meals + [x], f) == Positions(meals, f) + (if MealMatches(x, f) then {|meals|} else {})
  {
  }

  /** A `select` returns one row per matching position of the table. */
  lemma {:induction false} SelectCountsPositions(meals: seq<Meal>, f: MealFilter)
    ensures |SelectMeals(meals, f)| == |Positions(meals, f)|
    decreases |meals|
  {
    if |meals| == 0 {
      assert Positions(meals, f) == {};
    } else {
      var n := |meals| - 1;
      var init := meals[..n];
      var x := meals[n];
      assert meals == init + [x];
      SelectAppend(init, x, f);
      SelectCountsPositions(init, f);
      PositionsAppend(init, x, f);
      assert n !in Positions(init, f);
    }
  }

  /** A `select` after a `del()` sees the surviving rows it would have selected, in the same order. */
  lemma {:induction false} SelectDeleteCommute(meals: seq<Meal>, f: MealFilter, g: MealFilter)
    ensures SelectMeals(DeleteMeals(meals, g), f) == DeleteMeals(SelectMeals(meals, f), g)
    decreases |meals|
  {
    if |meals| > 0 {
      SelectDeleteCommute(meals[1..], f, g);
      var kept := DeleteMeals(meals[1..], g);
      var picked := SelectMeals(meals[1..], f);
      assert ([meals[0]] + kept)[1..] == kept;
      assert ([meals[0]] + picked)[1..] == picked;
    }
  }

  /** A `del()` that no row matches removes nothing. */
  lemma {:induction false} DeleteMealsNone(meals: seq<Meal>, g: MealFilter)
    requires forall m | m in meals :: !MealMatches(m, g)
    ensures DeleteMeals(meals, g) == meals
    decreases |meals|
  {
    if |meals| > 0 {
      assert forall m | m in meals[1..] :: m in meals;
      DeleteMealsNone(meals[1..], g);
      assert meals == [meals[0]] + meals[1..];
    }
  }

  // ---------------------------------------------------------------------------
  // Store invariants

  ghost predicate UserIdsUnique(users: seq<User>)
  {
    forall i, j | 0 <= i < j < |users| :: users[i].id != users[j].id
  }

  ghost predicate NamesUnique(users: seq<User>)
  {
    forall i, j | 0 <= i < j < |users| :: users[i].name != users[j].name
  }

  ghost predicate TokensUnique(users: seq<User>)
  {
    forall i, j | 0 <= i < j < |users| :: users[i].sessionId != users[j].sessionId
  }

  ghost predicate MealIdsUnique(meals: seq<Meal>)
  {
    forall i, j | 0 <= i < j < |meals| :: meals[i].id != meals[j].id
  }

  ghost predicate HasUser(users: seq<User>, id: Id)
  {
    exists u :: u in users && u.id == id
  }

  /** Every meal's `user_id` references an existing user. */
  ghost predicate OwnersExist(s: Store)
  {
    forall m | m in s.meals :: HasUser(s.users, m.userId)
  }

  ghost predicate Valid(s: Store)
  {
    && UserIdsUnique(s.users)
    && NamesUnique(s.users)
    && TokensUnique(s.users)
    && MealIdsUnique(s.meals)
    && OwnersExist(s)
  }

  /** Some meal has this id and belongs to this user. */
  ghost predicate OwnsMeal(meals: seq<Meal>, owner: Id, mealId: Id)
  {
    exists m :: m in meals && m.id == mealId && m.userId == owner
  }

  // ---------------------------------------------------------------------------
  // Queries on a unique column return exactly one row

  ghost predicate AtMostOneUser(users: seq<User>, f: UserFilter)
  {
    forall i, j | 0 <= i < j < |users| :: !(UserMatches(users[i], f) && UserMatches(users[j], f))
  }

  ghost predicate AtMostOneMeal(meals: seq<Meal>, f: MealFilter)
  {
    forall i, j | 0 <= i < j < |meals| :: !(MealMatches(meals[i], f) && MealMatches(meals[j], f))
  }

  /** A `select` that no row matches returns nothing. */
  lemma {:induction false} SelectMealsNone(meals: seq<Meal>, f: MealFilter)
    requires forall m | m in meals :: !MealMatches(m, f)
    ensures SelectMeals(meals, f) == []
    decreases |meals|
  {
    if |meals| > 0 {
      assert forall m | m in meals[1..] :: m in meals;
      SelectMealsNone(meals[1..], f);
    }
  }

  lemma {:induction false} SelectMealsSingle(meals: seq<Meal>, f: MealFilter, m: Meal)
    requires AtMostOneMeal(meals, f)
    requires m in meals && MealMatches(m, f)
    ensures SelectMeals(meals, f) == [m]
    decreases |meals|
  {
    if MealMatches(meals[0], f) {
      assert forall v | v in meals[1..] :: !MealMatches(v, f) by {
        forall v | v in meals[1..] ensures !MealMatches(v, f) {
          var k :| 0 <= k < |meals[1..]| && meals[1..][k] == v;
          assert meals[k + 1] == v;
          assert !(MealMatches(meals[0], f) && MealMatches(meals[k + 1], f));
        }
      }
      SelectMealsNone(meals[1..], f);
    } else {
      assert m in meals[1..] by {
        var k :| 0 <= k < |meals| && meals[k] == m;
        assert k > 0 && meals[1..][k - 1] == m;
      }
      SelectMealsSingle(meals[1..], f, m);
    }
  }
}
