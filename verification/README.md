# daily-diet-api: the route handlers as a verified state machine

The service keeps two tables, `users(id, name, session_id)` and
`meals(id, name, description, user_id, date, hour, inside, updated_at)`, and
eight route handlers that read them and then, depending on what they found,
write them. This project models those eight handlers of
`src/routes/dailyDiet.ts` as pure functions from a store (the two tables as
sequences of rows) and typed request inputs to either an error or a new
store plus the response's output.

- `tables.dfy` (`Tables`): the rows, the store, the errors, the `where`
  clauses the handlers use (as filter datatypes), `select` and `del()` over a
  table, and the store invariants: user ids, user names and session tokens
  are unique, meal ids are unique, every meal's `user_id` names an existing
  user.
- `session.dfy` (`Session`): the session guard that resolves the `sessionId`
  cookie to the first user row holding it, and the ownership gate.
- `registrar.dfy` (`Registrar`): `POST /user` and `GET /user/:id`.
- `ledger.dfy` (`Ledger`): `POST /meal`, `PUT /meal/:id`, `DELETE /meal/:id`,
  `GET /meal/:id`, `GET /meals/:id`.
- `metrics.dfy` (`Metrics`): `GET /metrics/:id`.

Effects become parameters. `randomUUID()` is a fresh-identifier argument
(`newId`, `newToken`, `newMealId`). The lemmas that need it fresh say so
in their preconditions. `knex.fn.now()` is a `now: Timestamp` argument. The
request cookie is an `Option<Token>`. A handler's `Err` carries no store: a
failed request leaves the caller's store as it was. SQL row order is taken
to be table order, so `user[0]` is the first matching row.

Points of the code that shape the model:
- Errors are named after the messages the code throws, one per message. The
  metrics route rejects a caller who is not the requested user with
  `UserNotFound` (line 191). Creating a meal fails with
  `UserNotFoundOrNoPermission` (line 79). Fetching one meal fails with
  `MealNotFound` (line 178), while update and delete fail with
  `MealNotFoundOrNoPermission` (lines 117 and 138).
- The update is keyed on the meal id alone (line 107). It writes `user_id`
  back from the row the ownership check found. Owner preservation therefore
  relies on meal ids being unique, which is part of the store invariant.
- The metrics `sequence` (line 197) is the list of in-diet meal names in
  table order; it is not a count of consecutive in-diet meals.

## Model

| member | source | states |
|---|---|---|
| Tables.SelectUsers | src/routes/dailyDiet.ts:17 | a `users` query returns exactly the rows satisfying the `where` clause, and is non-empty iff some row does |
| Tables.SelectMeals | src/routes/dailyDiet.ts:153 | a `meals` query returns exactly the rows satisfying the `where` clause, never more rows than the table has, and an empty result means no row satisfies it |
| Tables.SelectMealsNone | src/routes/dailyDiet.ts:155-158 | a `meals` query that no row satisfies returns the empty list |
| Tables.SelectMealsMultiset | src/routes/dailyDiet.ts:153 | a `meals` query keeps every matching row as many times as the table holds it and no other row |
| Tables.DeleteMeals | src/routes/dailyDiet.ts:136 | after `del()` the table holds exactly the rows that do not match the clause |
| Tables.DeleteMealsMultiset | src/routes/dailyDiet.ts:136 | `del()` keeps every non-matching row with its multiplicity and drops every matching one |
| Tables.SelectDeletePartition | src/routes/dailyDiet.ts:133-136 | the rows a clause selects and the rows its `del()` keeps add up to the whole table |
| Tables.SelectCountsPositions | src/routes/dailyDiet.ts:194-196 | the length of a `select` equals the number of table positions holding a matching row, which is what `count(id)` counts |
| Tables.SelectDeleteCommute | src/routes/dailyDiet.ts:136-153 | a `select` run after a `del()` returns the rows the `select` would have returned before, minus the deleted ones, in the same order |
| Tables.DeleteMealsNone | src/routes/dailyDiet.ts:136 | a `del()` whose clause no row matches leaves the table as it was |
| Tables.SelectMealsSingle | src/routes/dailyDiet.ts:173 | a meal query that at most one row can satisfy returns exactly that row |
| Session.SessionUser | src/routes/dailyDiet.ts:100-103 | the session lookup finds a user iff some user holds the token, and the user found holds it |
| Session.SessionUserIsHolder | src/routes/dailyDiet.ts:100-103 | with unique tokens the session user is exactly the user holding the token |
| Registrar.Register | src/routes/dailyDiet.ts:15-33 | fails with UserAlreadyExists iff the exact name is taken; otherwise appends exactly one user with that name and the fresh token, never the caller's cookie, and leaves meals alone |
| Registrar.RegisterTwiceRejected | src/routes/dailyDiet.ts:17-20 | registering a name that was just registered fails with UserAlreadyExists |
| Registrar.RegisterPreservesValid | src/routes/dailyDiet.ts:22-33 | a registration with fresh id and token keeps ids, names and tokens unique and every meal owned |
| Registrar.ResumeSession | src/routes/dailyDiet.ts:43-51 | fails with UserNotFound iff no user has the id; otherwise returns a token stored in a row with that id and does not change the store |
| Registrar.ResumeReturnsStoredToken | src/routes/dailyDiet.ts:43-48 | with unique ids, resuming returns exactly that user's stored session token |
| Registrar.RegisterThenResume | src/routes/dailyDiet.ts:29-48 | resuming with the id a registration just created returns the token that registration issued |
| Ledger.CreateMeal | src/routes/dailyDiet.ts:64-80 | fails with no change unless a user holds the token; otherwise appends exactly one meal with the new id, the input fields and a token holder as owner, changing nothing else |
| Ledger.CreatePreservesValid | src/routes/dailyDiet.ts:66-77 | creating a meal under a fresh id keeps meal ids unique and every meal owned by an existing user |
| Ledger.CreateThenGet | src/routes/dailyDiet.ts:69-77 | after a creation the creator fetches exactly the new meal under its id |
| Ledger.UpdateMeal | src/routes/dailyDiet.ts:96-118 | succeeds iff the session user owns a meal with that id, with distinct errors for no cookie, unknown token and missing-or-foreign meal; on success users are unchanged, rows with other ids are unchanged, and rows with that id carry the new fields, the session user as owner and the new stamp |
| Ledger.UpdateKeepsOwner | src/routes/dailyDiet.ts:105-115 | with unique meal ids an update changes no meal's id or owner |
| Ledger.UpdatePreservesValid | src/routes/dailyDiet.ts:105-115 | an update keeps the store invariants |
| Ledger.UpdateThenGet | src/routes/dailyDiet.ts:105-115 | after an update the owner fetches exactly one row with the new fields, the old owner and updated_at equal to the supplied time |
| Ledger.DeleteMeal | src/routes/dailyDiet.ts:126-139 | same gate and errors as update; on success users are unchanged, the meals left are exactly the old ones without that id, and every other meal keeps its multiplicity |
| Ledger.DeletePreservesValid | src/routes/dailyDiet.ts:133-136 | a delete keeps the store invariants |
| Ledger.DeleteKeepsIdsUnique | src/routes/dailyDiet.ts:136 | deleting rows from a table with unique ids leaves the ids unique |
| Ledger.DeleteRemovesOne | src/routes/dailyDiet.ts:133-136 | in a valid store a delete removes exactly one row |
| Ledger.DeleteKeepsOrder | src/routes/dailyDiet.ts:136-156 | whenever a listing succeeds after a delete, it also succeeded before, and it is the earlier list without the deleted id, in the same order |
| Ledger.DeleteLeavesOthersRows | src/routes/dailyDiet.ts:133-136 | in a valid store a delete leaves every query over other users' meals unchanged, order included |
| Ledger.DeleteKeepsOthersList | src/routes/dailyDiet.ts:136-159 | in a valid store a delete does not change another user's meal list or its error |
| Ledger.DeleteThenGet | src/routes/dailyDiet.ts:136-178 | after a delete, fetching the same id fails with MealNotFound |
| Ledger.GetMeal | src/routes/dailyDiet.ts:167-179 | same gate as update, failing with MealNotFound; on success the store is unchanged and the rows returned are exactly the session user's meals with that id |
| Ledger.GetOwnMeal | src/routes/dailyDiet.ts:173-176 | in a valid store the owner fetching a meal gets exactly that one row |
| Ledger.OthersMealsAreHidden | src/routes/dailyDiet.ts:105-118 | another user's meal fails fetch, update and delete with the same errors a missing id gives |
| Ledger.ListMeals | src/routes/dailyDiet.ts:147-159 | succeeds iff a cookie is present, one user row matches both token and requested id, and that user owns a meal; fails with NoSession, UserNotFoundOrNoPermission or MealsNotFound exactly when the respective check fails; on success returns, unchanged store, exactly the meals whose owner is the requested id with their multiplicities |
| Ledger.ListAppend | src/routes/dailyDiet.ts:153-156 | adding a meal to the table adds it at the end of its owner's list and leaves every other user's list unchanged, so the list is the owner's meals in table order |
| Metrics.InsideSplitsOwner | src/routes/dailyDiet.ts:194-196 | the owner's meal positions split into in-diet and off-diet ones, so the counts add up |
| Metrics.InDietNames | src/routes/dailyDiet.ts:197 | a name is in the sequence iff some in-diet meal of the owner carries it |
| Metrics.Metrics | src/routes/dailyDiet.ts:187-198 | succeeds iff a cookie is present and one user row matches both token and requested id, failing with NoSession or UserNotFound otherwise; on success the store is unchanged, total, isTrue and isFalse count the owner's meals, in-diet meals and off-diet meals, total equals isTrue plus isFalse, and the sequence has isTrue entries naming exactly the in-diet meals |
| Metrics.MetricsEmpty | src/routes/dailyDiet.ts:194-197 | with an empty meals table every count is zero and the sequence is empty |
| Metrics.MetricsAppend | src/routes/dailyDiet.ts:194-197 | adding a meal adds one to its owner's total and to its in-diet or off-diet count, and appends its name to the sequence when it is in the diet; other users' figures do not change. Together with MetricsEmpty this fixes the sequence as the in-diet names in table order, with repeats |
| Metrics.FiguresAppend | src/routes/dailyDiet.ts:194-197 | the same step for the four queries of the route, independent of authorisation |
| Metrics.DeleteKeepsOthersMetrics | src/routes/dailyDiet.ts:136-198 | in a valid store a delete does not change another user's metrics or their error |
| Metrics.MetricsAgreeWithList | src/routes/dailyDiet.ts:153-198 | when the listing succeeds the metrics total is its length; when it fails only for lack of meals the metrics report zeros and an empty sequence |
| Metrics.ThreeMealsExample | src/routes/dailyDiet.ts:194-198 | three meals named A, X and B, with X off diet, give 3, 2, 1 and the sequence A, B |

## Left out

- HTTP routing, the `/diet` prefix and the app wiring (`src/app.ts`): no logic of the handlers depends on them.
- Cookie transport and its `path`/`maxAge` options: only the token value the cookie would carry is modelled.
- Zod parsing of bodies and params, including the UUID format check: inputs arrive typed; a parse failure is an error before any table access and is not modelled.
- The `checkSessionIdExist` pre-handler is not part of this model: an absent cookie is the immediate error `NoSession` on every meal and metrics route that has the pre-handler (update, delete, get, list, metrics).
- `POST /meal` has no pre-handler (line 55): with no cookie it runs the query at line 66 with an undefined value. The model returns `NoSession` there instead of modelling that query.
- `POST /user` reads the cookie (line 15) but never fails for its absence; the fresh token is used either way.
- Knex, the SQL driver and `src/database.ts`: the tables are sequences of rows, and SQL row order is taken to be table order.
- The raw shape of knex `count` results (arrays of objects): counts are natural numbers.
- The `sequence` result of `select('name')` is an array of `{ name }` objects (line 197): the model keeps only the names, as a sequence of strings.
- `randomUUID()` and `knex.fn.now()` as effects: they are parameters. The model does not require the stamp to grow over time, so "updated_at is later than before" is not stated.
- The value `updated_at` takes on insert comes from a migration that is not part of this model. A new meal carries `None` there.
- The race between the ownership check and the write under concurrent requests: each handler is one atomic step.
