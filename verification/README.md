# Meal store and meal service, modelled in Dafny

This project models the core of a school meal-menu API:

- **The meal store.** It holds one record per calendar date. Each record has an `existence` flag, a `rest` flag, and the dishes of that day. Each dish has a non-empty name and an optional allergy code.
- **The repository.** It reads the store and writes it. Every write runs as one transaction.
- **The service.** It validates request input, checks a shared secret key before every mutation, and translates store failures into the errors the caller sees.

Everything is pure. The store is a `map<DateKey, DateRecord>`. A write returns a `Step`: the value returned or the exception thrown, plus the store afterwards.

Module layout, one file each:

- `Wrappers`: `Option` and `Result`.
- `HttpErrors`: the exceptions.
- `MealDto`: field shapes of the request and response objects.
- `MealRepository`: the store, its transactions and its operations.
- `RestMonths`: the year/month rollover arithmetic.
- `MealsService`: validation, authorization and error translation.

How the model follows the code:

- **Writes are statement sequences.** `createMeal` looks the date up, inserts the date row, then inserts all dish rows in one `createMany` statement. `updateMeal` looks the date up, overwrites the flags, deletes the dishes, then inserts the new ones with `createMany`. The model's `InsertMeals` is that one statement: the date's dish list grows by the new dishes at once. The contracts state what a sequence achieves as a whole.
- **Store statements can fail.** Any statement of `getMeals`, `getMealsByDate`, `createMeal` and `updateMeal` may throw a store error (`StoreFault`: which statement fails, and its message). The statements before it have then already written; for example, the date row exists when `createMany` fails. `Transaction` rolls all of that back, so a failed create or update leaves the store as it was. The service has no `catch` around these calls, so the store error reaches the caller unchanged.
- **Both refusals are BadRequest.** A duplicate create and an update of an absent date both throw BadRequest (HTTP 400): "Meal already exists for the date" (meal.repository.ts:65) and "No meal found for the date" (meal.repository.ts:103).
- **Some repository queries are parameters.** The service calls queries that the repository file does not define: week, month, period, limit, rest days of a month, and delete. Each is a function-valued field of `Backend`. The model states what the service does around them: validation, which errors pass through and which are wrapped, and which months it asks for. "The repository is not consulted" is stated as "the result is the same whatever the backend does".
- **JavaScript dates are abstract.** `new Date(string)` is the parameter `Env.parseDate`, and it yields `Valid(key)` or `Invalid`. JavaScript's `>` on dates is false whenever either side is the invalid date. So an unparseable date in a period or limit query is not refused; it reaches the store's query as it is, and the model keeps that.
- **Both keys may be absent.** The configured `KEY` and the `KEY` header are each an `Option<string>`, because either may be `undefined`. The check `key !== secretKey` therefore lets a request with no header through when no `KEY` is configured. `MealsService.UnsetSecretAdmitsMissingHeader` states this.

## Model

| member | source | states |
|---|---|---|
| MealRepository.Transaction | packages/api/src/meals/repository/meal.repository.ts:58-92 | a body that throws leaves the store as it was before the transaction; a body that returns commits all of its writes, and the caller sees the body's result or exception |
| MealRepository.GetMealsByDate | packages/api/src/meals/repository/meal.repository.ts:33-55 | succeeds exactly when the date is stored and the lookup does not fail, and then returns that date with its stored flags and dishes; an absent date fails with NotFound; a failing lookup throws the store error |
| MealRepository.CreateBody | packages/api/src/meals/repository/meal.repository.ts:59-87 | the transaction body on its own: a failing lookup or a present date throws before any write, and so does a failing `date.create`; a failing `createMany` throws with the date row already written; otherwise the date is added with the given flags and dishes and true is returned |
| MealRepository.UpdateBody | packages/api/src/meals/repository/meal.repository.ts:97-132 | the transaction body on its own: a failing lookup or an absent date throws before any write, and so does a failing `date.update`; a failing `deleteMany` throws with the new flags already written; a failing `createMany` throws with the new flags written and the old dishes deleted; otherwise the record is replaced; it throws exactly when a statement fails or the date is absent |
| MealRepository.CreateMeal | packages/api/src/meals/repository/meal.repository.ts:57-93 | a failing lookup throws the store error; a date already present is refused with BadRequest; a store error in any later statement is thrown; in every failure the store is unchanged; otherwise a fresh date gains exactly one record with the given flags and exactly the given dishes, the store grows by one, the call returns true, and every other date keeps its record |
| MealRepository.UpdateMeal | packages/api/src/meals/repository/meal.repository.ts:95-138 | an absent date is refused with BadRequest (not NotFound); a store error in any statement is thrown; in every failure the store is unchanged; otherwise a present date gets the given flags and exactly the given dishes, whatever it held before, with the same set of dates and every other date untouched |
| MealRepository.GetMeals | packages/api/src/meals/repository/meal.repository.ts:14-27 | a failing `findMany` throws the store error; otherwise it succeeds and lists every stored date exactly once with its stored flags and dishes: as many entries as dates, no date twice, nothing that is not stored |
| MealRepository.CreateRollsBackDateRow | packages/api/src/meals/repository/meal.repository.ts:58-92 | when `createMany` fails, the body has already written the date row, and the transaction discards it, leaving the old store |
| MealRepository.UpdateRollsBackReplacement | packages/api/src/meals/repository/meal.repository.ts:96-137 | when `createMany` fails during an update, the body has already overwritten the flags and deleted the dishes, and the transaction restores the old store |
| MealRepository.CreateThenGet | packages/api/src/meals/repository/meal.repository.ts:57-86 | after a successful create, reading the date returns the created flags and dish list |
| MealRepository.CreateTwiceKeepsFirst | packages/api/src/meals/repository/meal.repository.ts:60-66 | a second create on the same date fails (with BadRequest unless its lookup throws a store error), and the store keeps the first record |
| MealRepository.UpdateThenGet | packages/api/src/meals/repository/meal.repository.ts:107-129 | after a successful update, reading the date returns only the new flags and dishes |
| MealRepository.UpdateIdempotent | packages/api/src/meals/repository/meal.repository.ts:95-138 | applying the same update twice leaves the same store as applying it once; after a successful update, repeating it leaves the store the same whether or not the repetition fails |
| MealRepository.UpdateForgetsPrevious | packages/api/src/meals/repository/meal.repository.ts:107-129 | the record an update leaves does not depend on the record it replaced (replacement, not merge) |
| MealRepository.CreateThenUpdate | packages/api/src/meals/repository/meal.repository.ts:95-138 | creating a date and then updating it yields the store that creating it with the update's data yields |
| RestMonths.NextMonth | packages/api/src/meals/meals.service.ts:112-117 | the month after `now` is always a month in 0..11 whose running month count is one more than `now`'s |
| RestMonths.PreviousMonth | packages/api/src/meals/meals.service.ts:128-133 | the month before `now` is always a month in 0..11 whose running month count is one less than `now`'s |
| RestMonths.FromIndex | packages/api/src/meals/meals.service.ts:112-117 | the month with a given running count: the inverse of the count used to check the two steps |
| RestMonths.MonthIndexInjective | packages/api/src/meals/meals.service.ts:112-117 | two year/month pairs with the same running month count are the same month |
| RestMonths.NextMonthRollover | packages/api/src/meals/meals.service.ts:112-117 | month 11 rolls forward to month 0 of the next year; any other month m goes to m+1 of the same year |
| RestMonths.PreviousMonthRollover | packages/api/src/meals/meals.service.ts:128-133 | month 0 rolls back to month 11 of the previous year; any other month m goes to m-1 of the same year |
| RestMonths.NextAndPreviousAreInverse | packages/api/src/meals/meals.service.ts:110-140 | stepping forward then back, or back then forward, returns the starting month |
| RestMonths.StepsFollowMonthIndex | packages/api/src/meals/meals.service.ts:110-140 | both steps agree with counting months on one line and converting back |
| MealsService.WrapAll | packages/api/src/meals/meals.service.ts:41-45 | a success is passed on unchanged and any failure becomes InternalServerError with the given message |
| MealsService.GetMealByDate | packages/api/src/meals/meals.service.ts:26-38 | an unparseable date fails with BadRequest before any lookup; a parsed date succeeds exactly when it is stored and the lookup does not fail, and returns its stored record; otherwise the store's NotFound or store error is passed on unwrapped |
| MealsService.GetMealsForWeek | packages/api/src/meals/meals.service.ts:40-46 | the store's week listing on success; any failure becomes InternalServerError("Failed to fetch week meals") |
| MealsService.GetMealsForMonth | packages/api/src/meals/meals.service.ts:48-54 | the store's month listing on success; any failure becomes InternalServerError("Failed to fetch month meals") |
| MealsService.GetMealsForPeriod | packages/api/src/meals/meals.service.ts:56-75 | from after to gives BadRequest; otherwise a success or a BadRequest from the store is returned unchanged and any other failure becomes InternalServerError; no other error kind can escape |
| MealsService.GetMealsWithLimit | packages/api/src/meals/meals.service.ts:77-94 | a limit of zero or less gives BadRequest; otherwise store results are translated as for the period query; the start date is not validated |
| MealsService.GetCurrentMonthRestDays | packages/api/src/meals/meals.service.ts:96-108 | asks the store for the rest days of `now`'s own month, and any failure becomes InternalServerError |
| MealsService.GetNextMonthRestDays | packages/api/src/meals/meals.service.ts:110-124 | asks the store for January of the next year when `now` is December and for the following month otherwise; any failure becomes InternalServerError |
| MealsService.GetPreviousMonthRestDays | packages/api/src/meals/meals.service.ts:126-140 | asks the store for December of the previous year when `now` is January and for the preceding month otherwise; any failure becomes InternalServerError |
| MealsService.CreateMeal | packages/api/src/meals/meals.service.ts:142-150 | a wrong key gives Unauthorized with the store unchanged; the right key gives the store's create result or error unwrapped; the store changes only for an authorized, successful call |
| MealsService.UpdateMeal | packages/api/src/meals/meals.service.ts:152-160 | a wrong key gives Unauthorized with the store unchanged; the right key gives the store's update result or error unwrapped; the store changes only for an authorized, successful call |
| MealsService.DeleteMeal | packages/api/src/meals/meals.service.ts:162-170 | a wrong key gives Unauthorized with the store unchanged; the right key gives exactly the store's delete outcome |
| MealsService.InvertedPeriodSkipsRepository | packages/api/src/meals/meals.service.ts:64-66 | when from is after to, the result does not depend on the store's period query |
| MealsService.NonPositiveLimitSkipsRepository | packages/api/src/meals/meals.service.ts:81-83 | when the limit is zero or less, the result does not depend on the store's limited query |
| MealsService.UnauthorizedDeleteSkipsRepository | packages/api/src/meals/meals.service.ts:162-169 | a delete with the wrong key does not depend on the store's delete |
| MealsService.UnsetSecretAdmitsMissingHeader | packages/api/src/meals/meals.service.ts:142-149 | with no `KEY` configured, a create that sends no key header reaches the store |
| MealsService.CreateThenFetch | packages/api/src/meals/meals.service.ts:26-38 | after an authorized, successful create, reading a date string that parses to that date returns the created flags and dishes |
| MealsService.ForgedKeysLeaveStore | packages/api/src/meals/meals.service.ts:142-170 | any sequence of create, update and delete requests, none of which carries the secret key, leaves the store exactly as it was |
| MealsService.UnnamedDatesUntouched | packages/api/src/meals/meals.service.ts:142-160 | over any sequence of create and update requests, a date that none of them names keeps its record or its absence |

## Left out

- Date-range semantics of the week, month, period, limit and rest-day queries, and of delete. The repository file does not define them, so they are `Backend` parameters with no assumed behaviour.
- The repository's `getMealById` and the service's `getMealById`. Store-generated row ids (date id, meal id, `dateId`) are not modelled, so a lookup by meal id has nothing to act on. Without ids, "idempotent up to generated ids" becomes plain equality of stores.
- The service's `getMeals`. It only returns the repository's `getMeals`, which `MealRepository.GetMeals` models.
- Transaction wait and timeout budgets (`maxWait` 5000 ms, `timeout` 10000 ms), and concurrent writes racing on one date. An exceeded budget surfaces as a store error, which `StoreFault` covers, but the budgets themselves are not modelled. Each transaction is modelled as atomic and sequential.
- JavaScript `Date` parsing, time zones and `date-fns` formatting. Parsing is the parameter `Env.parseDate`.
- MealRepository.GetMealsByDate: returns a date's dishes in the order they were inserted. The source reads them with no `orderBy` (meal.repository.ts:16-18, 36), so the database may return them in any order. Only the same multiset of dishes is what the source guarantees; the round-trip lemmas `CreateThenGet`, `UpdateThenGet` and `MealsService.CreateThenFetch` inherit this fixed order.
- MealRepository.GetMealsByDate: the NotFound message leaves out the formatted date that the source appends, because formatting is `date-fns` behaviour.
- Reads of the current clock. The year and month are the input `now`.
- MealsService.GetMealsWithLimit: the limit is an integer. A non-integer or NaN limit, which JavaScript would pass through (`NaN <= 0` is false), is not modelled.
- The controller, Swagger decorators, interceptors, and the global exception filter. The filter only chooses an HTTP status and logs. Also left out: bootstrap, Nest modules and dependency injection, the Prisma connection lifecycle, and the response envelope. None of these has rules to model.
- class-validator and class-transformer. Only the field shapes they enforce are modelled: a dish name is a non-empty string, and the allergy code is an optional string.
- The two Python files in the repository. One only logs and rethrows; the other declares one exception class for a different framework.
