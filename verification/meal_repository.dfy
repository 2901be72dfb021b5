/**
 * The meal store: one record per calendar date, each owning its dishes, and
 * the repository operations that read and write it. Every write runs as one
 * transaction: either all of its statements take effect or none do.
 */
module MealRepository {
  import opened Wrappers
  import opened HttpErrors
  import opened MealDto

  /** The row of the `Date` table for one date, together with the `Meal` rows it owns. */
  datatype DateRecord = DateRecord(existence: bool, rest: bool, meals: seq<Meal>)

  /** The whole store: the `Date` table is unique on its date, so it is a map. */
  type Store = map<DateKey, DateRecord>

  /** What a write hands back: the value returned or the exception thrown, and the store afterwards. */
  datatype Step<+T> = Step(reply: Result<T, HttpError>, store: Store)

  const AlreadyExists := "Meal already exists for the date"
  const NoMealForUpdate := "No meal found for the date"
  const NoMealsForDate := "No meals found for the date"

  function ToDto(d: DateKey, rec: DateRecord): DateDto {
    DateDto(d, rec.meals, rec.existence, rec.rest)
  }

  /** Every date other than `d` has the same record (or the same absence) in both stores. */
  ghost predicate OnlyTouches(s: Store, s': Store, d: DateKey) {
    && s'.Keys - {d} == s.Keys - {d}
    && forall e :: e in s && e != d ==> e in s' && s'[e] == s[e]
  }

  // ---------------------------------------------------------------------------
  // Store statements

  /**
   * A store error (a driver failure, a lost connection, an aborted
   * transaction) thrown by one statement of an operation. The statements of
   * an operation are numbered from 0 in the order it issues them; the failing
   * statement writes nothing, but the statements before it have written.
   */
  datatype StoreFault = NoFault | FailAt(statement: nat, message: string)

  /** Statement `i` of the operation throws. */
  predicate Fails(fault: StoreFault, i: nat) {
    fault.FailAt? && fault.statement == i
  }

  /** One of the first `n` statements of the operation throws. */
  predicate FailsWithin(fault: StoreFault, n: nat) {
    fault.FailAt? && fault.statement < n
  }

  /** `tx.date.create`: a new date row with no dishes yet. */
  function InsertDate(s: Store, d: DateKey, existence: bool, rest: bool): Store {
    s[d := DateRecord(existence, rest, [])]
  }

  /** `tx.date.update`: overwrite the two flags of an existing date. */
  function SetFlags(s: Store, d: DateKey, existence: bool, rest: bool): Store
    requires d in s
  {
    s[d := s[d].(existence := existence, rest := rest)]
  }

  /** `tx.meal.deleteMany` on one date: drop all of its dishes. */
  function DeleteMealsOf(s: Store, d: DateKey): Store
    requires d in s
  {
    s[d := s[d].(meals := [])]
  }

  /**
   * `tx.meal.createMany` on one date: all the rows in one statement. The date
   * ends up owning its old dishes followed by the new ones.
   */
  function InsertMeals(s: Store, d: DateKey, meals: seq<Meal>): Store
    requires d in s
  {
    s[d := s[d].(meals := s[d].meals + meals)]
  }

  /**
   * `$transaction`: run a body that started from `s`; when the body throws,
   * roll back to `s`, otherwise commit what the body wrote.
   */
  function Transaction<T>(s: Store, body: Step<T>): (r: Step<T>)
    ensures r.reply == body.reply
    ensures r.reply.Err? ==> r.store == s
    ensures r.reply.Ok? ==> r.store == body.store
  {
    if body.reply.Err? then Step(body.reply, s) else body
  }

  // ---------------------------------------------------------------------------
  // Repository operations

  /**
   * `getMealsByDate`, one statement (0: `findUnique`): the record stored for
   * exactly this date, NotFound when there is none, or the store's error.
   */
  function GetMealsByDate(s: Store, d: DateKey, fault: StoreFault): (r: Result<DateDto, HttpError>)
    ensures r.Ok? <==> d in s && !Fails(fault, 0)
    ensures r.Ok? ==> r.value.date == d && r.value.meals == s[d].meals
                      && r.value.existence == s[d].existence && r.value.rest == s[d].rest
    ensures Fails(fault, 0) ==> r == Err(StoreFailure(fault.message))
    ensures !Fails(fault, 0) && d !in s ==> r == Err(NotFound(NoMealsForDate))
  {
    if Fails(fault, 0) then Err(StoreFailure(fault.message))
    else if d !in s then Err(NotFound(NoMealsForDate))
    else Ok(ToDto(d, s[d]))
  }

  /**
   * The body of `createMeal`'s transaction, without the rollback. Statements:
   * 0 `findUnique`, 1 `date.create`, 2 `meal.createMany`. A failure of
   * statement 2 leaves the date row of statement 1 written.
   */
  function CreateBody(s: Store, data: DateCreate, fault: StoreFault): (r: Step<bool>)
    ensures Fails(fault, 0) ==> r == Step(Err(StoreFailure(fault.message)), s)
    ensures !Fails(fault, 0) && data.date in s ==> r == Step(Err(BadRequest(AlreadyExists)), s)
    ensures data.date !in s && Fails(fault, 1) ==> r == Step(Err(StoreFailure(fault.message)), s)
    ensures data.date !in s && Fails(fault, 2) ==>
              r == Step(Err(StoreFailure(fault.message)), s[data.date := DateRecord(data.existence, data.rest, [])])
    ensures data.date !in s && !FailsWithin(fault, 3) ==>
              r == Step(Ok(true), s[data.date := DateRecord(data.existence, data.rest, data.meals)])
  {
    if Fails(fault, 0) then
      Step(Err(StoreFailure(fault.message)), s)
    else if data.date in s then
      Step(Err(BadRequest(AlreadyExists)), s)
    else if Fails(fault, 1) then
      Step(Err(StoreFailure(fault.message)), s)
    else
      var s1 := InsertDate(s, data.date, data.existence, data.rest);
      if Fails(fault, 2) then
        Step(Err(StoreFailure(fault.message)), s1)
      else
        var s2 := InsertMeals(s1, data.date, data.meals);
        assert s1[data.date].meals + data.meals == data.meals;
        assert s2 == s[data.date := DateRecord(data.existence, data.rest, data.meals)];
        Step(Ok(true), s2)
  }

  /**
   * `createMeal`: refuse a date that already has a record; otherwise add one
   * record carrying the given flags and exactly the given dishes. A store
   * error anywhere in the transaction is thrown and nothing is written.
   */
  function CreateMeal(s: Store, data: DateCreate, fault: StoreFault): (r: Step<bool>)
    ensures Fails(fault, 0) ==> r == Step(Err(StoreFailure(fault.message)), s)
    ensures !Fails(fault, 0) && data.date in s ==> r == Step(Err(BadRequest(AlreadyExists)), s)
    ensures data.date !in s && FailsWithin(fault, 3) ==> r == Step(Err(StoreFailure(fault.message)), s)
    ensures data.date !in s && !FailsWithin(fault, 3) ==>
              && r.reply == Ok(true)
              && r.store.Keys == s.Keys + {data.date}
              && |r.store| == |s| + 1
              && r.store == s[data.date := DateRecord(data.existence, data.rest, data.meals)]
    ensures r.reply.Err? ==> r.store == s
    ensures OnlyTouches(s, r.store, data.date)
  {
    Transaction(s, CreateBody(s, data, fault))
  }

  /**
   * The body of `updateMeal`'s transaction, without the rollback. Statements:
   * 0 `findUnique`, 1 `date.update`, 2 `meal.deleteMany`, 3 `meal.createMany`.
   * A failure of statement 3 leaves the new flags written and the old dishes
   * deleted.
   */
  function UpdateBody(s: Store, data: DateCreate, fault: StoreFault): (r: Step<bool>)
    ensures Fails(fault, 0) ==> r == Step(Err(StoreFailure(fault.message)), s)
    ensures !Fails(fault, 0) && data.date !in s ==> r == Step(Err(BadRequest(NoMealForUpdate)), s)
    ensures data.date in s && Fails(fault, 1) ==> r == Step(Err(StoreFailure(fault.message)), s)
    ensures data.date in s && Fails(fault, 2) ==>
              r == Step(Err(StoreFailure(fault.message)),
                        s[data.date := s[data.date].(existence := data.existence, rest := data.rest)])
    ensures data.date in s && Fails(fault, 3) ==>
              r == Step(Err(StoreFailure(fault.message)), s[data.date := DateRecord(data.existence, data.rest, [])])
    ensures data.date in s && !FailsWithin(fault, 4) ==>
              r == Step(Ok(true), s[data.date := DateRecord(data.existence, data.rest, data.meals)])
    ensures r.reply.Err? <==> FailsWithin(fault, 4) || data.date !in s
  {
    if Fails(fault, 0) then
      Step(Err(StoreFailure(fault.message)), s)
    else if data.date !in s then
      Step(Err(BadRequest(NoMealForUpdate)), s)
    else if Fails(fault, 1) then
      Step(Err(StoreFailure(fault.message)), s)
    else
      var s1 := SetFlags(s, data.date, data.existence, data.rest);
      if Fails(fault, 2) then
        Step(Err(StoreFailure(fault.message)), s1)
      else
        var s2 := DeleteMealsOf(s1, data.date);
        if Fails(fault, 3) then
          assert s2 == s[data.date := DateRecord(data.existence, data.rest, [])];
          Step(Err(StoreFailure(fault.message)), s2)
        else
          var s3 := InsertMeals(s2, data.date, data.meals);
          assert s2[data.date].meals + data.meals == data.meals;
          assert s3 == s[data.date := DateRecord(data.existence, data.rest, data.meals)];
          Step(Ok(true), s3)
  }

  /**
   * `updateMeal`: refuse a date with no record (with BadRequest); otherwise
   * replace its flags and its whole dish list by the given ones. A store
   * error anywhere in the transaction is thrown and nothing is written.
   */
  function UpdateMeal(s: Store, data: DateCreate, fault: StoreFault): (r: Step<bool>)
    ensures Fails(fault, 0) ==> r == Step(Err(StoreFailure(fault.message)), s)
    ensures !Fails(fault, 0) && data.date !in s ==> r == Step(Err(BadRequest(NoMealForUpdate)), s)
    ensures data.date in s && FailsWithin(fault, 4) ==> r == Step(Err(StoreFailure(fault.message)), s)
    ensures data.date in s && !FailsWithin(fault, 4) ==>
              && r.reply == Ok(true)
              && r.store.Keys == s.Keys
              && r.store == s[data.date := DateRecord(data.existence, data.rest, data.meals)]
    ensures r.reply.Err? ==> r.store == s
    ensures OnlyTouches(s, r.store, data.date)
  {
    Transaction(s, UpdateBody(s, data, fault))
  }

  /**
   * `getMeals`, one statement (0: `findMany`): every stored date once, with
   * its flags and dishes, in no particular order, or the store's error.
   */
  method GetMeals(s: Store, fault: StoreFault) returns (r: Result<seq<DateDto>, HttpError>)
    ensures Fails(fault, 0) ==> r == Err(StoreFailure(fault.message))
    ensures !Fails(fault, 0) ==> r.Ok?
    ensures r.Ok? ==> |r.value| == |s|
    ensures r.Ok? ==> forall i :: 0 <= i < |r.value| ==>
              r.value[i].date in s && r.value[i] == ToDto(r.value[i].date, s[r.value[i].date])
    ensures r.Ok? ==> forall d :: d in s ==> exists i :: 0 <= i < |r.value| && r.value[i].date == d
    ensures r.Ok? ==> forall i, j :: 0 <= i < j < |r.value| ==> r.value[i].date != r.value[j].date
  {
    if Fails(fault, 0) {
      return Err(StoreFailure(fault.message));
    }
    var dates: seq<DateDto> := [];
    var pending := s.Keys;
    while pending != {}
      invariant pending <= s.Keys
      invariant |dates| + |pending| == |s|
      invariant forall i :: 0 <= i < |dates| ==> dates[i].date in s && dates[i].date !in pending
      invariant forall i :: 0 <= i < |dates| ==> dates[i] == ToDto(dates[i].date, s[dates[i].date])
      invariant forall d :: d in s && d !in pending ==> exists i :: 0 <= i < |dates| && dates[i].date == d
      invariant forall i, j :: 0 <= i < j < |dates| ==> dates[i].date != dates[j].date
      decreases |pending|
    {
      var k := PickDate(pending);
      var before := dates;
      dates := dates + [ToDto(k, s[k])];
      forall d | d in s && d !in pending - {k}
        ensures exists i :: 0 <= i < |dates| && dates[i].date == d
      {
        if d == k {
          assert dates[|dates| - 1].date == d;
        } else {
          var i :| 0 <= i < |before| && before[i].date == d;
          assert dates[i] == before[i];
        }
      }
      pending := pending - {k};
    }
    r := Ok(dates);
  }

  /** Any one date of a non-empty set of dates. */
  method PickDate(keys: set<DateKey>) returns (d: DateKey)
    requires keys != {}
    ensures d in keys
  {
    assert exists e :: e in keys by {
      if forall e :: e !in keys {
        assert false;
      }
    }
    d :| d in keys;
  }

  // ---------------------------------------------------------------------------
  // Properties relating several operations

  /**
   * The rollback does work: when `createMany` fails, the body has already
   * written the date row, and the transaction discards it.
   */
  lemma CreateRollsBackDateRow(s: Store, data: DateCreate, message: string)
    requires data.date !in s
    ensures var body := CreateBody(s, data, FailAt(2, message));
            && data.date in body.store && body.store != s
            && CreateMeal(s, data, FailAt(2, message)) == Step(Err(StoreFailure(message)), s)
  {
  }

  /**
   * The rollback does work: when `createMany` fails during an update, the body
   * has already overwritten the flags and deleted the dishes, and the
   * transaction restores the old record.
   */
  lemma UpdateRollsBackReplacement(s: Store, data: DateCreate, message: string)
    requires data.date in s
    ensures UpdateBody(s, data, FailAt(3, message)).store[data.date]
            == DateRecord(data.existence, data.rest, [])
    ensures UpdateMeal(s, data, FailAt(3, message)) == Step(Err(StoreFailure(message)), s)
  {
  }

  /** A date read back after a successful create carries the created flags and dishes. */
  lemma CreateThenGet(s: Store, data: DateCreate, fault: StoreFault)
    requires CreateMeal(s, data, fault).reply.Ok?
    ensures GetMealsByDate(CreateMeal(s, data, fault).store, data.date, NoFault)
            == Ok(DateDto(data.date, data.meals, data.existence, data.rest))
  {
  }

  /** A second create on the same date is refused and the first record stays. */
  lemma CreateTwiceKeepsFirst(s: Store, first: DateCreate, second: DateCreate, fault: StoreFault)
    requires first.date == second.date
    requires CreateMeal(s, first, NoFault).reply.Ok?
    ensures var s1 := CreateMeal(s, first, NoFault).store;
            && CreateMeal(s1, second, fault).store == s1
            && CreateMeal(s1, second, fault).reply.Err?
            && (!Fails(fault, 0) ==> CreateMeal(s1, second, fault).reply == Err(BadRequest(AlreadyExists)))
            && s1[first.date] == DateRecord(first.existence, first.rest, first.meals)
  {
  }

  /** A date read back after a successful update carries only the new dishes. */
  lemma UpdateThenGet(s: Store, data: DateCreate, fault: StoreFault)
    requires UpdateMeal(s, data, fault).reply.Ok?
    ensures GetMealsByDate(UpdateMeal(s, data, fault).store, data.date, NoFault)
            == Ok(DateDto(data.date, data.meals, data.existence, data.rest))
  {
  }

  /**
   * Applying the same update twice leaves the store as applying it once;
   * once an update has succeeded, repeating it changes nothing whether or
   * not the repetition fails.
   */
  lemma UpdateIdempotent(s: Store, data: DateCreate, first: StoreFault, second: StoreFault)
    ensures UpdateMeal(UpdateMeal(s, data, first).store, data, first).store
            == UpdateMeal(s, data, first).store
    ensures UpdateMeal(s, data, first).reply.Ok? ==>
              UpdateMeal(UpdateMeal(s, data, first).store, data, second).store
              == UpdateMeal(s, data, first).store
  {
  }

  /** The record an update leaves does not depend on what the date held before. */
  lemma UpdateForgetsPrevious(s: Store, t: Store, data: DateCreate)
    requires data.date in s && data.date in t
    ensures UpdateMeal(s, data, NoFault).store[data.date] == UpdateMeal(t, data, NoFault).store[data.date]
  {
  }

  /** Creating a date and then updating it gives the store that creating it with the update's data gives. */
  lemma CreateThenUpdate(s: Store, created: DateCreate, updated: DateCreate)
    requires created.date == updated.date
    requires created.date !in s
    ensures UpdateMeal(CreateMeal(s, created, NoFault).store, updated, NoFault).store
            == CreateMeal(s, updated, NoFault).store
  {
  }
}
