/**
 * The meal service: validates untrusted request input before it reaches the
 * meal store, checks the shared secret key before every mutation, and decides
 * which store failures reach the caller unchanged and which are collapsed
 * into InternalServerError.
 */
module MealsService {
  import opened Wrappers
  import opened HttpErrors
  import opened MealDto
  import opened RestMonths
  import MealRepository

  type Store = MealRepository.Store
  type Step<T> = MealRepository.Step<T>
  type StoreFault = MealRepository.StoreFault

  /** A JavaScript `Date`: a point in time, or the invalid date an unparseable string yields. */
  datatype Instant = Valid(key: DateKey) | Invalid

  /** JavaScript's `a > b` on dates: false as soon as either side is the invalid date. */
  predicate After(a: Instant, b: Instant) {
    a.Valid? && b.Valid? && a.key > b.key
  }

  /** What a listing query returns, or the exception it throws. */
  type Listing = Result<seq<DateDto>, HttpError>

  /**
   * The repository queries the service delegates to but whose date-range
   * semantics are not part of this model; each is any function of the store
   * and of the arguments the service passes it.
   */
  datatype Backend = Backend(
    forWeek: Store -> Listing,
    forMonth: Store -> Listing,
    forPeriod: (Store, Instant, Instant) -> Listing,
    withLimit: (Store, Instant, int) -> Listing,
    restDaysForMonth: (Store, int, Month) -> Listing,
    deleteMeal: (Store, string) -> Step<bool>)

  /**
   * What the service reads from its surroundings: the configured `KEY`
   * (absent when unset), JavaScript's `new Date(string)`, and the queries above.
   */
  datatype Env = Env(secretKey: Option<string>, parseDate: string -> Instant, backend: Backend)

  const InvalidDateFormat := "Invalid date format. Please use YYYY-MM-DD"
  const InvertedPeriod := "Start date must be before end date"
  const NonPositiveLimit := "Limit must be greater than 0"
  const InvalidSecretKey := "Invalid secret key"
  const WeekFailed := "Failed to fetch week meals"
  const MonthFailed := "Failed to fetch month meals"
  const PeriodFailed := "Failed to fetch period meals"
  const LimitFailed := "Failed to fetch meals with limit"
  const CurrentRestFailed := "Failed to fetch current month rest days"
  const NextRestFailed := "Failed to fetch next month rest days"
  const PreviousRestFailed := "Failed to fetch previous month rest days"

  // ---------------------------------------------------------------------------
  // Failure translation

  /** A `catch` that rethrows BadRequest as it is and replaces anything else. */
  function KeepBadRequest(e: HttpError, message: string): HttpError {
    if e.BadRequest? then e else InternalServerError(message)
  }

  /** A listing whose every failure surfaces as InternalServerError with `message`. */
  function WrapAll(q: Listing, message: string): (r: Listing)
    ensures r.Ok? <==> q.Ok?
    ensures r.Ok? ==> r.value == q.value
    ensures r.Err? ==> r.error == InternalServerError(message)
  {
    match q
    case Ok(v) => Ok(v)
    case Err(_) => Err(InternalServerError(message))
  }

  // ---------------------------------------------------------------------------
  // Reads

  /**
   * `getMealByDate`: an unparseable date is refused with BadRequest before the
   * store is read; otherwise the store's answer, NotFound and store errors
   * included, is returned as it is.
   */
  function GetMealByDate(env: Env, s: Store, date: string, fault: StoreFault): (r: Result<DateDto, HttpError>)
    ensures env.parseDate(date).Invalid? ==> r == Err(BadRequest(InvalidDateFormat))
    ensures env.parseDate(date).Valid? ==>
              var d := env.parseDate(date).key;
              && (r.Ok? <==> d in s && !MealRepository.Fails(fault, 0))
              && (r.Ok? ==> r.value == DateDto(d, s[d].meals, s[d].existence, s[d].rest))
              && (MealRepository.Fails(fault, 0) ==> r == Err(StoreFailure(fault.message)))
              && (!MealRepository.Fails(fault, 0) && d !in s ==> r.Err? && r.error.NotFound?)
  {
    var dateObject := env.parseDate(date);
    if dateObject.Invalid? then
      Err(BadRequest(InvalidDateFormat))
    else
      MealRepository.GetMealsByDate(s, dateObject.key, fault)
  }

  /** `getMealsForWeek`: the store's listing, with every failure made InternalServerError. */
  function GetMealsForWeek(env: Env, s: Store): (r: Listing)
    ensures r.Ok? <==> env.backend.forWeek(s).Ok?
    ensures r.Ok? ==> r == env.backend.forWeek(s)
    ensures r.Err? ==> r.error == InternalServerError(WeekFailed)
  {
    WrapAll(env.backend.forWeek(s), WeekFailed)
  }

  /** `getMealsForMonth`: the store's listing, with every failure made InternalServerError. */
  function GetMealsForMonth(env: Env, s: Store): (r: Listing)
    ensures r.Ok? <==> env.backend.forMonth(s).Ok?
    ensures r.Ok? ==> r == env.backend.forMonth(s)
    ensures r.Err? ==> r.error == InternalServerError(MonthFailed)
  {
    WrapAll(env.backend.forMonth(s), MonthFailed)
  }

  /**
   * `getMealsForPeriod`: an inverted range is refused with BadRequest; the
   * dates are not otherwise checked. A BadRequest from the store reaches the
   * caller unchanged and any other failure becomes InternalServerError.
   */
  function GetMealsForPeriod(env: Env, s: Store, dateFrom: string, dateTo: string): (r: Listing)
    ensures var from, to := env.parseDate(dateFrom), env.parseDate(dateTo);
            After(from, to) ==> r == Err(BadRequest(InvertedPeriod))
    ensures var from, to := env.parseDate(dateFrom), env.parseDate(dateTo);
            var q := env.backend.forPeriod(s, from, to);
            !After(from, to) ==>
              && (q.Ok? ==> r == q)
              && (q.Err? && q.error.BadRequest? ==> r == q)
              && (q.Err? && !q.error.BadRequest? ==> r == Err(InternalServerError(PeriodFailed)))
    ensures r.Err? ==> r.error.BadRequest? || r.error == InternalServerError(PeriodFailed)
  {
    var fromDate := env.parseDate(dateFrom);
    var toDate := env.parseDate(dateTo);
    if After(fromDate, toDate) then
      Err(BadRequest(InvertedPeriod))
    else
      match env.backend.forPeriod(s, fromDate, toDate)
      case Ok(v) => Ok(v)
      case Err(e) => Err(KeepBadRequest(e, PeriodFailed))
  }

  /**
   * `getMealsWithLimit`: a limit of zero or less is refused with BadRequest;
   * the start date is not checked. Store failures are translated as for the
   * period query.
   */
  function GetMealsWithLimit(env: Env, s: Store, dateFrom: string, limit: int): (r: Listing)
    ensures limit <= 0 ==> r == Err(BadRequest(NonPositiveLimit))
    ensures var q := env.backend.withLimit(s, env.parseDate(dateFrom), limit);
            limit > 0 ==>
              && (q.Ok? ==> r == q)
              && (q.Err? && q.error.BadRequest? ==> r == q)
              && (q.Err? && !q.error.BadRequest? ==> r == Err(InternalServerError(LimitFailed)))
    ensures r.Err? ==> r.error.BadRequest? || r.error == InternalServerError(LimitFailed)
  {
    var fromDate := env.parseDate(dateFrom);
    if limit <= 0 then
      Err(BadRequest(NonPositiveLimit))
    else
      match env.backend.withLimit(s, fromDate, limit)
      case Ok(v) => Ok(v)
      case Err(e) => Err(KeepBadRequest(e, LimitFailed))
  }

  /** `getCurrentMonthRestDays`: the rest days of the month `now` falls in. */
  function GetCurrentMonthRestDays(env: Env, s: Store, now: YearMonth): (r: Listing)
    ensures var q := env.backend.restDaysForMonth(s, now.year, now.month);
            && (r.Ok? <==> q.Ok?)
            && (r.Ok? ==> r == q)
    ensures r.Err? ==> r.error == InternalServerError(CurrentRestFailed)
  {
    WrapAll(env.backend.restDaysForMonth(s, now.year, now.month), CurrentRestFailed)
  }

  /** `getNextMonthRestDays`: the rest days of the calendar month after `now`. */
  function GetNextMonthRestDays(env: Env, s: Store, now: YearMonth): (r: Listing)
    ensures var t := YearMonth(if now.month == 11 then now.year + 1 else now.year,
                               if now.month == 11 then 0 else now.month + 1);
            var q := env.backend.restDaysForMonth(s, t.year, t.month);
            && (r.Ok? <==> q.Ok?)
            && (r.Ok? ==> r == q)
    ensures r.Err? ==> r.error == InternalServerError(NextRestFailed)
  {
    var target := NextMonth(now);
    NextMonthRollover(now);
    WrapAll(env.backend.restDaysForMonth(s, target.year, target.month), NextRestFailed)
  }

  /** `getPreviousMonthRestDays`: the rest days of the calendar month before `now`. */
  function GetPreviousMonthRestDays(env: Env, s: Store, now: YearMonth): (r: Listing)
    ensures var t := YearMonth(if now.month == 0 then now.year - 1 else now.year,
                               if now.month == 0 then 11 else now.month - 1);
            var q := env.backend.restDaysForMonth(s, t.year, t.month);
            && (r.Ok? <==> q.Ok?)
            && (r.Ok? ==> r == q)
    ensures r.Err? ==> r.error == InternalServerError(PreviousRestFailed)
  {
    var target := PreviousMonth(now);
    PreviousMonthRollover(now);
    WrapAll(env.backend.restDaysForMonth(s, target.year, target.month), PreviousRestFailed)
  }

  // ---------------------------------------------------------------------------
  // Mutations

  /** JavaScript's `key !== secretKey`, where either side may be `undefined`. */
  predicate Authorized(env: Env, key: Option<string>) {
    key == env.secretKey
  }

  /**
   * `createMeal`: a caller without the secret key is refused with
   * Unauthorized and the store is untouched; otherwise the store's create
   * decides, and its result or error is returned unwrapped.
   */
  function CreateMeal(env: Env, s: Store, data: DateCreate, key: Option<string>, fault: StoreFault): (r: Step<bool>)
    ensures !Authorized(env, key) ==> r == MealRepository.Step(Err(Unauthorized(InvalidSecretKey)), s)
    ensures Authorized(env, key) ==> r == MealRepository.CreateMeal(s, data, fault)
    ensures Authorized(env, key) && !MealRepository.Fails(fault, 0) && data.date in s ==>
              r == MealRepository.Step(Err(BadRequest(MealRepository.AlreadyExists)), s)
    ensures Authorized(env, key) && !MealRepository.FailsWithin(fault, 3) && data.date !in s ==>
              r.reply == Ok(true) && r.store == s[data.date := MealRepository.DateRecord(data.existence, data.rest, data.meals)]
    ensures r.store != s ==> Authorized(env, key) && r.reply.Ok?
  {
    if !Authorized(env, key) then
      MealRepository.Step(Err(Unauthorized(InvalidSecretKey)), s)
    else
      MealRepository.CreateMeal(s, data, fault)
  }

  /**
   * `updateMeal`: a caller without the secret key is refused with
   * Unauthorized and the store is untouched; otherwise the store's update
   * decides, and its result or error is returned unwrapped.
   */
  function UpdateMeal(env: Env, s: Store, data: DateCreate, key: Option<string>, fault: StoreFault): (r: Step<bool>)
    ensures !Authorized(env, key) ==> r == MealRepository.Step(Err(Unauthorized(InvalidSecretKey)), s)
    ensures Authorized(env, key) ==> r == MealRepository.UpdateMeal(s, data, fault)
    ensures Authorized(env, key) && !MealRepository.Fails(fault, 0) && data.date !in s ==>
              r == MealRepository.Step(Err(BadRequest(MealRepository.NoMealForUpdate)), s)
    ensures Authorized(env, key) && !MealRepository.FailsWithin(fault, 4) && data.date in s ==>
              r.reply == Ok(true) && r.store == s[data.date := MealRepository.DateRecord(data.existence, data.rest, data.meals)]
    ensures r.store != s ==> Authorized(env, key) && r.reply.Ok?
  {
    if !Authorized(env, key) then
      MealRepository.Step(Err(Unauthorized(InvalidSecretKey)), s)
    else
      MealRepository.UpdateMeal(s, data, fault)
  }

  /**
   * `deleteMeal`: a caller without the secret key is refused with
   * Unauthorized and the store is untouched; otherwise the store's delete
   * decides, and its result or error is returned unwrapped.
   */
  function DeleteMeal(env: Env, s: Store, date: string, key: Option<string>): (r: Step<bool>)
    ensures !Authorized(env, key) ==> r == MealRepository.Step(Err(Unauthorized(InvalidSecretKey)), s)
    ensures Authorized(env, key) ==> r == env.backend.deleteMeal(s, date)
  {
    if !Authorized(env, key) then
      MealRepository.Step(Err(Unauthorized(InvalidSecretKey)), s)
    else
      env.backend.deleteMeal(s, date)
  }

  // ---------------------------------------------------------------------------
  // Request sequences

  /**
   * One mutating request, with the key its `KEY` header carried (absent when
   * missing) and, for the writes modelled here, the store error it meets.
   */
  datatype Mutation =
    | Create(data: DateCreate, key: Option<string>, fault: StoreFault)
    | Update(data: DateCreate, key: Option<string>, fault: StoreFault)
    | Delete(date: string, key: Option<string>)

  function Apply(env: Env, s: Store, m: Mutation): Step<bool> {
    match m
    case Create(data, key, fault) => CreateMeal(env, s, data, key, fault)
    case Update(data, key, fault) => UpdateMeal(env, s, data, key, fault)
    case Delete(date, key) => DeleteMeal(env, s, date, key)
  }

  /** The store after serving a sequence of mutating requests one after another. */
  function Replay(env: Env, s: Store, ms: seq<Mutation>): Store
    decreases |ms|
  {
    if ms == [] then s else Replay(env, Apply(env, s, ms[0]).store, ms[1..])
  }

  // ---------------------------------------------------------------------------
  // Properties relating several operations

  /** An inverted period is refused whatever the store's period query would have done. */
  lemma InvertedPeriodSkipsRepository(env: Env, other: Backend, s: Store, dateFrom: string, dateTo: string)
    requires After(env.parseDate(dateFrom), env.parseDate(dateTo))
    ensures GetMealsForPeriod(env, s, dateFrom, dateTo)
            == GetMealsForPeriod(env.(backend := other), s, dateFrom, dateTo)
  {
  }

  /** A non-positive limit is refused whatever the store's limited query would have done. */
  lemma NonPositiveLimitSkipsRepository(env: Env, other: Backend, s: Store, dateFrom: string, limit: int)
    requires limit <= 0
    ensures GetMealsWithLimit(env, s, dateFrom, limit)
            == GetMealsWithLimit(env.(backend := other), s, dateFrom, limit)
  {
  }

  /** A delete without the secret key is refused whatever the store's delete would have done. */
  lemma UnauthorizedDeleteSkipsRepository(env: Env, other: Backend, s: Store, date: string, key: Option<string>)
    requires !Authorized(env, key)
    ensures DeleteMeal(env, s, date, key) == DeleteMeal(env.(backend := other), s, date, key)
  {
  }

  /**
   * When no `KEY` is configured, a request that sends no `KEY` header passes
   * the check, because `undefined !== undefined` is false.
   */
  lemma UnsetSecretAdmitsMissingHeader(env: Env, s: Store, data: DateCreate, fault: StoreFault)
    requires env.secretKey.None?
    ensures CreateMeal(env, s, data, None, fault) == MealRepository.CreateMeal(s, data, fault)
  {
  }

  /** An authorized create followed by a read of the same date returns what was created. */
  lemma CreateThenFetch(env: Env, s: Store, data: DateCreate, key: Option<string>, fault: StoreFault, date: string)
    requires env.parseDate(date) == Valid(data.date)
    requires CreateMeal(env, s, data, key, fault).reply.Ok?
    ensures GetMealByDate(env, CreateMeal(env, s, data, key, fault).store, date, MealRepository.NoFault)
            == Ok(DateDto(data.date, data.meals, data.existence, data.rest))
  {
  }

  /** However many mutating requests arrive, none of them carrying the secret key changes the store. */
  lemma {:induction false} ForgedKeysLeaveStore(env: Env, s: Store, ms: seq<Mutation>)
    requires forall i :: 0 <= i < |ms| ==> !Authorized(env, ms[i].key)
    ensures Replay(env, s, ms) == s
    decreases |ms|
  {
    if ms != [] {
      assert Apply(env, s, ms[0]).store == s;
      ForgedKeysLeaveStore(env, s, ms[1..]);
    }
  }

  /**
   * Authorized creates and updates touch only the dates they name: a date no
   * request in the sequence names keeps its record, or its absence.
   */
  lemma {:induction false} UnnamedDatesUntouched(env: Env, s: Store, ms: seq<Mutation>, d: DateKey)
    requires forall i :: 0 <= i < |ms| ==> !ms[i].Delete? && ms[i].data.date != d
    ensures d in Replay(env, s, ms) <==> d in s
    ensures d in s ==> Replay(env, s, ms)[d] == s[d]
    decreases |ms|
  {
    if ms != [] {
      var s1 := Apply(env, s, ms[0]).store;
      assert d in s1 <==> d in s;
      assert d in s ==> s1[d] == s[d];
      UnnamedDatesUntouched(env, s1, ms[1..], d);
    }
  }
}
