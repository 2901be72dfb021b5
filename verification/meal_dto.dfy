/** Field shapes of the meal data transfer objects. */
module MealDto {
  import opened Wrappers

  /**
   * A calendar date as the store keys it. Dates are compared as points on a
   * line, so an integer day (or instant) number is enough.
   */
  type DateKey = int

  /** A dish name: the create body validates it as a non-empty string. */
  type MealName = s: string | |s| > 0 witness "-"

  /** One dish of a day: its name and an optional allergy code such as "1.2.5.6". */
  datatype Meal = Meal(meal: MealName, code: Option<string>)

  /** The body of a create or update request: a date, its dishes and its two flags. */
  datatype DateCreate = DateCreate(date: DateKey, meals: seq<Meal>, existence: bool, rest: bool)

  /** A date as the read operations return it, with all of its dishes. */
  datatype DateDto = DateDto(date: DateKey, meals: seq<Meal>, existence: bool, rest: bool)
}
