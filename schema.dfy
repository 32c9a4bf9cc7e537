/** The enumerations of the relational schema shared by the Flask service and the Python scraper. */
module Schema {
  import opened Wrappers

  /** `menu_meal_enum`: the three meal periods. */
  datatype Meal = Breakfast | Lunch | Dinner

  /** `menu_status_enum`: whether a menu row describes an open or a closed service. */
  datatype Status = Open | Closed

  /** The slug spelling of a meal, as the upstream periods and the enum use it. */
  function MealName(m: Meal): string
  {
    match m
    case Breakfast => "breakfast"
    case Lunch => "lunch"
    case Dinner => "dinner"
  }

  /** `MEAL_TYPES`: the slugs the scraper keeps. */
  const MealTypes: set<string> := {"breakfast", "lunch", "dinner"}

  /** The meal a period slug names, if it is one of `MealTypes`. */
  function MealOfSlug(slug: string): (r: Option<Meal>)
    ensures r.Some? <==> slug in MealTypes
    ensures r.Some? ==> MealName(r.value) == slug
  {
    if slug == "breakfast" then Some(Breakfast)
    else if slug == "lunch" then Some(Lunch)
    else if slug == "dinner" then Some(Dinner)
    else None
  }

  /** Every meal is named by exactly one slug of `MealTypes`. */
  lemma MealNameRoundTrip(m: Meal)
    ensures MealName(m) in MealTypes && MealOfSlug(MealName(m)) == Some(m)
  {
  }
}
