/**
 * The Flask service `app.py`: assembling the rows of one date into the
 * breakfast/lunch/dinner response, the item index and the item search.
 * The database reads are inputs; `is_valid_date` is a parameter.
 */
module MenuApi {
  import opened Wrappers
  import opened Schema
  import Search
  import Dicts

  /**
   * One row of the menu query: a menu of the date, left-joined with one of
   * its item links (`itemName` is NULL when the menu has no items).
   */
  datatype Row = Row(meal: Meal, location: Option<string>, status: Status, itemName: Option<string>)

  /** A value stored under a key of one meal's dictionary. */
  datatype Entry =
    | ClosedFlag                  // the `True` of `{"closed": True}` for a whole meal
    | LocationClosed              // a location's `{"closed": True}`
    | Items(names: seq<string>)   // a location's `{"items": [...]}`

  /** One meal's dictionary; keys are locations, `None` included, or "closed". */
  type MealMap = map<Option<string>, Entry>

  /** The `menus` dictionary: one dictionary per meal. */
  datatype Menus = Menus(breakfast: MealMap, lunch: MealMap, dinner: MealMap)
  {
    function Get(m: Meal): MealMap
    {
      match m
      case Breakfast => breakfast
      case Lunch => lunch
      case Dinner => dinner
    }

    /** `menus[m] = v`: meal `m` is replaced and the other two are kept. */
    function Set(m: Meal, v: MealMap): (r: Menus)
      ensures r.Get(m) == v
      ensures forall o :: o != m ==> r.Get(o) == Get(o)
    {
      match m
      case Breakfast => this.(breakfast := v)
      case Lunch => this.(lunch := v)
      case Dinner => this.(dinner := v)
    }
  }

  /** The three empty dictionaries the route starts from. */
  const EmptyMenus: Menus := Menus(map[], map[], map[])

  /** The key a whole-meal close writes. */
  const ClosedKey: Option<string> := Some("closed")

  /** `{"closed": True}` for a whole meal. */
  const MealClosed: MealMap := map[ClosedKey := ClosedFlag]

  /** The exceptions the assembly loop can raise. */
  datatype Failure =
    | MissingItemsKey      // KeyError: "items" looked up in a location's {"closed": True}
    | NotSubscriptable     // TypeError: "items" looked up in the boolean under key "closed"

  /** Python's `not location`. */
  predicate Falsy(location: Option<string>)
  {
    location == None || location == Some("")
  }

  /** A row that marks something closed rather than listing an item. */
  predicate Closes(r: Row)
  {
    r.status == Closed || r.itemName.None?
  }

  /** What one row does to the dictionary of its meal. */
  function MealStep(mm: MealMap, r: Row): Result<MealMap, Failure>
  {
    if Closes(r) then
      if Falsy(r.location) then Ok(MealClosed) else Ok(mm[r.location := LocationClosed])
    else
      var entry := if r.location in mm then mm[r.location] else Items([]);
      match entry
      case Items(names) => Ok(mm[r.location := Items(names + [r.itemName.value])])
      case LocationClosed => Err(MissingItemsKey)
      case ClosedFlag => Err(NotSubscriptable)
  }

  /** What one row does to the whole `menus` dictionary. */
  function Step(m: Menus, r: Row): Result<Menus, Failure>
  {
    match MealStep(m.Get(r.meal), r)
    case Ok(v) => Ok(m.Set(r.meal, v))
    case Err(f) => Err(f)
  }

  /** The assembly loop over `rows`, in order; the first exception ends it. */
  function Assemble(rows: seq<Row>): Result<Menus, Failure>
  {
    if rows == [] then Ok(EmptyMenus)
    else
      match Assemble(rows[..|rows| - 1])
      case Ok(m) => Step(m, rows[|rows| - 1])
      case Err(f) => Err(f)
  }

  /** Once a prefix has raised, the whole loop has raised the same exception. */
  lemma {:induction false} AssembleErrSticks(rows: seq<Row>, k: nat)
    requires k <= |rows| && Assemble(rows[..k]).Err?
    ensures Assemble(rows) == Assemble(rows[..k])
    decreases |rows| - k
  {
    if k < |rows| {
      assert rows[..k + 1][..k] == rows[..k];
      AssembleErrSticks(rows, k + 1);
    } else {
      assert rows[..k] == rows;
    }
  }

  const InvalidDateMessage: string := "Invalid date format."
  const NoMenusMessage: string := "No menus found for this date."

  /** What the route answers. */
  datatype Response =
    | BadRequest(error: string)      // HTTP 400 with an error object
    | ErrorObject(error: string)     // an error object with HTTP 200
    | MenusBody(menus: Menus)        // the assembled dictionary
    | ServerError(failure: Failure)  // an exception escaped the handler

  /**
   * `get_menus(date)`: an invalid date is refused whatever the store holds,
   * a date without rows gets the error object, and otherwise the answer is
   * the assembly of the rows, or the exception it raises.
   */
  method GetMenus(date: string, isValidDate: string -> bool, rows: seq<Row>) returns (resp: Response)
    ensures !isValidDate(date) ==> resp == BadRequest(InvalidDateMessage)
    ensures isValidDate(date) && rows == [] ==> resp == ErrorObject(NoMenusMessage)
    ensures isValidDate(date) && rows != [] ==>
              resp == match Assemble(rows) case Ok(m) => MenusBody(m) case Err(f) => ServerError(f)
  {
    if !isValidDate(date) {
      return BadRequest(InvalidDateMessage);
    }
    if rows == [] {
      return ErrorObject(NoMenusMessage);
    }
    var menus := EmptyMenus;
    var k := 0;
    while k < |rows|
      invariant 0 <= k <= |rows|
      invariant Assemble(rows[..k]) == Ok(menus)
    {
      var row := rows[k];
      assert rows[..k + 1] == rows[..k] + [row];
      assert rows[..k + 1][..k] == rows[..k];
      assert Assemble(rows[..k + 1]) == Step(menus, row);
      var mealMap := menus.Get(row.meal);
      ghost var before := mealMap;
      if row.status == Closed || row.itemName == None {
        if row.location == None || row.location == Some("") {
          menus := menus.Set(row.meal, map[ClosedKey := ClosedFlag]);
        } else {
          menus := menus.Set(row.meal, mealMap[row.location := LocationClosed]);
        }
      } else {
        if row.location !in mealMap {
          mealMap := mealMap[row.location := Items([])];
        }
        match mealMap[row.location]
        case Items(names) =>
          if row.location !in before {
            assert mealMap[row.location := Items(names + [row.itemName.value])]
              == before[row.location := Items([] + [row.itemName.value])];
          }
          assert MealStep(before, row) == Ok(mealMap[row.location := Items(names + [row.itemName.value])]);
          menus := menus.Set(row.meal, mealMap[row.location := Items(names + [row.itemName.value])]);
        case LocationClosed =>
          AssembleErrSticks(rows, k + 1);
          return ServerError(MissingItemsKey);
        case ClosedFlag =>
          AssembleErrSticks(rows, k + 1);
          return ServerError(NotSubscriptable);
      }
      k := k + 1;
    }
    assert rows[..k] == rows;
    resp := MenusBody(menus);
  }

  /** One row of the item index query. */
  datatype ItemColumns = ItemColumns(name: string, nutrients: Option<map<string, string>>, image: Option<string>)

  /** What the item index shows of one item. */
  datatype ItemSummary = ItemSummary(calories: Option<string>, protein: Option<string>, image: Option<string>)

  /**
   * `row["nutrients"][key] if row["nutrients"] and key in row["nutrients"]
   * else None`: present exactly when the nutrients are stored and hold the key.
   */
  function NutrientOrNone(nutrients: Option<map<string, string>>, key: string): (r: Option<string>)
    ensures r.Some? <==> nutrients.Some? && key in nutrients.value
    ensures r.Some? ==> r.value == nutrients.value[key]
  {
    if nutrients.Some? && |nutrients.value| != 0 && key in nutrients.value
    then Some(nutrients.value[key]) else None
  }

  function Summarise(row: ItemColumns): ItemSummary
  {
    ItemSummary(NutrientOrNone(row.nutrients, "Calories"), NutrientOrNone(row.nutrients, "Protein"), row.image)
  }

  function NameOf(row: ItemColumns): string
  {
    row.name
  }

  /**
   * `get_items()`: every item name of the rows is a key, and each holds the
   * calories, protein and image of the last row with that name.
   */
  function ItemIndex(rows: seq<ItemColumns>): (r: map<string, ItemSummary>)
    ensures forall i :: 0 <= i < |rows| ==> rows[i].name in r
    ensures forall n :: n in r ==>
              exists i :: Dicts.LastWithKey(rows, NameOf, i) && rows[i].name == n
                          && r[n].calories == NutrientOrNone(rows[i].nutrients, "Calories")
                          && r[n].protein == NutrientOrNone(rows[i].nutrients, "Protein")
                          && r[n].image == rows[i].image
  {
    var r := Dicts.DictOf(rows, NameOf, Summarise);
    Dicts.DictOfIsDict(rows, NameOf, Summarise);
    assert forall i :: 0 <= i < |rows| ==> NameOf(rows[i]) in r;
    r
  }

  /** What the search route answers. */
  datatype SearchResponse =
    | InvalidQuery(error: string)                 // HTTP 400
    | Found(data: map<string, set<string>>)       // date -> distinct item names

  const InvalidQueryMessage: string := "Invalid search query"

  /**
   * `get_search_results(query)`: a query outside 3..50 characters is refused
   * with 400; otherwise every date of the matching rows maps to the distinct
   * item names found on it.
   */
  method SearchResults(query: string, rows: seq<Search.Hit>) returns (resp: SearchResponse)
    ensures !Search.ValidQuery(query) <==> resp == InvalidQuery(InvalidQueryMessage)
    ensures Search.ValidQuery(query) ==> resp.Found? && Search.GroupsOf(resp.data, rows)
  {
    if |query| < 3 || |query| > 50 {
      return InvalidQuery(InvalidQueryMessage);
    }
    var data := Search.GroupByDate(rows);
    resp := Found(data);
  }
}
