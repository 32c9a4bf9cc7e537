/**
 * The older Flask service `backend/app.py`: menus for a date read from a
 * table with an `items` array per location, a synchronous scrape of a date
 * that has no rows guarded by the module-level `currently_scraping` set,
 * the item index and the item search. The database reads, `scrape_menus`
 * and `is_valid_date` are inputs.
 */
module BackendApi {
  import opened Wrappers
  import Search
  import Dicts

  /** The `items` value of a row: the key may be missing, or the column NULL. */
  datatype ItemsColumn = Absent | Null | Names(names: seq<string>)

  /** One row of `SELECT * FROM menus WHERE date = %s`. */
  datatype MenuRow = MenuRow(meal: string, location: string, items: ItemsColumn)

  /** The value a row stores under its location: the column, NULL as `None`. */
  function Stored(c: ItemsColumn): Option<seq<string>>
    requires !c.Absent?
  {
    if c.Null? then None else Some(c.names)
  }

  /** The response dictionary: one dictionary per meal key, and `"new": True` once set. */
  datatype Menus = Menus(meals: map<string, map<string, Option<seq<string>>>>, isNew: bool)

  /** `{"breakfast": {}, "lunch": {}, "dinner": {}}`. */
  const EmptyMenus: Menus := Menus(map["breakfast" := map[], "lunch" := map[], "dinner" := map[]], false)

  /** The exceptions `menus[row["meal"]][row["location"]] = ...` can raise. */
  datatype Failure =
    | UnknownMeal          // KeyError: the row's meal is not a key of `menus`
    | FlagNotAssignable    // TypeError: the row's meal is "new", whose value is `True`

  /** What one row does to `menus`. */
  function Assign(m: Menus, row: MenuRow): Result<Menus, Failure>
  {
    if row.items.Absent? then Ok(m)
    else if row.meal in m.meals then
      Ok(m.(meals := m.meals[row.meal := m.meals[row.meal][row.location := Stored(row.items)]]))
    else if row.meal == "new" && m.isNew then Err(FlagNotAssignable)
    else Err(UnknownMeal)
  }

  /** The assignment loop over `rows`, in order; the first exception ends it. */
  function AssignAll(m: Menus, rows: seq<MenuRow>): Result<Menus, Failure>
  {
    if rows == [] then Ok(m)
    else
      match AssignAll(m, rows[..|rows| - 1])
      case Ok(m') => Assign(m', rows[|rows| - 1])
      case Err(f) => Err(f)
  }

  lemma AssignAllSnoc(m: Menus, rows: seq<MenuRow>, row: MenuRow)
    ensures AssignAll(m, rows + [row]) == match AssignAll(m, rows) case Ok(m') => Assign(m', row) case Err(f) => Err(f)
  {
    assert (rows + [row])[..|rows|] == rows;
  }

  /** Once a prefix has raised, the whole loop has raised the same exception. */
  lemma {:induction false} AssignAllErrSticks(m: Menus, rows: seq<MenuRow>, k: nat)
    requires k <= |rows| && AssignAll(m, rows[..k]).Err?
    ensures AssignAll(m, rows) == AssignAll(m, rows[..k])
    decreases |rows| - k
  {
    if k < |rows| {
      assert rows[..k + 1][..k] == rows[..k];
      AssignAllSnoc(m, rows[..k], rows[k]);
      assert rows[..k + 1] == rows[..k] + [rows[k]];
      AssignAllErrSticks(m, rows, k + 1);
    } else {
      assert rows[..k] == rows;
    }
  }

  /** `rows[i]` is the last row that stores something under `meal` and `location`. */
  ghost predicate LastStoring(rows: seq<MenuRow>, meal: string, location: string, i: int)
  {
    && 0 <= i < |rows| && !rows[i].items.Absent? && rows[i].meal == meal && rows[i].location == location
    && forall j :: i < j < |rows| && !rows[j].items.Absent? && rows[j].meal == meal ==> rows[j].location != location
  }

  /** A successful loop keeps the meal keys and the `new` flag as they were. */
  lemma {:induction false} AssignKeepsMeals(m: Menus, rows: seq<MenuRow>)
    requires AssignAll(m, rows).Ok?
    ensures AssignAll(m, rows).value.meals.Keys == m.meals.Keys
    ensures AssignAll(m, rows).value.isNew == m.isNew
  {
    if rows != [] {
      var n := |rows| - 1;
      assert rows == rows[..n] + [rows[n]];
      AssignAllSnoc(m, rows[..n], rows[n]);
      AssignKeepsMeals(m, rows[..n]);
    }
  }

  /**
   * Each row with an `items` key overwrites `menus[meal][location]`: when the
   * loop succeeds, a location some row stores under holds the items of the
   * LAST such row.
   */
  lemma {:induction false} LastRowWins(m: Menus, rows: seq<MenuRow>, meal: string, location: string, i: nat)
    requires AssignAll(m, rows).Ok? && meal in m.meals
    requires LastStoring(rows, meal, location, i)
    ensures meal in AssignAll(m, rows).value.meals
    ensures location in AssignAll(m, rows).value.meals[meal]
    ensures AssignAll(m, rows).value.meals[meal][location] == Stored(rows[i].items)
  {
    var n := |rows| - 1;
    var pre, row := rows[..n], rows[n];
    assert rows == pre + [row];
    AssignAllSnoc(m, pre, row);
    AssignKeepsMeals(m, pre);
    if i < n {
      assert LastStoring(pre, meal, location, i);
      LastRowWins(m, pre, meal, location, i);
    }
  }

  /**
   * A location no row stores under keeps what it held before the loop, and
   * is present afterwards exactly when it was before.
   */
  lemma {:induction false} UnstoredLocationKept(m: Menus, rows: seq<MenuRow>, meal: string, location: string)
    requires AssignAll(m, rows).Ok? && meal in m.meals
    requires forall i :: 0 <= i < |rows| && !rows[i].items.Absent? && rows[i].meal == meal ==> rows[i].location != location
    ensures meal in AssignAll(m, rows).value.meals
    ensures location in AssignAll(m, rows).value.meals[meal] <==> location in m.meals[meal]
    ensures location in m.meals[meal] ==> AssignAll(m, rows).value.meals[meal][location] == m.meals[meal][location]
  {
    if rows != [] {
      var n := |rows| - 1;
      var pre, row := rows[..n], rows[n];
      assert rows == pre + [row];
      AssignAllSnoc(m, pre, row);
      AssignKeepsMeals(m, pre);
      assert forall i :: 0 <= i < n ==> pre[i] == rows[i];
      UnstoredLocationKept(m, pre, meal, location);
    }
  }

  const InvalidDateMessage: string := "Invalid date format."
  const NoMenusMessage: string := "No menus found for this date."

  /** How the call to `scrape_menus(date)` ended. */
  datatype ScrapeOutcome = Returned(succeeded: bool) | Raised

  /** Why a request ended in an uncaught exception. */
  datatype Crash = ScrapeCrashed | AssignCrashed(failure: Failure)

  /** What the route answers. */
  datatype Response =
    | BadRequest(error: string)    // HTTP 400 with an error object
    | ErrorObject(error: string)   // an error object with HTTP 200
    | MenusBody(menus: Menus)
    | ServerError(crash: Crash)    // an exception escaped the handler

  /** The answer for the rows finally read, with `menus["new"]` as given. */
  function Answer(rows: seq<MenuRow>, isNew: bool): Response
  {
    if rows == [] then ErrorObject(NoMenusMessage)
    else match AssignAll(EmptyMenus.(isNew := isNew), rows)
      case Ok(m) => MenusBody(m)
      case Err(f) => ServerError(AssignCrashed(f))
  }

  /** The process that serves requests, with its module-level state. */
  class Server {
    /** `currently_scraping`: dates whose synchronous scrape has begun and not returned. */
    var currentlyScraping: set<string>

    constructor ()
      ensures currentlyScraping == {}
    {
      currentlyScraping := {};
    }

    /**
     * `get_menus(date)`. `rowsBefore` is what the first read returns,
     * `scrape` how `scrape_menus(date)` ends if it is called, and
     * `rowsAfter` what the second read returns if it is made.
     */
    method GetMenus(date: string, isValidDate: string -> bool, rowsBefore: seq<MenuRow>,
                    scrape: ScrapeOutcome, rowsAfter: seq<MenuRow>) returns (resp: Response)
      modifies this
      // an invalid date is refused before the set or the store is touched
      ensures !isValidDate(date) ==>
                resp == BadRequest(InvalidDateMessage) && currentlyScraping == old(currentlyScraping)
      // stored rows are answered from, with no scrape
      ensures isValidDate(date) && rowsBefore != [] ==>
                currentlyScraping == old(currentlyScraping) && resp == Answer(rowsBefore, false)
      // a date already being scraped is not scraped again
      ensures isValidDate(date) && rowsBefore == [] && date in old(currentlyScraping) ==>
                currentlyScraping == old(currentlyScraping) && resp == ErrorObject(NoMenusMessage)
      // a scrape that raises leaves its date in the set
      ensures isValidDate(date) && rowsBefore == [] && date !in old(currentlyScraping) && scrape.Raised? ==>
                currentlyScraping == old(currentlyScraping) + {date} && resp == ServerError(ScrapeCrashed)
      // a scrape that returns restores the set; only success re-reads and marks the answer new
      ensures isValidDate(date) && rowsBefore == [] && date !in old(currentlyScraping) && scrape.Returned? ==>
                currentlyScraping == old(currentlyScraping)
                && resp == if scrape.succeeded then Answer(rowsAfter, true) else ErrorObject(NoMenusMessage)
    {
      if !isValidDate(date) {
        return BadRequest(InvalidDateMessage);
      }
      var menus := EmptyMenus;
      var rows := rowsBefore;
      if rows == [] {
        if date !in currentlyScraping {
          currentlyScraping := currentlyScraping + {date};
          if scrape.Raised? {
            return ServerError(ScrapeCrashed);
          }
          var scrapedSuccessfully := scrape.succeeded;
          currentlyScraping := currentlyScraping - {date};
          if scrapedSuccessfully {
            rows := rowsAfter;
            menus := menus.(isNew := true);
          }
        }
        if rows == [] {
          return ErrorObject(NoMenusMessage);
        }
      }
      ghost var start := menus;
      var k := 0;
      while k < |rows|
        invariant 0 <= k <= |rows|
        invariant AssignAll(start, rows[..k]) == Ok(menus)
        invariant menus.isNew == start.isNew
        invariant unchanged(this)
      {
        var row := rows[k];
        assert rows[..k + 1] == rows[..k] + [row];
        AssignAllSnoc(start, rows[..k], row);
        if row.items != Absent {
          if row.meal in menus.meals {
            var value := if row.items.Null? then None else Some(row.items.names);
            menus := menus.(meals := menus.meals[row.meal := menus.meals[row.meal][row.location := value]]);
          } else {
            assert AssignAll(start, rows[..k + 1]).Err?;
            AssignAllErrSticks(start, rows, k + 1);
            return ServerError(AssignCrashed(if row.meal == "new" && menus.isNew then FlagNotAssignable else UnknownMeal));
          }
        }
        k := k + 1;
      }
      assert rows[..k] == rows;
      resp := MenusBody(menus);
    }
  }

  /** The column map of a row without its `name` column. */
  function WithoutName<V>(row: map<string, V>): (r: map<string, V>)
    ensures r.Keys == row.Keys - {"name"}
    ensures forall k :: k in r ==> r[k] == row[k]
  {
    row - {"name"}
  }

  /**
   * `get_items()`: every item's name is a key, holding the other columns of
   * the last row with that name.
   */
  function ItemIndex<V>(rows: seq<map<string, V>>): (r: map<V, map<string, V>>)
    requires forall i :: 0 <= i < |rows| ==> "name" in rows[i]
    ensures forall i :: 0 <= i < |rows| ==> rows[i]["name"] in r
    ensures forall n :: n in r ==>
              exists i :: 0 <= i < |rows| && rows[i]["name"] == n && r[n] == WithoutName(rows[i])
                          && forall j :: i < j < |rows| ==> rows[j]["name"] != n
  {
    var pairs := seq(|rows|, i requires 0 <= i < |rows| => (rows[i]["name"], WithoutName(rows[i])));
    var r := Dicts.DictOf(pairs, (p: (V, map<string, V>)) => p.0, (p: (V, map<string, V>)) => p.1);
    Dicts.DictOfIsDict(pairs, (p: (V, map<string, V>)) => p.0, (p: (V, map<string, V>)) => p.1);
    assert forall i :: 0 <= i < |rows| ==> pairs[i].0 == rows[i]["name"];
    r
  }

  /**
   * `get_search_results(query)`: a query outside 3..50 characters gets `{}`;
   * otherwise every date of the matching rows maps to the distinct item
   * names found on it.
   */
  method SearchResults(query: string, rows: seq<Search.Hit>) returns (data: map<string, set<string>>)
    ensures !Search.ValidQuery(query) ==> data == map[]
    ensures Search.ValidQuery(query) ==> Search.GroupsOf(data, rows)
  {
    if |query| < 3 || |query| > 50 {
      return map[];
    }
    data := Search.GroupByDate(rows);
  }
}
