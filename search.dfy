/**
 * The grouping step of the item search route, shared by both Flask
 * services: the matching `(date, item)` rows become a dictionary from each
 * date to the distinct item names found on it.
 */
module Search {

  /** One row of the search query. */
  datatype Hit = Hit(date: string, item: string)

  /** A query is searched only when it has 3 to 50 characters. */
  predicate ValidQuery(query: string)
  {
    3 <= |query| <= 50
  }

  /** The distinct item names that `rows` report for `date`. */
  function ItemsOn(rows: seq<Hit>, date: string): set<string>
  {
    set i | 0 <= i < |rows| && rows[i].date == date :: rows[i].item
  }

  /** `data` has exactly the dates of `rows`, each with the names found on it. */
  ghost predicate GroupsOf(data: map<string, set<string>>, rows: seq<Hit>)
  {
    && (forall d :: d in data <==> exists i :: 0 <= i < |rows| && rows[i].date == d)
    && (forall d :: d in data ==> data[d] == ItemsOn(rows, d))
  }

  /** The `data.setdefault(date, set()).add(item)` loop. */
  method GroupByDate(rows: seq<Hit>) returns (data: map<string, set<string>>)
    ensures forall d :: d in data <==> exists i :: 0 <= i < |rows| && rows[i].date == d
    ensures forall d :: d in data ==> data[d] == ItemsOn(rows, d)
  {
    data := map[];
    var k := 0;
    while k < |rows|
      invariant 0 <= k <= |rows|
      invariant forall d :: d in data <==> exists i :: 0 <= i < k && rows[i].date == d
      invariant forall d :: d in data ==> data[d] == ItemsOn(rows[..k], d)
    {
      var row := rows[k];
      var found := if row.date in data then data[row.date] else {};
      data := data[row.date := found + {row.item}];
      assert forall d :: (ItemsOn(rows[..k + 1], d)
        == ItemsOn(rows[..k], d) + (if d == row.date then {row.item} else {}));
      k := k + 1;
    }
    assert rows[..k] == rows;
  }
}
