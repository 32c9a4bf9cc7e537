/**
 * What the assembly loop of `app.py` guarantees, and where its result
 * depends on the order of the rows.
 */
module MenuApiProps {
  import opened Wrappers
  import opened Schema
  import opened MenuApi

  /** The rows of `meal`, in their original order. */
  function RowsOf(rows: seq<Row>, meal: Meal): (r: seq<Row>)
    ensures |r| <= |rows|
    ensures forall x :: x in r ==> x in rows && x.meal == meal
    ensures (forall i :: 0 <= i < |rows| ==> rows[i].meal != meal) ==> r == []
  {
    if rows == [] then []
    else
      var n := |rows| - 1;
      var prev := RowsOf(rows[..n], meal);
      if rows[n].meal == meal then prev + [rows[n]] else prev
  }

  /** The assembly loop run on one meal's dictionary alone, from `{}`. */
  function MealFold(rows: seq<Row>): Result<MealMap, Failure>
  {
    if rows == [] then Ok(map[])
    else ThenStep(MealFold(rows[..|rows| - 1]), rows[|rows| - 1])
  }

  /** One more row after a partial result; an exception already raised stays. */
  function ThenStep(prev: Result<MealMap, Failure>, r: Row): Result<MealMap, Failure>
  {
    match prev
    case Ok(mm) => MealStep(mm, r)
    case Err(f) => Err(f)
  }

  lemma MealFoldSnoc(rows: seq<Row>, r: Row)
    ensures MealFold(rows + [r]) == ThenStep(MealFold(rows), r)
  {
    assert (rows + [r])[..|rows|] == rows;
  }

  lemma AssembleSnoc(rows: seq<Row>, r: Row)
    ensures Assemble(rows + [r]) == match Assemble(rows) case Ok(m) => Step(m, r) case Err(f) => Err(f)
  {
    assert (rows + [r])[..|rows|] == rows;
  }

  lemma RowsOfSnoc(rows: seq<Row>, r: Row, meal: Meal)
    ensures RowsOf(rows + [r], meal) == if r.meal == meal then RowsOf(rows, meal) + [r] else RowsOf(rows, meal)
  {
    assert (rows + [r])[..|rows|] == rows;
  }

  /**
   * The loop succeeds exactly when each meal's rows, taken alone, go through
   * without an exception, and then each meal's dictionary is what its own
   * rows build.
   */
  ghost predicate PerMeal(rows: seq<Row>)
  {
    && (Assemble(rows).Ok? <==> forall meal :: MealFold(RowsOf(rows, meal)).Ok?)
    && (Assemble(rows).Ok? ==> forall meal :: MealFold(RowsOf(rows, meal)) == Ok(Assemble(rows).value.Get(meal)))
  }

  /** The meals are assembled independently, so a row never changes another meal. */
  lemma {:induction false} AssemblePerMeal(rows: seq<Row>)
    ensures PerMeal(rows)
  {
    if rows == [] {
      assert forall meal :: RowsOf(rows, meal) == [];
    } else {
      var n := |rows| - 1;
      var pre, r := rows[..n], rows[n];
      assert rows == pre + [r];
      AssemblePerMeal(pre);
      PerMealSnoc(pre, r);
    }
  }

  lemma PerMealSnoc(pre: seq<Row>, r: Row)
    requires PerMeal(pre)
    ensures PerMeal(pre + [r])
  {
    var rows := pre + [r];
    AssembleSnoc(pre, r);
    forall meal
      ensures MealFold(RowsOf(rows, meal))
           == if meal == r.meal then ThenStep(MealFold(RowsOf(pre, meal)), r) else MealFold(RowsOf(pre, meal))
    {
      RowsOfSnoc(pre, r, meal);
      if meal == r.meal {
        MealFoldSnoc(RowsOf(pre, meal), r);
      }
    }
    if Assemble(pre).Err? {
      var bad :| !MealFold(RowsOf(pre, bad)).Ok?;
      assert !MealFold(RowsOf(rows, bad)).Ok?;
    }
  }

  /** A meal that no row mentions stays `{}` (it is not reported closed). */
  lemma MealWithoutRowsStaysEmpty(rows: seq<Row>, meal: Meal)
    requires forall i :: 0 <= i < |rows| ==> rows[i].meal != meal
    requires Assemble(rows).Ok?
    ensures Assemble(rows).value.Get(meal) == map[]
  {
    AssemblePerMeal(rows);
  }

  /**
   * A closed or item-less row without a location resets its meal: whatever
   * came before, the meal then develops as if the row had been the first.
   */
  lemma {:induction false} MealCloseResets(pre: seq<Row>, r: Row, post: seq<Row>)
    requires Closes(r) && Falsy(r.location)
    requires MealFold(pre).Ok?
    ensures MealFold(pre + [r] + post) == MealFold([r] + post)
    decreases |post|
  {
    if post == [] {
      MealFoldSnoc(pre, r);
      MealFoldSnoc([], r);
      assert pre + [r] + post == pre + [r];
      assert [r] + post == [] + [r];
    } else {
      var n := |post| - 1;
      MealCloseResets(pre, r, post[..n]);
      assert pre + [r] + post == (pre + [r] + post[..n]) + [post[n]];
      assert [r] + post == ([r] + post[..n]) + [post[n]];
      MealFoldSnoc(pre + [r] + post[..n], post[n]);
      MealFoldSnoc([r] + post[..n], post[n]);
    }
  }

  /** Right after such a row the meal is exactly `{"closed": True}`. */
  lemma MealCloseDiscards(pre: seq<Row>, r: Row)
    requires Closes(r) && Falsy(r.location)
    requires MealFold(pre).Ok?
    ensures MealFold(pre + [r]) == Ok(MealClosed)
  {
    MealFoldSnoc(pre, r);
  }

  /** A closed or item-less row with a location closes that location only. */
  lemma LocationCloseOnlyThat(pre: seq<Row>, r: Row)
    requires Closes(r) && !Falsy(r.location)
    requires MealFold(pre).Ok?
    ensures MealFold(pre + [r]) == Ok(MealFold(pre).value[r.location := LocationClosed])
  {
    MealFoldSnoc(pre, r);
  }

  /** The item names the open rows at `key` list, in row order, duplicates kept. */
  function NamesAt(rows: seq<Row>, key: Option<string>): (r: seq<string>)
    ensures |r| <= |rows|
    ensures (forall i :: 0 <= i < |rows| ==> rows[i].location != key) ==> r == []
  {
    if rows == [] then []
    else
      var n := |rows| - 1;
      NamesAt(rows[..n], key)
      + (if rows[n].location == key && !Closes(rows[n]) then [rows[n].itemName.value] else [])
  }

  /**
   * While nothing closes the meal or the location `key`, the entry at `key`
   * exists exactly when some row names it, and it lists the items of the
   * rows at `key` in row order, duplicates included.
   */
  lemma {:induction false} ItemsInOrder(rows: seq<Row>, key: Option<string>)
    requires forall i :: 0 <= i < |rows| && Closes(rows[i]) ==> !Falsy(rows[i].location) && rows[i].location != key
    requires MealFold(rows).Ok?
    ensures key in MealFold(rows).value <==> exists i :: 0 <= i < |rows| && rows[i].location == key
    ensures key in MealFold(rows).value ==> MealFold(rows).value[key] == Items(NamesAt(rows, key))
  {
    if rows != [] {
      var n := |rows| - 1;
      var pre, r := rows[..n], rows[n];
      assert rows == pre + [r];
      MealFoldSnoc(pre, r);
      assert MealFold(pre).Ok?;
      ItemsInOrder(pre, key);
      if r.location == key {
        if key !in MealFold(pre).value {
          assert NamesAt(pre, key) == [];
        }
      } else {
        assert (exists i :: 0 <= i < |rows| && rows[i].location == key)
           <==> (exists i :: 0 <= i < |pre| && pre[i].location == key);
      }
    }
  }

  /**
   * After a whole-meal close, an open row at any other key adds that location
   * beside "closed", whatever the meal held before the close.
   */
  lemma MealCloseThenOpenMixesKeys(pre: seq<Row>, c: Row, o: Row)
    requires MealFold(pre).Ok?
    requires Closes(c) && Falsy(c.location)
    requires !Closes(o) && o.location != ClosedKey
    ensures MealFold(pre + [c] + [o]) == Ok(map[ClosedKey := ClosedFlag, o.location := Items([o.itemName.value])])
  {
    MealFoldSnoc(pre, c);
    MealFoldSnoc(pre + [c], o);
    assert [] + [o.itemName.value] == [o.itemName.value];
  }

  /**
   * An open row after its location was closed raises a KeyError on "items",
   * whatever the meal held before the close.
   */
  lemma LocationCloseThenOpenRaises(pre: seq<Row>, c: Row, o: Row)
    requires MealFold(pre).Ok?
    requires Closes(c) && !Falsy(c.location)
    requires !Closes(o) && o.location == c.location
    ensures MealFold(pre + [c] + [o]) == Err(MissingItemsKey)
  {
    MealFoldSnoc(pre, c);
    MealFoldSnoc(pre + [c], o);
  }

  /** The same two rows the other way round close the location. */
  lemma OpenThenLocationClose()
    ensures Assemble([Row(Lunch, Some("X"), Open, Some("Pasta")), Row(Lunch, Some("X"), Closed, None)])
         == Ok(EmptyMenus.Set(Lunch, map[Some("X") := LocationClosed]))
  {
    var r0, r1 := Row(Lunch, Some("X"), Open, Some("Pasta")), Row(Lunch, Some("X"), Closed, None);
    AssembleSnoc([], r0);
    AssembleSnoc([r0], r1);
    assert [] + [r0] == [r0] && [r0] + [r1] == [r0, r1];
    assert map[Some("X") := Items([] + ["Pasta"])][Some("X") := LocationClosed] == map[Some("X") := LocationClosed];
  }

  /** The assembly is not invariant under reordering its rows. */
  lemma AssembleDependsOnOrder()
    ensures exists a: seq<Row>, b: seq<Row> :: multiset(a) == multiset(b) && Assemble(a) != Assemble(b)
  {
    var listing, closing := Row(Lunch, Some("X"), Open, Some("Pasta")), Row(Lunch, Some("X"), Closed, None);
    AssembleSnoc([], closing);
    AssembleSnoc([closing], listing);
    assert [] + [closing] == [closing] && [closing] + [listing] == [closing, listing];
    OpenThenLocationClose();
    var a: seq<Row>, b: seq<Row> := [closing, listing], [listing, closing];
    assert multiset(a) == multiset(b) && Assemble(a) != Assemble(b);
  }

  /**
   * After a whole-meal close, an open row at a location literally called
   * "closed" raises a TypeError, whatever the meal held before the close.
   */
  lemma ClosedLocationNameAfterMealClose(pre: seq<Row>, c: Row, o: Row)
    requires MealFold(pre).Ok?
    requires Closes(c) && Falsy(c.location)
    requires !Closes(o) && o.location == ClosedKey
    ensures MealFold(pre + [c] + [o]) == Err(NotSubscriptable)
  {
    MealFoldSnoc(pre, c);
    MealFoldSnoc(pre + [c], o);
  }

  /** Closing every location one by one does not close the meal as a whole. */
  lemma AllLocationsClosedNotCollapsed()
    ensures Assemble([Row(Lunch, Some("X"), Closed, None), Row(Lunch, Some("Y"), Closed, None)])
         == Ok(EmptyMenus.Set(Lunch, map[Some("X") := LocationClosed, Some("Y") := LocationClosed]))
  {
    AssembleSnoc([], Row(Lunch, Some("X"), Closed, None));
    AssembleSnoc([Row(Lunch, Some("X"), Closed, None)], Row(Lunch, Some("Y"), Closed, None));
  }

  /** A day with only lunch open at one location with two items. */
  lemma LunchOnlyDay()
    ensures Assemble([Row(Breakfast, None, Closed, None), Row(Lunch, Some("LocationX"), Open, Some("Pasta")),
                      Row(Lunch, Some("LocationX"), Open, Some("Salad")), Row(Dinner, None, Closed, None)])
         == Ok(Menus(MealClosed, map[Some("LocationX") := Items(["Pasta", "Salad"])], MealClosed))
  {
    var r0, r1 := Row(Breakfast, None, Closed, None), Row(Lunch, Some("LocationX"), Open, Some("Pasta"));
    var r2, r3 := Row(Lunch, Some("LocationX"), Open, Some("Salad")), Row(Dinner, None, Closed, None);
    assert [] + [r0] == [r0] && [r0] + [r1] == [r0, r1];
    assert [r0, r1] + [r2] == [r0, r1, r2] && [r0, r1, r2] + [r3] == [r0, r1, r2, r3];
    assert [] + ["Pasta"] == ["Pasta"] && ["Pasta"] + ["Salad"] == ["Pasta", "Salad"];
    AssembleSnoc([], r0);
    assert Assemble([r0]) == Ok(Menus(MealClosed, map[], map[]));
    AssembleSnoc([r0], r1);
    assert Assemble([r0, r1]) == Ok(Menus(MealClosed, map[Some("LocationX") := Items(["Pasta"])], map[]));
    AssembleSnoc([r0, r1], r2);
    assert map[Some("LocationX") := Items(["Pasta"])][Some("LocationX") := Items(["Pasta", "Salad"])]
        == map[Some("LocationX") := Items(["Pasta", "Salad"])];
    assert Assemble([r0, r1, r2]) == Ok(Menus(MealClosed, map[Some("LocationX") := Items(["Pasta", "Salad"])], map[]));
    AssembleSnoc([r0, r1, r2], r3);
  }
}
