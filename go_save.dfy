/**
 * The Go scraper's `Save` (`internal/scraper/scraper.go`): one meal of one
 * day written to the `Menus`, `Items` and `MenuItems` tables. The database
 * is a value of three tables and an identity counter; which statements the
 * database refuses is an input (`Faults`), since nothing in `Save` decides
 * it.
 */
module GoSave {
  import opened Wrappers
  import opened Schema
  import opened Text
  import opened Normalise
  import Lists
  import Dicts

  /** `mealTypes`: the upstream period ids and the meal each one is saved as. */
  const MealTypeIds: map<string, string> := map[
    "66bf79f3351d5300dd055257" := "breakfast",
    "66bf7d21e45d430859cf99b2" := "lunch",
    "66bf7d21e45d430859cf99b8" := "dinner"]

  /** The meal a period id is saved as, if it is one of `mealTypes`. */
  function MealOfPeriodId(id: string): (r: Option<Meal>)
    ensures r.Some? <==> id in MealTypeIds
    ensures r.Some? ==> MealName(r.value) == MealTypeIds[id]
  {
    if id in MealTypeIds then MealOfSlug(MealTypeIds[id]) else None
  }

  /** The three ids name the three meals, each exactly once. */
  lemma MealTypeIdsNameEachMealOnce(m: Meal)
    ensures exists id :: id in MealTypeIds && MealTypeIds[id] == MealName(m)
    ensures forall a, b :: a in MealTypeIds && b in MealTypeIds && MealTypeIds[a] == MealTypeIds[b] ==> a == b
  {
    match m
    case Breakfast => assert MealTypeIds["66bf79f3351d5300dd055257"] == MealName(m);
    case Lunch => assert MealTypeIds["66bf7d21e45d430859cf99b2"] == MealName(m);
    case Dinner => assert MealTypeIds["66bf7d21e45d430859cf99b8"] == MealName(m);
  }

  /** One item of a category of `Response`. */
  datatype GoItem = GoItem(
    name: string,
    desc: string,
    portion: string,
    ingredients: string,
    nutrients: seq<Nutrient>,
    filters: seq<Filter>)

  datatype GoCategory = GoCategory(name: string, items: seq<GoItem>)

  /** `Response`: the closed flag and the categories of the period. */
  datatype Response = Response(closed: bool, categories: seq<GoCategory>)

  /** An `Items` row other than its name; `image_url` and `image_source` are NULL. */
  datatype ItemRow = ItemRow(
    description: string,
    portion: string,
    ingredients: string,
    nutrients: map<string, string>,
    filters: seq<string>)

  datatype MenuRow = MenuRow(id: nat, date: string, meal: string)

  datatype MenuItemRow = MenuItemRow(menuId: nat, itemName: string, location: string)

  /** The three tables and the next value of the `Menus.id` identity. */
  datatype Tables = Tables(
    menus: seq<MenuRow>,
    items: map<string, ItemRow>,
    menuItems: seq<MenuItemRow>,
    nextId: nat)

  /** The row `Save` offers for an item: trimmed texts, kept nutrients, labels. */
  function RowOf(item: GoItem): ItemRow
  {
    ItemRow(TrimSpace(item.desc), TrimSpace(item.portion), TrimSpace(item.ingredients),
            GoNutrients(item.nutrients), GoLabels(item.filters))
  }

  /** The statements inside the item loop that can fail. */
  datatype Statement = ItemInsert | MenuItemInsert

  /** The first statement of the item loop that fails: the `step`-th item's `stmt`. */
  datatype LoopFault = LoopFault(step: nat, stmt: Statement)

  /** Which of `Save`'s database calls fail. */
  datatype Faults = Faults(
    noConnection: bool,      // `db.GetDB()` returns nil
    countFails: bool,        // the COUNT query
    menuInsertFails: bool,   // the `Menus` insert, closed or not
    beginFails: bool,        // `conn.Begin()`
    loopFault: Option<LoopFault>,
    commitFails: bool)       // `tx.Commit()` in the deferred handler, whose error is discarded

  /** The error `Save` returns. */
  datatype SaveError =
    | NoConnection
    | CountError
    | ClosedInsertError
    | BeginError
    | MenuInsertError
    | ItemInsertError
    | MenuItemInsertError

  /** What a call leaves: the tables and the returned error (`None` is nil). */
  datatype Outcome = Outcome(tables: Tables, err: Option<SaveError>)

  /** A `Menus` row for this date and meal exists: `COUNT(*) > 0`. */
  predicate HasMenu(t: Tables, date: string, meal: string)
  {
    exists i :: 0 <= i < |t.menus| && t.menus[i].date == date && t.menus[i].meal == meal
  }

  /** `INSERT INTO Menus (date, meal)`, drawing the next identity value. */
  function MenuInserted(t: Tables, date: string, meal: string): (r: Tables)
    ensures HasMenu(r, date, meal)
  {
    var r := t.(menus := t.menus + [MenuRow(t.nextId, date, meal)], nextId := t.nextId + 1);
    assert r.menus[|t.menus|].date == date && r.menus[|t.menus|].meal == meal;
    r
  }

  /** One item as the loop meets it, with its category's trimmed name. */
  datatype Placement = Placement(location: string, item: GoItem)

  /** The items of one category, in order. */
  function CategoryPlacements(c: GoCategory): seq<Placement>
  {
    seq(|c.items|, j requires 0 <= j < |c.items| => Placement(TrimSpace(c.name), c.items[j]))
  }

  /** One placement per item, in order, each under the category's trimmed name. */
  lemma CategoryPlacementsAt(c: GoCategory)
    ensures |CategoryPlacements(c)| == |c.items|
    ensures forall j :: 0 <= j < |c.items| ==> CategoryPlacements(c)[j] == Placement(TrimSpace(c.name), c.items[j])
  {
  }

  /**
   * The items the loop visits, category after category; a category with no
   * items, which the loop skips with `continue`, contributes none.
   */
  function Placements(cs: seq<GoCategory>): seq<Placement>
  {
    if cs == [] then []
    else
      var n := |cs| - 1;
      Placements(cs[..n]) + CategoryPlacements(cs[n])
  }

  lemma PlacementsSnoc(cs: seq<GoCategory>, c: GoCategory)
    ensures Placements(cs + [c]) == Placements(cs) + CategoryPlacements(c)
  {
    assert (cs + [c])[..|cs|] == cs;
  }

  /** The loop visits the categories in order: a split of the categories splits the items. */
  lemma {:induction false} PlacementsAppend(a: seq<GoCategory>, b: seq<GoCategory>)
    ensures Placements(a + b) == Placements(a) + Placements(b)
    decreases |b|
  {
    if b == [] {
      assert a + b == a;
    } else {
      var n := |b| - 1;
      assert b == b[..n] + [b[n]];
      assert a + b == (a + b[..n]) + [b[n]];
      PlacementsAppend(a, b[..n]);
      PlacementsSnoc(a + b[..n], b[n]);
      PlacementsSnoc(b[..n], b[n]);
    }
  }

  /**
   * Every visited item belongs to a category that has items, and carries
   * that category's trimmed name.
   */
  lemma {:induction false} PlacementsFrom(cs: seq<GoCategory>, p: Placement)
    requires p in Placements(cs)
    ensures exists c :: c in cs && |c.items| > 0 && p.item in c.items && p.location == TrimSpace(c.name)
  {
    var n := |cs| - 1;
    var c := cs[n];
    if p in Placements(cs[..n]) {
      PlacementsFrom(cs[..n], p);
      var d :| d in cs[..n] && |d.items| > 0 && p.item in d.items && p.location == TrimSpace(d.name);
      assert d in cs;
    } else {
      CategoryPlacementsAt(c);
      var j :| 0 <= j < |CategoryPlacements(c)| && CategoryPlacements(c)[j] == p;
      assert c.items[j] in c.items;
    }
  }

  lemma PlacementsStep(cs: seq<GoCategory>, i: nat)
    requires i < |cs|
    ensures Placements(cs[..i + 1]) == Placements(cs[..i]) + CategoryPlacements(cs[i])
    ensures |Placements(cs[..i + 1])| == |Placements(cs[..i])| + |cs[i].items|
  {
    CategoryPlacementsAt(cs[i]);
    assert cs[..i + 1][..i] == cs[..i];
  }

  /** The `MenuItems` rows of menu `menuId` for the visited items, in order. */
  function MenuItemRows(menuId: nat, ps: seq<Placement>): (r: seq<MenuItemRow>)
    ensures |r| == |ps|
    ensures forall j :: 0 <= j < |ps| ==> r[j] == MenuItemRow(menuId, TrimSpace(ps[j].item.name), ps[j].location)
  {
    seq(|ps|, j requires 0 <= j < |ps| => MenuItemRow(menuId, TrimSpace(ps[j].item.name), ps[j].location))
  }

  lemma MenuItemRowsLast(menuId: nat, ps: seq<Placement>)
    requires ps != []
    ensures var n := |ps| - 1;
            MenuItemRows(menuId, ps) == MenuItemRows(menuId, ps[..n]) + [MenuItemRow(menuId, TrimSpace(ps[n].item.name), ps[n].location)]
  {
  }

  /**
   * One pass of the item loop, the `step`-th: insert the item unless its
   * trimmed name is stored, then its `MenuItems` row. A failing statement
   * ends the loop, with what was written before it left in place.
   */
  function PlaceStep(t: Tables, menuId: nat, p: Placement, step: nat, fault: Option<LoopFault>): Outcome
  {
    var name := TrimSpace(p.item.name);
    var failing := fault.Some? && fault.value.step == step;
    if failing && fault.value.stmt == ItemInsert then Outcome(t, Some(ItemInsertError))
    else
      var withItem := if name in t.items then t else t.(items := t.items[name := RowOf(p.item)]);
      if failing then Outcome(withItem, Some(MenuItemInsertError))
      else Outcome(withItem.(menuItems := withItem.menuItems + [MenuItemRow(menuId, name, p.location)]), None)
  }

  /**
   * A pass fails exactly when the fault names its step; it never touches
   * `Menus`, the identity or a stored item; and when it succeeds the item's
   * trimmed name is stored and one `MenuItems` row is appended.
   */
  lemma PlaceStepEffects(t: Tables, menuId: nat, p: Placement, step: nat, fault: Option<LoopFault>)
    ensures var r := PlaceStep(t, menuId, p, step, fault);
            && (r.err.Some? <==> fault.Some? && fault.value.step == step)
            && r.tables.menus == t.menus && r.tables.nextId == t.nextId
            && (forall n :: n in t.items ==> n in r.tables.items && r.tables.items[n] == t.items[n])
            && (r.err.None? ==> TrimSpace(p.item.name) in r.tables.items
                                && r.tables.menuItems == t.menuItems + [MenuItemRow(menuId, TrimSpace(p.item.name), p.location)])
  {
  }

  /** The item loop over `ps`, whose first item is the loop's `first`-th. */
  function PlacedAll(t: Tables, menuId: nat, ps: seq<Placement>, first: nat, fault: Option<LoopFault>): Outcome
  {
    if ps == [] then Outcome(t, None)
    else
      var n := |ps| - 1;
      var prev := PlacedAll(t, menuId, ps[..n], first, fault);
      if prev.err.Some? then prev else PlaceStep(prev.tables, menuId, ps[n], first + n, fault)
  }

  /** The loop fails exactly when the fault falls on one of its steps. */
  lemma {:induction false} PlacedAllFails(t: Tables, menuId: nat, ps: seq<Placement>, first: nat, fault: Option<LoopFault>)
    ensures PlacedAll(t, menuId, ps, first, fault).err.Some? <==> fault.Some? && first <= fault.value.step < first + |ps|
  {
    if ps != [] {
      var n := |ps| - 1;
      PlacedAllFails(t, menuId, ps[..n], first, fault);
      PlaceStepEffects(PlacedAll(t, menuId, ps[..n], first, fault).tables, menuId, ps[n], first + n, fault);
    }
  }

  /** The loop never touches `Menus`, the identity or a stored item. */
  lemma {:induction false} PlacedAllKeeps(t: Tables, menuId: nat, ps: seq<Placement>, first: nat, fault: Option<LoopFault>)
    ensures var r := PlacedAll(t, menuId, ps, first, fault);
            && r.tables.menus == t.menus && r.tables.nextId == t.nextId
            && (forall n :: n in t.items ==> n in r.tables.items && r.tables.items[n] == t.items[n])
  {
    if ps != [] {
      var n := |ps| - 1;
      PlacedAllKeeps(t, menuId, ps[..n], first, fault);
      PlaceStepEffects(PlacedAll(t, menuId, ps[..n], first, fault).tables, menuId, ps[n], first + n, fault);
    }
  }

  /**
   * Without a fault the loop writes one `MenuItems` row per visited item,
   * in order.
   */
  lemma {:induction false} PlacedAllRows(t: Tables, menuId: nat, ps: seq<Placement>, first: nat)
    ensures var r := PlacedAll(t, menuId, ps, first, None);
            r.err.None? && r.tables.menuItems == t.menuItems + MenuItemRows(menuId, ps)
  {
    if ps == [] {
      assert t.menuItems + MenuItemRows(menuId, ps) == t.menuItems;
    } else {
      var n := |ps| - 1;
      var prev := PlacedAll(t, menuId, ps[..n], first, None);
      PlacedAllRows(t, menuId, ps[..n], first);
      var r := PlaceStep(prev.tables, menuId, ps[n], first + n, None);
      PlaceStepEffects(prev.tables, menuId, ps[n], first + n, None);
      assert PlacedAll(t, menuId, ps, first, None) == r;
      var before, link := MenuItemRows(menuId, ps[..n]), MenuItemRow(menuId, TrimSpace(ps[n].item.name), ps[n].location);
      MenuItemRowsLast(menuId, ps);
      assert r.tables.menuItems == (t.menuItems + before) + [link] == t.menuItems + (before + [link]);
    }
  }

  /** Without a fault every visited item's trimmed name is stored. */
  lemma PlacedAllNames(t: Tables, menuId: nat, ps: seq<Placement>, first: nat)
    ensures forall j :: 0 <= j < |ps| ==> TrimSpace(ps[j].item.name) in PlacedAll(t, menuId, ps, first, None).tables.items
  {
    forall j | 0 <= j < |ps|
      ensures TrimSpace(ps[j].item.name) in PlacedAll(t, menuId, ps, first, None).tables.items
    {
      PlacedAllStoresName(t, menuId, ps, first, j);
    }
  }

  lemma {:induction false} PlacedAllStoresName(t: Tables, menuId: nat, ps: seq<Placement>, first: nat, j: nat)
    requires j < |ps|
    ensures TrimSpace(ps[j].item.name) in PlacedAll(t, menuId, ps, first, None).tables.items
  {
    var n := |ps| - 1;
    var prev := PlacedAll(t, menuId, ps[..n], first, None);
    PlacedAllFails(t, menuId, ps[..n], first, None);
    var r := PlaceStep(prev.tables, menuId, ps[n], first + n, None);
    PlaceStepEffects(prev.tables, menuId, ps[n], first + n, None);
    var name := TrimSpace(ps[j].item.name);
    if j < n {
      assert ps[..n][j] == ps[j];
      PlacedAllStoresName(t, menuId, ps[..n], first, j);
      assert name in prev.tables.items;
    }
    assert name in r.tables.items;
    assert PlacedAll(t, menuId, ps, first, None) == r;
  }

  lemma PlacedAllStep(t: Tables, menuId: nat, ps: seq<Placement>, i: nat, first: nat, fault: Option<LoopFault>)
    requires i < |ps|
    ensures PlacedAll(t, menuId, ps[..i + 1], first, fault)
         == (var prev := PlacedAll(t, menuId, ps[..i], first, fault);
             if prev.err.Some? then prev else PlaceStep(prev.tables, menuId, ps[i], first + i, fault))
  {
    assert ps[..i + 1][..i] == ps[..i];
  }

  lemma PlacedAllSnoc(t: Tables, menuId: nat, ps: seq<Placement>, p: Placement, first: nat, fault: Option<LoopFault>)
    ensures PlacedAll(t, menuId, ps + [p], first, fault)
         == (var prev := PlacedAll(t, menuId, ps, first, fault);
             if prev.err.Some? then prev else PlaceStep(prev.tables, menuId, p, first + |ps|, fault))
  {
    assert (ps + [p])[..|ps|] == ps;
  }

  /**
   * The loop over `a + b` is the loop over `a`, then, unless that failed,
   * the loop over `b` numbered from where `a` stopped.
   */
  lemma {:induction false} PlacedAllAppend(t: Tables, menuId: nat, a: seq<Placement>, b: seq<Placement>, first: nat, fault: Option<LoopFault>)
    ensures PlacedAll(t, menuId, a + b, first, fault)
         == (var r := PlacedAll(t, menuId, a, first, fault);
             if r.err.Some? then r else PlacedAll(r.tables, menuId, b, first + |a|, fault))
    decreases |b|
  {
    if b == [] {
      assert a + b == a;
    } else {
      var n := |b| - 1;
      assert b == b[..n] + [b[n]];
      assert a + b == (a + b[..n]) + [b[n]];
      PlacedAllAppend(t, menuId, a, b[..n], first, fault);
      PlacedAllSnoc(t, menuId, a + b[..n], b[n], first, fault);
      var r := PlacedAll(t, menuId, a, first, fault);
      if r.err.None? {
        PlacedAllSnoc(r.tables, menuId, b[..n], b[n], first + |a|, fault);
      }
    }
  }

  /** Once a prefix of the loop has failed, the whole loop ends the same way. */
  lemma {:induction false} PlacedAllErrSticks(t: Tables, menuId: nat, ps: seq<Placement>, k: nat, first: nat, fault: Option<LoopFault>)
    requires k <= |ps| && PlacedAll(t, menuId, ps[..k], first, fault).err.Some?
    ensures PlacedAll(t, menuId, ps, first, fault) == PlacedAll(t, menuId, ps[..k], first, fault)
    decreases |ps| - k
  {
    if k < |ps| {
      assert ps[..k + 1][..k] == ps[..k];
      PlacedAllErrSticks(t, menuId, ps, k + 1, first, fault);
    } else {
      assert ps[..k] == ps;
    }
  }

  /**
   * The outer loop's step: after the categories before `ci` succeeded, a
   * category with items continues the loop numbered from the items visited
   * so far.
   */
  lemma PlacedAllCategory(t: Tables, menuId: nat, cs: seq<GoCategory>, ci: nat, fault: Option<LoopFault>)
    requires ci < |cs| && |cs[ci].items| > 0
    ensures var prev := PlacedAll(t, menuId, Placements(cs[..ci]), 0, fault);
            prev.err.None? ==>
              PlacedAll(t, menuId, Placements(cs[..ci + 1]), 0, fault)
              == PlacedAll(prev.tables, menuId, CategoryPlacements(cs[ci]), |Placements(cs[..ci])|, fault)
  {
    PlacementsStep(cs, ci);
    PlacedAllAppend(t, menuId, Placements(cs[..ci]), CategoryPlacements(cs[ci]), 0, fault);
  }

  /** A category without items adds nothing to the loop. */
  lemma PlacedAllEmptyCategory(t: Tables, menuId: nat, cs: seq<GoCategory>, ci: nat, fault: Option<LoopFault>)
    requires ci < |cs| && |cs[ci].items| == 0
    ensures PlacedAll(t, menuId, Placements(cs[..ci + 1]), 0, fault) == PlacedAll(t, menuId, Placements(cs[..ci]), 0, fault)
  {
    PlacementsStep(cs, ci);
    assert Placements(cs[..ci + 1]) == Placements(cs[..ci]);
  }

  /** A failure in the categories up to `ci` is the outcome of the whole loop. */
  lemma PlacedAllCategoryFails(t: Tables, menuId: nat, cs: seq<GoCategory>, ci: nat, fault: Option<LoopFault>)
    requires ci < |cs|
    requires PlacedAll(t, menuId, Placements(cs[..ci + 1]), 0, fault).err.Some?
    ensures PlacedAll(t, menuId, Placements(cs), 0, fault) == PlacedAll(t, menuId, Placements(cs[..ci + 1]), 0, fault)
  {
    assert cs == cs[..ci + 1] + cs[ci + 1..];
    PlacementsAppend(cs[..ci + 1], cs[ci + 1..]);
    PlacedAllAppend(t, menuId, Placements(cs[..ci + 1]), Placements(cs[ci + 1..]), 0, fault);
  }

  /**
   * `Save` as written. The count query, the closed shortcut and the
   * transaction's `Menus` insert return their errors with nothing written;
   * the deferred handler reads the function-level `err`, which the loop's
   * `err :=` at line 173 shadows, so a failure inside the loop is returned
   * and the rows written before it are committed.
   */
  function SavedAsWritten(t: Tables, data: Response, date: string, meal: string, f: Faults): Outcome
  {
    if f.noConnection then Outcome(t, Some(NoConnection))
    else if f.countFails then Outcome(t, Some(CountError))
    else if HasMenu(t, date, meal) then Outcome(t, None)
    else if data.closed then
      if f.menuInsertFails then Outcome(t, Some(ClosedInsertError)) else Outcome(MenuInserted(t, date, meal), None)
    else if f.beginFails then Outcome(t, Some(BeginError))
    else if f.menuInsertFails then Outcome(t, Some(MenuInsertError))
    else
      var r := PlacedAll(MenuInserted(t, date, meal), t.nextId, Placements(data.categories), 0, f.loopFault);
      if f.commitFails then Outcome(t.(nextId := t.nextId + 1), r.err) else r
  }

  /**
   * As written, the deferred handler discards the error of `tx.Commit()`: when
   * the commit of a new open day fails, `Save` returns nil although no row
   * was written, and a later `Save` of the same day and meal writes it again.
   */
  lemma CommitFailureReturnsNil(t: Tables, data: Response, date: string, meal: string, f: Faults)
    requires !data.closed && !HasMenu(t, date, meal)
    requires !f.noConnection && !f.countFails && !f.beginFails && !f.menuInsertFails && f.loopFault.None?
    requires f.commitFails
    ensures var r := SavedAsWritten(t, data, date, meal, f);
            && r.err.None?
            && r.tables.menus == t.menus && r.tables.items == t.items && r.tables.menuItems == t.menuItems
            && !HasMenu(r.tables, date, meal)
  {
    PlacedAllRows(MenuInserted(t, date, meal), t.nextId, Placements(data.categories), 0);
  }

  /**
   * `Save` as written draws at most one identity value, the one the `Menus`
   * insert takes; the item loop never draws one.
   */
  lemma SaveDrawsAtMostOneId(t: Tables, data: Response, date: string, meal: string, f: Faults)
    ensures var r := SavedAsWritten(t, data, date, meal, f);
            t.nextId <= r.tables.nextId <= t.nextId + 1
  {
    if !f.noConnection && !f.countFails && !HasMenu(t, date, meal) && !data.closed && !f.beginFails && !f.menuInsertFails {
      PlacedAllKeeps(MenuInserted(t, date, meal), t.nextId, Placements(data.categories), 0, f.loopFault);
    }
  }

  /**
   * `Save` with the transaction rolled back on every error it returns. The
   * rollback restores the rows of all three tables; an identity value drawn
   * inside the transaction stays drawn, as SQL Server does not roll back
   * `IDENTITY` values.
   */
  function SavedAtomically(t: Tables, data: Response, date: string, meal: string, f: Faults): (r: Outcome)
    ensures r.err == SavedAsWritten(t, data, date, meal, f).err
    ensures r.err.Some? ==> r.tables.menus == t.menus && r.tables.items == t.items && r.tables.menuItems == t.menuItems
    ensures r.err.Some? ==> t.nextId <= r.tables.nextId <= t.nextId + 1
    ensures r.err.None? ==> r == SavedAsWritten(t, data, date, meal, f)
  {
    var r := SavedAsWritten(t, data, date, meal, f);
    SaveDrawsAtMostOneId(t, data, date, meal, f);
    if r.err.Some? then Outcome(t.(nextId := r.tables.nextId), r.err) else r
  }

  /** A day and meal already in `Menus` is left alone and nil is returned. */
  lemma SavedMealUnchanged(t: Tables, data: Response, date: string, meal: string, f: Faults)
    requires HasMenu(t, date, meal) && !f.noConnection && !f.countFails
    ensures SavedAsWritten(t, data, date, meal, f) == Outcome(t, None)
  {
  }

  /**
   * After a `Save` that returned nil the meal is stored, whatever statement
   * failed, unless the commit failed (see CommitFailureReturnsNil).
   */
  lemma SaveStoresMeal(t: Tables, data: Response, date: string, meal: string, f: Faults)
    requires SavedAsWritten(t, data, date, meal, f).err.None? && !f.commitFails
    ensures HasMenu(SavedAsWritten(t, data, date, meal, f).tables, date, meal)
  {
    if !HasMenu(t, date, meal) && !data.closed {
      var withMenu := MenuInserted(t, date, meal);
      var r := PlacedAll(withMenu, t.nextId, Placements(data.categories), 0, f.loopFault);
      PlacedAllKeeps(withMenu, t.nextId, Placements(data.categories), 0, f.loopFault);
      var i :| 0 <= i < |withMenu.menus| && withMenu.menus[i].date == date && withMenu.menus[i].meal == meal;
      assert r.tables.menus[i] == withMenu.menus[i];
    }
  }

  /** Saving a day and meal a second time changes nothing and returns nil. */
  lemma SaveIdempotent(t: Tables, data: Response, again: Response, date: string, meal: string, f: Faults, g: Faults)
    requires SavedAsWritten(t, data, date, meal, f).err.None? && !f.commitFails
    requires !g.noConnection && !g.countFails
    ensures var once := SavedAsWritten(t, data, date, meal, f).tables;
            SavedAsWritten(once, again, date, meal, g) == Outcome(once, None)
  {
    SaveStoresMeal(t, data, date, meal, f);
  }

  /**
   * A closed response for a new day and meal writes exactly one `Menus` row
   * and no `Items` or `MenuItems` row.
   */
  lemma ClosedWritesOneMenu(t: Tables, data: Response, date: string, meal: string, f: Faults)
    requires data.closed && !HasMenu(t, date, meal)
    requires !f.noConnection && !f.countFails && !f.menuInsertFails
    ensures var r := SavedAsWritten(t, data, date, meal, f);
            && r.err.None?
            && r.tables.menus == t.menus + [MenuRow(t.nextId, date, meal)]
            && r.tables.items == t.items && r.tables.menuItems == t.menuItems
  {
  }

  /**
   * An open response for a new day and meal, with no failing statement,
   * writes one `Menus` row, one `MenuItems` row per item in
   * category-then-item order, stores every trimmed item name and modifies
   * no stored item.
   */
  lemma OpenWritesEveryItem(t: Tables, data: Response, date: string, meal: string, f: Faults)
    requires !data.closed && !HasMenu(t, date, meal)
    requires !f.noConnection && !f.countFails && !f.beginFails && !f.menuInsertFails && f.loopFault.None?
    requires !f.commitFails
    ensures var r := SavedAsWritten(t, data, date, meal, f);
            var ps := Placements(data.categories);
            && r.err.None?
            && r.tables.menus == t.menus + [MenuRow(t.nextId, date, meal)]
            && r.tables.menuItems == t.menuItems + MenuItemRows(t.nextId, ps)
            && (forall j :: 0 <= j < |ps| ==> TrimSpace(ps[j].item.name) in r.tables.items)
            && (forall n :: n in t.items ==> n in r.tables.items && r.tables.items[n] == t.items[n])
  {
    var withMenu := MenuInserted(t, date, meal);
    PlacedAllKeeps(withMenu, t.nextId, Placements(data.categories), 0, None);
    PlacedAllRows(withMenu, t.nextId, Placements(data.categories), 0);
    PlacedAllNames(withMenu, t.nextId, Placements(data.categories), 0);
  }

  /** A store with no rows; the identity starts at 1. */
  const EmptyTables: Tables := Tables([], map[], [], 1)

  /**
   * As written, when the first `MenuItems` insert of a new open day fails,
   * the error is returned, yet the `Menus` row and the first item's `Items`
   * row are committed; a retry then finds the meal saved, returns nil and
   * never writes the missing row.
   */
  lemma LoopFailureCommits(t: Tables, data: Response, date: string, meal: string, f: Faults, retry: Faults)
    requires !data.closed && !HasMenu(t, date, meal) && Placements(data.categories) != []
    requires !f.noConnection && !f.countFails && !f.beginFails && !f.menuInsertFails
    requires f.loopFault == Some(LoopFault(0, MenuItemInsert)) && !f.commitFails
    requires !retry.noConnection && !retry.countFails
    ensures var r := SavedAsWritten(t, data, date, meal, f);
            && r.err == Some(MenuItemInsertError)
            && r.tables.menus == t.menus + [MenuRow(t.nextId, date, meal)]
            && TrimSpace(Placements(data.categories)[0].item.name) in r.tables.items
            && r.tables.menuItems == t.menuItems
            && SavedAsWritten(r.tables, data, date, meal, retry) == Outcome(r.tables, None)
  {
    var ps := Placements(data.categories);
    var withMenu := MenuInserted(t, date, meal);
    PlacedAllStep(withMenu, t.nextId, ps, 0, 0, f.loopFault);
    assert ps[..0] == [];
    PlacedAllErrSticks(withMenu, t.nextId, ps, 1, 0, f.loopFault);
    var r := PlaceStep(withMenu, t.nextId, ps[0], 0, f.loopFault);
    assert r == SavedAsWritten(t, data, date, meal, f);
    assert r.tables.menus[|t.menus|] == MenuRow(t.nextId, date, meal);
    SavedMealUnchanged(r.tables, data, date, meal, retry);
  }

  /**
   * Rolled back on every error, the same failure leaves every row as it was;
   * only the identity value the `Menus` insert drew is spent.
   */
  lemma AtomicLoopFailureWritesNothing(t: Tables, data: Response, date: string, meal: string, f: Faults)
    requires !data.closed && !HasMenu(t, date, meal) && Placements(data.categories) != []
    requires !f.noConnection && !f.countFails && !f.beginFails && !f.menuInsertFails
    requires f.loopFault == Some(LoopFault(0, MenuItemInsert))
    ensures SavedAtomically(t, data, date, meal, f) == Outcome(t.(nextId := t.nextId + 1), Some(MenuItemInsertError))
  {
    var g := f.(commitFails := false);
    LoopFailureCommits(t, data, date, meal, g, g);
    PlacedAllKeeps(MenuInserted(t, date, meal), t.nextId, Placements(data.categories), 0, f.loopFault);
  }

  /** The nutrient loop of `Save`. */
  method BuildNutrients(ns: seq<Nutrient>) returns (m: map<string, string>)
    ensures m == GoNutrients(ns)
  {
    m := map[];
    var i := 0;
    while i < |ns|
      invariant 0 <= i <= |ns|
      invariant m == GoNutrients(ns[..i])
    {
      GoNutrientsStep(ns, i);
      var n := ns[i];
      var value := TrimSpace(n.valueNumeric);
      if value != "0" && value != "-" {
        m := m[TrimSpace(BeforeParen(n.name)) := value + TrimSpace(n.uom)];
      }
      i := i + 1;
    }
    assert ns[..i] == ns;
  }

  /** The filter loop of `Save`. */
  method BuildFilters(fs: seq<Filter>) returns (labels: seq<string>)
    ensures labels == GoLabels(fs)
  {
    labels := [];
    var i := 0;
    while i < |fs|
      invariant 0 <= i <= |fs|
      invariant labels == GoLabels(fs[..i])
    {
      assert fs[..i + 1] == fs[..i] + [fs[i]];
      Lists.SelectSnoc(fs[..i], fs[i], IsGoLabel, GoLabelName);
      if TrimSpace(fs[i].kind) == "label" {
        labels := labels + [TrimSpace(fs[i].name)];
      }
      i := i + 1;
    }
    assert fs[..i] == fs;
  }

  /** The database `Save` writes to. */
  class Database {
    var menus: seq<MenuRow>
    var items: map<string, ItemRow>
    var menuItems: seq<MenuItemRow>
    var nextId: nat

    function Snapshot(): Tables
      reads this
    {
      Tables(menus, items, menuItems, nextId)
    }

    constructor ()
      ensures Snapshot() == EmptyTables
    {
      menus, items, menuItems, nextId := [], map[], [], 1;
    }

    /**
     * `tx.Rollback()`: the rows of the tables return to what they were at
     * `conn.Begin()`; the identity keeps the values drawn since.
     */
    method Restore(t: Tables)
      modifies this
      ensures Snapshot() == t.(nextId := old(nextId))
    {
      menus, items, menuItems := t.menus, t.items, t.menuItems;
    }

    /** `SELECT COUNT(*) FROM Menus WHERE date = @p1 AND meal = @p2`. */
    method CountMenus(date: string, meal: string) returns (count: nat)
      ensures count > 0 <==> HasMenu(Snapshot(), date, meal)
    {
      count := 0;
      var i := 0;
      while i < |menus|
        invariant 0 <= i <= |menus|
        invariant count > 0 <==> exists j :: 0 <= j < i && menus[j].date == date && menus[j].meal == meal
      {
        if menus[i].date == date && menus[i].meal == meal {
          count := count + 1;
        }
        i := i + 1;
      }
    }

    /** `INSERT INTO Menus (date, meal)`, returning the drawn id. */
    method InsertMenu(date: string, meal: string) returns (id: nat)
      modifies this
      ensures id == old(nextId) && Snapshot() == MenuInserted(old(Snapshot()), date, meal)
    {
      id := nextId;
      menus := menus + [MenuRow(id, date, meal)];
      nextId := nextId + 1;
    }

    /**
     * One pass of the item loop: the item's nutrients and labels are built,
     * its row is inserted unless the name is stored, then its `MenuItems`
     * row is inserted.
     */
    method AddItem(menuId: nat, location: string, item: GoItem, step: nat, fault: Option<LoopFault>) returns (err: Option<SaveError>)
      modifies this
      ensures Outcome(Snapshot(), err) == PlaceStep(old(Snapshot()), menuId, Placement(location, item), step, fault)
    {
      var name := TrimSpace(item.name);
      var nutrients := BuildNutrients(item.nutrients);
      var filters := BuildFilters(item.filters);
      var failing := fault.Some? && fault.value.step == step;
      if failing && fault.value.stmt == ItemInsert {
        return Some(ItemInsertError);
      }
      if name !in items {
        items := items[name := ItemRow(TrimSpace(item.desc), TrimSpace(item.portion), TrimSpace(item.ingredients), nutrients, filters)];
      }
      if failing {
        return Some(MenuItemInsertError);
      }
      menuItems := menuItems + [MenuItemRow(menuId, name, location)];
      err := None;
    }

    /** The inner loop, over the items of one category. */
    method AddCategoryItems(menuId: nat, category: GoCategory, first: nat, fault: Option<LoopFault>) returns (err: Option<SaveError>)
      modifies this
      ensures Outcome(Snapshot(), err) == PlacedAll(old(Snapshot()), menuId, CategoryPlacements(category), first, fault)
    {
      ghost var start := Snapshot();
      ghost var ps := CategoryPlacements(category);
      CategoryPlacementsAt(category);
      var location := TrimSpace(category.name);
      var j := 0;
      while j < |category.items|
        invariant 0 <= j <= |category.items|
        invariant Outcome(Snapshot(), None) == PlacedAll(start, menuId, ps[..j], first, fault)
      {
        assert ps[j] == Placement(location, category.items[j]);
        err := AddItem(menuId, location, category.items[j], first + j, fault);
        PlacedAllStep(start, menuId, ps, j, first, fault);
        assert Outcome(Snapshot(), err) == PlacedAll(start, menuId, ps[..j + 1], first, fault);
        if err.Some? {
          PlacedAllErrSticks(start, menuId, ps, j + 1, first, fault);
          return;
        }
        j := j + 1;
      }
      assert ps[..j] == ps;
      err := None;
    }

    /**
     * The outer loop, over the categories; `step` counts the items visited,
     * so that a fault can name the statement that fails.
     */
    method AddMenuItems(menuId: nat, cs: seq<GoCategory>, fault: Option<LoopFault>) returns (err: Option<SaveError>)
      modifies this
      ensures Outcome(Snapshot(), err) == PlacedAll(old(Snapshot()), menuId, Placements(cs), 0, fault)
    {
      ghost var start := Snapshot();
      var step := 0;
      var ci := 0;
      while ci < |cs|
        invariant 0 <= ci <= |cs|
        invariant step == |Placements(cs[..ci])|
        invariant Outcome(Snapshot(), None) == PlacedAll(start, menuId, Placements(cs[..ci]), 0, fault)
      {
        var category := cs[ci];
        PlacementsStep(cs, ci);
        if |category.items| == 0 {
          PlacedAllEmptyCategory(start, menuId, cs, ci, fault);
          ci := ci + 1;
          continue;
        }
        PlacedAllCategory(start, menuId, cs, ci, fault);
        err := AddCategoryItems(menuId, category, step, fault);
        if err.Some? {
          PlacedAllCategoryFails(start, menuId, cs, ci, fault);
          return;
        }
        step := step + |category.items|;
        ci := ci + 1;
      }
      assert cs[..ci] == cs;
      err := None;
    }

    /**
     * `Save` as written: the deferred handler rolls back only when the
     * function-level error is set, and only the `Menus` insert sets it.
     */
    method Save(data: Response, date: string, meal: string, f: Faults) returns (err: Option<SaveError>)
      modifies this
      ensures Outcome(Snapshot(), err) == SavedAsWritten(old(Snapshot()), data, date, meal, f)
    {
      if f.noConnection {
        return Some(NoConnection);
      }
      if f.countFails {
        return Some(CountError);
      }
      var count := CountMenus(date, meal);
      if count > 0 {
        return None;
      }
      if data.closed {
        if f.menuInsertFails {
          return Some(ClosedInsertError);
        }
        var _ := InsertMenu(date, meal);
        return None;
      }
      if f.beginFails {
        return Some(BeginError);
      }
      var begun := Snapshot();
      var txErr: Option<SaveError> := None;
      if f.menuInsertFails {
        txErr := Some(MenuInsertError);
        err := txErr;
      } else {
        var menuId := InsertMenu(date, meal);
        err := AddMenuItems(menuId, data.categories, f.loopFault);
        PlacedAllKeeps(MenuInserted(begun, date, meal), begun.nextId, Placements(data.categories), 0, f.loopFault);
      }
      if txErr.Some? {
        Restore(begun);
      } else if f.commitFails {
        // the failed `tx.Commit()` keeps nothing of the transaction; its error is dropped
        Restore(begun);
      }
    }

    /** `Save` with the deferred handler reading the error that is returned. */
    method SaveAtomic(data: Response, date: string, meal: string, f: Faults) returns (err: Option<SaveError>)
      modifies this
      ensures Outcome(Snapshot(), err) == SavedAtomically(old(Snapshot()), data, date, meal, f)
    {
      var before := Snapshot();
      err := Save(data, date, meal, f);
      if err.Some? {
        Restore(before);
      }
    }
  }
}
