/**
 * A model instance using the SortableTrait: its fields are the in-memory
 * attributes, original attributes and order values, updated in place by the
 * trait's methods, which read and write the table.
 */
module SortableModel {
  import opened Base
  import opened Config
  import opened Store
  import opened Splice
  import opened SortableTrait

  class Record {
    const key: Key
    const sortable: SortableOptions
    var attributes: map<Attr, Value>
    var original: map<Attr, Value>
    var order: int
    var originalOrder: int

    function View(): Instance
      reads this
    {
      Instance(key, attributes, original, order, originalOrder)
    }

    /** A record read from the table (`first()` of a query). */
    constructor Load(db: Table, k: Key, sortable: SortableOptions)
      requires k in db.rows
      ensures View() == Loaded(db.rows, k) && this.sortable == sortable
    {
      key := k;
      this.sortable := sortable;
      attributes := db.rows[k].attrs;
      original := db.rows[k].attrs;
      order := db.rows[k].order;
      originalOrder := db.rows[k].order;
    }

    // -------------------------------------------------------------------------
    // Settings and queries (no writes).

    function Effective(app: AppConfig): Settings
    {
      Resolve(sortable, app)
    }

    function SortableGroups(app: AppConfig): seq<Attr>
    {
      Effective(app).groups
    }

    /** buildSortQuery($original): the keys of the rows the query selects. */
    function BuildSortQuery(db: Table, app: AppConfig, original: bool): (ks: set<Key>)
      reads this, db
      ensures ks <= db.rows.Keys
      ensures SortableGroups(app) == [] ==> ks == db.rows.Keys
      ensures forall k :: k in ks <==>
                k in db.rows
                && forall i :: 0 <= i < |SortableGroups(app)| ==>
                     Get(db.rows[k].attrs, SortableGroups(app)[i])
                     == Get(if original then this.original else attributes, SortableGroups(app)[i])
    {
      NoGroupsMeansWholeTable(db.rows, SortValues(View(), original));
      GroupOf(db.rows, SortableGroups(app), SortValues(View(), original))
    }

    /** getHighestOrderNumber: `(int) max(order)` over the record's current group. */
    function GetHighestOrderNumber(db: Table, app: AppConfig): (r: int)
      reads this, db
      ensures var q := BuildSortQuery(db, app, false);
              && (q == {} ==> r == 0)
              && (q != {} ==> exists k :: k in q && db.rows[k].order == r)
              && (forall k :: k in q ==> db.rows[k].order <= r)
    {
      Highest(db.rows, BuildSortQuery(db, app, false))
    }

    /** getLowestOrderNumber: `(int) min(order)` over the record's current group. */
    function GetLowestOrderNumber(db: Table, app: AppConfig): (r: int)
      reads this, db
      ensures var q := BuildSortQuery(db, app, false);
              && (q == {} ==> r == 0)
              && (q != {} ==> exists k :: k in q && db.rows[k].order == r)
              && (forall k :: k in q ==> r <= db.rows[k].order)
    {
      Lowest(db.rows, BuildSortQuery(db, app, false))
    }

    /** isLastInOrder: the record's order value is the group maximum (0 for an empty group). */
    predicate IsLastInOrder(db: Table, app: AppConfig)
      reads this, db
      ensures var q := BuildSortQuery(db, app, false);
              IsLastInOrder(db, app) <==>
                if q == {} then order == 0
                else (forall k :: k in q ==> db.rows[k].order <= order) && (exists k :: k in q && db.rows[k].order == order)
    {
      order == GetHighestOrderNumber(db, app)
    }

    /** isFirstInOrder: the record's order value is the group minimum (0 for an empty group). */
    predicate IsFirstInOrder(db: Table, app: AppConfig)
      reads this, db
      ensures var q := BuildSortQuery(db, app, false);
              IsFirstInOrder(db, app) <==>
                if q == {} then order == 0
                else (forall k :: k in q ==> order <= db.rows[k].order) && (exists k :: k in q && db.rows[k].order == order)
    {
      order == GetLowestOrderNumber(db, app)
    }

    // -------------------------------------------------------------------------
    // Writes.

    /** saveQuietly: persist the dirty attributes without firing the model events. */
    method SaveQuietly(db: Table)
      modifies this, db
      ensures State(db.rows, View()) == Saved(old(db.rows), old(View()))
    {
      if key in db.rows {
        db.Write(key, WrittenRow(db.rows[key], View()));
      }
      original := attributes;
      originalOrder := order;
    }

    /** setHighestOrderNumber: only the in-memory order value changes. */
    method SetHighestOrderNumber(db: Table, app: AppConfig)
      modifies this
      ensures View() == AfterSetHighest(db.rows, old(View()), SortableGroups(app))
      ensures forall k :: k in BuildSortQuery(db, app, false) ==> db.rows[k].order < order
      ensures BuildSortQuery(db, app, false) == {} ==> order == 1
    {
      order := GetHighestOrderNumber(db, app) + 1;
    }

    /** repairOrder($original, $dirty). */
    method RepairOrder(db: Table, app: AppConfig, original: bool, dirty: bool)
      modifies db
      ensures db.rows == AfterRepair(old(db.rows), View(), SortableGroups(app), original, dirty)
    {
      var groups := SortableGroups(app);
      if original {
        var originalArray := OrderedKeys(db.rows, BuildSortQuery(db, app, false) - {key});
        var _ := db.SetNewOrder(Indexable(originalArray), 1, ByKey);
      }
      if dirty {
        var dirtyArray := db.SortedGroup(groups, attributes);
        dirtyArray := dirtyArray + [key];
        var _ := db.SetNewOrder(Indexable(dirtyArray), 1, ByKey);
      }
    }

    /** moveToPosition($position). */
    method MoveToPosition(db: Table, app: AppConfig, position: int) returns (r: Record)
      modifies this, db
      ensures r == this
      ensures State(db.rows, View()) == AfterMoveToPosition(old(db.rows), old(View()), SortableGroups(app), position)
    {
      ghost var rows0, self0 := db.rows, View();
      ghost var spliced := SplicedGroup(rows0, self0, SortableGroups(app), position);
      var sortArray := db.SortedGroup(SortableGroups(app), attributes);
      sortArray := SpliceOut(sortArray, originalOrder - 1);
      sortArray := SpliceIn(sortArray, position - 1, key);
      assert sortArray == spliced;
      var _ := db.SetNewOrder(Indexable(sortArray), 1, ByKey);
      order := FirstIndex(sortArray, key) + 1;
      MoveToPositionResult(rows0, self0, SortableGroups(app), position, db.rows, order);
      r := this;
    }

    /** moveToNewPosition: moveToPosition at the record's current order value. */
    method MoveToNewPosition(db: Table, app: AppConfig) returns (r: Record)
      modifies this, db
      ensures r == this
      ensures State(db.rows, View()) == AfterMoveToPosition(old(db.rows), old(View()), SortableGroups(app), old(order))
    {
      r := MoveToPosition(db, app, order);
    }

    /** swapOrderWithModel($otherModel). */
    method SwapOrderWithModel(other: Record, db: Table) returns (r: Record)
      modifies this, other, db
      ensures r == this
      ensures var t := AfterSwap(old(db.rows), old(View()), old(other.View()));
              db.rows == t.0 && View() == t.1 && (other != this ==> other.View() == t.2)
    {
      if other == this {
        SaveIdempotent(db.rows, View());
      }
      var oldOrderOfOtherModel := other.order;
      other.order := order;
      other.SaveQuietly(db);
      order := oldOrderOfOtherModel;
      SaveQuietly(db);
      r := this;
    }

    /** moveOrderDown: swap with the nearest member above; returns the record itself. */
    method MoveOrderDown(db: Table, app: AppConfig) returns (r: Record)
      modifies this, db
      ensures r == this
      ensures State(db.rows, View()) == AfterMoveOrderDown(old(db.rows), old(View()), SortableGroups(app))
    {
      var swapWith := Above(db.rows, BuildSortQuery(db, app, false), order);
      if swapWith.None? {
        return this;
      }
      var swapWithModel := new Record.Load(db, swapWith.value, sortable);
      r := SwapOrderWithModel(swapWithModel, db);
    }

    /** moveOrderUp: swap with the nearest member below; returns the record itself. */
    method MoveOrderUp(db: Table, app: AppConfig) returns (r: Record)
      modifies this, db
      ensures r == this
      ensures State(db.rows, View()) == AfterMoveOrderUp(old(db.rows), old(View()), SortableGroups(app))
    {
      var swapWith := Below(db.rows, BuildSortQuery(db, app, false), order);
      if swapWith.None? {
        return this;
      }
      var swapWithModel := new Record.Load(db, swapWith.value, sortable);
      r := SwapOrderWithModel(swapWithModel, db);
    }

    /** moveToStart; fails (leaving everything as it was) when the group is empty; returns the record itself. */
    method MoveToStart(db: Table, app: AppConfig) returns (o: Outcome, r: Record)
      modifies this, db
      ensures r == this
      ensures var after := AfterMoveToStart(old(db.rows), old(View()), SortableGroups(app));
              match after
              case None => o == Fail(NullFirstModel) && db.rows == old(db.rows) && View() == old(View())
              case Some(s) => o == Pass && State(db.rows, View()) == s
    {
      r := this;
      var group := BuildSortQuery(db, app, false);
      if group == {} {
        return Fail(NullFirstModel), r;
      }
      var firstModel := First(db.rows, group);
      if firstModel == key {
        return Pass, r;
      }
      MoveToStartBySteps(db.rows, View(), SortableGroups(app));
      order := db.rows[firstModel].order;
      SaveQuietly(db);
      var others := BuildSortQuery(db, app, false) - {key};
      db.Shift(others, 1);
      o := Pass;
    }

    /** moveToEnd; returns the record itself. */
    method MoveToEnd(db: Table, app: AppConfig) returns (r: Record)
      modifies this, db
      ensures r == this
      ensures State(db.rows, View()) == AfterMoveToEnd(old(db.rows), old(View()), SortableGroups(app))
    {
      r := this;
      var maxOrder := GetHighestOrderNumber(db, app);
      if order == maxOrder {
        return;
      }
      MoveToEndBySteps(db.rows, View(), SortableGroups(app));
      var oldOrder := order;
      order := maxOrder;
      SaveQuietly(db);
      var above := set k | k in BuildSortQuery(db, app, false) - {key} && db.rows[k].order > oldOrder;
      db.Shift(above, -1);
    }

    // -------------------------------------------------------------------------
    // The model events.

    /** The creating hook. */
    method Creating(db: Table, app: AppConfig)
      modifies this
      ensures View() == AfterCreating(db.rows, old(View()), Effective(app))
    {
      if Effective(app).sortWhenCreating {
        SetHighestOrderNumber(db, app);
      }
    }

    /** The updating hook. */
    method Updating(db: Table, app: AppConfig)
      modifies this, db
      ensures State(db.rows, View()) == AfterUpdating(old(db.rows), old(View()), Effective(app))
    {
      var s := Effective(app);
      ghost var rows0, self0 := db.rows, View();
      if s.sortWhenUpdating {
        if HasChangedOrderColumn(View()) && HasChangedGroupAttributes(View(), s.groups) {
          assert UpdateDispatch(self0, s) == MoveThenRepairOriginal;
          var _ := MoveToNewPosition(db, app);
          RepairOrder(db, app, true, false);
        } else if HasChangedOrderColumn(View()) {
          assert UpdateDispatch(self0, s) == Move;
          var _ := MoveToNewPosition(db, app);
        } else if HasChangedGroupAttributes(View(), s.groups) {
          assert UpdateDispatch(self0, s) == Repair;
          RepairOrder(db, app, true, true);
        } else {
          assert UpdateDispatch(self0, s) == Nothing;
        }
      } else {
        assert UpdateDispatch(self0, s) == Nothing;
      }
    }

    /** The deleting hook: no stored row changes. */
    method Deleting(db: Table, app: AppConfig)
      modifies this
      ensures View() == AfterDeleting(db.rows, old(View()), Effective(app))
    {
      if Effective(app).sortWhenDeleting {
        SetHighestOrderNumber(db, app);
      }
    }
  }

  /** swapOrder($model, $otherModel). */
  method SwapOrder(model: Record, otherModel: Record, db: Table)
    modifies model, otherModel, db
    ensures var t := AfterSwap(old(db.rows), old(model.View()), old(otherModel.View()));
            db.rows == t.0 && model.View() == t.1 && (otherModel != model ==> otherModel.View() == t.2)
  {
    var _ := model.SwapOrderWithModel(otherModel, db);
  }
}
