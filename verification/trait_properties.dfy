/**
 * What the ordering engine guarantees, proved about the functions of
 * SortableTrait that the methods of SortableModel.Record are proved to follow.
 */
module TraitProperties {
  import opened Base
  import opened Config
  import opened Store
  import opened Splice
  import opened SortableTrait

  // ---------------------------------------------------------------------------
  // Dirty tracking.

  /**
   * No group attribute is dirty exactly when the original and the current
   * values agree on every group attribute, NULL included.
   */
  lemma NoChangedAttributesIff(inst: Instance, groups: seq<Attr>)
    ensures !HasChangedGroupAttributes(inst, groups)
            <==> forall i :: 0 <= i < |groups| ==> Get(inst.original, groups[i]) == Get(inst.attributes, groups[i])
  {
    if !HasChangedGroupAttributes(inst, groups) {
      forall i | 0 <= i < |groups|
        ensures Get(inst.original, groups[i]) == Get(inst.attributes, groups[i])
      {
        assert groups[i] !in ChangedAttributes(inst, groups);
      }
    } else {
      var a :| a in ChangedAttributes(inst, groups);
      var i :| 0 <= i < |groups| && groups[i] == a;
      assert Get(inst.original, groups[i]) != Get(inst.attributes, groups[i]);
    }
  }

  /** After saveQuietly the record has no dirty attribute and neither hasChanged* check holds. */
  lemma SaveClearsDirty(rows: Rows, inst: Instance, groups: seq<Attr>)
    ensures var t := Saved(rows, inst).self;
            && Dirty(t) == {}
            && !HasChangedGroupAttributes(t, groups)
            && !HasChangedOrderColumn(t)
  {
  }

  /**
   * saveQuietly of a record whose row still holds the loaded values stores
   * exactly the record's current attributes, an attribute set to NULL
   * included.
   */
  lemma SaveStoresCurrent(rows: Rows, inst: Instance)
    requires inst.key in rows && rows[inst.key].attrs == inst.original
    ensures Saved(rows, inst).rows[inst.key].attrs == inst.attributes
  {
    var w := Saved(rows, inst).rows[inst.key].attrs;
    assert w == (inst.original - Nulled(inst)) + DirtyValues(inst);
    forall a
      ensures a in w <==> a in inst.attributes
      ensures a in w ==> w[a] == inst.attributes[a]
    {
      if a in Dirty(inst) {
        if a in inst.attributes {
          assert a in DirtyValues(inst);
        } else {
          assert a in Nulled(inst);
        }
      } else {
        assert Get(inst.original, a) == Get(inst.attributes, a);
      }
    }
  }

  /** Without a dirty group attribute, the original and the current sort query select the same rows. */
  lemma UnchangedGroupSameSortQuery(rows: Rows, inst: Instance, groups: seq<Attr>)
    requires !HasChangedGroupAttributes(inst, groups)
    ensures GroupOf(rows, groups, SortValues(inst, true)) == GroupOf(rows, groups, SortValues(inst, false))
  {
    NoChangedAttributesIff(inst, groups);
    forall k | k in rows
      ensures Matches(rows[k], groups, inst.original) == Matches(rows[k], groups, inst.attributes)
    {
    }
  }

  // ---------------------------------------------------------------------------
  // Swapping.

  /** Saving a record whose attributes are all clean writes at most its order value. */
  lemma WrittenRowClean(row: Row, inst: Instance)
    requires inst.attributes == inst.original
    ensures WrittenRow(row, inst) == row.(order := if HasChangedOrderColumn(inst) then inst.order else row.order)
  {
    assert Dirty(inst) == {};
    assert DirtyValues(inst) == map[];
    assert Nulled(inst) == {};
    assert (row.attrs - {}) + map[] == row.attrs;
  }

  /**
   * swapOrderWithModel on two freshly read records of different rows exchanges
   * their two order values and nothing else; both records end up holding what
   * is stored.
   */
  lemma SwapExchanges(rows: Rows, a: Instance, b: Instance)
    requires Unmodified(rows, a) && Unmodified(rows, b) && a.key != b.key
    ensures var t := AfterSwap(rows, a, b);
            && t.0 == rows[b.key := rows[b.key].(order := a.order)][a.key := rows[a.key].(order := b.order)]
            && t.1 == Loaded(t.0, a.key)
            && t.2 == Loaded(t.0, b.key)
  {
    var b' := b.(order := a.order);
    WrittenRowClean(rows[b.key], b');
    var s1 := Saved(rows, b');
    assert s1.rows == rows[b.key := rows[b.key].(order := a.order)];
    var a' := a.(order := b.order);
    WrittenRowClean(s1.rows[a.key], a');
  }

  /** Swapping the same two records twice restores the table and both records. */
  lemma SwapTwiceRestores(rows: Rows, a: Instance, b: Instance)
    requires Unmodified(rows, a) && Unmodified(rows, b) && a.key != b.key
    ensures var t := AfterSwap(rows, a, b);
            var u := AfterSwap(t.0, t.1, t.2);
            u.0 == rows && u.1 == a && u.2 == b
  {
    var t := AfterSwap(rows, a, b);
    SwapExchanges(rows, a, b);
    SwapExchanges(t.0, t.1, t.2);
    var u := AfterSwap(t.0, t.1, t.2);
    assert u.0 == rows;
  }

  /**
   * moveOrderDown on a freshly read record: with no member above it nothing
   * changes; otherwise it exchanges order values with the nearest member above.
   */
  lemma MoveOrderDownExchanges(rows: Rows, inst: Instance, groups: seq<Attr>)
    requires Unmodified(rows, inst)
    ensures var g := GroupOf(rows, groups, inst.attributes);
            var s := AfterMoveOrderDown(rows, inst, groups);
            match Above(rows, g, inst.order)
            case None => s == State(rows, inst)
            case Some(k) =>
              && k != inst.key
              && s.rows == rows[k := rows[k].(order := inst.order)][inst.key := rows[inst.key].(order := rows[k].order)]
              && s.self == Loaded(s.rows, inst.key)
  {
    var g := GroupOf(rows, groups, inst.attributes);
    var next := Above(rows, g, inst.order);
    if next.Some? {
      SwapExchanges(rows, inst, Loaded(rows, next.value));
    }
  }

  /**
   * moveOrderUp on a freshly read record: with no member below it nothing
   * changes; otherwise it exchanges order values with the nearest member below.
   */
  lemma MoveOrderUpExchanges(rows: Rows, inst: Instance, groups: seq<Attr>)
    requires Unmodified(rows, inst)
    ensures var g := GroupOf(rows, groups, inst.attributes);
            var s := AfterMoveOrderUp(rows, inst, groups);
            match Below(rows, g, inst.order)
            case None => s == State(rows, inst)
            case Some(k) =>
              && k != inst.key
              && s.rows == rows[k := rows[k].(order := inst.order)][inst.key := rows[inst.key].(order := rows[k].order)]
              && s.self == Loaded(s.rows, inst.key)
  {
    var g := GroupOf(rows, groups, inst.attributes);
    var next := Below(rows, g, inst.order);
    if next.Some? {
      SwapExchanges(rows, inst, Loaded(rows, next.value));
    }
  }

  // ---------------------------------------------------------------------------
  // Moving to the end and to the start.

  /** A densely numbered group's maximum is its size. */
  lemma DenseHighest(rows: Rows, g: set<Key>)
    requires g <= rows.Keys && Dense(rows, g, 1)
    ensures Highest(rows, g) == |g|
  {
    var list := OrderedKeys(rows, g);
    if g != {} {
      assert list[|list| - 1] in g;
      forall k | k in g
        ensures rows[k].order <= |g|
      {
        var m :| 0 <= m < |list| && list[m] == k;
      }
    }
  }

  /** `m` lists exactly the keys of `list`, with `list[i]` taken out and put at the end. */
  lemma RemoveAtThenAppendEnumerates(list: seq<Key>, i: nat, g: set<Key>)
    requires i < |list| && Enumerates(list, g)
    ensures Enumerates(RemoveAt(list, i) + [list[i]], g)
  {
    var m := RemoveAt(list, i) + [list[i]];
    forall k | k in g
      ensures k in m
    {
      var j :| 0 <= j < |list| && list[j] == k;
      if j < i {
        assert m[j] == k;
      } else if j > i {
        assert m[j - 1] == k;
      }
    }
  }

  /** What moveToEnd writes to each row when the record does not already hold the maximum. */
  lemma MoveToEndRows(rows: Rows, inst: Instance, groups: seq<Attr>)
    requires Unmodified(rows, inst)
    requires inst.order != Highest(rows, GroupOf(rows, groups, inst.attributes))
    ensures var g := GroupOf(rows, groups, inst.attributes);
            var r := AfterMoveToEnd(rows, inst, groups).rows;
            && r.Keys == rows.Keys
            && (forall k :: k in rows ==> r[k].attrs == rows[k].attrs)
            && r[inst.key].order == Highest(rows, g)
            && (forall k :: k in g && k != inst.key && rows[k].order > inst.order ==> r[k].order == rows[k].order - 1)
            && (forall k :: k in g && k != inst.key && rows[k].order <= inst.order ==> r[k].order == rows[k].order)
            && (forall k :: k in rows && k !in g ==> r[k] == rows[k])
  {
    MoveToEndRecordRow(rows, inst, groups);
    MoveToEndOtherRows(rows, inst, groups);
    assert inst.key in GroupOf(rows, groups, inst.attributes);
  }

  lemma MoveToEndRecordRow(rows: Rows, inst: Instance, groups: seq<Attr>)
    requires Unmodified(rows, inst)
    requires inst.order != Highest(rows, GroupOf(rows, groups, inst.attributes))
    ensures var r := AfterMoveToEnd(rows, inst, groups).rows;
            && r.Keys == rows.Keys
            && (forall k :: k in rows ==> r[k].attrs == rows[k].attrs)
            && r[inst.key].order == Highest(rows, GroupOf(rows, groups, inst.attributes))
  {
    var g := GroupOf(rows, groups, inst.attributes);
    var r := AfterMoveToEnd(rows, inst, groups).rows;
    assert r[inst.key] == rows[inst.key].(order := Highest(rows, g)) by {
      WrittenRowClean(rows[inst.key], inst.(order := Highest(rows, g)));
    }
    forall k | k in rows
      ensures k in r && r[k].attrs == rows[k].attrs
    {
    }
  }

  lemma MoveToEndOtherRows(rows: Rows, inst: Instance, groups: seq<Attr>)
    requires inst.order != Highest(rows, GroupOf(rows, groups, inst.attributes))
    ensures var g := GroupOf(rows, groups, inst.attributes);
            var r := AfterMoveToEnd(rows, inst, groups).rows;
            && (forall k :: k in g && k != inst.key && rows[k].order > inst.order ==> r[k].order == rows[k].order - 1)
            && (forall k :: k in g && k != inst.key && rows[k].order <= inst.order ==> r[k].order == rows[k].order)
            && (forall k :: k in rows && k !in g && k != inst.key ==> r[k] == rows[k])
  {
  }

  /**
   * Taking the member at `idx` out of a list numbered 1..n, moving it to the
   * end and closing the gap numbers the new list 1..n.
   */
  lemma ClosingGapNumbers(rows: Rows, r: Rows, list: seq<Key>, idx: nat)
    requires idx < |list| && Numbered(rows, list, 1) && Distinct(list)
    requires r.Keys == rows.Keys
    requires r[list[idx]].order == |list|
    requires forall j :: 0 <= j < |list| && j != idx && rows[list[j]].order > idx + 1
               ==> r[list[j]].order == rows[list[j]].order - 1
    requires forall j :: 0 <= j < |list| && j != idx && rows[list[j]].order <= idx + 1
               ==> r[list[j]].order == rows[list[j]].order
    ensures Numbered(r, RemoveAt(list, idx) + [list[idx]], 1)
  {
    var m := RemoveAt(list, idx) + [list[idx]];
    forall j | 0 <= j < |m|
      ensures m[j] in r && r[m[j]].order == 1 + j
    {
      if j < idx {
        assert m[j] == list[j];
      } else if j < |list| - 1 {
        assert m[j] == list[j + 1];
      }
    }
  }

  /** The case of moveToEnd where the record is not yet last. */
  lemma MoveToEndClosesGap(rows: Rows, inst: Instance, groups: seq<Attr>, g: set<Key>, list: seq<Key>, idx: nat)
    requires Unmodified(rows, inst)
    requires g == GroupOf(rows, groups, inst.attributes) && list == OrderedKeys(rows, g)
    requires Numbered(rows, list, 1) && Distinct(list)
    requires idx + 1 < |list| && list[idx] == inst.key
    requires Highest(rows, g) == |list|
    ensures var r := AfterMoveToEnd(rows, inst, groups).rows;
            && r.Keys == rows.Keys
            && GroupOf(r, groups, inst.attributes) == g
            && Numbered(r, RemoveAt(list, idx) + [inst.key], 1)
  {
    var r := AfterMoveToEnd(rows, inst, groups).rows;
    MoveToEndRows(rows, inst, groups);
    SameAttrsSameGroups(rows, r, groups, inst.attributes);
    assert forall j :: 0 <= j < |list| ==> list[j] in g;
    ClosingGapNumbers(rows, r, list, idx);
  }

  /**
   * moveToEnd on a freshly read record of a group numbered 1..n keeps the group
   * numbered 1..n, with the record last and the others in their previous order.
   */
  lemma MoveToEndKeepsDense(rows: Rows, inst: Instance, groups: seq<Attr>)
    requires Unmodified(rows, inst)
    requires Dense(rows, GroupOf(rows, groups, inst.attributes), 1)
    ensures var g := GroupOf(rows, groups, inst.attributes);
            var list := OrderedKeys(rows, g);
            var r := AfterMoveToEnd(rows, inst, groups).rows;
            && inst.key in list
            && r.Keys == rows.Keys
            && GroupOf(r, groups, inst.attributes) == g
            && OrderedKeys(r, g) == RemoveAt(list, FirstIndex(list, inst.key)) + [inst.key]
            && Dense(r, g, 1)
  {
    var g := GroupOf(rows, groups, inst.attributes);
    var list := OrderedKeys(rows, g);
    assert inst.key in g;
    var idx := FirstIndex(list, inst.key);
    if idx + 1 == |list| {
      assert RemoveAt(list, idx) + [inst.key] == list;
      DenseHighest(rows, g);
    } else {
      MoveToEndFromInside(rows, inst, groups, g, list, idx);
    }
  }

  /** moveToEnd on a dense group when the record is not last: the group stays dense with the record moved last. */
  lemma MoveToEndFromInside(rows: Rows, inst: Instance, groups: seq<Attr>, g: set<Key>, list: seq<Key>, idx: nat)
    requires Unmodified(rows, inst)
    requires g == GroupOf(rows, groups, inst.attributes) && Dense(rows, g, 1) && list == OrderedKeys(rows, g)
    requires idx + 1 < |list| && list[idx] == inst.key
    ensures var r := AfterMoveToEnd(rows, inst, groups).rows;
            && r.Keys == rows.Keys
            && GroupOf(r, groups, inst.attributes) == g
            && OrderedKeys(r, g) == RemoveAt(list, idx) + [inst.key]
            && Dense(r, g, 1)
  {
    var r := AfterMoveToEnd(rows, inst, groups).rows;
    SortedIsDistinct(rows, list);
    DenseHighest(rows, g);
    RemoveAtThenAppendEnumerates(list, idx, g);
    MoveToEndClosesGap(rows, inst, groups, g, list, idx);
    NumberedIsOrdered(r, g, RemoveAt(list, idx) + [inst.key], 1);
  }

  /** What moveToStart writes to each row when the record is not already first. */
  lemma MoveToStartRows(rows: Rows, inst: Instance, groups: seq<Attr>)
    requires Unmodified(rows, inst) && inst.key in GroupOf(rows, groups, inst.attributes)
    requires First(rows, GroupOf(rows, groups, inst.attributes)) != inst.key
    ensures var g := GroupOf(rows, groups, inst.attributes);
            var a := AfterMoveToStart(rows, inst, groups);
            && a.Some?
            && a.value.rows.Keys == rows.Keys
            && (forall k :: k in rows ==> a.value.rows[k].attrs == rows[k].attrs)
            && a.value.rows[inst.key].order == rows[First(rows, g)].order
            && (forall k :: k in g && k != inst.key ==> a.value.rows[k].order == rows[k].order + 1)
  {
    var g := GroupOf(rows, groups, inst.attributes);
    WrittenRowClean(rows[inst.key], inst.(order := rows[First(rows, g)].order));
  }

  /** `list[i]` put in front of the other keys of `list` lists the same keys. */
  lemma RemoveAtThenPrependEnumerates(list: seq<Key>, i: nat, g: set<Key>)
    requires i < |list| && Enumerates(list, g)
    ensures Enumerates([list[i]] + RemoveAt(list, i), g)
  {
    var m := [list[i]] + RemoveAt(list, i);
    forall k | k in g
      ensures k in m
    {
      var j :| 0 <= j < |list| && list[j] == k;
      if j < i {
        assert m[j + 1] == k;
      } else if j > i {
        assert m[j] == k;
      }
    }
  }

  /**
   * Giving `list[idx]` the first order value and raising every other by one
   * sorts `list[idx]` first and keeps the others in their order.
   */
  lemma MovedToFrontSorted(rows: Rows, r: Rows, list: seq<Key>, idx: nat)
    requires idx < |list| && Sorted(rows, list) && Distinct(list)
    requires r.Keys == rows.Keys && forall j :: 0 <= j < |list| ==> list[j] in rows
    requires r[list[idx]].order == rows[list[0]].order
    requires forall j :: 0 <= j < |list| && j != idx ==> r[list[j]].order == rows[list[j]].order + 1
    ensures Sorted(r, [list[idx]] + RemoveAt(list, idx))
  {
    var rest := RemoveAt(list, idx);
    var m := [list[idx]] + rest;
    forall i, j | 0 <= i < j < |m|
      ensures Before(r, m[i], m[j])
    {
      // the index in `list` of the element at index `j` of `m`
      var j' := if j <= idx then j - 1 else j;
      assert m[j] == rest[j - 1] == list[j'];
      if i == 0 {
        if j' != 0 {
          assert Before(rows, list[0], list[j']);
        }
      } else {
        var i' := if i <= idx then i - 1 else i;
        assert m[i] == rest[i - 1] == list[i'];
        assert Before(rows, list[i'], list[j']);
      }
    }
  }

  /** The case of moveToStart where the record is not yet first. */
  lemma MoveToStartShifts(rows: Rows, inst: Instance, groups: seq<Attr>, g: set<Key>, list: seq<Key>, idx: nat)
    requires Unmodified(rows, inst)
    requires g == GroupOf(rows, groups, inst.attributes) && list == OrderedKeys(rows, g)
    requires Distinct(list) && 0 < idx < |list| && list[idx] == inst.key
    requires First(rows, g) == list[0]
    ensures var a := AfterMoveToStart(rows, inst, groups);
            && a.Some?
            && a.value.rows.Keys == rows.Keys
            && GroupOf(a.value.rows, groups, inst.attributes) == g
            && Sorted(a.value.rows, [inst.key] + RemoveAt(list, idx))
            && a.value.rows[inst.key].order == rows[list[0]].order
  {
    var r := AfterMoveToStart(rows, inst, groups).value.rows;
    MoveToStartRows(rows, inst, groups);
    SameAttrsSameGroups(rows, r, groups, inst.attributes);
    assert forall j :: 0 <= j < |list| ==> list[j] in g;
    MovedToFrontSorted(rows, r, list, idx);
  }

  /**
   * moveToStart on a freshly read record puts it first in the ascending read
   * of its group, with the first member's old order value, and raises every
   * other member by one, keeping their order.
   */
  lemma MoveToStartPutsFirst(rows: Rows, inst: Instance, groups: seq<Attr>)
    requires Unmodified(rows, inst)
    ensures var g := GroupOf(rows, groups, inst.attributes);
            var list := OrderedKeys(rows, g);
            var a := AfterMoveToStart(rows, inst, groups);
            && inst.key in list
            && a.Some?
            && a.value.rows.Keys == rows.Keys
            && GroupOf(a.value.rows, groups, inst.attributes) == g
            && OrderedKeys(a.value.rows, g) == [inst.key] + RemoveAt(list, FirstIndex(list, inst.key))
            && a.value.rows[inst.key].order == rows[list[0]].order
            && (list[0] != inst.key ==> forall k :: k in g && k != inst.key ==> a.value.rows[k].order == rows[k].order + 1)
            && (forall k :: k in rows && k !in g ==> a.value.rows[k] == rows[k])
  {
    var g := GroupOf(rows, groups, inst.attributes);
    var list := OrderedKeys(rows, g);
    var key := inst.key;
    assert key in g;
    var idx := FirstIndex(list, key);
    SortedIsDistinct(rows, list);
    SortedHeadIsFirst(rows, g, list);
    MoveToStartOtherRows(rows, inst, groups);
    RemoveAtThenPrependEnumerates(list, idx, g);
    if idx == 0 {
      assert [key] + RemoveAt(list, idx) == list;
    } else {
      MoveToStartShifts(rows, inst, groups, g, list, idx);
      OrderedKeysUnique(AfterMoveToStart(rows, inst, groups).value.rows, g, [key] + RemoveAt(list, idx));
    }
  }

  /** moveToStart leaves the rows outside the group alone and, unless the record is first, raises the other members by one. */
  lemma MoveToStartOtherRows(rows: Rows, inst: Instance, groups: seq<Attr>)
    requires GroupOf(rows, groups, inst.attributes) != {}
    ensures var g := GroupOf(rows, groups, inst.attributes);
            var a := AfterMoveToStart(rows, inst, groups);
            && a.Some?
            && (forall k :: k in rows && k !in g && k != inst.key ==> a.value.rows[k] == rows[k])
            && (First(rows, g) != inst.key ==>
                  forall k :: k in g && k != inst.key ==> a.value.rows[k].order == rows[k].order + 1)
  {
  }

  /**
   * In a list numbered 1..n, giving `list[idx]` the value 1 and raising every
   * other member by one numbers the list with `list[idx]` put first 1..n
   * exactly when `idx` was the last index.
   */
  lemma FrontMoveNumbered(rows: Rows, r: Rows, list: seq<Key>, idx: nat)
    requires 0 < idx < |list| && Numbered(rows, list, 1) && Distinct(list)
    requires r.Keys == rows.Keys
    requires r[list[idx]].order == 1
    requires forall j :: 0 <= j < |list| && j != idx ==> r[list[j]].order == rows[list[j]].order + 1
    ensures Numbered(r, [list[idx]] + RemoveAt(list, idx), 1) <==> idx == |list| - 1
  {
    var m := [list[idx]] + RemoveAt(list, idx);
    if idx == |list| - 1 {
      forall i | 0 <= i < |m|
        ensures m[i] in r && r[m[i]].order == 1 + i
      {
        if i > 0 {
          assert m[i] == list[i - 1];
        }
      }
    } else {
      assert m[idx + 1] == list[idx + 1];
      assert r[m[idx + 1]].order == idx + 3;
    }
  }

  /** The same, read through the group's ascending order. */
  lemma DenseAfterFrontMove(rows: Rows, r: Rows, g: set<Key>, list: seq<Key>, idx: nat)
    requires g <= rows.Keys && r.Keys == rows.Keys
    requires list == OrderedKeys(rows, g) && Numbered(rows, list, 1) && Distinct(list)
    requires 0 < idx < |list|
    requires OrderedKeys(r, g) == [list[idx]] + RemoveAt(list, idx)
    requires r[list[idx]].order == 1
    requires forall k :: k in g && k != list[idx] ==> r[k].order == rows[k].order + 1
    ensures Dense(r, g, 1) <==> idx == |list| - 1
  {
    assert forall j :: 0 <= j < |list| ==> list[j] in g;
    FrontMoveNumbered(rows, r, list, idx);
  }

  /**
   * moveToStart on a group numbered 1..n keeps it numbered 1..n only when the
   * record was last; from any middle position it leaves a gap after its old
   * place, because every other member is raised by one.
   */
  lemma MoveToStartDenseIffWasLast(rows: Rows, inst: Instance, groups: seq<Attr>)
    requires Unmodified(rows, inst)
    requires Dense(rows, GroupOf(rows, groups, inst.attributes), 1)
    requires inst.key in OrderedKeys(rows, GroupOf(rows, groups, inst.attributes))
    requires inst.key != OrderedKeys(rows, GroupOf(rows, groups, inst.attributes))[0]
    ensures var g := GroupOf(rows, groups, inst.attributes);
            var list := OrderedKeys(rows, g);
            var a := AfterMoveToStart(rows, inst, groups);
            && a.Some?
            && a.value.rows.Keys == rows.Keys
            && (Dense(a.value.rows, g, 1) <==> inst.key == list[|list| - 1])
  {
    var g := GroupOf(rows, groups, inst.attributes);
    var list := OrderedKeys(rows, g);
    var idx := FirstIndex(list, inst.key);
    SortedIsDistinct(rows, list);
    SortedHeadIsFirst(rows, g, list);
    MoveToStartPutsFirst(rows, inst, groups);
    MoveToStartRows(rows, inst, groups);
    DenseAfterFrontMove(rows, AfterMoveToStart(rows, inst, groups).value.rows, g, list, idx);
  }

  // ---------------------------------------------------------------------------
  // Repair after a group change.

  /**
   * repairOrder, whatever its flags, writes only to the record's own row and to
   * the members of the group its CURRENT attribute values select: the group
   * the record came from is never renumbered.
   */
  lemma RepairTouchesOnlyCurrentGroup(rows: Rows, inst: Instance, groups: seq<Attr>, original: bool, dirty: bool)
    ensures var g := GroupOf(rows, groups, inst.attributes);
            var r := AfterRepair(rows, inst, groups, original, dirty);
            && r.Keys == rows.Keys
            && (forall k :: k in rows ==> r[k].attrs == rows[k].attrs)
            && (forall k :: k in rows && k != inst.key && k !in g ==> r[k] == rows[k])
  {
    var g := GroupOf(rows, groups, inst.attributes);
    var others := OrderedKeys(rows, g - {inst.key});
    var r1 := if original then Renumbered(rows, others, 1, ByKey) else rows;
    SameAttrsSameGroups(rows, r1, groups, inst.attributes);
    var ids := OrderedKeys(r1, g) + [inst.key];
    forall k | k in rows && k != inst.key && k !in g
      ensures AfterRepair(rows, inst, groups, original, dirty)[k] == rows[k]
    {
      if original {
        RenumberedUnlisted(rows, others, 1, k);
      }
      if dirty {
        assert k !in ids;
        RenumberedUnlisted(r1, ids, 1, k);
      }
    }
  }

  /** setNewOrder over a duplicate-free list with one more key appended numbers the list 1..N and the key N + 1. */
  lemma AppendedRenumbered(rows: Rows, list: seq<Key>, key: Key)
    requires Distinct(list) && key !in list
    requires forall i :: 0 <= i < |list| ==> list[i] in rows
    ensures var r := Renumbered(rows, list + [key], 1, ByKey);
            && Numbered(r, list, 1)
            && (key in rows ==> r[key].order == |list| + 1)
  {
    var ids := list + [key];
    assert Distinct(ids);
    forall i | 0 <= i < |list|
      ensures list[i] in Renumbered(rows, ids, 1, ByKey)
      ensures Renumbered(rows, ids, 1, ByKey)[list[i]].order == 1 + i
    {
      assert ids[i] == list[i];
      RenumberedListed(rows, ids, 1, i);
    }
    if key in rows {
      RenumberedListed(rows, ids, 1, |list|);
    }
  }

  /**
   * Called directly on a freshly read record, whose stored row already sits in
   * its group, repairOrder() with its default flags lists the record twice in
   * the second pass: the record takes the last index, |g| + 1, while the group
   * still has |g| members, so the group is left with a gap.
   */
  lemma RepairInPlaceLeavesGap(rows: Rows, inst: Instance, groups: seq<Attr>)
    requires Unmodified(rows, inst)
    ensures var g := GroupOf(rows, groups, inst.attributes);
            var r := AfterRepair(rows, inst, groups, true, true);
            && r.Keys == rows.Keys
            && GroupOf(r, groups, inst.attributes) == g
            && r[inst.key].order == |g| + 1
            && !Dense(r, g, 1)
  {
    var g := GroupOf(rows, groups, inst.attributes);
    var key := inst.key;
    assert key in g;
    var r1 := Renumbered(rows, OrderedKeys(rows, g - {key}), 1, ByKey);
    SameAttrsSameGroups(rows, r1, groups, inst.attributes);
    var list := OrderedKeys(r1, GroupOf(r1, groups, inst.attributes));
    RepairDefaultFlags(rows, inst, groups, r1, list);
    var r := Renumbered(r1, list + [key], 1, ByKey);
    AppendedTakesLast(r1, list, key);
    SameAttrsSameGroups(r1, r, groups, inst.attributes);
    if Dense(r, g, 1) {
      DenseHighest(r, g);
      assert false;
    }
  }

  /** A key appended to the ids handed to setNewOrder gets the last value, whatever else the list holds. */
  lemma AppendedTakesLast(rows: Rows, list: seq<Key>, key: Key)
    requires key in rows
    ensures Renumbered(rows, list + [key], 1, ByKey)[key].order == |list| + 1
  {
    assert LastMatch(list + [key], ByKey, key, rows[key]) == Some(|list|);
  }

  /** repairOrder() with its default flags runs both passes, the second over the table the first left. */
  lemma RepairDefaultFlags(rows: Rows, inst: Instance, groups: seq<Attr>, r1: Rows, list: seq<Key>)
    requires r1 == Renumbered(rows, OrderedKeys(rows, GroupOf(rows, groups, inst.attributes) - {inst.key}), 1, ByKey)
    requires list == OrderedKeys(r1, GroupOf(r1, groups, inst.attributes))
    ensures AfterRepair(rows, inst, groups, true, true) == Renumbered(r1, list + [inst.key], 1, ByKey)
  {
  }

  /**
   * repairOrder() with its default flags, on a record whose stored row is not
   * (yet) in the group its current values select: that group keeps its
   * ascending order and is numbered 1..N, and the record's row gets N + 1.
   */
  lemma RepairNumbersNewGroup(rows: Rows, inst: Instance, groups: seq<Attr>)
    requires inst.key !in GroupOf(rows, groups, inst.attributes)
    ensures var g := GroupOf(rows, groups, inst.attributes);
            var list := OrderedKeys(rows, g);
            var r := AfterRepair(rows, inst, groups, true, true);
            && r.Keys == rows.Keys
            && GroupOf(r, groups, inst.attributes) == g
            && Numbered(r, list, 1)
            && OrderedKeys(r, g) == list
            && (inst.key in rows ==> r[inst.key].order == |list| + 1)
  {
    RepairBothPasses(rows, inst, groups);
    RenumberedTwice(rows, groups, inst.attributes, inst.key);
  }

  /** The two passes of repairOrder() over a group listing, with a key from outside the group appended in the second. */
  lemma RenumberedTwice(rows: Rows, groups: seq<Attr>, vals: map<Attr, Value>, key: Key)
    requires key !in GroupOf(rows, groups, vals)
    ensures var g := GroupOf(rows, groups, vals);
            var list := OrderedKeys(rows, g);
            var r := Renumbered(Renumbered(rows, list, 1, ByKey), list + [key], 1, ByKey);
            && r.Keys == rows.Keys
            && GroupOf(r, groups, vals) == g
            && Numbered(r, list, 1)
            && OrderedKeys(r, g) == list
            && (key in rows ==> r[key].order == |list| + 1)
  {
    var g := GroupOf(rows, groups, vals);
    var list := OrderedKeys(rows, g);
    var r1 := Renumbered(rows, list, 1, ByKey);
    assert Distinct(list) && Enumerates(list, GroupOf(r1, groups, vals)) by {
      SortedIsDistinct(rows, list);
      RenumberListing(rows, groups, vals, list);
    }
    AppendedToGroup(r1, groups, vals, list, key);
  }

  /** repairOrder() on a record outside the group its current values select: both passes renumber that group's listing. */
  lemma RepairBothPasses(rows: Rows, inst: Instance, groups: seq<Attr>)
    requires inst.key !in GroupOf(rows, groups, inst.attributes)
    ensures var list := OrderedKeys(rows, GroupOf(rows, groups, inst.attributes));
            AfterRepair(rows, inst, groups, true, true)
              == Renumbered(Renumbered(rows, list, 1, ByKey), list + [inst.key], 1, ByKey)
  {
    var g := GroupOf(rows, groups, inst.attributes);
    var list := OrderedKeys(rows, g);
    assert g - {inst.key} == g;
    SortedIsDistinct(rows, list);
    RenumberListing(rows, groups, inst.attributes, list);
  }

  /**
   * setNewOrder over a duplicate-free listing of a group with one more key
   * appended: the group keeps that order and is numbered 1..N, and the
   * appended key's row gets N + 1.
   */
  lemma AppendedToGroup(rows: Rows, groups: seq<Attr>, vals: map<Attr, Value>, list: seq<Key>, key: Key)
    requires Distinct(list) && Enumerates(list, GroupOf(rows, groups, vals)) && key !in list
    ensures var g := GroupOf(rows, groups, vals);
            var r := Renumbered(rows, list + [key], 1, ByKey);
            && r.Keys == rows.Keys
            && GroupOf(r, groups, vals) == g
            && Numbered(r, list, 1)
            && OrderedKeys(r, g) == list
            && (key in rows ==> r[key].order == |list| + 1)
  {
    var g := GroupOf(rows, groups, vals);
    var r := Renumbered(rows, list + [key], 1, ByKey);
    SameAttrsSameGroups(rows, r, groups, vals);
    forall i | 0 <= i < |list|
      ensures list[i] in rows
    {
      assert list[i] in list;
      assert forall k :: k in list ==> k in GroupOf(rows, groups, vals);
    }
    AppendedRenumbered(rows, list, key);
    NumberedIsOrdered(r, g, list, 1);
  }

  // ---------------------------------------------------------------------------
  // Splice-based repositioning.

  /** Taking one element out of a duplicate-free list leaves it duplicate-free and without that element. */
  lemma RemoveAtDistinct(s: seq<Key>, i: nat)
    requires i < |s| && Distinct(s)
    ensures Distinct(RemoveAt(s, i)) && s[i] !in RemoveAt(s, i)
  {
    var r := RemoveAt(s, i);
    forall a, b | 0 <= a < b < |r|
      ensures r[a] != r[b]
    {
      var a' := if a < i then a else a + 1;
      var b' := if b < i then b else b + 1;
      assert r[a] == s[a'] && r[b] == s[b'] && a' < b';
    }
  }

  /** A list is duplicate-free when taking out an element that occurs nowhere else leaves it duplicate-free. */
  lemma RemoveAtDistinctConverse(s: seq<Key>, i: nat)
    requires i < |s| && Distinct(RemoveAt(s, i)) && s[i] !in RemoveAt(s, i)
    ensures Distinct(s)
  {
    var r := RemoveAt(s, i);
    forall a, b | 0 <= a < b < |s|
      ensures s[a] != s[b]
    {
      var a' := if a < i then a else a - 1;
      var b' := if b < i then b else b - 1;
      if a == i {
        assert s[b] == r[b'];
      } else if b == i {
        assert s[a] == r[a'];
      } else {
        assert s[a] == r[a'] && s[b] == r[b'] && a' < b';
      }
    }
  }

  /** array_search in a duplicate-free list finds the one index holding the key. */
  lemma FirstIndexOfDistinct(s: seq<Key>, i: nat)
    requires Distinct(s) && i < |s|
    ensures FirstIndex(s, s[i]) == i
  {
  }

  /**
   * Taking the key at index i out of a duplicate-free list and splicing it back
   * in at `offset` gives a duplicate-free list of the same keys, holding the
   * key at the normalised offset and the others in their previous order.
   */
  lemma SpliceShape(list: seq<Key>, i: nat, offset: int)
    requires i < |list| && Distinct(list)
    ensures var rest := RemoveAt(list, i);
            var spliced := SpliceIn(rest, offset, list[i]);
            var idx := SpliceOffset(|rest|, offset);
            && |spliced| == |list|
            && Distinct(spliced)
            && spliced[idx] == list[i]
            && RemoveAt(spliced, idx) == rest
            && (forall k :: k in spliced <==> k in list)
  {
    var rest := RemoveAt(list, i);
    var spliced := SpliceIn(rest, offset, list[i]);
    var idx := SpliceOffset(|rest|, offset);
    SpliceInThenRemove(rest, offset, list[i]);
    RemoveAtDistinct(list, i);
    RemoveAtDistinctConverse(spliced, idx);
    assert forall k :: k in spliced <==> k in list by {
      SpliceInMembers(rest, offset, list[i]);
      RemoveAtMembers(list, i);
    }
  }

  /** Without its element at index i, a duplicate-free list holds exactly its other elements. */
  lemma RemoveAtMembers(s: seq<Key>, i: nat)
    requires i < |s| && Distinct(s)
    ensures forall k :: k in RemoveAt(s, i) <==> k in s && k != s[i]
  {
    var r := RemoveAt(s, i);
    RemoveAtDistinct(s, i);
    forall k | k in s && k != s[i]
      ensures k in r
    {
      var j :| 0 <= j < |s| && s[j] == k;
      assert r[if j < i then j else j - 1] == k;
    }
    forall k | k in r
      ensures k in s
    {
      var j :| 0 <= j < |r| && r[j] == k;
      assert s[if j < i then j else j + 1] == k;
    }
  }

  /**
   * The list moveToPosition assigns, when the record sits at index
   * originalOrder - 1 of its group's ascending read: a duplicate-free listing
   * of the group, holding the record at the normalised splice offset and the
   * other members in their previous order.
   */
  lemma SplicedGroupShape(rows: Rows, inst: Instance, groups: seq<Attr>, position: int)
    requires var list := OrderedKeys(rows, GroupOf(rows, groups, inst.attributes));
             1 <= inst.originalOrder <= |list| && list[inst.originalOrder - 1] == inst.key
    ensures var g := GroupOf(rows, groups, inst.attributes);
            var list := OrderedKeys(rows, g);
            var spliced := SplicedGroup(rows, inst, groups, position);
            var idx := SpliceOffset(|list| - 1, position - 1);
            && |spliced| == |list|
            && Distinct(spliced) && Enumerates(spliced, g)
            && spliced[idx] == inst.key
            && RemoveAt(spliced, idx) == RemoveAt(list, inst.originalOrder - 1)
  {
    var g := GroupOf(rows, groups, inst.attributes);
    var list := OrderedKeys(rows, g);
    assert SpliceOut(list, inst.originalOrder - 1) == RemoveAt(list, inst.originalOrder - 1);
    SortedIsDistinct(rows, list);
    SpliceShape(list, inst.originalOrder - 1, position - 1);
  }

  /** setNewOrder over a duplicate-free listing of a group numbers the group 1..n in that order and nothing else. */
  lemma RenumberListing(rows: Rows, groups: seq<Attr>, vals: map<Attr, Value>, ids: seq<Key>)
    requires Distinct(ids) && Enumerates(ids, GroupOf(rows, groups, vals))
    ensures var g := GroupOf(rows, groups, vals);
            var r := Renumbered(rows, ids, 1, ByKey);
            && r.Keys == rows.Keys
            && GroupOf(r, groups, vals) == g
            && OrderedKeys(r, g) == ids
            && Dense(r, g, 1)
            && (forall k :: k in rows && k !in g ==> r[k] == rows[k])
  {
    var g := GroupOf(rows, groups, vals);
    RenumberedThenOrdered(rows, ids, 1, g);
    var r := Renumbered(rows, ids, 1, ByKey);
    SameAttrsSameGroups(rows, r, groups, vals);
    forall k | k in rows && k !in g
      ensures r[k] == rows[k]
    {
      RenumberedUnlisted(rows, ids, 1, k);
    }
  }

  /**
   * moveToPosition(position), when the record sits at index originalOrder - 1
   * of its group's ascending read: afterwards the group is numbered 1..n, the
   * record stands at the normalised splice offset, the other members keep
   * their relative order, and no row outside the group changes.
   */
  lemma MoveToPositionSplices(rows: Rows, inst: Instance, groups: seq<Attr>, position: int)
    requires var list := OrderedKeys(rows, GroupOf(rows, groups, inst.attributes));
             1 <= inst.originalOrder <= |list| && list[inst.originalOrder - 1] == inst.key
    ensures var g := GroupOf(rows, groups, inst.attributes);
            var list := OrderedKeys(rows, g);
            var r := AfterMoveToPosition(rows, inst, groups, position).rows;
            var idx := SpliceOffset(|list| - 1, position - 1);
            && r.Keys == rows.Keys
            && GroupOf(r, groups, inst.attributes) == g
            && Dense(r, g, 1)
            && |OrderedKeys(r, g)| == |list|
            && OrderedKeys(r, g)[idx] == inst.key
            && RemoveAt(OrderedKeys(r, g), idx) == RemoveAt(list, inst.originalOrder - 1)
            && (forall k :: k in rows && k !in g ==> r[k] == rows[k])
  {
    var spliced := SplicedGroup(rows, inst, groups, position);
    SplicedGroupShape(rows, inst, groups, position);
    assert AfterMoveToPosition(rows, inst, groups, position).rows == Renumbered(rows, spliced, 1, ByKey);
    RenumberListing(rows, groups, inst.attributes, spliced);
  }

  /**
   * After moveToPosition(position), in the same situation, the in-memory order
   * value (array_search of the key in the assigned list, plus one) is the
   * record's new place: min(position, n) for a position of at least 1, and the
   * normalised splice offset plus one in general.
   */
  lemma MoveToPositionOrderValue(rows: Rows, inst: Instance, groups: seq<Attr>, position: int)
    requires var list := OrderedKeys(rows, GroupOf(rows, groups, inst.attributes));
             1 <= inst.originalOrder <= |list| && list[inst.originalOrder - 1] == inst.key
    ensures var n := |OrderedKeys(rows, GroupOf(rows, groups, inst.attributes))|;
            var placed := FirstIndex(SplicedGroup(rows, inst, groups, position), inst.key) + 1;
            && placed == SpliceOffset(n - 1, position - 1) + 1
            && (position >= 1 ==> placed == if position < n then position else n)
  {
    var n := |OrderedKeys(rows, GroupOf(rows, groups, inst.attributes))|;
    SplicedGroupShape(rows, inst, groups, position);
    PlacedAt(SplicedGroup(rows, inst, groups, position), inst.key, n, position);
  }

  /** In a duplicate-free list of n keys holding `key` at the spliced-in offset, array_search finds it there. */
  lemma PlacedAt(spliced: seq<Key>, key: Key, n: nat, position: int)
    requires 1 <= n == |spliced| && Distinct(spliced)
    requires SpliceOffset(n - 1, position - 1) < n && spliced[SpliceOffset(n - 1, position - 1)] == key
    ensures key in spliced
    ensures FirstIndex(spliced, key) == SpliceOffset(n - 1, position - 1)
    ensures position >= 1 ==> FirstIndex(spliced, key) + 1 == if position < n then position else n
  {
    FirstIndexOfDistinct(spliced, SpliceOffset(n - 1, position - 1));
    if position >= 1 {
      PositionOffset(n - 1, position);
    }
  }

  /** The list moveToPosition assigns holds only the record and members of its current group. */
  lemma SplicedGroupWithin(rows: Rows, inst: Instance, groups: seq<Attr>, position: int)
    ensures forall k :: k in SplicedGroup(rows, inst, groups, position)
              ==> k == inst.key || k in GroupOf(rows, groups, inst.attributes)
  {
    var list := OrderedKeys(rows, GroupOf(rows, groups, inst.attributes));
    var rest := SpliceOut(list, inst.originalOrder - 1);
    SpliceInMembers(rest, position - 1, inst.key);
    forall k | k in rest
      ensures k in list
    {
      var o := SpliceOffset(|list|, inst.originalOrder - 1);
      if o < |list| {
        var j :| 0 <= j < |rest| && rest[j] == k;
        if j < o {
          assert list[j] == k;
        } else {
          assert list[j + 1] == k;
        }
      }
    }
  }

  /** moveToPosition writes only to the record's row and to the members of its current group. */
  lemma MoveToPositionTouchesOnlyCurrentGroup(rows: Rows, inst: Instance, groups: seq<Attr>, position: int)
    ensures var g := GroupOf(rows, groups, inst.attributes);
            var a := AfterMoveToPosition(rows, inst, groups, position);
            && a.rows.Keys == rows.Keys
            && GroupOf(a.rows, groups, inst.attributes) == g
            && a.self.attributes == inst.attributes
            && (forall k :: k in rows ==> a.rows[k].attrs == rows[k].attrs)
            && (forall k :: k in rows && k != inst.key && k !in g ==> a.rows[k] == rows[k])
  {
    var spliced := SplicedGroup(rows, inst, groups, position);
    var r := Renumbered(rows, spliced, 1, ByKey);
    assert AfterMoveToPosition(rows, inst, groups, position).rows == r;
    SameAttrsSameGroups(rows, r, groups, inst.attributes);
    SplicedGroupWithin(rows, inst, groups, position);
    forall k | k in rows && k != inst.key && k !in GroupOf(rows, groups, inst.attributes)
      ensures r[k] == rows[k]
    {
      RenumberedUnlisted(rows, spliced, 1, k);
    }
  }

  // ---------------------------------------------------------------------------
  // The model events.

  /**
   * Whatever branch the updating hook takes, it writes only to the record's
   * row and to the group the record's CURRENT attribute values select; the
   * group it is leaving keeps its gap.
   */
  lemma UpdatingTouchesOnlyNewGroup(rows: Rows, inst: Instance, s: Settings)
    ensures var g := GroupOf(rows, s.groups, inst.attributes);
            var r := AfterUpdating(rows, inst, s).rows;
            && r.Keys == rows.Keys
            && (forall k :: k in rows && k != inst.key && k !in g ==> r[k] == rows[k])
  {
    match UpdateDispatch(inst, s)
    case MoveThenRepairOriginal =>
      var m := AfterMoveToPosition(rows, inst, s.groups, inst.order);
      MoveToPositionTouchesOnlyCurrentGroup(rows, inst, s.groups, inst.order);
      RepairTouchesOnlyCurrentGroup(m.rows, m.self, s.groups, true, false);
    case Move =>
      MoveToPositionTouchesOnlyCurrentGroup(rows, inst, s.groups, inst.order);
    case Repair =>
      RepairTouchesOnlyCurrentGroup(rows, inst, s.groups, true, true);
    case Nothing =>
  }

  /**
   * The creating hook, on a group numbered 1..n, gives the new record n + 1
   * (1 for an empty group) and changes nothing else about it.
   */
  lemma CreatingAppendsToDenseGroup(rows: Rows, inst: Instance, s: Settings)
    requires s.sortWhenCreating
    requires Dense(rows, GroupOf(rows, s.groups, inst.attributes), 1)
    ensures AfterCreating(rows, inst, s) == inst.(order := |GroupOf(rows, s.groups, inst.attributes)| + 1)
  {
    DenseHighest(rows, GroupOf(rows, s.groups, inst.attributes));
  }
}
