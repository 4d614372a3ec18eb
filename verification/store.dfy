/**
 * The table of a sortable model, as the ordering engine sees it: a map from
 * primary key to row, the group filter of the sort query, the ordered read of a
 * group, max/min of the order column, and the bulk writes (setNewOrder's
 * per-id updates, increment and decrement over a filtered set of rows).
 */
module Store {
  import opened Base

  /** One stored row: its attribute values, its order value and its soft-delete flag. */
  datatype Row = Row(attrs: map<Attr, Value>, order: int, deleted: bool)

  type Rows = map<Key, Row>

  /**
   * The where-clauses the sort query adds: the row agrees with `vals` on every
   * group attribute (NULL matching NULL). The soft-delete flag is deliberately
   * not consulted: the sort query always drops the soft-delete scope.
   */
  predicate Matches(row: Row, groups: seq<Attr>, vals: map<Attr, Value>)
  {
    forall i :: 0 <= i < |groups| ==> Get(row.attrs, groups[i]) == Get(vals, groups[i])
  }

  /** The keys the sort query selects. */
  function GroupOf(rows: Rows, groups: seq<Attr>, vals: map<Attr, Value>): set<Key>
  {
    set k | k in rows && Matches(rows[k], groups, vals)
  }

  /** With no group attributes configured the group is the whole table, soft-deleted rows included. */
  lemma NoGroupsMeansWholeTable(rows: Rows, vals: map<Attr, Value>)
    ensures GroupOf(rows, [], vals) == rows.Keys
  {
    forall k | k in rows
      ensures Matches(rows[k], [], vals)
    {
    }
  }

  /** Two tables that differ only in order values have the same groups. */
  lemma SameAttrsSameGroups(rows: Rows, rows': Rows, groups: seq<Attr>, vals: map<Attr, Value>)
    requires rows.Keys == rows'.Keys
    requires forall k :: k in rows ==> rows[k].attrs == rows'[k].attrs
    ensures GroupOf(rows, groups, vals) == GroupOf(rows', groups, vals)
  {
    forall k | k in rows
      ensures Matches(rows[k], groups, vals) == Matches(rows'[k], groups, vals)
    {
    }
  }

  // ---------------------------------------------------------------------------
  // Reading a group in order: ascending by order value, ties broken by key.

  /** Row j comes before row k in an ascending read of the order column. */
  predicate Before(rows: Rows, j: Key, k: Key)
  {
    && j in rows && k in rows
    && (rows[j].order < rows[k].order || (rows[j].order == rows[k].order && j < k))
  }

  predicate Sorted(rows: Rows, s: seq<Key>)
  {
    forall i, j :: 0 <= i < j < |s| ==> Before(rows, s[i], s[j])
  }

  predicate Distinct(s: seq<Key>)
  {
    forall i, j :: 0 <= i < j < |s| ==> s[i] != s[j]
  }

  /** `s` lists exactly the keys of `ks`. */
  ghost predicate Enumerates(s: seq<Key>, ks: set<Key>)
  {
    forall k :: k in s <==> k in ks
  }

  lemma SortedIsDistinct(rows: Rows, s: seq<Key>)
    requires Sorted(rows, s)
    ensures Distinct(s)
  {
  }

  /** `k` is the first key of `ks` in an ascending read. */
  predicate IsFirst(rows: Rows, ks: set<Key>, k: Key)
  {
    k in ks && forall j :: j in ks && j != k ==> Before(rows, k, j)
  }

  lemma {:induction false} FirstExists(rows: Rows, ks: set<Key>)
    requires ks != {} && ks <= rows.Keys
    ensures exists k :: IsFirst(rows, ks, k)
  {
    assert exists k :: k in ks by {
      if forall k :: k !in ks {
        assert false;
      }
    }
    var x :| x in ks;
    if ks == {x} {
      assert IsFirst(rows, ks, x);
    } else {
      var rest := ks - {x};
      FirstExists(rows, rest);
      var m :| IsFirst(rows, rest, m);
      if Before(rows, x, m) {
        forall j | j in ks && j != x
          ensures Before(rows, x, j)
        {
          if j != m {
            assert j in rest;
          }
        }
        assert IsFirst(rows, ks, x);
      } else {
        forall j | j in ks && j != m
          ensures Before(rows, m, j)
        {
          if j != x {
            assert j in rest;
          }
        }
        assert IsFirst(rows, ks, m);
      }
    }
  }

  /** The row an ascending `first()` returns. */
  function First(rows: Rows, ks: set<Key>): (k: Key)
    requires ks != {} && ks <= rows.Keys
    ensures k in ks
    ensures forall j :: j in ks && j != k ==> Before(rows, k, j)
  {
    FirstExists(rows, ks);
    var k :| IsFirst(rows, ks, k);
    k
  }

  /** The keys of `ks`, read in ascending order: `ordered()->get()->pluck(key)`. */
  function OrderedKeys(rows: Rows, ks: set<Key>): (s: seq<Key>)
    requires ks <= rows.Keys
    ensures |s| == |ks|
    ensures Enumerates(s, ks)
    ensures Sorted(rows, s)
    decreases ks
  {
    if ks == {} then []
    else
      var k := First(rows, ks);
      var rest := OrderedKeys(rows, ks - {k});
      assert forall i :: 0 <= i < |rest| ==> rest[i] in ks - {k};
      [k] + rest
  }

  lemma SortedHeadIsFirst(rows: Rows, ks: set<Key>, s: seq<Key>)
    requires ks <= rows.Keys && s != []
    requires Enumerates(s, ks) && Sorted(rows, s)
    ensures ks != {} && First(rows, ks) == s[0]
  {
    assert s[0] in s;
    forall j | j in ks && j != s[0]
      ensures Before(rows, s[0], j)
    {
      assert j in s;
      var m :| 0 <= m < |s| && s[m] == j;
    }
  }

  lemma SortedTailEnumerates(rows: Rows, ks: set<Key>, s: seq<Key>)
    requires s != []
    requires Enumerates(s, ks) && Sorted(rows, s)
    ensures Enumerates(s[1..], ks - {s[0]})
  {
    forall k
      ensures k in s[1..] <==> k in ks - {s[0]}
    {
      if k in s[1..] {
        var m :| 1 <= m < |s| && s[m] == k;
        assert Before(rows, s[0], s[m]);
      }
      if k in ks - {s[0]} {
        assert k in s;
        var m :| 0 <= m < |s| && s[m] == k;
        assert s[1..][m - 1] == k;
      }
    }
  }

  /** A sorted listing of `ks` can only be the ordered read of `ks`. */
  lemma {:induction false} OrderedKeysUnique(rows: Rows, ks: set<Key>, s: seq<Key>)
    requires ks <= rows.Keys
    requires Enumerates(s, ks) && Sorted(rows, s)
    ensures s == OrderedKeys(rows, ks)
    decreases |s|
  {
    if s == [] {
      assert forall k :: k !in ks;
    } else {
      SortedHeadIsFirst(rows, ks, s);
      SortedTailEnumerates(rows, ks, s);
      assert Sorted(rows, s[1..]);
      OrderedKeysUnique(rows, ks - {s[0]}, s[1..]);
      OrderedKeysUnfold(rows, ks);
      assert s == [s[0]] + s[1..];
    }
  }

  /** The ascending read of a non-empty set is its first key followed by the read of the rest. */
  lemma OrderedKeysUnfold(rows: Rows, ks: set<Key>)
    requires ks <= rows.Keys && ks != {}
    ensures OrderedKeys(rows, ks) == [First(rows, ks)] + OrderedKeys(rows, ks - {First(rows, ks)})
  {
  }

  /** The keys of `s` carry the order values start, start+1, ... */
  predicate Numbered(rows: Rows, s: seq<Key>, start: int)
  {
    forall i :: 0 <= i < |s| ==> s[i] in rows && rows[s[i]].order == start + i
  }

  /** The group `ks` is numbered densely from `start` in its ascending read. */
  predicate Dense(rows: Rows, ks: set<Key>, start: int)
    requires ks <= rows.Keys
  {
    Numbered(rows, OrderedKeys(rows, ks), start)
  }

  /** Numbering a listing consecutively makes it the group's ascending read. */
  lemma NumberedIsOrdered(rows: Rows, ks: set<Key>, s: seq<Key>, start: int)
    requires ks <= rows.Keys
    requires Enumerates(s, ks) && Numbered(rows, s, start)
    ensures OrderedKeys(rows, ks) == s
    ensures Dense(rows, ks, start)
  {
    assert Sorted(rows, s);
    OrderedKeysUnique(rows, ks, s);
  }

  /** The row a descending `first()` returns. */
  function Last(rows: Rows, ks: set<Key>): (k: Key)
    requires ks != {} && ks <= rows.Keys
    ensures k in ks
    ensures forall j :: j in ks && j != k ==> Before(rows, j, k)
  {
    var s := OrderedKeys(rows, ks);
    assert s[|s| - 1] in ks;
    assert forall j :: j in ks && j != s[|s| - 1] ==> Before(rows, j, s[|s| - 1]) by {
      forall j | j in ks && j != s[|s| - 1]
        ensures Before(rows, j, s[|s| - 1])
      {
        var m :| 0 <= m < |s| && s[m] == j;
      }
    }
    s[|s| - 1]
  }

  /** `(int) max(order)` over the group; an empty group reads 0. */
  function Highest(rows: Rows, ks: set<Key>): (r: int)
    requires ks <= rows.Keys
    ensures ks == {} ==> r == 0
    ensures ks != {} ==> exists k :: k in ks && rows[k].order == r
    ensures forall k :: k in ks ==> rows[k].order <= r
  {
    if ks == {} then 0 else rows[Last(rows, ks)].order
  }

  /** `(int) min(order)` over the group; an empty group reads 0. */
  function Lowest(rows: Rows, ks: set<Key>): (r: int)
    requires ks <= rows.Keys
    ensures ks == {} ==> r == 0
    ensures ks != {} ==> exists k :: k in ks && rows[k].order == r
    ensures forall k :: k in ks ==> r <= rows[k].order
  {
    if ks == {} then 0 else rows[First(rows, ks)].order
  }

  // ---------------------------------------------------------------------------
  // setNewOrder: the k-th id gets startOrder + k.

  /** The column setNewOrder matches ids against: the primary key or a custom column. */
  datatype Selector = ByKey | ByColumn(column: Attr)

  /** `where($primaryKeyColumn, $id)` selects the row stored under `k`. */
  predicate Selects(sel: Selector, k: Key, row: Row, id: Value)
  {
    match sel
    case ByKey => k == id
    case ByColumn(c) => Get(row.attrs, c) == Some(id)
  }

  /** The index of the last id that selects the row, if any. */
  function LastMatch(ids: seq<Value>, sel: Selector, k: Key, row: Row): (r: Option<nat>)
    ensures r.None? ==> forall j :: 0 <= j < |ids| ==> !Selects(sel, k, row, ids[j])
    ensures r.Some? ==> r.value < |ids| && Selects(sel, k, row, ids[r.value])
    ensures r.Some? ==> forall j :: r.value < j < |ids| ==> !Selects(sel, k, row, ids[j])
  {
    if ids == [] then None
    else if Selects(sel, k, row, ids[|ids| - 1]) then Some(|ids| - 1)
    else LastMatch(ids[..|ids| - 1], sel, k, row)
  }

  /** A row's value after setNewOrder, given the index of the last id selecting it. */
  function RenumberedValue(row: Row, last: Option<nat>, start: int): Row
  {
    match last
    case None => row
    case Some(j) => row.(order := start + j)
  }

  /**
   * The table after setNewOrder(ids, start) has run to completion: each row
   * holds startOrder plus the index of the last id selecting it, if any.
   */
  function Renumbered(rows: Rows, ids: seq<Value>, start: int, sel: Selector): (r: Rows)
    ensures r.Keys == rows.Keys
    ensures forall k :: k in rows ==> r[k].attrs == rows[k].attrs && r[k].deleted == rows[k].deleted
  {
    map k | k in rows :: RenumberedValue(rows[k], LastMatch(ids, sel, k, rows[k]), start)
  }

  /**
   * What setNewOrder writes to one row: a row no id selects is untouched; a
   * selected row gets startOrder plus the index of the LAST id selecting it.
   */
  lemma RenumberedRow(rows: Rows, ids: seq<Value>, start: int, sel: Selector, k: Key)
    requires k in rows
    ensures (forall j :: 0 <= j < |ids| ==> !Selects(sel, k, rows[k], ids[j]))
              ==> Renumbered(rows, ids, start, sel)[k] == rows[k]
    ensures forall j :: 0 <= j < |ids| && Selects(sel, k, rows[k], ids[j])
              && (forall j' :: j < j' < |ids| ==> !Selects(sel, k, rows[k], ids[j']))
              ==> Renumbered(rows, ids, start, sel)[k].order == start + j
  {
  }

  /** One update statement of setNewOrder's loop: every row the id selects gets `value`. */
  function Assigned(rows: Rows, sel: Selector, id: Value, value: int): (r: Rows)
    ensures r.Keys == rows.Keys
  {
    map k | k in rows :: if Selects(sel, k, rows[k], id) then rows[k].(order := value) else rows[k]
  }

  /** The updates of setNewOrder's loop applied one after the other, the i-th writing start + i. */
  function Applied(rows: Rows, ids: seq<Value>, start: int, sel: Selector): (r: Rows)
    ensures r.Keys == rows.Keys
    ensures forall k :: k in rows ==> r[k].attrs == rows[k].attrs
    decreases |ids|
  {
    if ids == [] then rows
    else Assigned(Applied(rows, ids[..|ids| - 1], start, sel), sel, ids[|ids| - 1], start + |ids| - 1)
  }

  /** After the updates, each row holds what the LAST update selecting it wrote. */
  lemma {:induction false} AppliedAt(rows: Rows, ids: seq<Value>, start: int, sel: Selector, k: Key)
    requires k in rows
    ensures Applied(rows, ids, start, sel)[k] == RenumberedValue(rows[k], LastMatch(ids, sel, k, rows[k]), start)
  {
    if ids != [] {
      var n := |ids|;
      var prev := Applied(rows, ids[..n - 1], start, sel);
      AppliedAt(rows, ids[..n - 1], start, sel, k);
      assert Selects(sel, k, prev[k], ids[n - 1]) == Selects(sel, k, rows[k], ids[n - 1]);
    }
  }

  /** The update-by-update table is the table `Renumbered` describes. */
  lemma AppliedIsRenumbered(rows: Rows, ids: seq<Value>, start: int, sel: Selector)
    ensures Applied(rows, ids, start, sel) == Renumbered(rows, ids, start, sel)
  {
    var a := Applied(rows, ids, start, sel);
    var r := Renumbered(rows, ids, start, sel);
    forall k | k in rows
      ensures a[k] == r[k]
    {
      AppliedAt(rows, ids, start, sel, k);
    }
  }

  /** One more update of setNewOrder's loop extends the updates applied so far by one id. */
  lemma AppliedStep(rows: Rows, ids: seq<Value>, i: nat, start: int, sel: Selector, current: Rows, value: int)
    requires i < |ids| && value == start + i
    requires current == Applied(rows, ids[..i], start, sel)
    ensures Assigned(current, sel, ids[i], value) == Applied(rows, ids[..i + 1], start, sel)
  {
    assert ids[..i + 1][..i] == ids[..i];
  }

  /** setNewOrder by primary key leaves every row whose key is not listed as it was. */
  lemma RenumberedUnlisted(rows: Rows, ids: seq<Key>, start: int, k: Key)
    requires k in rows && k !in ids
    ensures k in Renumbered(rows, ids, start, ByKey)
    ensures Renumbered(rows, ids, start, ByKey)[k] == rows[k]
  {
    RenumberedRow(rows, ids, start, ByKey, k);
  }

  /** setNewOrder by primary key over distinct ids gives the id at index i the value start + i. */
  lemma RenumberedListed(rows: Rows, ids: seq<Key>, start: int, i: nat)
    requires Distinct(ids) && i < |ids| && ids[i] in rows
    ensures ids[i] in Renumbered(rows, ids, start, ByKey)
    ensures Renumbered(rows, ids, start, ByKey)[ids[i]].order == start + i
  {
    RenumberedRow(rows, ids, start, ByKey, ids[i]);
  }

  /** Renumbering a duplicate-free listing of a group numbers it densely, in the listed order. */
  lemma RenumberedThenOrdered(rows: Rows, ids: seq<Key>, start: int, ks: set<Key>)
    requires ks <= rows.Keys
    requires Distinct(ids) && Enumerates(ids, ks)
    ensures Numbered(Renumbered(rows, ids, start, ByKey), ids, start)
    ensures OrderedKeys(Renumbered(rows, ids, start, ByKey), ks) == ids
  {
    var r := Renumbered(rows, ids, start, ByKey);
    forall i | 0 <= i < |ids|
      ensures ids[i] in r && r[ids[i]].order == start + i
    {
      assert ids[i] in ids;
      RenumberedListed(rows, ids, start, i);
    }
    NumberedIsOrdered(r, ks, ids, start);
  }

  /** increment/decrement of the order column over the rows in `ks`. */
  function Shifted(rows: Rows, ks: set<Key>, delta: int): Rows
  {
    map k | k in rows :: if k in ks then rows[k].(order := rows[k].order + delta) else rows[k]
  }

  /** What setNewOrder accepts: an indexable sequence of ids, or anything else. */
  datatype IdsArgument = Indexable(ids: seq<Value>) | NotIndexable

  /** The table of the sortable model. */
  class Table {
    var rows: Rows

    constructor (rows: Rows)
      ensures this.rows == rows
    {
      this.rows := rows;
    }

    /**
     * setNewOrder / setNewOrderByCustomColumn: one update per id, in order,
     * writing startOrder, startOrder + 1, ... Soft-deleted rows are updated too.
     */
    method SetNewOrder(ids: IdsArgument, startOrder: int, sel: Selector) returns (o: Outcome)
      modifies this
      ensures ids.NotIndexable? ==> o == Fail(InvalidArgument) && rows == old(rows)
      ensures ids.Indexable? ==> o == Pass && rows == Renumbered(old(rows), ids.ids, startOrder, sel)
    {
      if ids.NotIndexable? {
        return Fail(InvalidArgument);
      }
      var list := ids.ids;
      var next := startOrder;
      var i := 0;
      assert list[..0] == [];
      while i < |list|
        invariant 0 <= i <= |list|
        invariant next == startOrder + i
        invariant rows == Applied(old(rows), list[..i], startOrder, sel)
      {
        AppliedStep(old(rows), list, i, startOrder, sel, rows, next);
        rows := Assigned(rows, sel, list[i], next);
        next := next + 1;
        i := i + 1;
      }
      assert list[..i] == list;
      AppliedIsRenumbered(old(rows), list, startOrder, sel);
      o := Pass;
    }

    /** An update by primary key; a key with no row updates nothing. */
    method Write(k: Key, row: Row)
      modifies this
      ensures rows == if k in old(rows) then old(rows)[k := row] else old(rows)
    {
      if k in rows {
        rows := rows[k := row];
      }
    }

    /** `increment`/`decrement` of the order column over the rows in `ks`. */
    method Shift(ks: set<Key>, delta: int)
      modifies this
      ensures rows == Shifted(old(rows), ks, delta)
      ensures rows.Keys == old(rows).Keys
      ensures forall k :: k in rows && k in ks ==> rows[k] == old(rows)[k].(order := old(rows)[k].order + delta)
      ensures forall k :: k in rows && k !in ks ==> rows[k] == old(rows)[k]
    {
      rows := Shifted(rows, ks, delta);
    }

    /** The sort query's rows read in ascending order, as a list of keys. */
    function SortedGroup(groups: seq<Attr>, vals: map<Attr, Value>): (s: seq<Key>)
      reads this
      ensures Enumerates(s, GroupOf(rows, groups, vals)) && Sorted(rows, s)
    {
      OrderedKeys(rows, GroupOf(rows, groups, vals))
    }
  }
}
