/**
 * The ordering engine of the SortableTrait: an in-memory record (current and
 * original attributes, current and original order value) acting on the table.
 *
 * Every operation is given twice: as a function from the old table and record
 * to the new ones (`After...`), about which the properties are proved, and as
 * a method of `Record` that performs the source's steps on the table and is
 * proved to end in the state the function describes.
 */
module SortableTrait {
  import opened Base
  import opened Config
  import opened Store
  import opened Splice

  /** The in-memory state of one model instance. */
  datatype Instance = Instance(
    key: Key,
    attributes: map<Attr, Value>,  // current values ($this->{$attribute})
    original: map<Attr, Value>,    // values as last loaded or saved (getOriginal)
    order: int,                    // current order value
    originalOrder: int)            // order value as last loaded or saved

  /** A table together with the in-memory record an operation ran on. */
  datatype State = State(rows: Rows, self: Instance)

  /** A record freshly read from the table (what `first()` returns). */
  function Loaded(rows: Rows, k: Key): (inst: Instance)
    requires k in rows
  {
    Instance(k, rows[k].attrs, rows[k].attrs, rows[k].order, rows[k].order)
  }

  /** The record holds exactly what the table stores under its key. */
  predicate Unmodified(rows: Rows, inst: Instance)
  {
    inst.key in rows && inst == Loaded(rows, inst.key)
  }

  // ---------------------------------------------------------------------------
  // Dirty tracking: getDirty, getChangedAttributes, hasChanged*.

  /**
   * getDirty: the attributes whose current value differs from the original
   * one. An attribute set to NULL (absent from `attributes`) that was loaded
   * with a value is dirty too.
   */
  function Dirty(inst: Instance): (d: set<Attr>)
    ensures d <= inst.attributes.Keys + inst.original.Keys
    ensures inst.attributes == inst.original ==> d == {}
    ensures forall a :: a in d <==> Get(inst.original, a) != Get(inst.attributes, a)
  {
    set a | a in inst.attributes.Keys + inst.original.Keys && Get(inst.original, a) != Get(inst.attributes, a)
  }

  /** getChangedAttributes: the dirty attributes that are group attributes. */
  function ChangedAttributes(inst: Instance, groups: seq<Attr>): (c: set<Attr>)
    ensures c <= Dirty(inst)
    ensures forall a :: a in c ==> a in groups
    ensures forall i :: 0 <= i < |groups| && groups[i] in Dirty(inst) ==> groups[i] in c
  {
    set a | a in Dirty(inst) && a in groups
  }

  /** hasChangedGroupAttributes: some configured group attribute is dirty. */
  predicate HasChangedGroupAttributes(inst: Instance, groups: seq<Attr>)
    ensures HasChangedGroupAttributes(inst, groups) <==> exists i :: 0 <= i < |groups| && groups[i] in Dirty(inst)
  {
    ChangedAttributes(inst, groups) != {}
  }

  predicate HasChangedOrderColumn(inst: Instance)
  {
    inst.order != inst.originalOrder
  }

  /** The values buildSortQuery filters on: the original ones or the current ones. */
  function SortValues(inst: Instance, original: bool): map<Attr, Value>
  {
    if original then inst.original else inst.attributes
  }

  // ---------------------------------------------------------------------------
  // saveQuietly: write the dirty attributes (and the order value, if dirty) to
  // the record's row without firing the model events, then sync the original.

  /** The dirty attributes that hold a value. */
  function DirtyValues(inst: Instance): map<Attr, Value>
  {
    map a | a in Dirty(inst) && a in inst.attributes :: inst.attributes[a]
  }

  /** The dirty attributes set to NULL. */
  function Nulled(inst: Instance): set<Attr>
  {
    set a | a in Dirty(inst) && a !in inst.attributes
  }

  function WrittenRow(row: Row, inst: Instance): Row
  {
    row.(attrs := (row.attrs - Nulled(inst)) + DirtyValues(inst),
         order := if HasChangedOrderColumn(inst) then inst.order else row.order)
  }

  function Synced(inst: Instance): Instance
  {
    inst.(original := inst.attributes, originalOrder := inst.order)
  }

  function Saved(rows: Rows, inst: Instance): State
  {
    State(if inst.key in rows then rows[inst.key := WrittenRow(rows[inst.key], inst)] else rows,
          Synced(inst))
  }

  // ---------------------------------------------------------------------------
  // The operations, as functions of the table and the record.

  /** setHighestOrderNumber: the in-memory order becomes the current group's maximum plus one. */
  function AfterSetHighest(rows: Rows, inst: Instance, groups: seq<Attr>): Instance
  {
    inst.(order := Highest(rows, GroupOf(rows, groups, inst.attributes)) + 1)
  }

  /**
   * repairOrder(original, dirty). Both branches filter on the CURRENT attribute
   * values; the second appends the record's key to what it read.
   */
  function AfterRepair(rows: Rows, inst: Instance, groups: seq<Attr>, original: bool, dirty: bool): Rows
  {
    var others := OrderedKeys(rows, GroupOf(rows, groups, inst.attributes) - {inst.key});
    var r1 := if original then Renumbered(rows, others, 1, ByKey) else rows;
    if dirty then
      Renumbered(r1, OrderedKeys(r1, GroupOf(r1, groups, inst.attributes)) + [inst.key], 1, ByKey)
    else r1
  }

  /** The list moveToPosition hands to setNewOrder. */
  function SplicedGroup(rows: Rows, inst: Instance, groups: seq<Attr>, position: int): seq<Key>
  {
    var list := OrderedKeys(rows, GroupOf(rows, groups, inst.attributes));
    SpliceIn(SpliceOut(list, inst.originalOrder - 1), position - 1, inst.key)
  }

  /** moveToPosition(position). */
  function AfterMoveToPosition(rows: Rows, inst: Instance, groups: seq<Attr>, position: int): State
  {
    var spliced := SplicedGroup(rows, inst, groups, position);
    State(Renumbered(rows, spliced, 1, ByKey), inst.(order := FirstIndex(spliced, inst.key) + 1))
  }

  /** swapOrderWithModel: the result is the table, the record and the other record. */
  function AfterSwap(rows: Rows, inst: Instance, other: Instance): (Rows, Instance, Instance)
  {
    var s1 := Saved(rows, other.(order := inst.order));
    var s2 := Saved(s1.rows, inst.(order := other.order));
    (s2.rows, s2.self, s1.self)
  }

  /** The group member moveOrderDown swaps with: the first one above order value `o`. */
  function Above(rows: Rows, ks: set<Key>, o: int): (r: Option<Key>)
    requires ks <= rows.Keys
    ensures r.None? <==> forall k :: k in ks ==> rows[k].order <= o
    ensures r.Some? ==> r.value in ks && rows[r.value].order > o
    ensures r.Some? ==> forall k :: k in ks && k != r.value && rows[k].order > o ==> Before(rows, r.value, k)
  {
    var above := set k | k in ks && rows[k].order > o;
    assert forall k :: k in ks && rows[k].order > o ==> k in above;
    if above == {} then None else Some(First(rows, above))
  }

  /** The group member moveOrderUp swaps with: the last one below order value `o`. */
  function Below(rows: Rows, ks: set<Key>, o: int): (r: Option<Key>)
    requires ks <= rows.Keys
    ensures r.None? <==> forall k :: k in ks ==> rows[k].order >= o
    ensures r.Some? ==> r.value in ks && rows[r.value].order < o
    ensures r.Some? ==> forall k :: k in ks && k != r.value && rows[k].order < o ==> Before(rows, k, r.value)
  {
    var below := set k | k in ks && rows[k].order < o;
    assert forall k :: k in ks && rows[k].order < o ==> k in below;
    if below == {} then None else Some(Last(rows, below))
  }

  /** moveOrderDown. */
  function AfterMoveOrderDown(rows: Rows, inst: Instance, groups: seq<Attr>): State
  {
    match Above(rows, GroupOf(rows, groups, inst.attributes), inst.order)
    case None => State(rows, inst)
    case Some(k) => var t := AfterSwap(rows, inst, Loaded(rows, k)); State(t.0, t.1)
  }

  /** moveOrderUp. */
  function AfterMoveOrderUp(rows: Rows, inst: Instance, groups: seq<Attr>): State
  {
    match Below(rows, GroupOf(rows, groups, inst.attributes), inst.order)
    case None => State(rows, inst)
    case Some(k) => var t := AfterSwap(rows, inst, Loaded(rows, k)); State(t.0, t.1)
  }

  /**
   * moveToStart: the record takes the first member's order value and is saved;
   * then every other member of its current group goes up by one. `None` is the
   * dereference of a missing first record.
   */
  function AfterMoveToStart(rows: Rows, inst: Instance, groups: seq<Attr>): Option<State>
  {
    var g := GroupOf(rows, groups, inst.attributes);
    if g == {} then None
    else
      var f := First(rows, g);
      if f == inst.key then Some(State(rows, inst))
      else
        var moved := inst.(order := rows[f].order);
        Some(State(
          map k | k in rows ::
            if k == inst.key then WrittenRow(rows[k], moved)
            else if k in g then rows[k].(order := rows[k].order + 1)
            else rows[k],
          Synced(moved)))
  }

  /**
   * moveToEnd: unless it already holds the group maximum, the record takes it
   * and is saved; the other members above its old value go down by one.
   */
  function AfterMoveToEnd(rows: Rows, inst: Instance, groups: seq<Attr>): State
  {
    var g := GroupOf(rows, groups, inst.attributes);
    var max := Highest(rows, g);
    if inst.order == max then State(rows, inst)
    else
      var moved := inst.(order := max);
      State(
        map k | k in rows ::
          if k == inst.key then WrittenRow(rows[k], moved)
          else if k in g && rows[k].order > inst.order then rows[k].(order := rows[k].order - 1)
          else rows[k],
        Synced(moved))
  }

  // ---------------------------------------------------------------------------
  // The step-by-step forms the methods follow.

  /** Writing a row twice for the same record, or again after the sync, changes nothing. */
  lemma WrittenRowIdempotent(row: Row, inst: Instance)
    ensures WrittenRow(WrittenRow(row, inst), inst) == WrittenRow(row, inst)
    ensures WrittenRow(WrittenRow(row, inst), Synced(inst)) == WrittenRow(row, inst)
  {
    var w := WrittenRow(row, inst);
    assert (w.attrs - Nulled(inst)) + DirtyValues(inst) == w.attrs by {
      forall a | a in Nulled(inst) ensures a !in DirtyValues(inst) {}
    }
    assert Dirty(Synced(inst)) == {};
    assert DirtyValues(Synced(inst)) == map[];
    assert Nulled(Synced(inst)) == {};
    assert (w.attrs - {}) + map[] == w.attrs;
  }

  /** Saving twice, or saving again after the sync, writes nothing new. */
  lemma SaveIdempotent(rows: Rows, inst: Instance)
    ensures Saved(Saved(rows, inst).rows, inst) == Saved(rows, inst)
    ensures Saved(Saved(rows, inst).rows, Synced(inst)) == Saved(rows, inst)
  {
    if inst.key in rows {
      WrittenRowIdempotent(rows[inst.key], inst);
    }
  }

  /** moveToEnd as the source performs it: save the record, then decrement the members above its old value. */
  lemma MoveToEndBySteps(rows: Rows, inst: Instance, groups: seq<Attr>)
    requires inst.order != Highest(rows, GroupOf(rows, groups, inst.attributes))
    ensures var moved := inst.(order := Highest(rows, GroupOf(rows, groups, inst.attributes)));
            var saved := Saved(rows, moved);
            var above := set k | k in GroupOf(saved.rows, groups, inst.attributes) - {inst.key}
                                 && saved.rows[k].order > inst.order;
            AfterMoveToEnd(rows, inst, groups) == State(Shifted(saved.rows, above, -1), saved.self)
  {
    var g := GroupOf(rows, groups, inst.attributes);
    var moved := inst.(order := Highest(rows, g));
    var saved := Saved(rows, moved);
    var g' := GroupOf(saved.rows, groups, inst.attributes);
    var above := set k | k in g' - {inst.key} && saved.rows[k].order > inst.order;
    var a := AfterMoveToEnd(rows, inst, groups).rows;
    var b := Shifted(saved.rows, above, -1);
    assert a.Keys == b.Keys;
    forall k | k in a
      ensures a[k] == b[k]
    {
      MoveToEndStepAt(rows, inst, groups, k);
    }
    assert a == b;
  }

  /** moveToEnd's result at one row is what the save followed by the decrement leave there. */
  lemma MoveToEndStepAt(rows: Rows, inst: Instance, groups: seq<Attr>, j: Key)
    requires j in rows
    ensures var moved := inst.(order := Highest(rows, GroupOf(rows, groups, inst.attributes)));
            var saved := Saved(rows, moved);
            var above := set k | k in GroupOf(saved.rows, groups, inst.attributes) - {inst.key}
                                 && saved.rows[k].order > inst.order;
            var g := GroupOf(rows, groups, inst.attributes);
            var a := if j == inst.key then WrittenRow(rows[j], moved)
                     else if j in g && rows[j].order > inst.order then rows[j].(order := rows[j].order - 1)
                     else rows[j];
            Shifted(saved.rows, above, -1)[j] == a
  {
    var g := GroupOf(rows, groups, inst.attributes);
    var moved := inst.(order := Highest(rows, g));
    var saved := Saved(rows, moved);
    if j != inst.key {
      assert saved.rows[j] == rows[j];
      assert j in GroupOf(saved.rows, groups, inst.attributes) <==> j in g;
    }
  }

  /** moveToPosition's result is the setNewOrder table over the spliced list, with the record at the index array_search finds. */
  lemma MoveToPositionResult(rows: Rows, inst: Instance, groups: seq<Attr>, position: int, after: Rows, order: int)
    requires after == Renumbered(rows, SplicedGroup(rows, inst, groups, position), 1, ByKey)
    requires inst.key in SplicedGroup(rows, inst, groups, position)
    requires order == FirstIndex(SplicedGroup(rows, inst, groups, position), inst.key) + 1
    ensures AfterMoveToPosition(rows, inst, groups, position) == State(after, inst.(order := order))
  {
  }

  /** moveToStart as the source performs it: save the record, then increment every other member. */
  lemma MoveToStartBySteps(rows: Rows, inst: Instance, groups: seq<Attr>)
    requires GroupOf(rows, groups, inst.attributes) != {}
    requires First(rows, GroupOf(rows, groups, inst.attributes)) != inst.key
    ensures var moved := inst.(order := rows[First(rows, GroupOf(rows, groups, inst.attributes))].order);
            var saved := Saved(rows, moved);
            var others := GroupOf(saved.rows, groups, inst.attributes) - {inst.key};
            AfterMoveToStart(rows, inst, groups) == Some(State(Shifted(saved.rows, others, 1), saved.self))
  {
    var g := GroupOf(rows, groups, inst.attributes);
    var moved := inst.(order := rows[First(rows, g)].order);
    var saved := Saved(rows, moved);
    var g' := GroupOf(saved.rows, groups, inst.attributes);
    var a := AfterMoveToStart(rows, inst, groups).value.rows;
    var b := Shifted(saved.rows, g' - {inst.key}, 1);
    assert a.Keys == b.Keys;
    forall k | k in a
      ensures a[k] == b[k]
    {
      if k != inst.key {
        assert saved.rows[k] == rows[k];
        assert k in g' <==> k in g;
      }
    }
    assert a == b;
  }

  /** The four branches of the updating hook. */
  datatype UpdateBranch = MoveThenRepairOriginal | Move | Repair | Nothing

  function UpdateDispatch(inst: Instance, s: Settings): (b: UpdateBranch)
    ensures b.Nothing? <==> !s.sortWhenUpdating || (!HasChangedOrderColumn(inst) && !HasChangedGroupAttributes(inst, s.groups))
    ensures (b.Move? || b.MoveThenRepairOriginal?) <==> s.sortWhenUpdating && HasChangedOrderColumn(inst)
    ensures (b.Repair? || b.MoveThenRepairOriginal?) <==> s.sortWhenUpdating && HasChangedGroupAttributes(inst, s.groups)
  {
    if !s.sortWhenUpdating then Nothing
    else if HasChangedOrderColumn(inst) && HasChangedGroupAttributes(inst, s.groups) then MoveThenRepairOriginal
    else if HasChangedOrderColumn(inst) then Move
    else if HasChangedGroupAttributes(inst, s.groups) then Repair
    else Nothing
  }

  /** The updating hook; the save that follows it is the framework's, not the core's. */
  function AfterUpdating(rows: Rows, inst: Instance, s: Settings): State
  {
    match UpdateDispatch(inst, s)
    case MoveThenRepairOriginal =>
      var m := AfterMoveToPosition(rows, inst, s.groups, inst.order);
      State(AfterRepair(m.rows, m.self, s.groups, true, false), m.self)
    case Move => AfterMoveToPosition(rows, inst, s.groups, inst.order)
    case Repair => State(AfterRepair(rows, inst, s.groups, true, true), inst)
    case Nothing => State(rows, inst)
  }

  /** The creating hook. */
  function AfterCreating(rows: Rows, inst: Instance, s: Settings): Instance
  {
    if s.sortWhenCreating then AfterSetHighest(rows, inst, s.groups) else inst
  }

  /** The deleting hook: the same routine as on creation, applied to the record being deleted. */
  function AfterDeleting(rows: Rows, inst: Instance, s: Settings): Instance
  {
    if s.sortWhenDeleting then AfterSetHighest(rows, inst, s.groups) else inst
  }
}
