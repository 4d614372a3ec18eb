# eloquent-autosort ordering engine, modelled in Dafny

This project models the ordering engine of the `SortableTrait` of
eloquent-autosort (`src/SortableTrait.php`). The trait keeps an integer order
column on the rows of a table. The rows are split into groups that agree on
the configured group attributes. Soft-deleted rows always count as members of
their group.

The model has four parts:

- **Store.** The table is a `class Table` whose field `rows` maps each primary
  key to a `Row`. A row holds its attribute values, its order value and its
  soft-delete flag. `GroupOf` is the group query `buildSortQuery`. An attribute
  absent from a map stands for SQL NULL, and NULL matches NULL, as Laravel's
  `where(column, null)` does. An ordered read is ascending by order value;
  equal order values are read in ascending key order. `OrderedKeys`, `First`
  and `Last` are these reads, and `Highest`/`Lowest` are `max`/`min`.
  `Table.SetNewOrder` is the `setNewOrder` loop over the ids. Each turn of the
  loop is one `Assigned` update, and `Applied` folds them in order. Its result
  is proved equal to the declarative function `Renumbered`, under which the
  last id that selects a row decides that row's value.
- **SortableTrait.** An in-memory model instance is the `Instance` value: its
  key, its current and original attributes, and its current and original order
  value. Every trait operation is also a function, named `After...`, from the
  old table and instance to the new ones. Dirty tracking (`getDirty`,
  `getChangedAttributes`, `hasChanged*`) and `saveQuietly` are functions too.
  Setting an attribute to NULL removes it from the current attributes; it is
  then dirty, and `saveQuietly` removes it from the stored row.
- **SortableModel.** `class Record` is a model instance whose fields the trait
  methods update in place. Each method performs the source's steps on a
  `Table` (read, `saveQuietly`, bulk `update`/`increment`/`decrement`). Its
  contract ties the new table and fields to the matching `After...` function.
- **TraitProperties.** The lemmas there state what the operations guarantee.

Settings resolve in this order: the model's own `$sortable` entry, then the
application configuration under `eloquent-sortable.`, then the literal
fallback (`Config.Resolve`).

The following quirks of the code are modelled as written:

- **repairOrder.** Both passes read the group of the CURRENT attribute values,
  and the record's key is appended to the second list. The group the record
  leaves is never renumbered.
- **Deleting hook.** It only sets the in-memory order value of the record being
  deleted. Its siblings keep their gap.
- **moveToPosition.** It hard-codes the offsets `- 1` / `+ 1` and removes
  whatever sits at index `original order - 1`.
- **Positions.** PHP's `array_splice` normalises its offset: a negative offset
  counts from the end, and an offset past the end is clamped. So a position of
  0 or less does not mean "first".
- **Direct repairOrder.** Called on a record whose stored row already sits in
  its group, `repairOrder()` lists the record twice in its second pass. The
  record takes the last value, group size + 1, and the group is left with a gap
  (`RepairInPlaceLeavesGap`).
- **moveToStart.** It raises every other member of the group by one. When the
  record is not already first, a densely numbered group therefore keeps its
  numbering only when the record was last; from a middle position a gap opens
  (`MoveToStartDenseIffWasLast`). A record already first changes nothing.

The code, not the prose description of the package, is followed here:

- Deletion does not close the gap.
- A group change does not renumber the old group.
- moveToPosition ignores any start order other than 1.
- moveToStart, called on a record that is not already first, does not keep a dense group dense.

## Model

| member | source | states |
|---|---|---|
| Config.Resolve | src/SortableTrait.php:160-186 | each of the five settings is the model's `$sortable` entry when present; otherwise the application value under `eloquent-sortable.` when present; otherwise the literal fallback `order_column`, `[]`, true, true, true |
| Config.PublishedConfigIsIgnored | src/SortableTrait.php:160-186 | whatever else the application configuration holds, when nothing is stored under `eloquent-sortable.` a model without `$sortable` entries gets the literal fallbacks `order_column`, `[]`, true, true, true |
| Config.PublishedFileHasNoLookupKeys | src/SortableTrait.php:162 | keys under the published `eloquent-autosort.` prefix are never under the `eloquent-sortable.` lookup prefix, so the published file alone never reaches the lookups |
| Store.NoGroupsMeansWholeTable | src/SortableTrait.php:40-54 | with no group attributes the sort query selects every row, soft-deleted ones included |
| Store.First | src/SortableTrait.php:129-132 | the ascending `first()` of a non-empty group is a member that comes before every other member |
| Store.OrderedKeys | src/SortableTrait.php:129-132 | the ascending read lists each member of the group exactly once, sorted by (order, key) |
| Store.OrderedKeysUnique | src/SortableTrait.php:129-132 | any sorted duplicate-free listing of the group is the ascending read |
| Store.NumberedIsOrdered | src/SortableTrait.php:129-132 | a listing of the group numbered start, start+1, ... is its ascending read, and the group is then dense |
| Store.Last | src/SortableTrait.php:208-211 | the descending `first()` of a non-empty group is a member that comes after every other member |
| Store.Highest | src/SortableTrait.php:109-112 | `(int) max(order)` over the group: at least every member's value and held by a member; 0 for an empty group |
| Store.Lowest | src/SortableTrait.php:114-117 | `(int) min(order)` over the group: at most every member's value and held by a member; 0 for an empty group |
| Store.LastMatch | src/SortableTrait.php:148-152 | the index of the last id selecting a row, and none when no id selects it |
| Store.Renumbered | src/SortableTrait.php:148-152 | setNewOrder keeps every row's key, attributes and soft-delete flag and changes only order values |
| Store.RenumberedRow | src/SortableTrait.php:148-152 | a row no id selects is unchanged; a selected row gets startOrder plus the index of the LAST id that selects it |
| Store.Applied | src/SortableTrait.php:148-152 | running the loop's updates one id after another keeps every row's key and attributes |
| Store.AppliedAt | src/SortableTrait.php:148-152 | after the updates run in order, each row holds what the LAST update selecting it wrote, and a row no update selects is unchanged |
| Store.AppliedIsRenumbered | src/SortableTrait.php:148-152 | the update-by-update table equals the declarative `Renumbered` table |
| Store.RenumberedThenOrdered | src/SortableTrait.php:134-153 | setNewOrder over a duplicate-free listing of a group gives the k-th id startOrder + k and makes the listing the group's ascending read |
| Store.Table.SetNewOrder | src/SortableTrait.php:134-153 | a non-array argument fails with InvalidArgument before any write; otherwise the loop, one update per id, leaves exactly the `Renumbered` table |
| Store.Table.Shift | src/SortableTrait.php:255-277 | `increment` (moveToStart, :255) and `decrement` (moveToEnd, :275-277) add delta (+1 or -1) to the rows of the filtered set and leave the other rows as they were |
| Store.Table.SortedGroup | src/SortableTrait.php:289-291 | `ordered()->get()->pluck(key)` lists the group exactly once, in ascending order |
| Splice.SpliceOut | src/SortableTrait.php:294 | `array_splice($a, $o, 1)`: the element at the normalised offset is dropped and the others keep their order; an offset at or past the end drops nothing |
| Splice.SpliceIn | src/SortableTrait.php:297 | `array_splice($a, $o, 0, $x)`: `x` sits at the normalised offset, the elements before it are unchanged and the ones after it are shifted up by one |
| Splice.SpliceOffset | src/SortableTrait.php:294-297 | array_splice's offset: within 0..n as given, negative counted from the end, clamped to 0..n |
| Splice.SpliceInThenRemove | src/SortableTrait.php:297 | splicing the key in puts it at the normalised offset, and removing it from there gives the list back |
| Splice.FirstIndex | src/SortableTrait.php:304 | array_search returns an index holding the key, and no earlier index holds it |
| SortableTrait.Dirty | src/SortableTrait.php:88 | `getDirty`: an attribute is dirty exactly when its current value differs from its original one, NULL counting as a value; none when current and original agree |
| SortableTrait.ChangedAttributes | src/SortableTrait.php:86-100 | the dirty attributes that are group attributes: each is dirty and a group attribute, and every dirty group attribute is included |
| SortableTrait.HasChangedGroupAttributes | src/SortableTrait.php:76-79 | true exactly when some configured group attribute is dirty |
| TraitProperties.SaveClearsDirty | src/SortableTrait.php:76-100 | after saveQuietly nothing is dirty, so neither `hasChangedGroupAttributes` nor `hasChangedOrderColumn` holds |
| TraitProperties.NoChangedAttributesIff | src/SortableTrait.php:76-100 | no group attribute is reported changed exactly when the original and current values agree on every group attribute, a group attribute set to NULL counting as changed |
| TraitProperties.UnchangedGroupSameSortQuery | src/SortableTrait.php:45-54 | without a changed group attribute (NULL assignments included), the sort query on original and on current values selects the same rows |
| SortableModel.Record.BuildSortQuery | src/SortableTrait.php:45-54 | a row is selected exactly when, for every configured group attribute, its stored value equals the record's original value (`$original`) or current value, NULL matching NULL; every row when no groups are configured |
| SortableModel.Record.GetHighestOrderNumber | src/SortableTrait.php:109-112 | at least every member's value of the current group, held by a member, and 0 for an empty group |
| SortableModel.Record.GetLowestOrderNumber | src/SortableTrait.php:114-117 | at most every member's value of the current group, held by a member, and 0 for an empty group |
| SortableModel.Record.IsLastInOrder | src/SortableTrait.php:309-314 | true exactly when the in-memory order equals the group maximum: no member has a higher value and some member holds it, or the value is 0 for an empty group |
| SortableModel.Record.IsFirstInOrder | src/SortableTrait.php:316-321 | true exactly when the in-memory order equals the group minimum: no member has a lower value and some member holds it, or the value is 0 for an empty group |
| SortableModel.Record.SetHighestOrderNumber | src/SortableTrait.php:102-107 | only the in-memory order changes; it exceeds every member's value, and is 1 for an empty group |
| SortableModel.Record.SaveQuietly | src/SortableTrait.php:227-230 | the dirty attributes, and the order value if dirty, are written to the record's row (an attribute set to NULL is removed from it), and the original is synced |
| TraitProperties.SaveStoresCurrent | src/SortableTrait.php:227-230 | saving a record whose row holds the loaded values leaves the row holding exactly the current attributes, NULL assignments included |
| SortableTrait.SaveIdempotent | src/SortableTrait.php:227-230 | saving again, or saving after the sync, writes nothing new |
| SortableModel.Record.RepairOrder | src/SortableTrait.php:56-74 | the table ends as `AfterRepair`: both passes filter on current values and the record's key is appended to the second list |
| TraitProperties.RepairTouchesOnlyCurrentGroup | src/SortableTrait.php:56-74 | whatever the flags, repairOrder changes no row outside the current-value group other than the record's own |
| TraitProperties.RepairInPlaceLeavesGap | src/SortableTrait.php:56-74 | on a freshly read record already in its group, default flags give the record group size + 1 and leave the group not numbered 1..n |
| TraitProperties.RepairNumbersNewGroup | src/SortableTrait.php:56-74 | with default flags and the record's stored row outside the group its current values select, that group keeps its ascending order and is numbered 1..N, and the record's row gets N + 1 |
| SortableModel.Record.MoveToPosition | src/SortableTrait.php:287-307 | returns the record itself; the table and the in-memory order end as `AfterMoveToPosition`: splice out at original order - 1, splice in at position - 1, setNewOrder from 1, order = array_search + 1 |
| SortableModel.Record.MoveToNewPosition | src/SortableTrait.php:282-285 | returns the record itself, after moveToPosition at the record's current in-memory order value |
| TraitProperties.SplicedGroupShape | src/SortableTrait.php:289-297 | with the record at index original order - 1, the assigned list is a duplicate-free listing of the group with the record at the normalised offset and the others in their previous order |
| TraitProperties.MoveToPositionSplices | src/SortableTrait.php:287-307 | the group ends dense 1..n, the record at the normalised offset, the others in their previous relative order, and no row outside the group changes |
| TraitProperties.MoveToPositionOrderValue | src/SortableTrait.php:301-304 | the in-memory order becomes min(position, n) for a position of at least 1, and the normalised offset plus one in general |
| TraitProperties.MoveToPositionTouchesOnlyCurrentGroup | src/SortableTrait.php:287-307 | moveToPosition writes only to the record's row and its current group, and keeps every row's attributes |
| SortableModel.Record.SwapOrderWithModel | src/SortableTrait.php:220-233 | returns the record itself; the table and both records end as `AfterSwap`, also when the other record is the same object |
| SortableModel.SwapOrder | src/SortableTrait.php:235-238 | the static form has the same effect as swapOrderWithModel |
| TraitProperties.SwapExchanges | src/SortableTrait.php:220-233 | for two freshly read records of different rows, exactly their two order values are exchanged and both records then hold what is stored |
| TraitProperties.SwapTwiceRestores | src/SortableTrait.php:220-233 | for two freshly read records (each holding what its row stores) of different rows, swapping them twice restores the table and both records |
| SortableTrait.Above | src/SortableTrait.php:192-195 | none exactly when no member is above the value; otherwise a member above it that comes before every other member above it |
| SortableTrait.Below | src/SortableTrait.php:208-211 | none exactly when no member is below the value; otherwise a member below it that comes after every other member below it |
| SortableModel.Record.MoveOrderDown | src/SortableTrait.php:188-202 | returns the record itself, and the table and record end as `AfterMoveOrderDown` |
| SortableModel.Record.MoveOrderUp | src/SortableTrait.php:204-218 | returns the record itself, and the table and record end as `AfterMoveOrderUp` |
| TraitProperties.MoveOrderDownExchanges | src/SortableTrait.php:188-202 | with no member above, nothing changes; otherwise the order values of the record and the nearest member above are exchanged |
| TraitProperties.MoveOrderUpExchanges | src/SortableTrait.php:204-218 | with no member below, nothing changes; otherwise the order values of the record and the nearest member below are exchanged |
| SortableModel.Record.MoveToStart | src/SortableTrait.php:240-258 | returns the record itself; an empty group fails (null first model) and changes nothing; otherwise the table and record end as `AfterMoveToStart` |
| SortableTrait.MoveToStartBySteps | src/SortableTrait.php:250-255 | the save followed by the increment of every other member is `AfterMoveToStart` |
| TraitProperties.MoveToStartRows | src/SortableTrait.php:250-255 | when the record is not first, its row gets the first member's value, every other member rises by exactly one, and no attribute changes |
| TraitProperties.MoveToStartPutsFirst | src/SortableTrait.php:240-258 | the record becomes first with the first member's old value, and the others keep their order. Unless the record was already first, every other member rises by exactly one. No row outside the group changes |
| TraitProperties.MoveToStartDenseIffWasLast | src/SortableTrait.php:240-258 | for a freshly read record (holding what its row stores) in a group numbered 1..n, when the record is not already first, the result is numbered 1..n exactly when the record was last |
| SortableModel.Record.MoveToEnd | src/SortableTrait.php:260-280 | returns the record itself; the table and record end as `AfterMoveToEnd`: a no-op at the maximum, otherwise the record takes the maximum and members above its old value go down by one |
| SortableTrait.MoveToEndBySteps | src/SortableTrait.php:270-277 | the save followed by the decrement of the members above the old value is `AfterMoveToEnd` |
| TraitProperties.MoveToEndRows | src/SortableTrait.php:260-280 | the record's row gets the maximum, other members above its old value go down by one, the remaining members keep their values, and no row outside the group changes |
| TraitProperties.MoveToEndKeepsDense | src/SortableTrait.php:260-280 | on a group numbered 1..n, the record ends last, the others keep their order, and the group stays numbered 1..n |
| SortableModel.Record.Creating | src/SortableTrait.php:14-18 | the creating hook sets the highest order number plus one when sorting on create is on |
| TraitProperties.CreatingAppendsToDenseGroup | src/SortableTrait.php:14-18 | with sorting on create enabled, on a group numbered 1..n, a new record gets n + 1 and nothing else about it changes |
| SortableTrait.UpdateDispatch | src/SortableTrait.php:20-31 | no branch when sorting on update is off or neither the order column nor a group attribute changed. With sorting on, a move is picked exactly when the order column changed, and a repair exactly when a group attribute changed. Both changed selects the combined branch (`MoveThenRepairOriginal`) |
| SortableModel.Record.Updating | src/SortableTrait.php:20-31 | the updating hook takes the branch `UpdateDispatch` picks and ends as `AfterUpdating` |
| TraitProperties.UpdatingTouchesOnlyNewGroup | src/SortableTrait.php:20-31 | every branch of the updating hook writes only to the record's row and its current group, so the old group keeps its gap |
| SortableModel.Record.Deleting | src/SortableTrait.php:33-37 | the deleting hook changes only the in-memory order value and writes no row |

## Left out

- Event registration, event suppression by `saveQuietly`, and the framework's save after the updating hook: the hooks are methods called directly, and the framework's save is not part of the core.
- `saveQuietly` of a record with no stored row (an insert): the model updates existing rows only, and writes nothing for a missing key.
- The query builder, SQL and the soft-delete global scope: the group query is a filter over the map, and deleted rows are always included.
- Transactions and concurrent writers: the code takes no locks, so every operation is modelled as running alone.
- PHP loose comparison and string-typed order values: order values are integers throughout. The `===` of `moveToEnd` (src/SortableTrait.php:266) is integer equality.
- The order column is kept apart from the attribute maps: the model assumes the order column is not itself a group attribute.
- `getChangedAttributes` returns a list in the dirty attributes' order; `SortableTrait.ChangedAttributes` is its set of names.
- The database's order for equal order values is unspecified: ties are read by ascending key, and the descending read is its exact reverse.
- A NULL order value: order values are integers, so a stored or current order of NULL is not represented. The code's `max`/`min` skip NULL rows, where the ordered read places NULL depends on the database, and `moveToPosition` turns a NULL original order into offset -1; none of these is modelled.
- Null configuration values: an absent or null `$sortable` entry is `None`, and an application value is either present or absent.
- `scopeWithKey` and `setNewOrderByCustomColumn` beyond the `Selector` parameter: `scopeWithKey` is not used by the core, and the custom column is `Selector.ByColumn`.
- The service provider, facade, console command and the configuration file: they are framework wiring and plain data with no ordering logic. `src/Sortable.php` is an interface without behaviour.
- TraitProperties.MoveToPositionSplices and TraitProperties.MoveToPositionOrderValue: proved only when the record sits at index `original order - 1` of its group's ascending read; otherwise the code removes some other member, which `AfterMoveToPosition` still models.
- TraitProperties.SwapExchanges: proved for records that hold what their rows store. A record with unsaved attribute changes is modelled by `AfterSwap` but not characterised further.
- TraitProperties.MoveOrderDownExchanges: proved for a record that holds what its row stores. A record with unsaved changes is modelled by `AfterMoveOrderDown` only.
- TraitProperties.MoveOrderUpExchanges: proved for a record that holds what its row stores. A record with unsaved changes is modelled by `AfterMoveOrderUp` only.
- TraitProperties.MoveToEndRows: proved for a record that holds what its row stores. A record with unsaved changes is modelled by `AfterMoveToEnd` only.
- TraitProperties.MoveToEndKeepsDense: proved for a record that holds what its row stores. A record with unsaved changes is modelled by `AfterMoveToEnd` only.
- TraitProperties.MoveToStartPutsFirst: proved for a record that holds what its row stores. A record with unsaved changes is modelled by `AfterMoveToStart` only.
- TraitProperties.MoveToStartRows: proved for a record that holds what its row stores and is not first. The first-record case is the no-op of `AfterMoveToStart`.
- TraitProperties.MoveToStartDenseIffWasLast: proved for a record that holds what its row stores. For a stale record the code can leave two members on the same value even when the record was last; `AfterMoveToStart` still models that case.
- TraitProperties.SwapTwiceRestores: proved for two records of different rows that each hold what their rows store. A stale record's row takes its in-memory value on the first swap, so two swaps need not restore the table.
- TraitProperties.CreatingAppendsToDenseGroup: proved with sorting on create enabled. With it disabled the hook leaves the order alone, which `SortableModel.Record.Creating` states.
- A store failure partway through the `setNewOrder` loop or between the save and the bulk increment/decrement: every write succeeds in the model. The code has no transaction, so such a failure would leave a partly renumbered group.
