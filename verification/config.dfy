/**
 * Resolution of the five sortable settings: the model's own `$sortable` array
 * wins, then the application configuration under the key prefix
 * "eloquent-sortable.", then a literal fallback.
 */
module Config {
  import opened Base

  /** The model's `$sortable` array; an absent or null entry is `None`. */
  datatype SortableOptions = SortableOptions(
    orderColumnName: Option<string>,
    groups: Option<seq<Attr>>,
    sortWhenCreating: Option<bool>,
    sortWhenUpdating: Option<bool>,
    sortWhenDeleting: Option<bool>)

  /** The application's configuration repository, split by the type of the stored value. */
  datatype AppConfig = AppConfig(
    strings: map<string, string>,
    bools: map<string, bool>,
    lists: map<string, seq<Attr>>)

  /** The effective settings of one sortable model. */
  datatype Settings = Settings(
    orderColumnName: string,
    groups: seq<Attr>,
    sortWhenCreating: bool,
    sortWhenUpdating: bool,
    sortWhenDeleting: bool)

  /** The prefix under which the trait looks its settings up. */
  const LookupPrefix: string := "eloquent-sortable."

  /** The prefix under which the package's configuration file is published. */
  const PublishedPrefix: string := "eloquent-autosort."

  const DefaultOrderColumnName: string := "order_column"

  function StringSetting(o: Option<string>, app: AppConfig, name: string, fallback: string): string
  {
    match o
    case Some(v) => v
    case None => if LookupPrefix + name in app.strings then app.strings[LookupPrefix + name] else fallback
  }

  function BoolSetting(o: Option<bool>, app: AppConfig, name: string, fallback: bool): bool
  {
    match o
    case Some(v) => v
    case None => if LookupPrefix + name in app.bools then app.bools[LookupPrefix + name] else fallback
  }

  function ListSetting(o: Option<seq<Attr>>, app: AppConfig, name: string, fallback: seq<Attr>): seq<Attr>
  {
    match o
    case Some(v) => v
    case None => if LookupPrefix + name in app.lists then app.lists[LookupPrefix + name] else fallback
  }

  /** determineOrderColumnName, getSortableGroups and the three shouldSortWhen* lookups. */
  function Resolve(opts: SortableOptions, app: AppConfig): (s: Settings)
    ensures opts.orderColumnName.Some? ==> s.orderColumnName == opts.orderColumnName.value
    ensures opts.groups.Some? ==> s.groups == opts.groups.value
    ensures opts.sortWhenCreating.Some? ==> s.sortWhenCreating == opts.sortWhenCreating.value
    ensures opts.sortWhenUpdating.Some? ==> s.sortWhenUpdating == opts.sortWhenUpdating.value
    ensures opts.sortWhenDeleting.Some? ==> s.sortWhenDeleting == opts.sortWhenDeleting.value
    ensures opts.orderColumnName.None? ==>
              s.orderColumnName == if LookupPrefix + "order_column_name" in app.strings
                                   then app.strings[LookupPrefix + "order_column_name"] else DefaultOrderColumnName
    ensures opts.groups.None? ==>
              s.groups == if LookupPrefix + "groups" in app.lists then app.lists[LookupPrefix + "groups"] else []
    ensures opts.sortWhenCreating.None? ==>
              s.sortWhenCreating == (LookupPrefix + "sort_when_creating" !in app.bools
                                     || app.bools[LookupPrefix + "sort_when_creating"])
    ensures opts.sortWhenUpdating.None? ==>
              s.sortWhenUpdating == (LookupPrefix + "sort_when_updating" !in app.bools
                                     || app.bools[LookupPrefix + "sort_when_updating"])
    ensures opts.sortWhenDeleting.None? ==>
              s.sortWhenDeleting == (LookupPrefix + "sort_when_deleting" !in app.bools
                                     || app.bools[LookupPrefix + "sort_when_deleting"])
  {
    Settings(
      StringSetting(opts.orderColumnName, app, "order_column_name", DefaultOrderColumnName),
      ListSetting(opts.groups, app, "groups", []),
      BoolSetting(opts.sortWhenCreating, app, "sort_when_creating", true),
      BoolSetting(opts.sortWhenUpdating, app, "sort_when_updating", true),
      BoolSetting(opts.sortWhenDeleting, app, "sort_when_deleting", true))
  }

  /** No key of the configuration lives under the prefix the trait looks its settings up under. */
  ghost predicate NoLookupKeys(app: AppConfig)
  {
    && (forall k :: k in app.strings ==> !(LookupPrefix <= k))
    && (forall k :: k in app.bools ==> !(LookupPrefix <= k))
    && (forall k :: k in app.lists ==> !(LookupPrefix <= k))
  }

  /** Every key of the configuration lives under the published file's prefix. */
  ghost predicate OnlyPublishedKeys(app: AppConfig)
  {
    && (forall k :: k in app.strings ==> PublishedPrefix <= k)
    && (forall k :: k in app.bools ==> PublishedPrefix <= k)
    && (forall k :: k in app.lists ==> PublishedPrefix <= k)
  }

  /** A key under the published prefix is never under the lookup prefix. */
  lemma PrefixesDisjoint(k: string)
    requires PublishedPrefix <= k
    ensures !(LookupPrefix <= k)
  {
    assert k[9] == PublishedPrefix[9] == 'a';
    assert LookupPrefix[9] == 's';
  }

  /**
   * Whatever else the application configuration holds (the published file's
   * "eloquent-autosort." keys, `app.*`, `database.*`, ...), a model without its
   * own `$sortable` entries gets the literal fallbacks as long as nothing is
   * stored under the lookup prefix.
   */
  lemma PublishedConfigIsIgnored(app: AppConfig)
    requires NoLookupKeys(app)
    ensures Resolve(SortableOptions(None, None, None, None, None), app)
         == Settings(DefaultOrderColumnName, [], true, true, true)
  {
    var names := ["order_column_name", "groups", "sort_when_creating", "sort_when_updating", "sort_when_deleting"];
    forall i | 0 <= i < |names|
      ensures LookupPrefix + names[i] !in app.strings
      ensures LookupPrefix + names[i] !in app.bools
      ensures LookupPrefix + names[i] !in app.lists
    {
      var k := LookupPrefix + names[i];
      assert LookupPrefix <= k;
    }
    assert names[0] == "order_column_name";
    assert names[1] == "groups";
    assert names[2] == "sort_when_creating";
    assert names[3] == "sort_when_updating";
    assert names[4] == "sort_when_deleting";
  }

  /** The configuration file as published, with keys only under its own prefix, is one such configuration. */
  lemma PublishedFileHasNoLookupKeys(app: AppConfig)
    requires OnlyPublishedKeys(app)
    ensures NoLookupKeys(app)
  {
    forall k | k in app.strings ensures !(LookupPrefix <= k) { PrefixesDisjoint(k); }
    forall k | k in app.bools ensures !(LookupPrefix <= k) { PrefixesDisjoint(k); }
    forall k | k in app.lists ensures !(LookupPrefix <= k) { PrefixesDisjoint(k); }
  }
}
