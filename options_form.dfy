/// `buildOptionsForm` of the secondary-sort display extender
/// (src/Plugin/views/display_extender/ViewsSecondarySort.php, lines 106-209):
/// the live path that returns at line 145, and the region builder after it.
module SecondarySortForm {
  import opened Collections
  import opened SecondarySortColumns
  import opened SecondarySortOption

  /**
   * A row of the `secondary_sort` table. The live form writes `LiveRow`s
   * (lines 138-142); the region builder after line 145 writes `EditRow`s,
   * whose `secondarySort` is the row's `#secondary_sort` and hidden `sort` value.
   */
  datatype Row =
    | LiveRow(name: Label, weight: int, order: Direction)
    | EditRow(secondarySort: bool, name: Label, weight: int, order: Direction)

  /** `$form['secondary_sort']`: absent, a titled message, or a table of rows by column key. */
  datatype Element =
    | NoElement
    | Message(title: string, markup: string)
    | Table(rows: OrderedMap<Key, Row>)

  /** The parts of the by-reference `$form` the extender writes. */
  datatype Form = Form(title: string, secondarySort: Element)

  const Heading: string := "Secondary sorts"
  const NotTableText: string := "Secondary sorts only apply to table styles."
  const NoColumnsText: string := "No sortable columns."
  const LiveWeight: int := 10

  /**
   * Lines 106-145: for the `secondary_sort` section, a message when the display
   * is not a table or has no candidate column, otherwise one row per catalog
   * column, in catalog order, with its label, weight 10 and order `asc`.
   */
  method BuildOptionsForm(section: string, form: Form, style: Style, handlers: map<Key, bool>, fieldLabels: map<Key, string>)
    returns (result: Form)
    requires Distinct(style.sanitized)
    ensures section != SecondarySortSection ==> result == form
    ensures section == SecondarySortSection && !style.hasSanitizeColumns ==>
              result == Form(form.title + Heading, Message(Heading, NotTableText))
    ensures section == SecondarySortSection && style.hasSanitizeColumns &&
            ColumnCatalog(style, handlers, fieldLabels).keys == [] ==>
              result == Form(form.title + Heading, Message(Heading, NoColumnsText))
    ensures section == SecondarySortSection && style.hasSanitizeColumns &&
            ColumnCatalog(style, handlers, fieldLabels).keys != [] ==>
              var valid := ColumnCatalog(style, handlers, fieldLabels);
              && result.title == form.title + Heading
              && result.secondarySort.Table?
              && result.secondarySort.rows.keys == valid.keys
              && result.secondarySort.rows.values.Keys == valid.values.Keys
              && forall k :: k in valid.values ==>
                   result.secondarySort.rows.values[k] == LiveRow(valid.values[k], LiveWeight, Asc)
  {
    if section != SecondarySortSection {
      return form;
    }
    result := Form(form.title + Heading, Message(Heading, ""));
    if IsTable(style).None? {
      result := result.(secondarySort := Message(Heading, NotTableText));
      return;
    }
    var valid := ValidColumns(style, handlers, fieldLabels);
    CatalogContents(style, handlers, fieldLabels);
    if valid.keys == [] {
      result := result.(secondarySort := Message(Heading, NoColumnsText));
      return;
    }
    var rows := LiveRows(valid);
    result := result.(secondarySort := Table(rows));
  }

  /** Lines 137-143: the loop that adds one live row per catalog column. */
  method LiveRows(valid: Catalog) returns (rows: OrderedMap<Key, Row>)
    requires WellFormed(valid)
    ensures rows.keys == valid.keys
    ensures rows.values.Keys == valid.values.Keys
    ensures forall k :: k in valid.values ==> rows.values[k] == LiveRow(valid.values[k], LiveWeight, Asc)
  {
    rows := OrderedMap([], map[]);
    var i := 0;
    while i < |valid.keys|
      invariant 0 <= i <= |valid.keys|
      invariant rows.keys == valid.keys[..i]
      invariant forall k :: k in rows.values <==> k in valid.keys[..i]
      invariant forall k :: k in rows.values ==> rows.values[k] == LiveRow(valid.values[k], LiveWeight, Asc)
    {
      var key := valid.keys[i];
      assert key !in valid.keys[..i];
      rows := Assign(rows, key, LiveRow(valid.values[key], LiveWeight, Asc));
      assert valid.keys[..i + 1] == valid.keys[..i] + [key];
      i := i + 1;
    }
    assert valid.keys[..i] == valid.keys;
  }

  // ---------------------------------------------------------------------------
  // buildOptionsForm, region builder (lines 147-209, after the `return` at 145)

  /** The `rows` of the `sort` and `no_sort` regions of lines 159-169. */
  datatype Regions = Regions(sort: seq<Key>, noSort: seq<Key>)

  /** `isset($valid[$field])`: a catalog column whose label is not null. */
  predicate IsSet(valid: Catalog, f: Key)
  {
    f in valid.values && valid.values[f].Some?
  }

  function Assignable(valid: Catalog): Key -> bool
  {
    f => IsSet(valid, f)
  }

  function NotIn(s: seq<Key>): Key -> bool
  {
    k => k !in s
  }

  /** `$order`: the stored fields still in the catalog, in stored order. */
  function SortRegion(valid: Catalog, sorts: seq<SortEntry>): seq<Key>
  {
    Filter(Fields(sorts), Assignable(valid))
  }

  /** `array_diff(array_keys($valid), $order)`: the other catalog columns, in catalog order. */
  function NoSortRegion(valid: Catalog, sorts: seq<SortEntry>): (r: seq<Key>)
    ensures forall k :: k in r <==> k in valid.keys && k !in SortRegion(valid, sorts)
  {
    FilterMembers(valid.keys, NotIn(SortRegion(valid, sorts)));
    Filter(valid.keys, NotIn(SortRegion(valid, sorts)))
  }

  /** The rows in the order the nested loop of lines 178-209 visits them. */
  function Listing(valid: Catalog, sorts: seq<SortEntry>): seq<Key>
  {
    SortRegion(valid, sorts) + NoSortRegion(valid, sorts)
  }

  /** The index of the last of `sorts[..n]` stored for field `f`. */
  function LastEntryIndex(sorts: seq<SortEntry>, n: nat, f: Key): (r: Option<nat>)
    requires n <= |sorts|
    ensures r.Some? ==> r.value < n && sorts[r.value].field == f
    ensures r.Some? ==> forall j :: r.value < j < n ==> sorts[j].field != f
    ensures r.None? ==> forall j :: 0 <= j < n ==> sorts[j].field != f
  {
    if n == 0 then None
    else if sorts[n - 1].field == f then Some(n - 1)
    else LastEntryIndex(sorts, n - 1, f)
  }

  /**
   * Line 205: the order of the setting `$settings[$field]` kept for a sorted
   * field (the last stored entry for it), `asc` when there is none.
   */
  function RowOrder(valid: Catalog, sorts: seq<SortEntry>, f: Key): Direction
  {
    match LastEntryIndex(sorts, |sorts|, f)
    case Some(j) => if IsSet(valid, f) then sorts[j].order else Asc
    case None => Asc
  }

  function LabelIn(valid: Catalog, f: Key): Label
  {
    if f in valid.values then valid.values[f] else None
  }

  /** The row written at the `j`-th visit of lines 179-207, with `$weight` at `j`. */
  function RowAt(valid: Catalog, sorts: seq<SortEntry>, j: nat): Row
    requires j < |Listing(valid, sorts)|
  {
    var field := Listing(valid, sorts)[j];
    EditRow(j < |SortRegion(valid, sorts)|, LabelIn(valid, field), j, RowOrder(valid, sorts, field))
  }

  /** `$settings[$field]`: the setting kept for a field, null when there is none. */
  function SettingOf(settings: map<Key, SortEntry>, f: Key): Option<SortEntry>
  {
    if f in settings then Some(settings[f]) else None
  }

  /** Line 205: `$setting ? $setting['order'] : 'asc'`. */
  function OrderFrom(setting: Option<SortEntry>): Direction
  {
    match setting
    case Some(s) => s.order
    case None => Asc
  }

  /**
   * Lines 147-209: builds `$order` and `$settings` from the stored sorts, the
   * two regions, and then rewrites each catalog column's row with its region
   * flag, running weight and order.
   */
  method BuildRegionRows(valid: Catalog, sorts: seq<SortEntry>, table: OrderedMap<Key, Row>)
    returns (regions: Regions, rows: OrderedMap<Key, Row>)
    requires WellFormed(valid) && WellFormed(table) && table.keys == valid.keys
    ensures regions == Regions(SortRegion(valid, sorts), NoSortRegion(valid, sorts))
    ensures rows.keys == valid.keys && rows.values.Keys == valid.values.Keys
    ensures forall k :: k in valid.values ==>
              k in Listing(valid, sorts) &&
              rows.values[k] == RowAt(valid, sorts, LastIndex(Listing(valid, sorts), k))
  {
    var order, settings := CollectSettings(valid, sorts);
    regions := Regions(order, Filter(valid.keys, NotIn(order)));
    RegionsPartitionCatalog(valid, sorts);
    rows := PlaceRows(valid, regions, settings, table);
    SameKeys(valid, table);
    forall k | k in valid.values
      ensures k in Listing(valid, sorts)
      ensures rows.values[k] == RowAt(valid, sorts, LastIndex(Listing(valid, sorts), k))
    {
      PlacedRow(valid, sorts, regions, settings, table, rows, k);
    }
  }

  lemma SameKeys<V>(valid: Catalog, table: OrderedMap<Key, V>)
    requires WellFormed(valid) && WellFormed(table) && table.keys == valid.keys
    ensures table.values.Keys == valid.values.Keys
  {
  }

  /** Lines 148-156: the stored fields still set in the catalog, and the last stored entry for each. */
  method CollectSettings(valid: Catalog, sorts: seq<SortEntry>) returns (order: seq<Key>, settings: map<Key, SortEntry>)
    ensures order == SortRegion(valid, sorts)
    ensures forall f :: f in settings <==> IsSet(valid, f) && LastEntryIndex(sorts, |sorts|, f).Some?
    ensures forall f :: f in settings ==> settings[f] == sorts[LastEntryIndex(sorts, |sorts|, f).value]
    ensures forall f :: OrderFrom(SettingOf(settings, f)) == RowOrder(valid, sorts, f)
  {
    order := [];
    settings := map[];
    var i := 0;
    while i < |sorts|
      invariant 0 <= i <= |sorts|
      invariant order == FilterPrefix(Fields(sorts), i, Assignable(valid))
      invariant forall f :: f in settings ==> IsSet(valid, f) && LastEntryIndex(sorts, i, f).Some?
      invariant forall f :: IsSet(valid, f) && LastEntryIndex(sorts, i, f).Some? ==> f in settings
      invariant forall f :: f in settings ==> settings[f] == sorts[LastEntryIndex(sorts, i, f).value]
    {
      var sort := sorts[i];
      assert Fields(sorts)[i] == sort.field;
      if IsSet(valid, sort.field) {
        order := order + [sort.field];
        settings := settings[sort.field := sort];
      }
      i := i + 1;
    }
    FilterPrefixAll(Fields(sorts), Assignable(valid));
  }

  /**
   * Lines 177-209: the `sort` rows, then the `no_sort` rows, each visit
   * overwriting its column's row in place with the region flag, the running
   * weight and the order of its setting. A column visited twice keeps its last row.
   */
  method PlaceRows(valid: Catalog, regions: Regions, settings: map<Key, SortEntry>, table: OrderedMap<Key, Row>)
    returns (rows: OrderedMap<Key, Row>)
    requires forall k :: k in regions.sort ==> k in table.keys && k in table.values
    requires forall k :: k in regions.noSort ==> k in table.keys && k in table.values
    ensures WrittenOver(rows, table, regions.sort + regions.noSort,
                        VisitRows(valid, regions, settings, regions.sort + regions.noSort))
  {
    rows := table;
    var weight := 0;
    ghost var visited: seq<Key> := [];
    WrittenOverStart(table);
    var j := 0;
    while j < |regions.sort|
      invariant 0 <= j <= |regions.sort| && weight == j
      invariant visited == regions.sort[..j]
      invariant WrittenOver(rows, table, visited, VisitRows(valid, regions, settings, visited))
    {
      var field := regions.sort[j];
      var setting := SettingOf(settings, field);
      var row := EditRow(true, LabelIn(valid, field), weight, OrderFrom(setting));
      PlaceStep(rows, table, valid, regions, settings, visited, field, weight, row);
      rows := Assign(rows, field, row);
      assert regions.sort[..j + 1] == visited + [field];
      visited := visited + [field];
      weight := weight + 1;
      j := j + 1;
    }
    assert visited == regions.sort;
    j := 0;
    while j < |regions.noSort|
      invariant 0 <= j <= |regions.noSort| && weight == |regions.sort| + j
      invariant visited == regions.sort + regions.noSort[..j]
      invariant WrittenOver(rows, table, visited, VisitRows(valid, regions, settings, visited))
    {
      var field := regions.noSort[j];
      var setting := SettingOf(settings, field);
      var row := EditRow(false, LabelIn(valid, field), weight, OrderFrom(setting));
      PlaceStep(rows, table, valid, regions, settings, visited, field, weight, row);
      rows := Assign(rows, field, row);
      assert regions.sort + regions.noSort[..j + 1] == visited + [field];
      visited := visited + [field];
      weight := weight + 1;
      j := j + 1;
    }
    assert visited == regions.sort + regions.noSort;
  }

  /** Once every visit is done, each catalog column holds the row `RowAt` gives its last visit. */
  lemma PlacedRow(valid: Catalog, sorts: seq<SortEntry>, regions: Regions, settings: map<Key, SortEntry>,
                  table: OrderedMap<Key, Row>, rows: OrderedMap<Key, Row>, k: Key)
    requires WellFormed(valid) && k in valid.values
    requires regions == Regions(SortRegion(valid, sorts), NoSortRegion(valid, sorts))
    requires forall f :: OrderFrom(SettingOf(settings, f)) == RowOrder(valid, sorts, f)
    requires WrittenOver(rows, table, Listing(valid, sorts), VisitRows(valid, regions, settings, Listing(valid, sorts)))
    requires k in rows.values
    ensures k in Listing(valid, sorts)
    ensures rows.values[k] == RowAt(valid, sorts, LastIndex(Listing(valid, sorts), k))
  {
    var listing := Listing(valid, sorts);
    RegionsPartitionCatalog(valid, sorts);
    var w := LastIndex(listing, k);
    assert VisitRows(valid, regions, settings, listing)[w] == VisitRow(valid, regions, settings, listing, w);
  }

  /** The row the `m`-th visit writes, for the field `visited[m]`. */
  function VisitRow(valid: Catalog, regions: Regions, settings: map<Key, SortEntry>, visited: seq<Key>, m: nat): Row
    requires m < |visited|
  {
    EditRow(m < |regions.sort|, LabelIn(valid, visited[m]), m, OrderFrom(SettingOf(settings, visited[m])))
  }

  /** The rows the visits of `visited` write, in visiting order. */
  function VisitRows(valid: Catalog, regions: Regions, settings: map<Key, SortEntry>, visited: seq<Key>): seq<Row>
  {
    seq(|visited|, m requires 0 <= m < |visited| => VisitRow(valid, regions, settings, visited, m))
  }

  /** One visit of lines 179-207: `$table[$field] = $row` overwrites the field's row in place. */
  lemma PlaceStep(rows: OrderedMap<Key, Row>, table: OrderedMap<Key, Row>, valid: Catalog, regions: Regions,
                  settings: map<Key, SortEntry>, visited: seq<Key>, field: Key, weight: int, row: Row)
    requires WrittenOver(rows, table, visited, VisitRows(valid, regions, settings, visited))
    requires field in table.keys && field in table.values
    requires weight == |visited|
    requires row == EditRow(weight < |regions.sort|, LabelIn(valid, field), weight, OrderFrom(SettingOf(settings, field)))
    ensures WrittenOver(Assign(rows, field, row), table, visited + [field], VisitRows(valid, regions, settings, visited + [field]))
  {
    var before := VisitRows(valid, regions, settings, visited);
    var after := VisitRows(valid, regions, settings, visited + [field]);
    assert after == before + [row] by {
      assert |after| == |before| + 1;
      forall m | 0 <= m < |after| ensures after[m] == (before + [row])[m] {
        if m < |visited| {
          assert (visited + [field])[m] == visited[m];
        }
      }
    }
    WrittenOverStep(rows, table, visited, before, field, row);
  }

  /**
   * Line 162 and 167: the two regions together hold every catalog column and
   * nothing else, no column is in both, and with distinct stored fields every
   * column is listed exactly once.
   */
  lemma RegionsPartitionCatalog(valid: Catalog, sorts: seq<SortEntry>)
    requires WellFormed(valid)
    ensures forall k :: k in Listing(valid, sorts) <==> k in valid.keys
    ensures forall k :: k in NoSortRegion(valid, sorts) ==> k !in SortRegion(valid, sorts)
    ensures Distinct(NoSortRegion(valid, sorts))
    ensures Distinct(Fields(sorts)) ==> Distinct(Listing(valid, sorts))
  {
    var sortRegion := SortRegion(valid, sorts);
    FilterMembers(Fields(sorts), Assignable(valid));
    FilterMembers(valid.keys, NotIn(sortRegion));
    FilterDistinct(valid.keys, NotIn(sortRegion));
    if Distinct(Fields(sorts)) {
      FilterDistinct(Fields(sorts), Assignable(valid));
      DistinctConcat(sortRegion, NoSortRegion(valid, sorts));
    }
  }

  /**
   * Lines 151-156 and 162: a field is in the `sort` region exactly when it is
   * stored and still set in the catalog; stale fields are dropped.
   */
  lemma SortRegionStored(valid: Catalog, sorts: seq<SortEntry>)
    ensures forall f :: f in SortRegion(valid, sorts) <==>
                          IsSet(valid, f) && exists j :: 0 <= j < |sorts| && sorts[j].field == f
  {
    FilterMembers(Fields(sorts), Assignable(valid));
    forall f | f in Fields(sorts) ensures exists j :: 0 <= j < |sorts| && sorts[j].field == f {
      var j :| 0 <= j < |Fields(sorts)| && Fields(sorts)[j] == f;
    }
    forall f | exists j :: 0 <= j < |sorts| && sorts[j].field == f ensures f in Fields(sorts) {
      var j :| 0 <= j < |sorts| && sorts[j].field == f;
      assert Fields(sorts)[j] == f;
    }
  }

  /**
   * Lines 177-194: with distinct stored fields the weights run 0, 1, 2, …
   * over the listing, one per catalog column, each equal to the column's position.
   */
  lemma WeightsConsecutive(valid: Catalog, sorts: seq<SortEntry>)
    requires WellFormed(valid) && Distinct(Fields(sorts))
    ensures |Listing(valid, sorts)| == |valid.keys|
    ensures forall j :: 0 <= j < |Listing(valid, sorts)| ==>
              RowAt(valid, sorts, LastIndex(Listing(valid, sorts), Listing(valid, sorts)[j])).weight == j
  {
    var listing := Listing(valid, sorts);
    RegionsPartitionCatalog(valid, sorts);
    assert (set k | k in listing) == (set k | k in valid.keys);
    DistinctCard(listing);
    DistinctCard(valid.keys);
    forall j | 0 <= j < |listing| ensures LastIndex(listing, listing[j]) == j {
      var w := LastIndex(listing, listing[j]);
      assert listing[w] == listing[j];
    }
  }

  /**
   * Lines 180-205: a column's row is flagged exactly when it is in the `sort`
   * region, carries its catalog label, and takes the order of the last stored
   * entry for it, or `asc` when it is not sorted.
   */
  lemma RowFlagsAndOrder(valid: Catalog, sorts: seq<SortEntry>, k: Key)
    requires WellFormed(valid) && k in valid.keys
    ensures k in Listing(valid, sorts)
    ensures var row := RowAt(valid, sorts, LastIndex(Listing(valid, sorts), k));
            && (row.secondarySort <==> k in SortRegion(valid, sorts))
            && row.name == valid.values[k]
            && (k !in SortRegion(valid, sorts) ==> row.order == Asc)
            && (k in SortRegion(valid, sorts) ==>
                  exists j :: && 0 <= j < |sorts| && sorts[j].field == k && sorts[j].order == row.order
                              && forall j' :: j < j' < |sorts| ==> sorts[j'].field != k)
  {
    var sortRegion := SortRegion(valid, sorts);
    var noSort := NoSortRegion(valid, sorts);
    var listing := Listing(valid, sorts);
    RegionsPartitionCatalog(valid, sorts);
    SortRegionStored(valid, sorts);
    var w := LastIndex(listing, k);
    ConcatIndex(sortRegion, noSort, w);
    if k in sortRegion {
      var j :| 0 <= j < |sorts| && sorts[j].field == k;
      assert LastEntryIndex(sorts, |sorts|, k).Some?;
    }
  }
}
