/// The secondary-sort display extender for Views tables
/// (src/Plugin/views/display_extender/ViewsSecondarySort.php): the values it
/// works on, `isTable` and `validColumns`.
///
/// The host collaborators are plain inputs: the table style (whether it has
/// `sanitizeColumns`, its configured `columns` and the keys `sanitizeColumns`
/// returns), the field handlers reduced to their `clickSortable()` answers and
/// the field labels. The stored option is in `SecondarySortOption`.
module SecondarySortColumns {
  import opened Collections

  type Key = string

  /** A column label; `None` is the PHP null that a missing `getFieldLabels` entry yields. */
  type Label = Option<string>

  /**
   * The display's style plugin. `sanitized` lists, in order, the keys of
   * `sanitizeColumns(columns)`; its values are never read, because every one is
   * overwritten by a label.
   */
  datatype Style = Style(hasSanitizeColumns: bool, columns: map<Key, Key>, sanitized: seq<Key>)

  /** The catalog of candidate columns: key => label, in PHP array order. */
  type Catalog = OrderedMap<Key, Label>

  function LabelOf(fieldLabels: map<Key, string>, k: Key): Label
  {
    if k in fieldLabels then Some(fieldLabels[k]) else None
  }

  /** `isset($handlers[$k]) && $handlers[$k]->clickSortable()`. */
  function ClickSortable(handlers: map<Key, bool>): Key -> bool
  {
    k => k in handlers && handlers[k]
  }

  function NotClickSortable(handlers: map<Key, bool>): Key -> bool
  {
    k => !(k in handlers && handlers[k])
  }

  function InGroups(style: Style): Key -> bool
  {
    k => k in style.columns.Values
  }

  /**
   * `array_intersect_key($columns, array_flip($groups))`, as keys: the
   * sanitized columns some configured column is grouped under, in sanitized
   * order.
   */
  function Grouped(style: Style): (r: seq<Key>)
    ensures forall k :: k in r <==> k in style.sanitized && k in style.columns.Values
  {
    FilterMembers(style.sanitized, InGroups(style));
    Filter(style.sanitized, InGroups(style))
  }

  /** `isTable()`: the style plugin when it has `sanitizeColumns`, otherwise null. */
  function IsTable(style: Style): (r: Option<Style>)
    ensures r.Some? <==> style.hasSanitizeColumns
    ensures r.Some? ==> r.value == style
  {
    if style.hasSanitizeColumns then Some(style) else None
  }

  // ---------------------------------------------------------------------------
  // validColumns

  /**
   * What `validColumns()` returns. Line 96 unsets a column that is not
   * click-sortable and line 98 assigns it again, which re-appends it: so every
   * grouped column stays, the click-sortable ones first, each group in
   * sanitized order.
   */
  function ColumnCatalog(style: Style, handlers: map<Key, bool>, fieldLabels: map<Key, string>): Catalog
  {
    if IsTable(style).None? then OrderedMap([], map[])
    else
      var grouped := Grouped(style);
      OrderedMap(Filter(grouped, ClickSortable(handlers)) + Filter(grouped, NotClickSortable(handlers)),
                 map k | k in grouped :: LabelOf(fieldLabels, k))
  }

  /**
   * Lines 81-101: no catalog for a style without `sanitizeColumns`; otherwise
   * the sanitized columns some configured column is grouped under, relabelled.
   */
  method ValidColumns(style: Style, handlers: map<Key, bool>, fieldLabels: map<Key, string>)
    returns (columns: Catalog)
    requires Distinct(style.sanitized)
    ensures columns == ColumnCatalog(style, handlers, fieldLabels)
  {
    var table := IsTable(style);
    if table.None? {
      return OrderedMap([], map[]);
    }
    var keys := Grouped(style);
    FilterDistinct(style.sanitized, InGroups(style));
    columns := RelabelColumns(keys, handlers, fieldLabels);
  }

  /**
   * Lines 94-99: the loop over the grouped keys that unsets a column whose
   * handler is not click-sortable and then assigns its label.
   */
  method RelabelColumns(keys: seq<Key>, handlers: map<Key, bool>, fieldLabels: map<Key, string>)
    returns (columns: Catalog)
    requires Distinct(keys)
    ensures columns.keys == Filter(keys, ClickSortable(handlers)) + Filter(keys, NotClickSortable(handlers))
    ensures columns.values == map k | k in keys :: LabelOf(fieldLabels, k)
  {
    // The values sanitizeColumns produced are all overwritten below, so the
    // model starts without them.
    columns := OrderedMap(keys, map[]);
    var i := 0;
    RelabelledStart(keys, handlers, fieldLabels);
    while i < |keys|
      invariant 0 <= i <= |keys|
      invariant Relabelled(columns, keys, i, handlers, fieldLabels)
    {
      columns := RelabelColumn(columns, keys, i, handlers, fieldLabels);
      i := i + 1;
    }
    RelabelledDone(columns, keys, handlers, fieldLabels);
  }

  lemma RelabelledStart(keys: seq<Key>, handlers: map<Key, bool>, fieldLabels: map<Key, string>)
    ensures Relabelled(OrderedMap(keys, map[]), keys, 0, handlers, fieldLabels)
  {
    assert keys[0..] == keys && keys[..0] == [];
  }

  lemma RelabelledDone(columns: Catalog, keys: seq<Key>, handlers: map<Key, bool>, fieldLabels: map<Key, string>)
    requires Relabelled(columns, keys, |keys|, handlers, fieldLabels)
    ensures columns.keys == Filter(keys, ClickSortable(handlers)) + Filter(keys, NotClickSortable(handlers))
    ensures columns.values == map k | k in keys :: LabelOf(fieldLabels, k)
  {
    DoneKeys(keys, handlers);
    assert keys[..|keys|] == keys;
  }

  lemma DoneKeys(keys: seq<Key>, handlers: map<Key, bool>)
    ensures FilterPrefix(keys, |keys|, ClickSortable(handlers)) + keys[|keys|..] + FilterPrefix(keys, |keys|, NotClickSortable(handlers))
         == Filter(keys, ClickSortable(handlers)) + Filter(keys, NotClickSortable(handlers))
  {
    var a := FilterPrefix(keys, |keys|, ClickSortable(handlers));
    var b := FilterPrefix(keys, |keys|, NotClickSortable(handlers));
    DropEmpty(a, keys[|keys|..], b);
    FilterPrefixAll(keys, ClickSortable(handlers));
    FilterPrefixAll(keys, NotClickSortable(handlers));
  }

  /**
   * One turn of the loop at lines 94-99: a column that is not click-sortable
   * is unset, then every column is assigned its label.
   */
  method RelabelColumn(columns: Catalog, keys: seq<Key>, i: nat, handlers: map<Key, bool>, fieldLabels: map<Key, string>)
    returns (next: Catalog)
    requires Distinct(keys) && i < |keys|
    requires Relabelled(columns, keys, i, handlers, fieldLabels)
    ensures Relabelled(next, keys, i + 1, handlers, fieldLabels)
  {
    var key := keys[i];
    next := columns;
    if !(key in handlers && handlers[key]) {
      next := Unset(next, key);
      RelabelMoved(columns, keys, i, handlers, fieldLabels);
    } else {
      RelabelKept(columns, keys, i, handlers, fieldLabels);
    }
    next := Assign(next, key, LabelOf(fieldLabels, key));
  }

  /**
   * The state of `$columns` once the loop at lines 94-99 has seen `keys[..i]`:
   * the click-sortable keys seen, the keys not seen yet, then the keys moved to
   * the end; a label for every key seen.
   */
  ghost predicate Relabelled(columns: Catalog, keys: seq<Key>, i: nat, handlers: map<Key, bool>, fieldLabels: map<Key, string>)
  {
    && i <= |keys|
    && columns.keys == FilterPrefix(keys, i, ClickSortable(handlers)) + keys[i..] + FilterPrefix(keys, i, NotClickSortable(handlers))
    && columns.values == LabelsUpTo(keys, i, fieldLabels)
  }

  /** One turn of the loop at lines 94-99 on a click-sortable key: overwritten in place. */
  lemma RelabelKept(columns: Catalog, keys: seq<Key>, i: nat, handlers: map<Key, bool>, fieldLabels: map<Key, string>)
    requires Distinct(keys) && i < |keys| && keys[i] in handlers && handlers[keys[i]]
    requires Relabelled(columns, keys, i, handlers, fieldLabels)
    ensures Relabelled(Assign(columns, keys[i], LabelOf(fieldLabels, keys[i])), keys, i + 1, handlers, fieldLabels)
  {
    var key := keys[i];
    assert keys[i..] == [key] + keys[i + 1..];
    LabelsStep(keys, i, fieldLabels);
    var kept := FilterPrefix(keys, i, ClickSortable(handlers));
    var moved := FilterPrefix(keys, i, NotClickSortable(handlers));
    assert columns.keys == (kept + [key]) + keys[i + 1..] + moved;
  }

  /** One turn of the loop at lines 94-99 on any other key: unset, then appended. */
  lemma RelabelMoved(columns: Catalog, keys: seq<Key>, i: nat, handlers: map<Key, bool>, fieldLabels: map<Key, string>)
    requires Distinct(keys) && i < |keys| && !(keys[i] in handlers && handlers[keys[i]])
    requires Relabelled(columns, keys, i, handlers, fieldLabels)
    ensures Relabelled(Assign(Unset(columns, keys[i]), keys[i], LabelOf(fieldLabels, keys[i])), keys, i + 1, handlers, fieldLabels)
  {
    var key := keys[i];
    SliceCons(keys, i);
    RelabelStep(keys, i, handlers);
    LabelsStep(keys, i, fieldLabels);
    var kept := FilterPrefix(keys, i, ClickSortable(handlers));
    var moved := FilterPrefix(keys, i, NotClickSortable(handlers));
    assert FilterPrefix(keys, i + 1, ClickSortable(handlers)) == kept;
    assert FilterPrefix(keys, i + 1, NotClickSortable(handlers)) == moved + [key];
    UnsetThenAssign(columns, key, LabelOf(fieldLabels, key), kept, keys[i + 1..], moved);
  }

  /** The values of `$columns` after the loop has seen `keys[..i]`. */
  ghost function LabelsUpTo(keys: seq<Key>, i: nat, fieldLabels: map<Key, string>): map<Key, Label>
    requires i <= |keys|
  {
    map k | k in keys[..i] :: LabelOf(fieldLabels, k)
  }

  /** One turn of the loop at lines 94-99, on the values of `$columns`. */
  lemma LabelsStep(keys: seq<Key>, i: nat, fieldLabels: map<Key, string>)
    requires i < |keys|
    ensures (LabelsUpTo(keys, i, fieldLabels) - {keys[i]})[keys[i] := LabelOf(fieldLabels, keys[i])]
         == LabelsUpTo(keys, i, fieldLabels)[keys[i] := LabelOf(fieldLabels, keys[i])]
         == LabelsUpTo(keys, i + 1, fieldLabels)
  {
    assert keys[..i + 1] == keys[..i] + [keys[i]];
  }

  /** One turn of the loop at lines 94-99, on the keys of `$columns`. */
  lemma RelabelStep(keys: seq<Key>, i: nat, handlers: map<Key, bool>)
    requires Distinct(keys) && i < |keys|
    ensures keys[i] !in FilterPrefix(keys, i, ClickSortable(handlers))
    ensures keys[i] !in FilterPrefix(keys, i, NotClickSortable(handlers))
    ensures keys[i] !in keys[i + 1..]
  {
    var key := keys[i];
    assert key !in keys[..i] && key !in keys[i + 1..] by {
      forall j | 0 <= j < |keys| && j != i ensures keys[j] != key { }
    }
    FilterPrefixMembers(keys, i, ClickSortable(handlers));
    FilterPrefixMembers(keys, i, NotClickSortable(handlers));
  }

  /**
   * The catalog holds each grouped sanitized column once, labelled from
   * `getFieldLabels`, and nothing when the style has no `sanitizeColumns`.
   */
  lemma CatalogContents(style: Style, handlers: map<Key, bool>, fieldLabels: map<Key, string>)
    requires Distinct(style.sanitized)
    ensures WellFormed(ColumnCatalog(style, handlers, fieldLabels))
    ensures forall k :: k in ColumnCatalog(style, handlers, fieldLabels).values <==>
                          style.hasSanitizeColumns && k in style.sanitized && k in style.columns.Values
    ensures forall k :: k in ColumnCatalog(style, handlers, fieldLabels).values ==>
                          ColumnCatalog(style, handlers, fieldLabels).values[k] == LabelOf(fieldLabels, k)
  {
    if style.hasSanitizeColumns {
      var grouped := Grouped(style);
      FilterDistinct(style.sanitized, InGroups(style));
      FilterDistinct(grouped, ClickSortable(handlers));
      FilterDistinct(grouped, NotClickSortable(handlers));
      FilterMembers(style.sanitized, InGroups(style));
      FilterMembers(grouped, ClickSortable(handlers));
      FilterMembers(grouped, NotClickSortable(handlers));
      DistinctConcat(Filter(grouped, ClickSortable(handlers)), Filter(grouped, NotClickSortable(handlers)));
    }
  }

  /**
   * `clickSortable()` never shrinks the catalog: whatever the handlers say, its
   * keys are the grouped sanitized columns, each once.
   */
  lemma CatalogKeysIgnoreClickSortable(style: Style, handlers: map<Key, bool>, fieldLabels: map<Key, string>)
    requires style.hasSanitizeColumns
    ensures multiset(ColumnCatalog(style, handlers, fieldLabels).keys) == multiset(Grouped(style))
  {
    FilterSplit(Grouped(style), ClickSortable(handlers), NotClickSortable(handlers));
  }

  /** A click-sortable column never comes after one that is not. */
  lemma CatalogSortableFirst(style: Style, handlers: map<Key, bool>, fieldLabels: map<Key, string>)
    ensures var keys := ColumnCatalog(style, handlers, fieldLabels).keys;
            forall i, j :: 0 <= i < j < |keys| && ClickSortable(handlers)(keys[j]) ==> ClickSortable(handlers)(keys[i])
  {
    if style.hasSanitizeColumns {
      var grouped := Grouped(style);
      var a := Filter(grouped, ClickSortable(handlers));
      var b := Filter(grouped, NotClickSortable(handlers));
      FilterMembers(grouped, ClickSortable(handlers));
      FilterMembers(grouped, NotClickSortable(handlers));
      forall i, j | 0 <= i < j < |a + b| && ClickSortable(handlers)((a + b)[j])
        ensures ClickSortable(handlers)((a + b)[i])
      {
        ConcatIndex(a, b, i);
        ConcatIndex(a, b, j);
      }
    }
  }

  /** As written, a column whose handler is not click-sortable is still offered. */
  lemma NonSortableColumnListed()
    ensures var style := Style(true, map["title" := "title"], ["title"]);
            var handlers := map["title" := false];
            && !ClickSortable(handlers)("title")
            && "title" in ColumnCatalog(style, handlers, map["title" := "Title"]).values
  {
    var style := Style(true, map["title" := "title"], ["title"]);
    assert "title" in style.columns.Values by {
      assert style.columns["title"] == "title";
    }
    assert Grouped(style) == ["title"];
  }

  /**
   * The catalog the comment at line 87 describes: only the grouped sanitized
   * columns whose handler is click-sortable, in sanitized order.
   */
  function SortableCatalog(style: Style, handlers: map<Key, bool>, fieldLabels: map<Key, string>): (c: Catalog)
    requires Distinct(style.sanitized)
    ensures WellFormed(c)
    ensures forall k :: k in c.values <==>
                          && style.hasSanitizeColumns && k in style.sanitized && k in style.columns.Values
                          && k in handlers && handlers[k]
    ensures forall k :: k in c.values ==> c.values[k] == LabelOf(fieldLabels, k)
  {
    if IsTable(style).None? then OrderedMap([], map[])
    else
      FilterDistinct(style.sanitized, InGroups(style));
      FilterDistinct(Grouped(style), ClickSortable(handlers));
      FilterMembers(style.sanitized, InGroups(style));
      FilterMembers(Grouped(style), ClickSortable(handlers));
      var keys := Filter(Grouped(style), ClickSortable(handlers));
      OrderedMap(keys, map k | k in keys :: LabelOf(fieldLabels, k))
  }

  /**
   * The corrected catalog is what the code's catalog holds before its first
   * column that is not click-sortable: the code only appends those columns
   * after it, with the same labels.
   */
  lemma SortableCatalogIsPrefix(style: Style, handlers: map<Key, bool>, fieldLabels: map<Key, string>)
    requires Distinct(style.sanitized)
    ensures var written := ColumnCatalog(style, handlers, fieldLabels);
            var intended := SortableCatalog(style, handlers, fieldLabels);
            && written.keys[..|intended.keys|] == intended.keys
            && (forall i :: |intended.keys| <= i < |written.keys| ==> !ClickSortable(handlers)(written.keys[i]))
            && (forall k :: k in intended.values ==> k in written.values && written.values[k] == intended.values[k])
  {
    if style.hasSanitizeColumns {
      var grouped := Grouped(style);
      var a := Filter(grouped, ClickSortable(handlers));
      var b := Filter(grouped, NotClickSortable(handlers));
      assert ColumnCatalog(style, handlers, fieldLabels).keys == a + b;
      assert SortableCatalog(style, handlers, fieldLabels).keys == a;
      ConcatParts(a, b);
      assert forall k :: k in b ==> !ClickSortable(handlers)(k) by {
        FilterMembers(grouped, NotClickSortable(handlers));
      }
      assert forall k :: k in a ==> k in grouped by {
        FilterMembers(grouped, ClickSortable(handlers));
      }
    }
  }
}
