# Secondary sorts for Views tables, modelled in Dafny

The Drupal module `views_secondary_sort` adds a display extender to Views
tables. The extender builds a catalog of candidate columns from the table
style. It summarises the stored `secondary_sort` option. It also builds the
`secondary_sort` section of the display's options form. This project models
that extender, `src/Plugin/views/display_extender/ViewsSecondarySort.php`, and
proves what each of its computations returns.

The host collaborators are inputs:

- the style plugin: whether it has `sanitizeColumns`, its `options['columns']`
  (field => group column) and the keys `sanitizeColumns` returns, in order;
- the field handlers, reduced to a field => `clickSortable()` map;
- `getFieldLabels()`, as a field => label map; a missing label is PHP null
  (`None`);
- the stored option, as a sequence of `{field, order}` entries.

PHP arrays are modelled as `Collections.OrderedMap`: a key sequence in
insertion order plus a key => value map. `Unset` removes a key and keeps the
others in order. `Assign` overwrites a present key where it stands and appends
a new one.

Modules:

- `Collections` (`collections.dfy`): sequences, PHP arrays, `implode`.
- `SecondarySortColumns` (`columns.dfy`): the style and catalog values,
  `isTable` and `validColumns`.
- `SecondarySortOption` (`stored_option.dfy`): the stored `secondary_sort`
  option, read by the summary and the form.
- `SecondarySortSummary` (`summary.dfy`): `optionsSummary`.
- `SecondarySortForm` (`options_form.dfy`): `buildOptionsForm`. This covers
  the live path that returns at line 145 and the region builder written
  after that `return`.

`validColumns` unsets a column that is not click-sortable (line 96). Line 98
then assigns it again, which appends it at the end. So the catalog holds every
grouped column: the click-sortable ones first, then the others. The model
follows this code, not the comment at line 87 (see Findings). The form is
stated for that as-written catalog.

The region builder (lines 147-209) can never run, because of the `return` at
line 145. It is modelled as its own method, `BuildRegionRows`. It takes the
table the live path has just built. Its contracts and lemmas hold for any
well-formed catalog, including the corrected `SortableCatalog`.

## Model

| member | source | states |
|---|---|---|
| `SecondarySortColumns.IsTable` | src/Plugin/views/display_extender/ViewsSecondarySort.php:70-76 | The result is the style itself iff the style has `sanitizeColumns`, and null otherwise. |
| `SecondarySortColumns.Grouped` | src/Plugin/views/display_extender/ViewsSecondarySort.php:88-90 | A column is kept iff it is a sanitized column and some configured column is grouped under it. Sanitized order is kept. |
| `SecondarySortColumns.ValidColumns` | src/Plugin/views/display_extender/ViewsSecondarySort.php:81-101 | The result is exactly `ColumnCatalog`. It is empty when the style has no `sanitizeColumns`. Otherwise it holds the grouped sanitized columns, click-sortable ones first, each group in sanitized order, each labelled from `getFieldLabels`. |
| `SecondarySortColumns.RelabelColumns` | src/Plugin/views/display_extender/ViewsSecondarySort.php:94-99 | After the unset-then-assign loop, the keys are the click-sortable keys followed by the other keys, each in input order. Every key maps to its label, or to null when it has none. |
| `SecondarySortColumns.RelabelColumn` | src/Plugin/views/display_extender/ViewsSecondarySort.php:95-98 | One turn of the loop keeps the loop invariant: after it, the keys seen so far are placed as the finished loop places them, each with its label. |
| `SecondarySortColumns.RelabelKept` | src/Plugin/views/display_extender/ViewsSecondarySort.php:95-98 | A turn on a click-sortable key overwrites it in place and keeps the loop invariant. |
| `SecondarySortColumns.RelabelMoved` | src/Plugin/views/display_extender/ViewsSecondarySort.php:95-98 | A turn on a key that is not click-sortable moves it behind every key seen so far and still to come. |
| `SecondarySortColumns.CatalogContents` | src/Plugin/views/display_extender/ViewsSecondarySort.php:70-99 | The catalog is a well-formed array. A key is in it iff the style has `sanitizeColumns`, the key is a sanitized column and some configured column is grouped under it. Its value is the field's label. |
| `SecondarySortColumns.CatalogKeysIgnoreClickSortable` | src/Plugin/views/display_extender/ViewsSecondarySort.php:88-99 | For a table style, the catalog's keys are a permutation of the grouped sanitized columns, whatever `clickSortable()` answers. |
| `SecondarySortColumns.CatalogSortableFirst` | src/Plugin/views/display_extender/ViewsSecondarySort.php:94-99 | No click-sortable column comes after one that is not. |
| `SecondarySortColumns.NonSortableColumnListed` | src/Plugin/views/display_extender/ViewsSecondarySort.php:87-98 | Counterexample: a grouped column whose handler is not click-sortable is still in the catalog. |
| `SecondarySortColumns.SortableCatalog` | src/Plugin/views/display_extender/ViewsSecondarySort.php:87 | The catalog the comment promises: well-formed, holding exactly the grouped sanitized columns whose handler is click-sortable, each with its label. |
| `SecondarySortColumns.SortableCatalogIsPrefix` | src/Plugin/views/display_extender/ViewsSecondarySort.php:87-99 | The intended catalog is a prefix of the written one with the same labels. Every column after that prefix is not click-sortable. |
| `SecondarySortSummary.OptionsSummary` | src/Plugin/views/display_extender/ViewsSecondarySort.php:44-65 | `$options['secondary_sort']` is set, or overwritten in place, to category `other`, title `Secondary sort`, the summary value and the description. The rest of `$options` is unchanged. |
| `SecondarySortSummary.SummaryRoundTrip` | src/Plugin/views/display_extender/ViewsSecondarySort.php:50-53 | When something is stored, no field contains a comma and the joined string is not falsy, splitting the summary at `", "` gives back the stored fields in stored order. |
| `SecondarySortSummary.SummaryNo` | src/Plugin/views/display_extender/ViewsSecondarySort.php:49-57 | The summary is "No" iff nothing is stored, or the single stored field is "", "0" or "No". Two or more fields are always listed. |
| `SecondarySortForm.BuildOptionsForm` | src/Plugin/views/display_extender/ViewsSecondarySort.php:106-145 | Another section leaves the form alone. A non-table gets only the "only apply to table styles" message, and an empty catalog only "No sortable columns.". Otherwise there is one row per catalog column, in catalog order, with its label, weight 10 and order `asc`. In every `secondary_sort` case the form title gains "Secondary sorts". |
| `SecondarySortForm.LiveRows` | src/Plugin/views/display_extender/ViewsSecondarySort.php:137-143 | The table has exactly the catalog's keys, in catalog order. Each key holds the live row with its label, weight 10 and `asc`. |
| `SecondarySortForm.BuildRegionRows` | src/Plugin/views/display_extender/ViewsSecondarySort.php:147-209 | The regions are `SortRegion`/`NoSortRegion`. The table keeps the catalog's keys in place. Each column holds the row of its last visit in the listing. |
| `SecondarySortForm.CollectSettings` | src/Plugin/views/display_extender/ViewsSecondarySort.php:148-156 | `$order` lists the stored fields still set in the catalog, in stored order. `$settings` holds a field iff some stored entry names it and it is set in the catalog. Its value is the last stored entry for that field. The order read from it is that entry's order, or `asc` when there is none. |
| `SecondarySortForm.NoSortRegion` | src/Plugin/views/display_extender/ViewsSecondarySort.php:166-168 | A column is in the `no_sort` region iff it is a catalog column and not in the `sort` region. |
| `SecondarySortForm.PlaceRows` | src/Plugin/views/display_extender/ViewsSecondarySort.php:177-209 | The table keeps its keys in place. A visited column holds the row written at its last visit: flag = visit in the `sort` region, weight = visit number, order from its setting. |
| `SecondarySortForm.PlaceStep` | src/Plugin/views/display_extender/ViewsSecondarySort.php:179-207 | One visit overwrites its column's row in place, extending the written-rows invariant by one. |
| `SecondarySortForm.LastEntryIndex` | src/Plugin/views/display_extender/ViewsSecondarySort.php:151-156 | It gives the index of the last stored entry for a field, or none when no entry names it. |
| `SecondarySortForm.RegionsPartitionCatalog` | src/Plugin/views/display_extender/ViewsSecondarySort.php:159-169 | The two regions together hold exactly the catalog's keys, and no column is in both. The `no_sort` region has no repeats. With distinct stored fields, every column is listed once. |
| `SecondarySortForm.SortRegionStored` | src/Plugin/views/display_extender/ViewsSecondarySort.php:151-162 | A field is in the `sort` region iff some stored entry names it and it is still set in the catalog. Stale fields are dropped. |
| `SecondarySortForm.WeightsConsecutive` | src/Plugin/views/display_extender/ViewsSecondarySort.php:177-194 | With distinct stored fields, the listing has one entry per catalog column, and the row of the column at position j has weight j. |
| `SecondarySortForm.RowFlagsAndOrder` | src/Plugin/views/display_extender/ViewsSecondarySort.php:180-205 | A column's row is flagged iff the column is in the `sort` region, and it carries the catalog label. Its order is that of the last stored entry for it, or `asc` when it is not sorted. |

`SummaryValue`, `RowOrder`, `OrderFrom`, `Listing` and `RowAt` are
specification functions. Their properties are stated by `SummaryNo` and
`SummaryRoundTrip`, by `CollectSettings` and by `RowFlagsAndOrder`.

## Left out

- `js/views_secondary_sort.js`: the jQuery tabledrag behaviour is DOM glue and is not part of this model.
- `submitOptionsForm` and `defaultableSections` (lines 225-239): they only write an unrelated test option. No edited rows are ever turned back into a stored sort list.
- `query` and `preExecute` (lines 244-253): they only set `testState` flags, and no sort is applied to any query.
- `defineOptions` (line 36): its default is a translatable string, not a list. The stored option is modelled only as a sequence of entries.
- `parent::optionsSummary`, `$categories`, translation (`t()`), render-array markup (`#type`, `#header`, `#attributes`, `#tree`, `#theme`), region titles and messages, CSS and tabledrag attachment, `drupal_get_path`: presentation only.
- `BuildOptionsForm`: the table's own `#`-keys share one PHP array with the row keys, so a column key starting with `#` would clash with them. The model keeps rows only.
- `ValidColumns`: the values `sanitizeColumns` puts in `$columns` are not modelled. Line 98 overwrites every one of them.
- `ValidColumns` requires the sanitized keys to be distinct. They are the keys of a PHP array.
- PHP's conversion of integer-like string keys to integers is not modelled. Keys are strings.
- A stored `order` other than `asc`/`desc` is not modelled. `Direction` has those two values.
- Reading `$settings[$field]` for a `no_sort` field raises a PHP notice. The model reads it as null, which is what PHP yields.
- No code turns edited form rows back into a stored list: `submitOptionsForm` only writes a test option. `query()` applies no sort. There is no store beyond the host's `secondary_sort` option. The model has none of them.
- `BuildRegionRows` is unreachable in the source because of the `return` at line 145. It is modelled on its own and is not called from `BuildOptionsForm`.

## Findings

| source | as written | input that shows it | evidently intended | confidence | as-written member | corrected member |
|---|---|---|---|---|---|---|
| src/Plugin/views/display_extender/ViewsSecondarySort.php:87-98 | Line 96 unsets a column whose handler is not click-sortable. Line 98 assigns it again, which appends it to the end of `$columns`, so nothing is filtered. | A style grouping column `title` whose handler answers `clickSortable()` false: `title` is still offered as a secondary sort. | Keep only the click-sortable columns, as the comment at line 87 says (assign the label only when the column was not unset). | not executed | `SecondarySortColumns.NonSortableColumnListed` | `SecondarySortColumns.SortableCatalog` |
