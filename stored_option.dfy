/// The stored `secondary_sort` option of the secondary-sort display extender
/// (src/Plugin/views/display_extender/ViewsSecondarySort.php): what
/// `optionsSummary` and `buildOptionsForm` read, as a list of entries.
module SecondarySortOption {
  import opened SecondarySortColumns

  datatype Direction = Asc | Desc

  /** The option, and the form section, the extender owns. */
  const SecondarySortSection: string := "secondary_sort"

  /** One stored secondary sort: `['field' => …, 'order' => …]`. */
  datatype SortEntry = SortEntry(field: Key, order: Direction)

  /** The stored field names, in stored order. */
  function Fields(sorts: seq<SortEntry>): seq<Key>
  {
    seq(|sorts|, i requires 0 <= i < |sorts| => sorts[i].field)
  }
}
