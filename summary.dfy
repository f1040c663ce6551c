/// `optionsSummary` of the secondary-sort display extender
/// (src/Plugin/views/display_extender/ViewsSecondarySort.php, lines 44-65).
module SecondarySortSummary {
  import opened Collections
  import opened SecondarySortColumns
  import opened SecondarySortOption

  /** One entry of the by-reference `$options` array that `optionsSummary` fills. */
  datatype SummaryOption = SummaryOption(category: string, title: string, value: string, desc: string)

  /** PHP's `!$value` on a string: only "" and "0" are falsy. */
  predicate Falsy(value: string)
  {
    value == "" || value == "0"
  }

  /** The summary value of lines 47-57. */
  function SummaryValue(sorts: seq<SortEntry>): string
  {
    if sorts == [] || Falsy(Implode(", ", Fields(sorts))) then "No"
    else Implode(", ", Fields(sorts))
  }

  /**
   * Lines 44-65: collects the stored fields, joins them, falls back to "No",
   * and writes the `secondary_sort` entry of `$options`.
   */
  method OptionsSummary(sorts: seq<SortEntry>, options: OrderedMap<string, SummaryOption>)
    returns (result: OrderedMap<string, SummaryOption>)
    ensures result == Assign(options, SecondarySortSection,
                             SummaryOption("other", "Secondary sort", SummaryValue(sorts), "Add secondary sorts to the display"))
  {
    var value := "";
    if sorts != [] {
      var names: seq<Key> := [];
      var i := 0;
      while i < |sorts|
        invariant 0 <= i <= |sorts|
        invariant names == Fields(sorts[..i])
      {
        names := names + [sorts[i].field];
        i := i + 1;
      }
      assert sorts[..i] == sorts;
      value := Implode(", ", names);
    }
    if Falsy(value) {
      value := "No";
    }
    result := Assign(options, SecondarySortSection,
                     SummaryOption("other", "Secondary sort", value, "Add secondary sorts to the display"));
  }

  /** A non-empty summary of comma-free fields splits back into the stored fields, in order. */
  lemma SummaryRoundTrip(sorts: seq<SortEntry>)
    requires sorts != []
    requires forall e :: e in sorts ==> ',' !in e.field
    requires !Falsy(Implode(", ", Fields(sorts)))
    ensures SplitCommaSpace(SummaryValue(sorts)) == Fields(sorts)
  {
    forall f | f in Fields(sorts) ensures ',' !in f {
      var j :| 0 <= j < |Fields(sorts)| && Fields(sorts)[j] == f;
      assert sorts[j] in sorts;
    }
    SplitImplode(Fields(sorts));
  }

  /**
   * The summary reads "No" exactly when nothing is stored, or when the one
   * stored field is itself "", "0" or "No": two or more fields always show.
   */
  lemma SummaryNo(sorts: seq<SortEntry>)
    ensures SummaryValue(sorts) == "No" <==>
              sorts == [] || (|sorts| == 1 && (Falsy(sorts[0].field) || sorts[0].field == "No"))
  {
    if |sorts| >= 2 {
      ImplodeHasComma(Fields(sorts));
      var s := Implode(", ", Fields(sorts));
      assert s != "No" && !Falsy(s) by {
        assert "No"[0] != ',' && "No"[1] != ',' && "0"[0] != ',';
      }
    } else if |sorts| == 1 {
      assert Implode(", ", Fields(sorts)) == sorts[0].field;
    }
  }
}
