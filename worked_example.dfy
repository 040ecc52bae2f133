/** A worked example: a loaded two-customer table taken through get_metrics and get_monthly_churn. */
module WorkedExample {
  import opened Wrappers
  import opened Seqs
  import opened Grouping
  import opened Backend

  /** A two-customer table: A churned with a January 2024 purchase, B not churned, bought in
      February 2024. */
  const ExampleRows: seq<Record> := [
    Record(Some("A"), Some("Lagos"), Some("Basic"), Some("Phone"), Some("Yes"), Some(MonthYear(1, 2024)), Some(10000)),
    Record(Some("B"), Some("Lagos"), Some("Basic"), Some("Phone"), Some("No"), Some(MonthYear(2, 2024)), Some(5000))]

  /** Its metrics: two customers, one churned, a 50% rate and 150.00 of revenue. */
  lemma ExampleMetrics()
    ensures GetMetrics(ExampleRows) == Metrics(2, 1, 50.0, 15000)
  {
    assert CustomerIds(ExampleRows) == {"A", "B"} by {
      assert ExampleRows[0].id.value == "A" && ExampleRows[1].id.value == "B";
    }
    assert Filter(ExampleRows, IsChurned) == [ExampleRows[0]] by {
      assert ExampleRows[1..] == [ExampleRows[1]];
      assert ExampleRows[1..][1..] == [];
    }
  }

  /** Its monthly series: one churned customer in January. */
  lemma ExampleMonthlyChurn()
    ensures GetMonthlyChurn(ExampleRows) == [Group("January", 1)]
  {
    var ra := ExampleRows[0];
    assert Filter(ExampleRows, IsChurned) == [ra] by {
      assert ExampleRows[1..] == [ExampleRows[1]];
      assert ExampleRows[1..][1..] == [];
    }
    var keys := MonthKeys([ra]);
    assert keys == [Some("January")];
    var g := GroupSizes(keys);
    assert g == [Group("January", 1)];
    JanuaryOnly();
  }

  /** A group-by result holding January alone keeps only January after reindexing by month. */
  lemma JanuaryOnly()
    ensures DropMissing(Reindex(MonthNames, [Group("January", 1)])) == [Group("January", 1)]
  {
    var g := [Group("January", 1)];
    MonthNamesDistinct();
    var later := Reindex(MonthNames[1..], g);
    assert forall i :: 0 <= i < |later| ==> later[i].size.None?;
    DropMissingNone(later);
    assert Reindex(MonthNames, g) == [Slot("January", Some(1))] + later;
  }
}
