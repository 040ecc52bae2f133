/** dashboard.py: the sidebar filter options and their defaults, the row filter, and the two
    per-group counts behind the charts. Everything else in the page is presentation. */
module Dashboard {
  import opened Wrappers
  import opened Seqs
  import opened Strings
  import opened Grouping
  import opened Backend

  /** The values chosen in the four multiselect widgets. */
  datatype Selection = Selection(states: seq<Cell>, plans: seq<Cell>, devices: seq<Cell>, statuses: seq<Cell>)

  /** sorted() raises a TypeError when a column holds both text and missing values, which cannot be compared. */
  datatype OptionsError = Unorderable

  /** Python's `<` between two cells; a missing value compares with nothing, not even itself. */
  predicate CellLess(a: Cell, b: Cell)
  {
    a.Some? && b.Some? && Less(a.value, b.value)
  }

  predicate CellsSorted(s: seq<Cell>)
  {
    forall i, j :: 0 <= i < j < |s| ==> CellLess(s[i], s[j])
  }

  function Texts(s: seq<string>): (r: seq<Cell>)
    ensures |r| == |s| && forall i :: 0 <= i < |s| ==> r[i] == Some(s[i])
  {
    if s == [] then [] else [Some(s[0])] + Texts(s[1..])
  }

  /** sorted(column.unique()): the distinct values of a column in increasing order, or the
      TypeError sorted() raises when the column mixes text with missing values. */
  function OptionList(column: seq<Cell>): (r: Result<seq<Cell>, OptionsError>)
    ensures r.Err? <==> None in column && exists i :: 0 <= i < |column| && column[i].Some?
    ensures r.Ok? ==> forall c :: c in r.value <==> c in column
    ensures r.Ok? ==> CellsSorted(r.value)
    ensures r.Ok? ==> forall i, j :: 0 <= i < j < |r.value| ==> r.value[i] != r.value[j]
  {
    var texts := Present(column);
    if None in column && texts != [] then
      assert texts[0] in texts;
      assert Some(texts[0]) in column;
      Err(Unorderable)
    else if None in column then
      assert forall c :: c in column ==> c == None;
      Ok([None])
    else
      var sorted := SortedDistinct(texts);
      var r := Texts(sorted);
      assert forall c :: c in r <==> c in column by {
        forall c ensures c in r <==> c in column {
          if c in r {
            var i :| 0 <= i < |r| && r[i] == c;
            assert sorted[i] in texts;
          }
          if c in column {
            assert c.Some?;
            assert c.value in sorted;
            var i :| 0 <= i < |sorted| && sorted[i] == c.value;
            assert r[i] == c;
          }
        }
      }
      forall i, j | 0 <= i < j < |r| ensures r[i] != r[j] {
        LessIrreflexive(sorted[i]);
      }
      Ok(r)
  }

  lemma CellLessAsymmetric(a: Cell, b: Cell)
    requires CellLess(a, b)
    ensures !CellLess(b, a) && a != b
  {
    LessAsymmetric(a.value, b.value);
  }

  /** An option list is determined by its elements: a sorted list with the same elements as the
      column is the one the sidebar shows. */
  lemma {:induction false} CellsSortedUnique(a: seq<Cell>, b: seq<Cell>)
    requires CellsSorted(a) && CellsSorted(b)
    requires forall c :: c in a <==> c in b
    ensures a == b
  {
    if a == [] {
      HeadIsElement(b);
    } else {
      assert a[0] in b;
      assert b != [];
      assert b[0] in a;
      if a[0] != b[0] {
        var i :| 0 <= i < |b| && b[i] == a[0];
        var j :| 0 <= j < |a| && a[j] == b[0];
        assert CellLess(b[0], a[0]);
        CellLessAsymmetric(b[0], a[0]);
        assert false;
      }
      forall c ensures c in a[1..] <==> c in b[1..] {
        if c in a[1..] {
          var k :| 0 <= k < |a| - 1 && a[1..][k] == c;
          CellLessAsymmetric(a[0], a[k + 1]);
          assert c in a;
          var m :| 0 <= m < |b| && b[m] == c;
          assert m != 0;
          assert b[1..][m - 1] == c;
        }
        if c in b[1..] {
          var k :| 0 <= k < |b| - 1 && b[1..][k] == c;
          CellLessAsymmetric(b[0], b[k + 1]);
          assert c in b;
          var m :| 0 <= m < |a| && a[m] == c;
          assert m != 0;
          assert a[1..][m - 1] == c;
        }
      }
      CellsSortedUnique(a[1..], b[1..]);
      assert a == [a[0]] + a[1..] && b == [b[0]] + b[1..];
    }
  }

  /** OptionList is the only sorted list of the column's distinct values. */
  lemma OptionListUnique(column: seq<Cell>, options: seq<Cell>)
    requires OptionList(column).Ok? && CellsSorted(options)
    requires forall c :: c in options <==> c in column
    ensures options == OptionList(column).value
  {
    CellsSortedUnique(options, OptionList(column).value);
  }

  function States(rows: seq<Record>): (r: seq<Cell>)
    ensures |r| == |rows| && forall i :: 0 <= i < |rows| ==> r[i] == rows[i].state
  {
    seq(|rows|, i requires 0 <= i < |rows| => rows[i].state)
  }

  function Plans(rows: seq<Record>): (r: seq<Cell>)
    ensures |r| == |rows| && forall i :: 0 <= i < |rows| ==> r[i] == rows[i].plan
  {
    seq(|rows|, i requires 0 <= i < |rows| => rows[i].plan)
  }

  function Devices(rows: seq<Record>): (r: seq<Cell>)
    ensures |r| == |rows| && forall i :: 0 <= i < |rows| ==> r[i] == rows[i].device
  {
    seq(|rows|, i requires 0 <= i < |rows| => rows[i].device)
  }

  function Statuses(rows: seq<Record>): (r: seq<Cell>)
    ensures |r| == |rows| && forall i :: 0 <= i < |rows| ==> r[i] == rows[i].status
  {
    seq(|rows|, i requires 0 <= i < |rows| => rows[i].status)
  }

  /** The widgets' initial selections: every option of each column, built in the order the page
      builds them, so the first column that cannot be sorted is the one whose error is raised. */
  function DefaultSelection(rows: seq<Record>): (r: Result<Selection, OptionsError>)
    ensures r.Ok? <==> OptionList(States(rows)).Ok? && OptionList(Plans(rows)).Ok? &&
                       OptionList(Devices(rows)).Ok? && OptionList(Statuses(rows)).Ok?
    ensures r.Ok? ==> r.value.states == OptionList(States(rows)).value
    ensures r.Ok? ==> r.value.plans == OptionList(Plans(rows)).value
    ensures r.Ok? ==> r.value.devices == OptionList(Devices(rows)).value
    ensures r.Ok? ==> r.value.statuses == OptionList(Statuses(rows)).value
    ensures r.Ok? ==> forall c :: c in r.value.states <==> c in States(rows)
    ensures r.Ok? ==> forall c :: c in r.value.plans <==> c in Plans(rows)
    ensures r.Ok? ==> forall c :: c in r.value.devices <==> c in Devices(rows)
    ensures r.Ok? ==> forall c :: c in r.value.statuses <==> c in Statuses(rows)
  {
    match OptionList(States(rows))
    case Err(e) => Err(e)
    case Ok(states) =>
      match OptionList(Plans(rows))
      case Err(e) => Err(e)
      case Ok(plans) =>
        match OptionList(Devices(rows))
        case Err(e) => Err(e)
        case Ok(devices) =>
          match OptionList(Statuses(rows))
          case Err(e) => Err(e)
          case Ok(statuses) => Ok(Selection(states, plans, devices, statuses))
  }

  /** The mask of one row: each of the four columns is among its selected values (isin, which
      also matches a missing value against a selected missing value), all four together. */
  predicate Matches(sel: Selection, r: Record)
  {
    r.state in sel.states && r.plan in sel.plans && r.device in sel.devices && r.status in sel.statuses
  }

  /** filtered_df: the rows of the table that match the selection. */
  function ApplyFilters(rows: seq<Record>, sel: Selection): (filtered: seq<Record>)
    ensures forall i :: 0 <= i < |filtered| ==> Matches(sel, filtered[i])
    ensures forall r :: multiset(filtered)[r] == if Matches(sel, r) then multiset(rows)[r] else 0
  {
    FilterMultiset(rows, r => Matches(sel, r));
    Filter(rows, r => Matches(sel, r))
  }

  /** Filtering never adds, reorders or changes rows. */
  lemma FilterPreservesOrder(rows: seq<Record>, sel: Selection)
    ensures IsSubsequence(ApplyFilters(rows, sel), rows)
  {
    FilterIsSubsequence(rows, r => Matches(sel, r));
  }

  /** A column with nothing selected empties the table. */
  lemma EmptySelectionFiltersEverything(rows: seq<Record>, sel: Selection)
    requires sel.states == [] || sel.plans == [] || sel.devices == [] || sel.statuses == []
    ensures ApplyFilters(rows, sel) == []
  {
    FilterNone(rows, r => Matches(sel, r));
  }

  /** With the default selections the filter keeps the whole table. */
  lemma DefaultSelectionKeepsEveryRow(rows: seq<Record>)
    requires DefaultSelection(rows).Ok?
    ensures ApplyFilters(rows, DefaultSelection(rows).value) == rows
  {
    var sel := DefaultSelection(rows).value;
    forall i | 0 <= i < |rows| ensures Matches(sel, rows[i]) {
      assert States(rows)[i] in States(rows);
      assert Plans(rows)[i] in Plans(rows);
      assert Devices(rows)[i] in Devices(rows);
      assert Statuses(rows)[i] in Statuses(rows);
    }
    FilterAll(rows, r => Matches(sel, r));
  }

  /** churn_by_plan: the churned rows of the filtered table counted per subscription plan. */
  function ChurnByPlan(filtered: seq<Record>): (r: seq<Group>)
    ensures StrictlySorted(KeysOf(r))
    ensures forall i :: 0 <= i < |r| ==> r[i].size >= 1
  {
    GroupSizes(Plans(Filter(filtered, IsChurned)))
  }

  /** churn_distribution: the rows of the filtered table counted per churn status. */
  function ChurnDistribution(filtered: seq<Record>): (r: seq<Group>)
    ensures StrictlySorted(KeysOf(r))
    ensures forall k :: k in KeysOf(r) <==> exists i :: 0 <= i < |filtered| && filtered[i].status == Some(k)
    ensures forall i :: 0 <= i < |r| ==> r[i].size == Occurrences(Statuses(filtered), r[i].key) && r[i].size >= 1
  {
    assert forall k :: Some(k) in Statuses(filtered) <==>
      exists i :: 0 <= i < |filtered| && filtered[i].status == Some(k) by {
      forall k ensures Some(k) in Statuses(filtered) ==>
        exists i :: 0 <= i < |filtered| && filtered[i].status == Some(k) {
        if Some(k) in Statuses(filtered) {
          var i :| 0 <= i < |filtered| && Statuses(filtered)[i] == Some(k);
        }
      }
    }
    GroupSizes(Statuses(filtered))
  }

  /** Churned rows of the table with the given plan. */
  function ChurnedOnPlan(rows: seq<Record>, plan: string): nat
  {
    if rows == [] then 0
    else (if IsChurned(rows[0]) && rows[0].plan == Some(plan) then 1 else 0) + ChurnedOnPlan(rows[1..], plan)
  }

  /** Churned rows of the table whose plan is present. */
  function ChurnedWithPlan(rows: seq<Record>): nat
  {
    if rows == [] then 0
    else (if IsChurned(rows[0]) && rows[0].plan.Some? then 1 else 0) + ChurnedWithPlan(rows[1..])
  }

  /** Rows of the table whose status is present. */
  function WithStatus(rows: seq<Record>): nat
  {
    if rows == [] then 0 else (if rows[0].status.Some? then 1 else 0) + WithStatus(rows[1..])
  }

  /** Rows of the table with the given status. */
  function RowsWithStatus(rows: seq<Record>, status: string): nat
  {
    if rows == [] then 0
    else (if rows[0].status == Some(status) then 1 else 0) + RowsWithStatus(rows[1..], status)
  }

  lemma {:induction false} ChurnedPlans(rows: seq<Record>, plan: string)
    ensures Occurrences(Plans(Filter(rows, IsChurned)), plan) == ChurnedOnPlan(rows, plan)
    ensures |Present(Plans(Filter(rows, IsChurned)))| == ChurnedWithPlan(rows)
  {
    if rows != [] {
      ChurnedPlans(rows[1..], plan);
      var h := if IsChurned(rows[0]) then [rows[0]] else [];
      var t := Filter(rows[1..], IsChurned);
      assert Filter(rows, IsChurned) == h + t;
      assert Plans(h + t) == Plans(h) + Plans(t);
      OccurrencesConcat(Plans(h), Plans(t), plan);
      PresentConcat(Plans(h), Plans(t));
    }
  }

  /** churn_by_plan has one entry per plan that has churned rows, plans in increasing order,
      each count the number of churned rows on that plan (so at least 1). */
  lemma ChurnByPlanCounts(filtered: seq<Record>, plan: string)
    ensures StrictlySorted(KeysOf(ChurnByPlan(filtered)))
    ensures plan in KeysOf(ChurnByPlan(filtered)) <==> ChurnedOnPlan(filtered, plan) > 0
    ensures forall i :: 0 <= i < |ChurnByPlan(filtered)| && ChurnByPlan(filtered)[i].key == plan ==>
      ChurnByPlan(filtered)[i].size == ChurnedOnPlan(filtered, plan) && ChurnByPlan(filtered)[i].size >= 1
  {
    ChurnedPlans(filtered, plan);
  }

  /** The counts of churn_by_plan add up to the churned rows whose plan is present. */
  lemma ChurnByPlanTotal(filtered: seq<Record>)
    ensures TotalSize(ChurnByPlan(filtered)) == ChurnedWithPlan(filtered)
  {
    ChurnedPlans(filtered, "");
    GroupSizesTotal(Plans(Filter(filtered, IsChurned)));
  }

  lemma {:induction false} StatusesPresent(rows: seq<Record>)
    ensures |Present(Statuses(rows))| == WithStatus(rows)
  {
    if rows != [] {
      StatusesPresent(rows[1..]);
      assert Statuses(rows) == [rows[0].status] + Statuses(rows[1..]);
      PresentConcat([rows[0].status], Statuses(rows[1..]));
    }
  }

  lemma {:induction false} StatusOccurrences(rows: seq<Record>, status: string)
    ensures Occurrences(Statuses(rows), status) == RowsWithStatus(rows, status)
  {
    if rows != [] {
      StatusOccurrences(rows[1..], status);
      assert Statuses(rows) == [rows[0].status] + Statuses(rows[1..]);
      OccurrencesConcat([rows[0].status], Statuses(rows[1..]), status);
    }
  }

  /** churn_distribution has one entry per status that occurs, statuses in increasing order,
      each count the number of rows with that status (so at least 1). */
  lemma ChurnDistributionCounts(filtered: seq<Record>, status: string)
    ensures status in KeysOf(ChurnDistribution(filtered)) <==> RowsWithStatus(filtered, status) > 0
    ensures forall i :: 0 <= i < |ChurnDistribution(filtered)| && ChurnDistribution(filtered)[i].key == status ==>
      ChurnDistribution(filtered)[i].size == RowsWithStatus(filtered, status)
  {
    StatusOccurrences(filtered, status);
  }

  /** The counts of churn_distribution add up to the rows whose status is present. */
  lemma ChurnDistributionTotal(filtered: seq<Record>)
    ensures TotalSize(ChurnDistribution(filtered)) == WithStatus(filtered)
  {
    StatusesPresent(filtered);
    GroupSizesTotal(Statuses(filtered));
  }
}
