/** backend.py: loading and normalising the customer table (load_data), the summary metrics
    (get_metrics) and the monthly churn series (get_monthly_churn). */
module Backend {
  import opened Wrappers
  import opened Seqs
  import opened Strings
  import opened Grouping

  /** A text cell of the table; None is a missing value (NaN). */
  type Cell = Option<string>

  type Month = m: int | 1 <= m <= 12 witness 1

  /** A parsed purchase date; the day of the month carries no information and is not kept. */
  datatype MonthYear = MonthYear(month: Month, year: int)

  /** A row as the CSV reader hands it over, before normalisation. Revenue is in cents. */
  datatype RawRecord = RawRecord(
    id: Cell, state: Cell, plan: Cell, device: Cell, status: Cell, purchase: Cell, revenue: Option<int>)

  /** A row of the loaded table: churn status trimmed, purchase date parsed (None when it did not parse). */
  datatype Record = Record(
    id: Cell, state: Cell, plan: Cell, device: Cell, status: Cell, purchase: Option<MonthYear>, revenue: Option<int>)

  datatype LoadError =
    | MissingColumn(name: string)  // no header names this column once trimmed (a KeyError)
    | StatusNotText                // the churn status column holds no text at all, so `.str` cannot be used on it

  const CustomerIdColumn := "Customer ID"
  const StateColumn := "State"
  const PlanColumn := "Subscription Plan"
  const DeviceColumn := "MTN Device"
  const StatusColumn := "Customer Churn Status"
  const PurchaseColumn := "Date of Purchase"
  const RevenueColumn := "Total Revenue"

  /** The columns load_data itself reads, in that order. */
  const LoadColumns: seq<string> := [PurchaseColumn, StatusColumn]

  /** The columns read after loading: by the sidebar options, then by get_metrics. */
  const LaterColumns: seq<string> := [StateColumn, PlanColumn, DeviceColumn, CustomerIdColumn, RevenueColumn]

  /** The columns of the model, in the order the program first reads them. */
  const RequiredColumns: seq<string> := LoadColumns + LaterColumns

  /** The full English month names (strftime's %B), January first. */
  const MonthNames: seq<string> :=
    ["January", "February", "March", "April", "May", "June",
     "July", "August", "September", "October", "November", "December"]

  /** The month abbreviations strptime's %b accepts, in lower case; the match ignores case. */
  const MonthAbbreviations: seq<string> :=
    ["jan", "feb", "mar", "apr", "may", "jun", "jul", "aug", "sep", "oct", "nov", "dec"]

  // ---------------------------------------------------------------------------
  // load_data

  /** df.columns.str.strip(): the header names without surrounding whitespace. */
  function StripHeader(header: seq<string>): (columns: seq<string>)
    ensures |columns| == |header|
    ensures forall j :: 0 <= j < |header| ==> columns[j] == Trim(header[j])
  {
    seq(|header|, j requires 0 <= j < |header| => Trim(header[j]))
  }

  /** The position of the first column called name (df[name] resolves to it). */
  function IndexOf(columns: seq<string>, name: string): (r: Option<nat>)
    ensures r.Some? ==> r.value < |columns| && columns[r.value] == name
    ensures r.Some? ==> forall j :: 0 <= j < r.value ==> columns[j] != name
    ensures r.None? <==> name !in columns
  {
    if columns == [] then None
    else if columns[0] == name then Some(0)
    else
      match IndexOf(columns[1..], name)
      case None => None
      case Some(i) => Some(i + 1)
  }

  /** The column a name resolves to once the header is stripped. */
  function ColumnIndex(header: seq<string>, name: string): Option<nat>
  {
    IndexOf(StripHeader(header), name)
  }

  /** The position of the first of names that is not a column name. */
  function FirstMissing(columns: seq<string>, names: seq<string>): (r: Option<nat>)
    ensures r.Some? ==> r.value < |names| && names[r.value] !in columns
    ensures r.Some? ==> forall j :: 0 <= j < r.value ==> names[j] in columns
    ensures r.None? <==> forall j :: 0 <= j < |names| ==> names[j] in columns
  {
    if names == [] then None
    else if names[0] !in columns then Some(0)
    else
      match FirstMissing(columns, names[1..])
      case None => None
      case Some(i) => Some(i + 1)
  }

  /** pandas can apply `.str` to the status column only when it holds text: a column of a
      non-empty table in which every cell is missing is read as numbers. */
  predicate StatusIsText(rows: seq<RawRecord>)
  {
    rows == [] || exists i :: 0 <= i < |rows| && rows[i].status.Some?
  }

  function ToLowerAscii(c: char): char
  {
    if 'A' <= c <= 'Z' then (c as int + 32) as char else c
  }

  function LowerAscii(s: string): (r: string)
    ensures |r| == |s|
  {
    seq(|s|, i requires 0 <= i < |s| => ToLowerAscii(s[i]))
  }

  predicate IsDigit(c: char)
  {
    '0' <= c <= '9'
  }

  function DigitValue(c: char): nat
    requires IsDigit(c)
  {
    c as int - '0' as int
  }

  /** The month whose abbreviation is s, ignoring the case of ASCII letters. */
  function MonthOfAbbreviation(s: string): (r: Option<Month>)
    ensures r.Some? ==> MonthAbbreviations[r.value - 1] == LowerAscii(s)
    ensures r.None? <==> LowerAscii(s) !in MonthAbbreviations
  {
    var l := LowerAscii(s);
    if l in MonthAbbreviations then
      var i :| 0 <= i < 12 && MonthAbbreviations[i] == l;
      Some(i + 1)
    else None
  }

  /** strptime's %y: a two-digit year up to 68 is in the 2000s, from 69 in the 1900s. */
  function CenturyPivot(yy: nat): (year: int)
    requires yy < 100
    ensures year % 100 == yy && 1969 <= year <= 2068
  {
    if yy <= 68 then 2000 + yy else 1900 + yy
  }

  /** pd.to_datetime(cell, format="%b-%y", errors="coerce") on one cell: a three-letter month
      abbreviation, a hyphen and two digits parse; anything else is None instead of an error. */
  function ParseMonthYear(s: string): (r: Option<MonthYear>)
    ensures r.Some? <==>
      |s| == 6 && s[3] == '-' && IsDigit(s[4]) && IsDigit(s[5]) && LowerAscii(s[..3]) in MonthAbbreviations
    ensures r.Some? ==>
      MonthAbbreviations[r.value.month - 1] == LowerAscii(s[..3]) &&
      r.value.year == CenturyPivot(10 * DigitValue(s[4]) + DigitValue(s[5]))
  {
    if |s| == 6 && s[3] == '-' && IsDigit(s[4]) && IsDigit(s[5]) then
      match MonthOfAbbreviation(s[..3])
      case Some(m) => Some(MonthYear(m, CenturyPivot(10 * DigitValue(s[4]) + DigitValue(s[5]))))
      case None => None
    else None
  }

  function TrimCell(c: Cell): Cell
  {
    match c
    case None => None
    case Some(s) => Some(Trim(s))
  }

  function ParsePurchase(c: Cell): Option<MonthYear>
  {
    match c
    case None => None
    case Some(s) => ParseMonthYear(s)
  }

  /** One row through load_data: the status is trimmed, the purchase date parsed; nothing else changes. */
  function Normalise(raw: RawRecord): (r: Record)
    ensures r.id == raw.id && r.state == raw.state && r.plan == raw.plan && r.device == raw.device
    ensures r.revenue == raw.revenue
    ensures r.status.Some? <==> raw.status.Some?
    ensures r.status.Some? ==> Stripped(r.status.value) && |r.status.value| <= |raw.status.value|
    ensures r.purchase.Some? <==> raw.purchase.Some? && ParseMonthYear(raw.purchase.value).Some?
    ensures raw.status.Some? ==> r.status == Some(Trim(raw.status.value))
    ensures raw.purchase.Some? ==> r.purchase == ParseMonthYear(raw.purchase.value)
  {
    Record(raw.id, raw.state, raw.plan, raw.device, TrimCell(raw.status), ParsePurchase(raw.purchase), raw.revenue)
  }

  /** Every row through Normalise, in order. */
  function NormaliseAll(rows: seq<RawRecord>): (r: seq<Record>)
    ensures |r| == |rows| && forall i :: 0 <= i < |rows| ==> r[i] == Normalise(rows[i])
  {
    seq(|rows|, i requires 0 <= i < |rows| => Normalise(rows[i]))
  }

  /** The first missing name of a + b: the first of a, or else the first of b, shifted past a. */
  lemma {:induction false} FirstMissingAppend(columns: seq<string>, a: seq<string>, b: seq<string>)
    ensures FirstMissing(columns, a + b) ==
      if FirstMissing(columns, a).Some? then FirstMissing(columns, a)
      else if FirstMissing(columns, b).Some? then Some(|a| + FirstMissing(columns, b).value)
      else None
  {
    if a == [] {
      assert a + b == b;
    } else {
      assert (a + b)[0] == a[0];
      assert (a + b)[1..] == a[1..] + b;
      FirstMissingAppend(columns, a[1..], b);
    }
  }

  /** load_data on a table already read from the CSV file: the header names are trimmed, the
      purchase date and the status must resolve and the status must hold text (line 9 fails
      before any later column is read), the columns read later must resolve too, and every row
      is normalised; no row is dropped. */
  function Load(header: seq<string>, rows: seq<RawRecord>): (r: Result<seq<Record>, LoadError>)
    ensures r.Ok? <==> FirstMissing(StripHeader(header), RequiredColumns).None? && StatusIsText(rows)
    ensures r == Err(StatusNotText) <==>
      FirstMissing(StripHeader(header), LoadColumns).None? && !StatusIsText(rows)
    ensures FirstMissing(StripHeader(header), LoadColumns).Some? ==> r.Err? && r.error.MissingColumn?
    ensures r.Err? && r.error.MissingColumn? ==>
      FirstMissing(StripHeader(header), RequiredColumns).Some? &&
      r.error.name == RequiredColumns[FirstMissing(StripHeader(header), RequiredColumns).value]
    ensures r.Ok? ==> |r.value| == |rows| && forall i :: 0 <= i < |rows| ==> r.value[i] == Normalise(rows[i])
  {
    var columns := StripHeader(header);
    FirstMissingAppend(columns, LoadColumns, LaterColumns);
    match FirstMissing(columns, LoadColumns)
    case Some(i) => Err(MissingColumn(LoadColumns[i]))
    case None =>
      if !StatusIsText(rows) then Err(StatusNotText)
      else
        match FirstMissing(columns, LaterColumns)
        case Some(i) => Err(MissingColumn(LaterColumns[i]))
        case None => Ok(NormaliseAll(rows))
  }

  function DigitChar(n: nat): (c: char)
    requires n < 10
    ensures IsDigit(c) && DigitValue(c) == n
  {
    ('0' as int + n) as char
  }

  /** How a date is written in the %b-%y format: "Jan-24". */
  function FormatMonthYear(d: MonthYear): (s: string)
    requires 1969 <= d.year <= 2068
    ensures |s| == 6
  {
    var yy := d.year % 100;
    MonthNames[d.month - 1][..3] + "-" + [DigitChar(yy / 10), DigitChar(yy % 10)]
  }

  lemma AbbreviationsOfMonthNames()
    ensures forall i :: 0 <= i < 12 ==> LowerAscii(MonthNames[i][..3]) == MonthAbbreviations[i]
  {
    forall i | 0 <= i < 12 ensures LowerAscii(MonthNames[i][..3]) == MonthAbbreviations[i] {
      var l := LowerAscii(MonthNames[i][..3]);
      assert l == [ToLowerAscii(MonthNames[i][0]), MonthNames[i][1], MonthNames[i][2]];
    }
  }

  lemma MonthAbbreviationsDistinct()
    ensures Distinct(MonthAbbreviations)
  {
  }

  /** The written date has the shape %b-%y expects: its month's abbreviation, a hyphen and the
      two last digits of the year. */
  lemma FormatShape(d: MonthYear)
    requires 1969 <= d.year <= 2068
    ensures var s := FormatMonthYear(d);
      s[3] == '-' && IsDigit(s[4]) && IsDigit(s[5]) &&
      LowerAscii(s[..3]) == MonthAbbreviations[d.month - 1] &&
      10 * DigitValue(s[4]) + DigitValue(s[5]) == d.year % 100
  {
    var s := FormatMonthYear(d);
    assert s[..3] == MonthNames[d.month - 1][..3];
    AbbreviationsOfMonthNames();
  }

  /** The century pivot recovers every year from 1969 to 2068 from its last two digits. */
  lemma PivotRecoversYear(year: int)
    requires 1969 <= year <= 2068
    ensures CenturyPivot(year % 100) == year
  {
    var p := CenturyPivot(year % 100);
    assert (p - year) % 100 == 0;
    assert -100 < p - year < 100;
  }

  /** Every date the format can write (years 1969 to 2068) parses back to itself. */
  lemma ParseFormatRoundTrip(d: MonthYear)
    requires 1969 <= d.year <= 2068
    ensures ParseMonthYear(FormatMonthYear(d)) == Some(d)
  {
    var s := FormatMonthYear(d);
    FormatShape(d);
    PivotRecoversYear(d.year);
    var r := ParseMonthYear(s);
    MonthAbbreviationsDistinct();
    assert MonthAbbreviations[r.value.month - 1] == MonthAbbreviations[d.month - 1];
  }

  /** "Jan-24" is January 2024 and "not-a-date" is no date, without an error. */
  lemma ParseExamples()
    ensures ParseMonthYear("Jan-24") == Some(MonthYear(1, 2024))
    ensures ParseMonthYear("Feb-24") == Some(MonthYear(2, 2024))
    ensures ParseMonthYear("dec-99") == Some(MonthYear(12, 1999))
    ensures ParseMonthYear("not-a-date") == None
    ensures ParseMonthYear("Jan-2024") == None
  {
    ParseFormatRoundTrip(MonthYear(1, 2024));
    assert FormatMonthYear(MonthYear(1, 2024)) == "Jan-24";
    ParseFormatRoundTrip(MonthYear(2, 2024));
    assert FormatMonthYear(MonthYear(2, 2024)) == "Feb-24" by {
      assert MonthNames[1][..3] == "Feb";
    }
    var s := "dec-99";
    assert LowerAscii(s[..3]) == "dec";
    MonthAbbreviationsDistinct();
  }

  /** A header name padded with whitespace still resolves, to that column or an earlier one of the same name. */
  lemma PaddedHeaderResolves(header: seq<string>, i: nat, w1: string, name: string, w2: string)
    requires i < |header| && header[i] == w1 + name + w2
    requires AllSpace(w1) && AllSpace(w2) && Stripped(name)
    ensures ColumnIndex(header, name).Some? && ColumnIndex(header, name).value <= i
  {
    TrimUnique(w1, name, w2);
    assert StripHeader(header)[i] == name;
  }

  /** A table that has every column load_data reads but no status text fails at the status
      strip, whatever later columns are missing. */
  lemma StatusCheckedBeforeLaterColumns(header: seq<string>, rows: seq<RawRecord>)
    requires FirstMissing(StripHeader(header), LoadColumns).None?
    requires rows != [] && forall i :: 0 <= i < |rows| ==> rows[i].status.None?
    ensures Load(header, rows) == Err(StatusNotText)
  {
  }

  /** After loading, a row is churned exactly when its raw status strips to "Yes". */
  lemma ChurnedAfterLoad(raw: RawRecord)
    ensures IsChurned(Normalise(raw)) <==> raw.status.Some? && Trim(raw.status.value) == "Yes"
  {
  }

  /** A status of "Yes" with whitespace around it counts as churned after loading. */
  lemma PaddedYesIsChurned(raw: RawRecord, w1: string, w2: string)
    requires raw.status == Some(w1 + "Yes" + w2) && AllSpace(w1) && AllSpace(w2)
    ensures IsChurned(Normalise(raw))
  {
    TrimUnique(w1, "Yes", w2);
  }

  /** Normalising a status twice changes nothing more. */
  lemma TrimCellIdempotent(c: Cell)
    ensures TrimCell(TrimCell(c)) == TrimCell(c)
  {
    if c.Some? {
      TrimIdempotent(c.value);
    }
  }

  // ---------------------------------------------------------------------------
  // get_metrics

  datatype Metrics = Metrics(totalCustomers: nat, churnedCustomers: nat, churnRate: real, totalRevenue: int)

  /** A churned customer: the normalised status is exactly "Yes". */
  predicate IsChurned(r: Record)
  {
    r.status == Some("Yes")
  }

  /** The distinct customer identifiers that are present. */
  function CustomerIds(rows: seq<Record>): set<string>
  {
    set i | 0 <= i < |rows| && rows[i].id.Some? :: rows[i].id.value
  }

  lemma NoCustomerIds(rows: seq<Record>)
    ensures CustomerIds(rows) == {} <==> forall i :: 0 <= i < |rows| ==> rows[i].id.None?
  {
    if exists i :: 0 <= i < |rows| && rows[i].id.Some? {
      var i :| 0 <= i < |rows| && rows[i].id.Some?;
      assert rows[i].id.value in CustomerIds(rows);
    } else {
      assert CustomerIds(rows) == {};
    }
  }

  lemma NoChurnedRows(rows: seq<Record>)
    ensures Filter(rows, IsChurned) == [] <==> forall i :: 0 <= i < |rows| ==> !IsChurned(rows[i])
  {
    if exists i :: 0 <= i < |rows| && IsChurned(rows[i]) {
      var i :| 0 <= i < |rows| && IsChurned(rows[i]);
      FilterMultiset(rows, IsChurned);
      assert rows[i] in multiset(rows);
      assert rows[i] in multiset(Filter(rows, IsChurned));
    } else {
      FilterNone(rows, IsChurned);
    }
  }

  /** df["Customer ID"].nunique(): the number of distinct present identifiers. */
  function TotalCustomers(rows: seq<Record>): (n: nat)
    ensures n == 0 <==> forall i :: 0 <= i < |rows| ==> rows[i].id.None?
  {
    NoCustomerIds(rows);
    |CustomerIds(rows)|
  }

  /** df[df["Customer Churn Status"] == "Yes"].shape[0]. */
  function ChurnedCustomers(rows: seq<Record>): (n: nat)
    ensures n <= |rows|
    ensures n == 0 <==> forall i :: 0 <= i < |rows| ==> !IsChurned(rows[i])
  {
    NoChurnedRows(rows);
    |Filter(rows, IsChurned)|
  }

  /** The churn percentage, defined as 0 when there are no customers. */
  function ChurnRate(churned: nat, total: nat): (rate: real)
    ensures total > 0 ==> rate * total as real == churned as real * 100.0
    ensures total == 0 ==> rate == 0.0
    ensures rate >= 0.0
  {
    if total > 0 then churned as real / total as real * 100.0 else 0.0
  }

  /** A row's revenue in cents; a missing value adds nothing (pandas' sum skips NaN). */
  function RevenueCents(r: Record): int
  {
    if r.revenue.Some? then r.revenue.value else 0
  }

  /** df["Total Revenue"].sum(). */
  function TotalRevenue(rows: seq<Record>): (total: int)
    ensures (forall i :: 0 <= i < |rows| ==> rows[i].revenue.None?) ==> total == 0
    ensures (forall i :: 0 <= i < |rows| && rows[i].revenue.Some? ==> rows[i].revenue.value >= 0) ==> total >= 0
  {
    SumBounds(rows, RevenueCents);
    Sum(rows, RevenueCents)
  }

  /** get_metrics: the four summary values of a table. */
  function GetMetrics(rows: seq<Record>): (m: Metrics)
    ensures m.totalCustomers == |CustomerIds(rows)|
    ensures m.churnedCustomers == ChurnedCustomers(rows) && m.churnedCustomers <= |rows|
    ensures m.totalRevenue == TotalRevenue(rows)
    ensures m.totalCustomers > 0 ==> m.churnRate * m.totalCustomers as real == m.churnedCustomers as real * 100.0
    ensures m.totalCustomers == 0 ==> m.churnRate == 0.0
  {
    var total := TotalCustomers(rows);
    var churned := ChurnedCustomers(rows);
    Metrics(total, churned, ChurnRate(churned, total), TotalRevenue(rows))
  }

  lemma CustomerIdsSnoc(rows: seq<Record>, x: Record)
    ensures CustomerIds(rows + [x]) == CustomerIds(rows) + (if x.id.Some? then {x.id.value} else {})
  {
    var ext := rows + [x];
    forall k ensures k in CustomerIds(ext) <==> k in CustomerIds(rows) + (if x.id.Some? then {x.id.value} else {}) {
      if k in CustomerIds(ext) {
        var i :| 0 <= i < |ext| && ext[i].id.Some? && ext[i].id.value == k;
        if i < |rows| { assert rows[i] == ext[i]; }
      }
      if k in CustomerIds(rows) {
        var i :| 0 <= i < |rows| && rows[i].id.Some? && rows[i].id.value == k;
        assert ext[i] == rows[i];
      }
      if x.id.Some? && k == x.id.value {
        assert ext[|rows|] == x;
      }
    }
  }

  /** There are never more customers than rows. */
  lemma {:induction false} TotalCustomersAtMostRows(rows: seq<Record>)
    ensures TotalCustomers(rows) <= |rows|
  {
    if rows != [] {
      var init := rows[..|rows| - 1];
      assert rows == init + [rows[|rows| - 1]];
      TotalCustomersAtMostRows(init);
      CustomerIdsSnoc(init, rows[|rows| - 1]);
    } else {
      assert CustomerIds(rows) == {};
    }
  }

  /** A row whose identifier is missing or already present does not add a customer; any other row adds one. */
  lemma TotalCustomersAppend(rows: seq<Record>, x: Record)
    ensures (x.id.None? || exists i :: 0 <= i < |rows| && rows[i].id == x.id) ==>
      TotalCustomers(rows + [x]) == TotalCustomers(rows)
    ensures (x.id.Some? && forall i :: 0 <= i < |rows| ==> rows[i].id != x.id) ==>
      TotalCustomers(rows + [x]) == TotalCustomers(rows) + 1
  {
    CustomerIdsSnoc(rows, x);
    if x.id.None? {
      assert CustomerIds(rows + [x]) == CustomerIds(rows);
    } else if exists i :: 0 <= i < |rows| && rows[i].id == x.id {
      var i :| 0 <= i < |rows| && rows[i].id == x.id;
      assert x.id.value in CustomerIds(rows);
      assert CustomerIds(rows + [x]) == CustomerIds(rows);
    } else {
      assert x.id.value !in CustomerIds(rows);
    }
  }

  /** With every identifier present and unique, the customer count is the row count. */
  lemma {:induction false} TotalCustomersOfUniqueIds(rows: seq<Record>)
    requires forall i :: 0 <= i < |rows| ==> rows[i].id.Some?
    requires forall i, j :: 0 <= i < j < |rows| ==> rows[i].id != rows[j].id
    ensures TotalCustomers(rows) == |rows|
  {
    if rows != [] {
      var init := rows[..|rows| - 1];
      assert rows == init + [rows[|rows| - 1]];
      TotalCustomersOfUniqueIds(init);
      TotalCustomersAppend(init, rows[|rows| - 1]);
    } else {
      assert CustomerIds(rows) == {};
    }
  }

  /** Only "Yes" rows are counted as churned: appending a row adds one exactly when its status is "Yes". */
  lemma ChurnedCustomersAppend(rows: seq<Record>, x: Record)
    ensures ChurnedCustomers(rows + [x]) == ChurnedCustomers(rows) + (if IsChurned(x) then 1 else 0)
  {
    FilterConcat(rows, [x], IsChurned);
  }

  /** Appending a row adds its revenue; a row with a missing revenue adds nothing. */
  lemma TotalRevenueAppend(rows: seq<Record>, x: Record)
    ensures TotalRevenue(rows + [x]) == TotalRevenue(rows) + (if x.revenue.Some? then x.revenue.value else 0)
  {
    SumConcat(rows, [x], RevenueCents);
  }

  /** With unique present identifiers the churn rate is a percentage between 0 and 100. */
  lemma ChurnRateAtMostHundred(rows: seq<Record>)
    requires forall i :: 0 <= i < |rows| ==> rows[i].id.Some?
    requires forall i, j :: 0 <= i < j < |rows| ==> rows[i].id != rows[j].id
    ensures 0.0 <= GetMetrics(rows).churnRate <= 100.0
  {
    TotalCustomersOfUniqueIds(rows);
    var m := GetMetrics(rows);
    if m.totalCustomers > 0 {
      RateAtMostHundred(m.churnRate, m.churnedCustomers as real, m.totalCustomers as real);
    }
  }

  lemma RateAtMostHundred(rate: real, churned: real, total: real)
    requires 0.0 < total && churned <= total && rate * total == churned * 100.0
    ensures rate <= 100.0
  {
    assert rate == churned * 100.0 / total;
  }

  /** The metrics of a table do not depend on the order of its rows. */
  lemma MetricsIgnoreRowOrder(a: seq<Record>, b: seq<Record>)
    requires multiset(a) == multiset(b)
    ensures GetMetrics(a) == GetMetrics(b)
  {
    forall k ensures k in CustomerIds(a) <==> k in CustomerIds(b) {
      if k in CustomerIds(a) {
        var i :| 0 <= i < |a| && a[i].id.Some? && a[i].id.value == k;
        assert a[i] in multiset(b);
      }
      if k in CustomerIds(b) {
        var i :| 0 <= i < |b| && b[i].id.Some? && b[i].id.value == k;
        assert b[i] in multiset(a);
      }
    }
    assert CustomerIds(a) == CustomerIds(b);
    FilterCountPermutation(a, b, IsChurned);
    SumPermutation(a, b, RevenueCents);
  }

  /** An empty table has no customers, a zero rate and zero revenue. */
  lemma EmptyTableMetrics()
    ensures GetMetrics([]) == Metrics(0, 0, 0.0, 0)
  {
    assert CustomerIds([]) == {};
  }

  // ---------------------------------------------------------------------------
  // get_monthly_churn

  /** strftime('%B') of the purchase date, missing when the date did not parse. */
  function MonthKey(r: Record): (k: Cell)
    ensures k.Some? <==> r.purchase.Some?
    ensures k.Some? ==> k.value in MonthNames
  {
    if r.purchase.Some? then Some(MonthNames[r.purchase.value.month - 1]) else None
  }

  function MonthKeys(rows: seq<Record>): (keys: seq<Cell>)
    ensures |keys| == |rows|
  {
    seq(|rows|, i requires 0 <= i < |rows| => MonthKey(rows[i]))
  }

  /** get_monthly_churn: the churned rows grouped by month name (all years of a month together),
      reindexed January to December, months without churn dropped. */
  function GetMonthlyChurn(rows: seq<Record>): (series: seq<Group>)
    ensures |series| <= 12
    ensures forall i :: 0 <= i < |series| ==> series[i].key in MonthNames && series[i].size >= 1
  {
    var churned := Filter(rows, IsChurned);
    if churned == [] then []
    else
      var g := GroupSizes(MonthKeys(churned));
      ReindexedEntries(MonthNames, g);
      DropMissing(Reindex(MonthNames, g))
  }

  /** Churned rows purchased in month m, in any year. */
  function ChurnedIn(rows: seq<Record>, m: Month): nat
  {
    if rows == [] then 0
    else
      var r := rows[0];
      (if IsChurned(r) && r.purchase.Some? && r.purchase.value.month == m then 1 else 0) + ChurnedIn(rows[1..], m)
  }

  /** Churned rows whose purchase date parsed. */
  function DatedChurned(rows: seq<Record>): nat
  {
    if rows == [] then 0
    else (if IsChurned(rows[0]) && rows[0].purchase.Some? then 1 else 0) + DatedChurned(rows[1..])
  }

  lemma MonthNamesDistinct()
    ensures Distinct(MonthNames)
  {
  }

  lemma MonthKeysConcat(a: seq<Record>, b: seq<Record>)
    ensures MonthKeys(a + b) == MonthKeys(a) + MonthKeys(b)
  {
  }

  lemma {:induction false} ChurnedMonthKeys(rows: seq<Record>, m: Month)
    ensures Occurrences(MonthKeys(Filter(rows, IsChurned)), MonthNames[m - 1]) == ChurnedIn(rows, m)
    ensures |Present(MonthKeys(Filter(rows, IsChurned)))| == DatedChurned(rows)
  {
    if rows != [] {
      ChurnedMonthKeys(rows[1..], m);
      var h := if IsChurned(rows[0]) then [rows[0]] else [];
      var t := Filter(rows[1..], IsChurned);
      assert Filter(rows, IsChurned) == h + t;
      MonthKeysConcat(h, t);
      OccurrencesConcat(MonthKeys(h), MonthKeys(t), MonthNames[m - 1]);
      PresentConcat(MonthKeys(h), MonthKeys(t));
      MonthNamesDistinct();
      if rows[0].purchase.Some? {
        assert MonthNames[rows[0].purchase.value.month - 1] == MonthNames[m - 1] <==> rows[0].purchase.value.month == m;
      }
    }
  }

  /** No churned rows, no series. */
  lemma MonthlyChurnWithoutChurn(rows: seq<Record>)
    requires forall i :: 0 <= i < |rows| ==> !IsChurned(rows[i])
    ensures GetMonthlyChurn(rows) == []
  {
    FilterNone(rows, IsChurned);
  }

  /** The series' months are a subsequence of January to December and every count is at least 1. */
  lemma MonthlyChurnShape(rows: seq<Record>)
    ensures IsSubsequence(KeysOf(GetMonthlyChurn(rows)), MonthNames)
    ensures forall i :: 0 <= i < |GetMonthlyChurn(rows)| ==> GetMonthlyChurn(rows)[i].size >= 1
  {
    var churned := Filter(rows, IsChurned);
    if churned != [] {
      var g := GroupSizes(MonthKeys(churned));
      ReindexEntries(MonthNames, g);
      var s := GetMonthlyChurn(rows);
      forall i | 0 <= i < |s| ensures s[i].size >= 1 {
        assert Lookup(g, s[i].key) == Some(s[i].size);
      }
    }
  }

  /** A month appears exactly when some churned row was purchased in it, in any year, and then
      its count is the number of such rows. */
  lemma MonthlyChurnCounts(rows: seq<Record>, m: Month)
    ensures MonthNames[m - 1] in KeysOf(GetMonthlyChurn(rows)) <==> ChurnedIn(rows, m) > 0
    ensures forall i :: 0 <= i < |GetMonthlyChurn(rows)| && GetMonthlyChurn(rows)[i].key == MonthNames[m - 1] ==>
      GetMonthlyChurn(rows)[i].size == ChurnedIn(rows, m)
  {
    var churned := Filter(rows, IsChurned);
    var keys := MonthKeys(churned);
    ChurnedMonthKeys(rows, m);
    if churned != [] {
      SeriesCounts(MonthNames, keys, MonthNames[m - 1]);
    } else {
      assert keys == [];
    }
  }

  /** Every present month key is a month name, so counting the keys found among the month names
      counts every present key. */
  lemma MonthKeysCovered(rows: seq<Record>)
    ensures CountIn(MonthKeys(rows), set n | n in MonthNames) == |Present(MonthKeys(rows))|
  {
    var keys := MonthKeys(rows);
    forall k | Some(k) in keys ensures k in (set n | n in MonthNames) {
      var i :| 0 <= i < |keys| && keys[i] == Some(k);
      assert keys[i] == MonthKey(rows[i]);
    }
    CountInCovering(keys, set n | n in MonthNames);
  }

  /** The counts of the series add up to the churned rows whose purchase date parsed. */
  lemma MonthlyChurnTotal(rows: seq<Record>)
    ensures TotalSize(GetMonthlyChurn(rows)) == DatedChurned(rows)
  {
    var churned := Filter(rows, IsChurned);
    var keys := MonthKeys(churned);
    ChurnedMonthKeys(rows, 1);
    if churned != [] {
      ReindexTotal(MonthNames, keys);
      MonthNamesDistinct();
      SumOccurrencesDistinct(MonthNames, keys);
      MonthKeysCovered(churned);
    } else {
      assert keys == [];
    }
  }

  /** Two rows that differ at most in the year of their purchase date. */
  predicate SameExceptYear(a: Record, b: Record)
  {
    a.(purchase := None) == b.(purchase := None) &&
    a.purchase.Some? == b.purchase.Some? &&
    (a.purchase.Some? ==> a.purchase.value.month == b.purchase.value.month)
  }

  lemma {:induction false} ChurnedMonthKeysIgnoreYear(a: seq<Record>, b: seq<Record>)
    requires |a| == |b| && forall i :: 0 <= i < |a| ==> SameExceptYear(a[i], b[i])
    ensures MonthKeys(Filter(a, IsChurned)) == MonthKeys(Filter(b, IsChurned))
    ensures |Filter(a, IsChurned)| == |Filter(b, IsChurned)|
  {
    if a != [] {
      ChurnedMonthKeysIgnoreYear(a[1..], b[1..]);
      assert IsChurned(a[0]) == IsChurned(b[0]);
      var ha := if IsChurned(a[0]) then [a[0]] else [];
      var hb := if IsChurned(b[0]) then [b[0]] else [];
      MonthKeysConcat(ha, Filter(a[1..], IsChurned));
      MonthKeysConcat(hb, Filter(b[1..], IsChurned));
      assert MonthKeys(ha) == MonthKeys(hb);
    }
  }

  /** The series merges years: changing only the years of purchase dates never changes it. */
  lemma MonthlyChurnIgnoresYear(a: seq<Record>, b: seq<Record>)
    requires |a| == |b| && forall i :: 0 <= i < |a| ==> SameExceptYear(a[i], b[i])
    ensures GetMonthlyChurn(a) == GetMonthlyChurn(b)
  {
    ChurnedMonthKeysIgnoreYear(a, b);
  }
}
