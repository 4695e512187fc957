/**
 * `transform_data` (transform.py:15-129): the working table as an object
 * whose rows the cleaning steps replace in place, in the source's order,
 * followed by the pure normalisation stage.
 */
module Transform {
  import opened Wrappers
  import opened Selection
  import opened Numeric
  import opened Rows
  import opened Cleaning
  import opened Normalization

  /** `text_cols`, in the order the first loop visits them. */
  const TextColumns: seq<TextColumn> := [ProductName, ProductCategory, StoreLocation, CustomerName, DayOfWeek]

  /** `title_case_columns`, in the order the second loop visits them. */
  const TitleCaseColumns: seq<TextColumn> := [CustomerName, StoreLocation, DayOfWeek]

  /** The string method a text-column loop applies. */
  datatype TextOp = StripOp | TitleOp

  function ApplyText(op: TextOp, cell: Option<string>): Option<string>
  {
    match op
    case StripOp => StripCell(cell)
    case TitleOp => TitleCell(cell)
  }

  /** `df[col] = df[col].str.strip()` or `df[col] = df[col].str.title()`. */
  function UpdateText(rows: seq<Row>, c: TextColumn, op: TextOp): seq<Row>
  {
    seq(|rows|, i requires 0 <= i < |rows| => SetText(rows[i], c, ApplyText(op, GetText(rows[i], c))))
  }

  /** `df.loc[df[col] < 0, col] = pd.NA` */
  function NullifyColumn(rows: seq<Row>, c: NumericColumn): seq<Row>
  {
    seq(|rows|, i requires 0 <= i < |rows| => SetNumber(rows[i], c, NonNegative(GetNumber(rows[i], c))))
  }

  /** A row after the first `i` passes of the trimming loop over `TextColumns`. */
  function TrimmedThrough(r: Row, i: nat): Row
  {
    r.(productName := if 0 < i then StripCell(r.productName) else r.productName,
       productCategory := if 1 < i then StripCell(r.productCategory) else r.productCategory,
       storeLocation := if 2 < i then StripCell(r.storeLocation) else r.storeLocation,
       customerName := if 3 < i then StripCell(r.customerName) else r.customerName,
       dayOfWeek := if 4 < i then StripCell(r.dayOfWeek) else r.dayOfWeek)
  }

  /** A row after the first `j` passes of the title-casing loop over `TitleCaseColumns`. */
  function TitledThrough(r: Row, j: nat): Row
  {
    r.(customerName := if 0 < j then TitleCell(r.customerName) else r.customerName,
       storeLocation := if 1 < j then TitleCell(r.storeLocation) else r.storeLocation,
       dayOfWeek := if 2 < j then TitleCell(r.dayOfWeek) else r.dayOfWeek)
  }

  /** A row after the first `i` passes of the loop over `NumericColumns`. */
  function NullifiedThrough(r: Row, i: nat): Row
  {
    r.(price := if 0 < i then NonNegative(r.price) else r.price,
       quantitySold := if 1 < i then NonNegative(r.quantitySold) else r.quantitySold,
       totalSale := if 2 < i then NonNegative(r.totalSale) else r.totalSale)
  }

  /** One pass of the trimming loop trims the next column of `TextColumns` in every row. */
  lemma TrimStep(rows: seq<Row>, before: seq<Row>, i: nat)
    requires i < |TextColumns| && |rows| == |before|
    requires forall k :: 0 <= k < |rows| ==> rows[k] == TrimmedThrough(before[k], i)
    ensures forall k :: 0 <= k < |rows| ==>
              UpdateText(rows, TextColumns[i], StripOp)[k] == TrimmedThrough(before[k], i + 1)
  {
    assert i == 0 || i == 1 || i == 2 || i == 3 || i == 4;
  }

  /** One pass of the title-casing loop title-cases the next column of `TitleCaseColumns` in every row. */
  lemma TitleStep(rows: seq<Row>, before: seq<Row>, j: nat)
    requires j < |TitleCaseColumns| && |rows| == |before|
    requires forall k :: 0 <= k < |rows| ==> rows[k] == TitledThrough(before[k], j)
    ensures forall k :: 0 <= k < |rows| ==>
              UpdateText(rows, TitleCaseColumns[j], TitleOp)[k] == TitledThrough(before[k], j + 1)
  {
    assert j == 0 || j == 1 || j == 2;
  }

  /** Trimming every text column and then title-casing three of them is `StandardizeRow`. */
  lemma BothTextLoops(r: Row)
    ensures TitledThrough(TrimmedThrough(r, 5), 3) == StandardizeRow(r)
  {
  }

  /**
   * A pass of the numeric loop: the column it visits still holds its
   * original values, and afterwards that column is nullified too.
   */
  lemma NullifyStep(rows: seq<Row>, before: seq<Row>, i: nat)
    requires i < |NumericColumns| && |rows| == |before|
    requires forall k :: 0 <= k < |rows| ==> rows[k] == NullifiedThrough(before[k], i)
    ensures NegativeMask(rows, NumericColumns[i]) == NegativeMask(before, NumericColumns[i])
    ensures forall k :: 0 <= k < |rows| ==>
              NullifyColumn(rows, NumericColumns[i])[k] == NullifiedThrough(before[k], i + 1)
  {
    assert i == 0 || i == 1 || i == 2;
    var c := NumericColumns[i];
    forall k | 0 <= k < |rows| ensures GetNumber(rows[k], c) == GetNumber(before[k], c) {
    }
  }

  /** A pass of the numeric loop over a column with no negative cell changes nothing. */
  lemma NullifyNothing(rows: seq<Row>, c: NumericColumn)
    requires NegativeCount(rows, c) == 0
    ensures NullifyColumn(rows, c) == rows
  {
    CountTrueZero(NegativeMask(rows, c));
    forall k | 0 <= k < |rows| ensures NullifyColumn(rows, c)[k] == rows[k] {
      assert NegativeMask(rows, c)[k] == IsNegative(GetNumber(rows[k], c));
    }
  }

  /** The result of a successful run: the four tables and the warning counts. */
  datatype Output = Output(tables: Tables, warnings: Warnings)

  /** The reference result of `transform_data`. */
  function TransformResult(raw: seq<Row>): Result<Output, TransformError>
  {
    match Clean(raw)
    case Failure(e) => Failure(e)
    case Success(c) => Success(Output(Normalize(c.rows), c.warnings))
  }

  /**
   * What `transform_data` delivers: it fails exactly when the quantity cast
   * fails; otherwise the sales table has unique transaction ids, clean cells,
   * and foreign keys that point into the dimension tables.
   */
  lemma TransformSpec(raw: seq<Row>)
    ensures TransformResult(raw).Failure? <==> FillQuantity(CleanToPrice(raw)).Failure?
    ensures TransformResult(raw).Success? ==>
              var t := TransformResult(raw).value.tables;
              && (forall i, j :: 0 <= i < j < |t.sales| ==> t.sales[i].transactionId != t.sales[j].transactionId)
              && (forall i :: 0 <= i < |t.sales| ==>
                    && t.sales[i].transactionId.Some?
                    && t.sales[i].dayOfWeek.Some? && TitledCell(t.sales[i].dayOfWeek)
                    && !IsNegative(t.sales[i].price) && !IsNegative(t.sales[i].totalSale)
                    && (t.sales[i].quantitySold.Some? ==>
                          IsWhole(t.sales[i].quantitySold.value) && t.sales[i].quantitySold.value >= 0.0)
                    && 0 < t.sales[i].customerId <= |t.customers|
                    && 0 < t.sales[i].storeId <= |t.stores|
                    && 0 < t.sales[i].productId <= |t.products|)
  {
    CleanSpec(raw);
    if Clean(raw).Success? {
      var rows := Clean(raw).value.rows;
      SalesSpec(rows);
      SalesIdsUnique(rows);
      ReferentialIntegrity(rows);
    }
  }

  /** The working table `df`. */
  class SalesFrame {
    var rows: seq<Row>

    constructor (raw: seq<Row>)
      ensures rows == raw
    {
      rows := raw;
    }

    /** `df.drop_duplicates(inplace=True)` */
    method DropDuplicates()
      modifies this
      ensures rows == Distinct(old(rows))
      ensures forall k, l :: 0 <= k < l < |rows| ==> rows[k] != rows[l]
      ensures forall x :: x in rows <==> x in old(rows)
    {
      DistinctSpec(rows);
      rows := Distinct(rows);
    }

    /** `df.dropna(subset=["transaction_id"], inplace=True)` */
    method DropMissingIds()
      modifies this
      ensures rows == Cleaning.DropMissingIds(old(rows))
      ensures forall x :: x in rows <==> x in old(rows) && x.transactionId.Some?
    {
      forall x ensures x in Cleaning.DropMissingIds(rows) <==> x in rows && x.transactionId.Some? {
        SelectMembers(rows, HasIdMask(rows), x);
      }
      rows := Cleaning.DropMissingIds(rows);
    }

    /** The `day_of_week` block: fill with the mode, or drop the rows when there is none. */
    method FillDayOfWeek()
      modifies this
      ensures rows == Cleaning.FillDayOfWeek(old(rows))
      ensures forall i :: 0 <= i < |rows| ==> rows[i].dayOfWeek.Some?
    {
      var cur := rows;
      var mode := Mode(PresentDays(cur));
      if mode.Some? {
        rows := FillDays(cur, mode.value);
      } else {
        PresentDaysSpec(cur);
        ModeSpec(PresentDays(cur));
        FillDayOfWeekAbsent(cur);
        rows := DropMissingDays(cur);
      }
    }

    /** `df.dropna(subset=critical_cols, inplace=True)` */
    method DropMissingKeys()
      modifies this
      ensures rows == Cleaning.DropMissingKeys(old(rows))
      ensures forall x :: x in rows <==> x in old(rows) && HasKeys(x)
    {
      DropMissingKeysSpec(rows);
      rows := Cleaning.DropMissingKeys(rows);
    }

    /** The two column loops: trim every text column, then title-case three of them. */
    method StandardizeText()
      modifies this
      ensures rows == Cleaning.StandardizeText(old(rows))
    {
      ghost var before := rows;
      var i := 0;
      while i < |TextColumns|
        invariant 0 <= i <= |TextColumns|
        invariant |rows| == |before|
        invariant forall k :: 0 <= k < |rows| ==> rows[k] == TrimmedThrough(before[k], i)
      {
        TrimStep(rows, before, i);
        rows := UpdateText(rows, TextColumns[i], StripOp);
        i := i + 1;
      }
      ghost var stripped := rows;
      var j := 0;
      while j < |TitleCaseColumns|
        invariant 0 <= j <= |TitleCaseColumns|
        invariant |rows| == |before|
        invariant forall k :: 0 <= k < |rows| ==> rows[k] == TitledThrough(stripped[k], j)
      {
        TitleStep(rows, stripped, j);
        rows := UpdateText(rows, TitleCaseColumns[j], TitleOp);
        j := j + 1;
      }
      forall k | 0 <= k < |rows| ensures rows[k] == StandardizeRow(before[k]) {
        assert stripped[k] == TrimmedThrough(before[k], 5);
        BothTextLoops(before[k]);
      }
    }

    /** Warn about and drop repeated transaction ids; returns `len(dupes)`. */
    method ResolveDuplicateIds() returns (dupes: nat)
      modifies this
      ensures dupes == DuplicatedIdCount(old(rows))
      ensures rows == Cleaning.ResolveDuplicateIds(old(rows))
      ensures UniqueIds(rows)
      ensures dupes == 0 <==> UniqueIds(old(rows))
    {
      DuplicatedIdCountSpec(rows);
      ResolveDuplicateIdsSpec(rows);
      dupes := DuplicatedIdCount(rows);
      if dupes > 0 {
        rows := DropDuplicateIds(rows);
      }
    }

    /** Group-wise mean fill of missing prices. */
    method FillPrice()
      modifies this
      ensures rows == Cleaning.FillPrice(old(rows))
      ensures |rows| == |old(rows)|
      ensures forall i :: 0 <= i < |rows| ==> rows[i] == old(rows)[i].(price := rows[i].price)
    {
      rows := Cleaning.FillPrice(rows);
    }

    /** Fill and round the quantities; `false` when the integer cast would raise. */
    method FillQuantity() returns (ok: bool)
      modifies this
      ensures ok == Cleaning.FillQuantity(old(rows)).Success?
      ensures ok ==> rows == Cleaning.FillQuantity(old(rows)).value
      ensures ok ==> forall i :: 0 <= i < |rows| ==> rows[i].quantitySold.Some? && IsWhole(rows[i].quantitySold.value)
      ensures !ok ==> rows == old(rows)
    {
      FillQuantitySpec(rows);
      match Cleaning.FillQuantity(rows)
      case Failure(_) =>
        ok := false;
      case Success(filled) =>
        rows := filled;
        ok := true;
    }

    /** Derive the missing totals. */
    method DeriveTotals()
      modifies this
      ensures rows == Cleaning.DeriveTotals(old(rows))
      ensures |rows| == |old(rows)|
      ensures forall i :: 0 <= i < |rows| && old(rows)[i].totalSale.Some? ==> rows[i] == old(rows)[i]
    {
      rows := Cleaning.DeriveTotals(rows);
    }

    /** The loop over the numeric columns; returns the per-column counts of negative cells. */
    method NullifyNegatives() returns (counts: seq<nat>)
      modifies this
      ensures rows == Cleaning.NullifyNegatives(old(rows))
      ensures counts == [NegativeCount(old(rows), Price), NegativeCount(old(rows), QuantitySold),
                         NegativeCount(old(rows), TotalSale)]
    {
      ghost var before := rows;
      counts := [];
      var i := 0;
      while i < |NumericColumns|
        invariant 0 <= i <= |NumericColumns|
        invariant |rows| == |before|
        invariant forall k :: 0 <= k < |rows| ==> rows[k] == NullifiedThrough(before[k], i)
        invariant |counts| == i
        invariant forall j :: 0 <= j < i ==> counts[j] == NegativeCount(before, NumericColumns[j])
      {
        var col := NumericColumns[i];
        NullifyStep(rows, before, i);
        var n := NegativeCount(rows, col);
        if n > 0 {
          rows := NullifyColumn(rows, col);
        } else {
          NullifyNothing(rows, col);
        }
        counts := counts + [n];
        i := i + 1;
      }
      assert forall k :: 0 <= k < |rows| ==> rows[k] == NullifiedThrough(before[k], 3);
    }

    /** The consistency audit: counts inconsistent rows and changes nothing. */
    method AuditConsistency() returns (inconsistent: nat)
      ensures inconsistent == InconsistentCount(rows)
      ensures inconsistent > 0 <==> exists i :: 0 <= i < |rows| && Inconsistent(rows[i])
    {
      InconsistentCountSpec(rows);
      inconsistent := InconsistentCount(rows);
    }
  }

  /**
   * `transform_data`: clean a private working table in place, in the
   * source's order, then build the four tables from it.
   */
  method TransformData(raw: seq<Row>) returns (result: Result<Output, TransformError>)
    ensures result == TransformResult(raw)
  {
    var df := new SalesFrame(raw);
    df.DropDuplicates();
    df.DropMissingIds();
    df.FillDayOfWeek();
    df.DropMissingKeys();
    df.StandardizeText();
    var dupes := df.ResolveDuplicateIds();
    df.FillPrice();
    var ok := df.FillQuantity();
    if !ok {
      return Failure(QuantityNotInteger);
    }
    df.DeriveTotals();
    var negatives := df.NullifyNegatives();
    var inconsistent := df.AuditConsistency();
    var tables := Normalize(df.rows);
    result := Success(Output(tables, Warnings(dupes, negatives[0], negatives[1], negatives[2], inconsistent)));
  }
}
