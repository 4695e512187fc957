/** The raw sales table: one record per transaction observation. */
module Rows {
  import opened Wrappers

  /**
   * One row of the working table. Every cell may be missing. A numeric
   * cell holds a number or is missing; a non-numeric cell is not modelled.
   */
  datatype Row = Row(
    transactionId: Option<string>,
    dayOfWeek: Option<string>,
    productName: Option<string>,
    productCategory: Option<string>,
    storeLocation: Option<string>,
    customerName: Option<string>,
    price: Option<real>,
    quantitySold: Option<real>,
    totalSale: Option<real>)

  /** The text columns the normaliser trims and title-cases. */
  datatype TextColumn = ProductName | ProductCategory | StoreLocation | CustomerName | DayOfWeek

  function GetText(r: Row, c: TextColumn): Option<string>
  {
    match c
    case ProductName => r.productName
    case ProductCategory => r.productCategory
    case StoreLocation => r.storeLocation
    case CustomerName => r.customerName
    case DayOfWeek => r.dayOfWeek
  }

  function SetText(r: Row, c: TextColumn, v: Option<string>): Row
  {
    match c
    case ProductName => r.(productName := v)
    case ProductCategory => r.(productCategory := v)
    case StoreLocation => r.(storeLocation := v)
    case CustomerName => r.(customerName := v)
    case DayOfWeek => r.(dayOfWeek := v)
  }

  /** The numeric columns checked for negative values. */
  datatype NumericColumn = Price | QuantitySold | TotalSale

  function GetNumber(r: Row, c: NumericColumn): Option<real>
  {
    match c
    case Price => r.price
    case QuantitySold => r.quantitySold
    case TotalSale => r.totalSale
  }

  function SetNumber(r: Row, c: NumericColumn, v: Option<real>): Row
  {
    match c
    case Price => r.(price := v)
    case QuantitySold => r.(quantitySold := v)
    case TotalSale => r.(totalSale := v)
  }

  /** The `transaction_id` column. */
  function Tids(rows: seq<Row>): seq<Option<string>>
  {
    seq(|rows|, i requires 0 <= i < |rows| => rows[i].transactionId)
  }

  /** No transaction id occurs in two rows. */
  ghost predicate UniqueIds(rows: seq<Row>)
  {
    forall i, j :: 0 <= i < j < |rows| ==> rows[i].transactionId != rows[j].transactionId
  }
}
