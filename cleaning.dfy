/**
 * The cleaning stage of `transform_data` (transform.py), one function per
 * step, each applied to the whole working table. The methods of
 * `Transform.SalesFrame` perform these steps in place; the lemmas here state
 * what each step guarantees.
 */
module Cleaning {
  import opened Wrappers
  import opened Selection
  import opened Text
  import opened Numeric
  import opened Rows

  /** `astype(int)` on a quantity column that still holds a missing value raises. */
  datatype TransformError = QuantityNotInteger

  /** The warning counts the cleaning stage logs. */
  datatype Warnings = Warnings(
    duplicateIds: nat,
    negativePrices: nat,
    negativeQuantities: nat,
    negativeTotals: nat,
    inconsistentTotals: nat)

  datatype Cleaned = Cleaned(rows: seq<Row>, warnings: Warnings)

  // ---------------------------------------------------------------------
  // Exact duplicates and missing transaction ids (transform.py:29-30)
  // ---------------------------------------------------------------------

  function HasIdMask(rows: seq<Row>): seq<bool>
  {
    seq(|rows|, i requires 0 <= i < |rows| => rows[i].transactionId.Some?)
  }

  /** `dropna(subset=["transaction_id"])` */
  function DropMissingIds(rows: seq<Row>): seq<Row>
  {
    Select(rows, HasIdMask(rows))
  }

  /**
   * After the first two drops every row has a transaction id, no two rows
   * are identical, exactly the raw rows with an id survive, and they keep
   * the order in which they first appeared.
   */
  lemma FirstDropsSpec(raw: seq<Row>)
    ensures var r := DropMissingIds(Distinct(raw));
      && (forall x :: x in r ==> x.transactionId.Some?)
      && (forall k, l :: 0 <= k < l < |r| ==> r[k] != r[l])
      && (forall x :: x in r <==> x in raw && x.transactionId.Some?)
      && (forall k, l :: 0 <= k < l < |r| ==>
            (r[k] in raw && r[l] in raw && FirstIndex(raw, r[k]) < FirstIndex(raw, r[l])))
  {
    var d := Distinct(raw);
    var m := HasIdMask(d);
    var r := DropMissingIds(d);
    var ks := Kept(m);
    DistinctSpec(raw);
    SelectKeepsDistinct(d, m);
    forall x ensures x in r <==> x in d && x.transactionId.Some? {
      SelectMembers(d, m, x);
    }
    forall k, l | 0 <= k < l < |r|
      ensures r[k] in raw && r[l] in raw && FirstIndex(raw, r[k]) < FirstIndex(raw, r[l])
    {
      assert r[k] == d[ks[k]] && r[l] == d[ks[l]] && ks[k] < ks[l];
    }
  }

  // ---------------------------------------------------------------------
  // day_of_week imputation by the mode (transform.py:33-38)
  // ---------------------------------------------------------------------

  /** The present `day_of_week` values, in row order. */
  function PresentDays(rows: seq<Row>): seq<string>
  {
    if rows == [] then []
    else PresentDays(rows[..|rows| - 1]) + rows[|rows| - 1].dayOfWeek.ToSeq()
  }

  lemma {:induction false} PresentDaysSpec(rows: seq<Row>)
    ensures PresentDays(rows) == [] <==> forall i :: 0 <= i < |rows| ==> rows[i].dayOfWeek.None?
    ensures forall d :: d in PresentDays(rows) <==> exists i :: 0 <= i < |rows| && rows[i].dayOfWeek == Some(d)
  {
    if rows != [] {
      var p := rows[..|rows| - 1];
      PresentDaysSpec(p);
      assert forall i :: 0 <= i < |p| ==> p[i] == rows[i];
    }
  }

  function Occurrences(vals: seq<string>, x: string): nat
  {
    if vals == [] then 0
    else Occurrences(vals[..|vals| - 1], x) + (if vals[|vals| - 1] == x then 1 else 0)
  }

  /** The rows whose day is `v`: the ones `mode()` counts for `v`. */
  function DayMask(rows: seq<Row>, v: string): seq<bool>
  {
    seq(|rows|, i requires 0 <= i < |rows| => rows[i].dayOfWeek == Some(v))
  }

  lemma {:induction false} OccurrencesAppend(a: seq<string>, b: seq<string>, x: string)
    ensures Occurrences(a + b, x) == Occurrences(a, x) + Occurrences(b, x)
  {
    if b != [] {
      assert (a + b)[..|a + b| - 1] == a + b[..|b| - 1];
      assert (a + b)[|a + b| - 1] == b[|b| - 1];
      OccurrencesAppend(a, b[..|b| - 1], x);
    } else {
      assert a + b == a;
    }
  }

  /** `mode()` counts rows: a day occurs among the counted values once per row holding it. */
  lemma {:induction false} PresentDaysCount(rows: seq<Row>, v: string)
    ensures Occurrences(PresentDays(rows), v) == CountTrue(DayMask(rows, v))
  {
    if rows != [] {
      var p := rows[..|rows| - 1];
      var last := rows[|rows| - 1];
      PresentDaysCount(p, v);
      OccurrencesAppend(PresentDays(p), last.dayOfWeek.ToSeq(), v);
      assert DayMask(rows, v)[..|rows| - 1] == DayMask(p, v);
      if last.dayOfWeek.Some? {
        assert Occurrences(last.dayOfWeek.ToSeq(), v) == Occurrences([], v) + (if last.dayOfWeek.value == v then 1 else 0);
      }
    }
  }

  /** The best candidate: most frequent in `vals`, ties going to the smaller string. */
  function BestOf(cands: seq<string>, vals: seq<string>): string
    requires cands != []
  {
    if |cands| == 1 then cands[0]
    else
      var rest := BestOf(cands[1..], vals);
      var c := cands[0];
      if Occurrences(vals, c) > Occurrences(vals, rest)
         || (Occurrences(vals, c) == Occurrences(vals, rest) && StrLess(c, rest))
      then c else rest
  }

  /** `Series.mode()[0]`: the smallest of the most frequent values (the modes come sorted). */
  function Mode(vals: seq<string>): Option<string>
  {
    if vals == [] then None else Some(BestOf(vals, vals))
  }

  lemma {:induction false} BestOfSpec(cands: seq<string>, vals: seq<string>)
    requires cands != []
    ensures BestOf(cands, vals) in cands
    ensures forall c :: c in cands ==>
              Occurrences(vals, c) <= Occurrences(vals, BestOf(cands, vals))
              && (Occurrences(vals, c) == Occurrences(vals, BestOf(cands, vals)) ==>
                    c == BestOf(cands, vals) || StrLess(BestOf(cands, vals), c))
  {
    if |cands| > 1 {
      var rest := BestOf(cands[1..], vals);
      BestOfSpec(cands[1..], vals);
      var c := cands[0];
      var b := BestOf(cands, vals);
      forall x | x in cands
        ensures Occurrences(vals, x) <= Occurrences(vals, b)
        ensures Occurrences(vals, x) == Occurrences(vals, b) ==> x == b || StrLess(b, x)
      {
        if Occurrences(vals, c) > Occurrences(vals, rest)
           || (Occurrences(vals, c) == Occurrences(vals, rest) && StrLess(c, rest)) {
          if x != c {
            assert x in cands[1..];
            if Occurrences(vals, x) == Occurrences(vals, b) && x != rest {
              StrLessTransitive(c, rest, x);
            }
          }
        } else {
          StrLessTotal(c, rest);
          if x != c {
            assert x in cands[1..];
          }
        }
      }
    }
  }

  /**
   * The mode exists exactly when some value is present; it is one of the
   * values, at least as frequent as any other, and the smallest among the
   * equally frequent ones.
   */
  lemma ModeSpec(vals: seq<string>)
    ensures Mode(vals).None? <==> vals == []
    ensures Mode(vals).Some? ==> Mode(vals).value in vals
    ensures forall v :: v in vals ==>
              Occurrences(vals, v) <= Occurrences(vals, Mode(vals).value)
              && (Occurrences(vals, v) == Occurrences(vals, Mode(vals).value) ==>
                    v == Mode(vals).value || StrLess(Mode(vals).value, v))
  {
    if vals != [] {
      BestOfSpec(vals, vals);
    }
  }

  /** Any value meeting the mode's description is the mode: the description has one answer. */
  lemma ModeUnique(vals: seq<string>, m: string)
    requires m in vals
    requires forall v :: v in vals ==>
               Occurrences(vals, v) <= Occurrences(vals, m)
               && (Occurrences(vals, v) == Occurrences(vals, m) ==> v == m || StrLess(m, v))
    ensures Mode(vals) == Some(m)
  {
    ModeSpec(vals);
    var b := Mode(vals).value;
    if b != m {
      assert Occurrences(vals, b) <= Occurrences(vals, m) && Occurrences(vals, m) <= Occurrences(vals, b);
      assert StrLess(m, b) && StrLess(b, m);
      StrLessTransitive(m, b, m);
      StrLessIrreflexive(m);
    }
  }

  function HasDayMask(rows: seq<Row>): seq<bool>
  {
    seq(|rows|, i requires 0 <= i < |rows| => rows[i].dayOfWeek.Some?)
  }

  /** `fillna(m)` on the day column. */
  function FillDays(rows: seq<Row>, m: string): seq<Row>
  {
    seq(|rows|, i requires 0 <= i < |rows| => rows[i].(dayOfWeek := Some(rows[i].dayOfWeek.GetOr(m))))
  }

  /** `dropna(subset=["day_of_week"])` */
  function DropMissingDays(rows: seq<Row>): seq<Row>
  {
    Select(rows, HasDayMask(rows))
  }

  /** Fill missing days with the mode; with no mode, drop the rows without a day. */
  function FillDayOfWeek(rows: seq<Row>): seq<Row>
  {
    match Mode(PresentDays(rows))
    case Some(m) => FillDays(rows, m)
    case None => DropMissingDays(rows)
  }

  /**
   * If some day is present, every missing day becomes the mode and nothing
   * else changes.
   */
  lemma FillDayOfWeekPresent(rows: seq<Row>)
    requires exists i :: 0 <= i < |rows| && rows[i].dayOfWeek.Some?
    ensures Mode(PresentDays(rows)).Some?
    ensures |FillDayOfWeek(rows)| == |rows|
    ensures forall i :: 0 <= i < |rows| && rows[i].dayOfWeek.Some? ==> FillDayOfWeek(rows)[i] == rows[i]
    ensures forall i :: 0 <= i < |rows| && rows[i].dayOfWeek.None? ==>
              FillDayOfWeek(rows)[i] == rows[i].(dayOfWeek := Mode(PresentDays(rows)))
  {
    PresentDaysSpec(rows);
    ModeSpec(PresentDays(rows));
  }

  /** If no day is present, `dropna` on the day column drops every row. */
  lemma FillDayOfWeekAbsent(rows: seq<Row>)
    requires forall i :: 0 <= i < |rows| ==> rows[i].dayOfWeek.None?
    ensures FillDayOfWeek(rows) == []
  {
    PresentDaysSpec(rows);
    ModeSpec(PresentDays(rows));
    CountTrueZero(HasDayMask(rows));
  }

  // ---------------------------------------------------------------------
  // Rows missing a dimension key (transform.py:41-42)
  // ---------------------------------------------------------------------

  predicate HasKeys(r: Row)
  {
    r.productName.Some? && r.productCategory.Some? && r.storeLocation.Some? && r.customerName.Some?
  }

  function HasKeysMask(rows: seq<Row>): seq<bool>
  {
    seq(|rows|, i requires 0 <= i < |rows| => HasKeys(rows[i]))
  }

  /** `dropna(subset=critical_cols)` */
  function DropMissingKeys(rows: seq<Row>): seq<Row>
  {
    Select(rows, HasKeysMask(rows))
  }

  /** Exactly the rows that have all four dimension keys survive. */
  lemma DropMissingKeysSpec(rows: seq<Row>)
    ensures forall x :: x in DropMissingKeys(rows) <==> x in rows && HasKeys(x)
  {
    forall x ensures x in DropMissingKeys(rows) <==> x in rows && HasKeys(x) {
      SelectMembers(rows, HasKeysMask(rows), x);
    }
  }

  // ---------------------------------------------------------------------
  // Text standardisation (transform.py:45-53)
  // ---------------------------------------------------------------------

  function StripCell(t: Option<string>): Option<string>
  {
    match t
    case Some(s) => Some(Strip(s))
    case None => None
  }

  function TitleCell(t: Option<string>): Option<string>
  {
    match t
    case Some(s) => Some(Title(s))
    case None => None
  }

  /** Trimmed text, or a missing cell. */
  predicate StrippedCell(t: Option<string>)
  {
    t.Some? ==> IsStripped(t.value)
  }

  /** Trimmed, title-cased text, or a missing cell. */
  predicate TitledCell(t: Option<string>)
  {
    t.Some? ==> IsStripped(t.value) && IsTitled(t.value)
  }

  /** The reference effect of the two column loops on one row. */
  function StandardizeRow(r: Row): Row
  {
    r.(productName := StripCell(r.productName),
       productCategory := StripCell(r.productCategory),
       storeLocation := TitleCell(StripCell(r.storeLocation)),
       customerName := TitleCell(StripCell(r.customerName)),
       dayOfWeek := TitleCell(StripCell(r.dayOfWeek)))
  }

  function StandardizeText(rows: seq<Row>): seq<Row>
  {
    seq(|rows|, i requires 0 <= i < |rows| => StandardizeRow(rows[i]))
  }

  /** A standardised cell is trimmed, and title-cased where required; it is missing exactly when it was. */
  lemma StandardizeCellSpec(t: Option<string>)
    ensures StripCell(t).Some? == t.Some? && StrippedCell(StripCell(t))
    ensures TitleCell(StripCell(t)).Some? == t.Some? && TitledCell(TitleCell(StripCell(t)))
  {
    if t.Some? {
      TitleKeepsStripped(Strip(t.value));
      TitleIsTitled(Strip(t.value));
    }
  }

  // ---------------------------------------------------------------------
  // Repeated transaction ids (transform.py:56-59)
  // ---------------------------------------------------------------------

  /** The rows `duplicated(subset=["transaction_id"], keep=False)` marks. */
  function DuplicatedMask(rows: seq<Row>): seq<bool>
  {
    var ids := Tids(rows);
    seq(|rows|, i requires 0 <= i < |rows| => ids[i] in ids[..i] || ids[i] in ids[i + 1..])
  }

  /** `len(dupes)`, the count the warning reports. */
  function DuplicatedIdCount(rows: seq<Row>): nat
  {
    CountTrue(DuplicatedMask(rows))
  }

  /** `drop_duplicates(subset=["transaction_id"])`: keep the first row of each id. */
  function DropDuplicateIds(rows: seq<Row>): seq<Row>
  {
    Select(rows, FirstMask(Tids(rows)))
  }

  /** The guarded drop at transform.py:57-59. */
  function ResolveDuplicateIds(rows: seq<Row>): seq<Row>
  {
    if DuplicatedIdCount(rows) > 0 then DropDuplicateIds(rows) else rows
  }

  /** Nothing is reported exactly when the ids are already unique. */
  lemma DuplicatedIdCountSpec(rows: seq<Row>)
    ensures DuplicatedIdCount(rows) == 0 <==> UniqueIds(rows)
  {
    var ids, m := Tids(rows), DuplicatedMask(rows);
    CountTrueZero(m);
    if DuplicatedIdCount(rows) == 0 {
      forall i, j | 0 <= i < j < |rows| ensures rows[i].transactionId != rows[j].transactionId {
        assert !m[j];
        assert ids[i] == ids[..j][i];
      }
    } else {
      var i :| 0 <= i < |rows| && m[i];
      if ids[i] in ids[..i] {
        var j :| 0 <= j < i && ids[..i][j] == ids[i];
        assert rows[j].transactionId == rows[i].transactionId;
      } else {
        var j :| 0 <= j < |ids[i + 1..]| && ids[i + 1..][j] == ids[i];
        assert rows[i + 1 + j].transactionId == rows[i].transactionId;
      }
    }
  }

  /** The guard is only a shortcut: with unique ids the drop would change nothing. */
  lemma ResolveIsDrop(rows: seq<Row>)
    ensures ResolveDuplicateIds(rows) == DropDuplicateIds(rows)
  {
    if DuplicatedIdCount(rows) == 0 {
      DuplicatedIdCountSpec(rows);
      var ids, m := Tids(rows), FirstMask(Tids(rows));
      assert forall i :: 0 <= i < |m| ==> m[i];
      CountTrueFull(m);
      var r := DropDuplicateIds(rows);
      var ks := Kept(m);
      assert |ks| == |rows|;
      forall k | 0 <= k < |ks| ensures ks[k] == k {
        KeptAll(m, k);
      }
    }
  }

  /**
   * After the duplicate check every transaction id is unique; the kept rows
   * are, in order, the earliest row of each id, so a row whose id is not
   * repeated survives unchanged.
   */
  lemma ResolveDuplicateIdsSpec(rows: seq<Row>)
    ensures var r, ids := ResolveDuplicateIds(rows), Tids(rows);
      && UniqueIds(r)
      && |r| == |Kept(FirstMask(ids))|
      && (forall k :: 0 <= k < |r| ==>
            r[k] == rows[Kept(FirstMask(ids))[k]]
            && ids[Kept(FirstMask(ids))[k]] !in ids[..Kept(FirstMask(ids))[k]])
      && (forall i :: 0 <= i < |rows| && ids[i] !in ids[..i] ==> rows[i] in r)
  {
    ResolveIsDrop(rows);
    var ids := Tids(rows);
    var m := FirstMask(ids);
    var r, ks := DropDuplicateIds(rows), Kept(m);
    forall k, l | 0 <= k < l < |r| ensures r[k].transactionId != r[l].transactionId {
      assert r[k].transactionId == ids[ks[k]] && r[l].transactionId == ids[ks[l]];
      assert ids[ks[k]] == ids[..ks[l]][ks[k]];
    }
    forall i | 0 <= i < |rows| && ids[i] !in ids[..i] ensures rows[i] in r {
      SelectMembers(rows, m, rows[i]);
    }
  }

  /** Two rows sharing an id: both are reported and exactly the first survives. */
  lemma DuplicateIdExample(a: Row, b: Row)
    requires a.transactionId == b.transactionId
    ensures DuplicatedIdCount([a, b]) == 2
    ensures ResolveDuplicateIds([a, b]) == [a]
  {
    var ids := Tids([a, b]);
    assert ids == [a.transactionId, a.transactionId];
    var d := DuplicatedMask([a, b]);
    assert d[0] by { assert ids[1..] == [ids[0]]; }
    assert d[1] by { assert ids[..1] == [ids[0]]; }
    assert d == [true, true];
    assert CountTrue([true]) == 1;
    assert [true, true][..1] == [true];
    assert DuplicatedIdCount([a, b]) == 2;
    var m := FirstMask(ids);
    assert m[0] by { assert ids[..0] == []; }
    assert !m[1] by { assert ids[..1] == [ids[0]]; }
    assert m == [true, false];
    assert Kept([false]) == [];
    assert Kept(m) == [0];
    var r := DropDuplicateIds([a, b]);
    assert |r| == 1 && r[0] == a;
    assert r == [a];
  }

  // ---------------------------------------------------------------------
  // Price imputation by product group (transform.py:62-63)
  // ---------------------------------------------------------------------

  /** The present prices of the rows whose `product_name` is `name`, in row order. */
  function GroupPrices(rows: seq<Row>, name: Option<string>): seq<real>
  {
    if rows == [] then []
    else
      var last := rows[|rows| - 1];
      GroupPrices(rows[..|rows| - 1], name) +
        if last.productName == name && last.price.Some? then [last.price.value] else []
  }

  lemma {:induction false} GroupPricesSpec(rows: seq<Row>, name: Option<string>)
    ensures forall p :: p in GroupPrices(rows, name) <==>
              exists j :: 0 <= j < |rows| && rows[j].productName == name && rows[j].price == Some(p)
  {
    if rows != [] {
      var pre := rows[..|rows| - 1];
      GroupPricesSpec(pre, name);
      assert forall j :: 0 <= j < |pre| ==> pre[j] == rows[j];
    }
  }

  /** The rows of a product group that carry a price. */
  function GroupMask(rows: seq<Row>, name: Option<string>): seq<bool>
  {
    seq(|rows|, j requires 0 <= j < |rows| => rows[j].productName == name && rows[j].price.Some?)
  }

  /** `g[k]` is the price of row `ks[k]`, for every position `k`. */
  predicate PricedAt(g: seq<real>, rows: seq<Row>, ks: seq<int>)
  {
    |g| == |ks| && forall k :: 0 <= k < |g| ==> 0 <= ks[k] < |rows| && rows[ks[k]].price == Some(g[k])
  }

  lemma PricedAtGrow(g: seq<real>, rows: seq<Row>, ks: seq<int>, r: Row)
    requires PricedAt(g, rows, ks)
    ensures PricedAt(g, rows + [r], ks)
  {
  }

  lemma PricedAtPush(g: seq<real>, rows: seq<Row>, ks: seq<int>, i: int, x: real)
    requires PricedAt(g, rows, ks) && 0 <= i < |rows| && rows[i].price == Some(x)
    ensures PricedAt(g + [x], rows, ks + [i])
  {
  }

  /** The group's prices are one per priced row of the group, in row order. */
  lemma {:induction false} GroupPricesPositions(rows: seq<Row>, name: Option<string>)
    ensures PricedAt(GroupPrices(rows, name), rows, Kept(GroupMask(rows, name)))
  {
    if rows != [] {
      var p := rows[..|rows| - 1];
      var last := rows[|rows| - 1];
      var m := GroupMask(rows, name);
      GroupPricesPositions(p, name);
      assert m[..|m| - 1] == GroupMask(p, name);
      var ks, kp := Kept(m), Kept(GroupMask(p, name));
      var g, gp := GroupPrices(rows, name), GroupPrices(p, name);
      assert rows == p + [last];
      PricedAtGrow(gp, p, kp, last);
      if m[|m| - 1] {
        assert ks == kp + [|m| - 1];
        assert g == gp + [last.price.value];
        PricedAtPush(gp, rows, kp, |rows| - 1, last.price.value);
      } else {
        assert ks == kp && g == gp;
      }
    }
  }

  /**
   * `groupby("product_name")["price"].transform(lambda x: x.fillna(x.mean()))`.
   * A row without a product name belongs to no group and gets NaN.
   */
  function FillPriceRow(rows: seq<Row>, r: Row): Row
  {
    if r.productName.None? then r.(price := None)
    else if r.price.Some? then r
    else r.(price := Mean(GroupPrices(rows, r.productName)))
  }

  function FillPrice(rows: seq<Row>): seq<Row>
  {
    seq(|rows|, i requires 0 <= i < |rows| => FillPriceRow(rows, rows[i]))
  }

  /**
   * For rows with a product name: present prices stay, a missing price
   * becomes the mean of its group's present prices, and stays missing when
   * the group has none. The fill lies between the group's lowest and
   * highest price.
   */
  lemma FillPriceSpec(rows: seq<Row>, i: nat, lo: real, hi: real)
    requires i < |rows| && rows[i].productName.Some?
    requires forall j :: 0 <= j < |rows| && rows[j].productName == rows[i].productName && rows[j].price.Some? ==>
               lo <= rows[j].price.value <= hi
    ensures |FillPrice(rows)| == |rows|
    ensures FillPrice(rows)[i] == rows[i].(price := FillPrice(rows)[i].price)
    ensures rows[i].price.Some? ==> FillPrice(rows)[i].price == rows[i].price
    ensures rows[i].price.None? ==> FillPrice(rows)[i].price == Mean(GroupPrices(rows, rows[i].productName))
    ensures FillPrice(rows)[i].price.None? <==>
              forall j :: 0 <= j < |rows| && rows[j].productName == rows[i].productName ==> rows[j].price.None?
    ensures FillPrice(rows)[i].price.Some? ==> lo <= FillPrice(rows)[i].price.value <= hi
  {
    var g := GroupPrices(rows, rows[i].productName);
    GroupPricesSpec(rows, rows[i].productName);
    if rows[i].price.None? && g != [] {
      forall k | 0 <= k < |g| ensures lo <= g[k] <= hi {
        assert g[k] in g;
      }
      MeanBounds(g, lo, hi);
    }
    if g != [] {
      assert g[0] in g;
    }
  }

  /** Two prices 10 and 20 for a product fill a third, missing one with 15. */
  lemma PriceFillExample(a: Row, b: Row, c: Row)
    requires a.productName == b.productName == c.productName == Some("Pen")
    requires a.price == Some(10.0) && b.price == Some(20.0) && c.price == None
    ensures FillPrice([a, b, c])[2].price == Some(15.0)
  {
    var n := Some("Pen");
    assert GroupPrices([a], n) == [10.0] by { assert [a][..0] == []; }
    assert GroupPrices([a, b], n) == [10.0, 20.0] by { assert [a, b][..1] == [a]; }
    assert GroupPrices([a, b, c], n) == [10.0, 20.0] by { assert [a, b, c][..2] == [a, b]; }
    assert Sum([10.0, 20.0]) == 30.0 by { assert [10.0, 20.0][..1] == [10.0]; assert [10.0][..0] == []; }
  }

  // ---------------------------------------------------------------------
  // Quantity imputation and rounding (transform.py:66-68)
  // ---------------------------------------------------------------------

  /** The present quantities, in row order. */
  function PresentQuantities(rows: seq<Row>): seq<real>
  {
    if rows == [] then []
    else PresentQuantities(rows[..|rows| - 1]) + rows[|rows| - 1].quantitySold.ToSeq()
  }

  lemma {:induction false} PresentQuantitiesSpec(rows: seq<Row>)
    ensures PresentQuantities(rows) == [] <==> forall i :: 0 <= i < |rows| ==> rows[i].quantitySold.None?
  {
    if rows != [] {
      var p := rows[..|rows| - 1];
      PresentQuantitiesSpec(p);
      assert forall i :: 0 <= i < |p| ==> p[i] == rows[i];
    }
  }

  /** The rows that carry a quantity. */
  function HasQuantityMask(rows: seq<Row>): seq<bool>
  {
    seq(|rows|, i requires 0 <= i < |rows| => rows[i].quantitySold.Some?)
  }

  /** The quantities averaged are one per row carrying a quantity, in row order. */
  lemma {:induction false} PresentQuantitiesPositions(rows: seq<Row>)
    ensures |PresentQuantities(rows)| == |Kept(HasQuantityMask(rows))|
    ensures forall k :: 0 <= k < |PresentQuantities(rows)| ==>
              PresentQuantities(rows)[k] == rows[Kept(HasQuantityMask(rows))[k]].quantitySold.value
  {
    if rows != [] {
      var p := rows[..|rows| - 1];
      var m := HasQuantityMask(rows);
      PresentQuantitiesPositions(p);
      assert m[..|m| - 1] == HasQuantityMask(p);
      var ks, kp := Kept(m), Kept(HasQuantityMask(p));
      assert ks == kp + (if m[|m| - 1] then [|m| - 1] else []);
      forall k | 0 <= k < |PresentQuantities(rows)|
        ensures PresentQuantities(rows)[k] == rows[ks[k]].quantitySold.value
      {
        if k < |kp| {
          assert ks[k] == kp[k] && p[kp[k]] == rows[kp[k]];
        }
      }
    }
  }

  /** Fill with `fill`, then round to an integer. */
  function RoundQuantityRow(r: Row, fill: real): Row
  {
    r.(quantitySold := Some(RoundHalfEven(r.quantitySold.GetOr(fill)) as real))
  }

  /**
   * `fillna(mean)`, `round()`, `astype(int)`. The cast fails when a value is
   * still missing, which happens exactly when some quantity is missing and
   * none is present to average.
   */
  function FillQuantity(rows: seq<Row>): Result<seq<Row>, TransformError>
  {
    var mean := Mean(PresentQuantities(rows));
    if mean.None? && exists i :: 0 <= i < |rows| && rows[i].quantitySold.None? then
      Failure(QuantityNotInteger)
    else
      Success(seq(|rows|, i requires 0 <= i < |rows| => RoundQuantityRow(rows[i], mean.GetOr(0.0))))
  }

  /**
   * The fill fails exactly when a quantity is missing and none is present.
   * Otherwise every quantity becomes a whole number: a present one rounded,
   * a missing one the rounded mean, and nothing else in the row changes.
   */
  lemma FillQuantitySpec(rows: seq<Row>)
    ensures FillQuantity(rows).Failure? <==>
              (exists i :: 0 <= i < |rows| && rows[i].quantitySold.None?)
              && (forall i :: 0 <= i < |rows| ==> rows[i].quantitySold.None?)
    ensures FillQuantity(rows).Success? ==>
              var r := FillQuantity(rows).value;
              && |r| == |rows|
              && forall i :: 0 <= i < |rows| ==>
                   && r[i].quantitySold.Some? && IsWhole(r[i].quantitySold.value)
                   && r[i] == rows[i].(quantitySold := r[i].quantitySold)
                   && (rows[i].quantitySold.Some? ==>
                         r[i].quantitySold == Some(RoundHalfEven(rows[i].quantitySold.value) as real))
                   && (rows[i].quantitySold.None? ==>
                         r[i].quantitySold == Some(RoundHalfEven(Mean(PresentQuantities(rows)).value) as real))
  {
    PresentQuantitiesSpec(rows);
  }

  /** Quantities 2, 4 and a missing one become 2, 4 and 3. */
  lemma QuantityFillExample(a: Row, b: Row, c: Row)
    requires a.quantitySold == Some(2.0) && b.quantitySold == Some(4.0) && c.quantitySold == None
    ensures FillQuantity([a, b, c]).Success?
    ensures var r := FillQuantity([a, b, c]).value;
              r[0].quantitySold == Some(2.0) && r[1].quantitySold == Some(4.0) && r[2].quantitySold == Some(3.0)
  {
    assert PresentQuantities([a]) == [2.0] by { assert [a][..0] == []; }
    assert PresentQuantities([a, b]) == [2.0, 4.0] by { assert [a, b][..1] == [a]; }
    assert PresentQuantities([a, b, c]) == [2.0, 4.0] by { assert [a, b, c][..2] == [a, b]; }
    assert Sum([2.0, 4.0]) == 6.0 by { assert [2.0, 4.0][..1] == [2.0]; assert [2.0][..0] == []; }
    assert Mean(PresentQuantities([a, b, c])) == Some(3.0);
    assert [a, b, c][2].quantitySold.None?;
    var r := FillQuantity([a, b, c]).value;
    assert r[0] == RoundQuantityRow(a, 3.0) && r[1] == RoundQuantityRow(b, 3.0) && r[2] == RoundQuantityRow(c, 3.0);
    assert RoundHalfEven(2.0) == 2;
    assert RoundHalfEven(4.0) == 4;
    assert RoundHalfEven(3.0) == 3;
  }

  // ---------------------------------------------------------------------
  // Derived totals (transform.py:71-76)
  // ---------------------------------------------------------------------

  /** `round(price * quantity_sold, 2)`, missing when either factor is. */
  function DerivedTotal(r: Row): Option<real>
  {
    match (r.price, r.quantitySold)
    case (Some(p), Some(q)) => Some(Round2(p * q))
    case _ => None
  }

  function DeriveTotalRow(r: Row): Row
  {
    if r.totalSale.Some? then r else r.(totalSale := DerivedTotal(r))
  }

  function DeriveTotals(rows: seq<Row>): seq<Row>
  {
    seq(|rows|, i requires 0 <= i < |rows| => DeriveTotalRow(rows[i]))
  }

  /** `abs(total_sale - price * quantity_sold) > 0.01`; a missing cell compares false. */
  predicate Inconsistent(r: Row)
  {
    match (r.price, r.quantitySold, r.totalSale)
    case (Some(p), Some(q), Some(t)) => t - p * q > 0.01 || p * q - t > 0.01
    case _ => false
  }

  /**
   * A present total is kept; a missing one becomes `price * quantity_sold`
   * rounded to cents (missing if a factor is). A derived total is never
   * flagged by the consistency audit.
   */
  lemma DeriveTotalSpec(r: Row)
    ensures DeriveTotalRow(r) == r.(totalSale := DeriveTotalRow(r).totalSale)
    ensures r.totalSale.Some? ==> DeriveTotalRow(r).totalSale == r.totalSale
    ensures r.totalSale.None? ==>
              (DeriveTotalRow(r).totalSale.Some? <==> r.price.Some? && r.quantitySold.Some?)
    ensures r.totalSale.None? && r.price.Some? && r.quantitySold.Some? ==>
              var t := DeriveTotalRow(r).totalSale.value;
              var pq := r.price.value * r.quantitySold.value;
              pq - 0.005 <= t <= pq + 0.005 && IsWhole(t * 100.0) && !Inconsistent(DeriveTotalRow(r))
  {
  }

  /** Price 5 and quantity 3 with no total give a total of 15.00. */
  lemma TotalExample(r: Row)
    requires r.price == Some(5.0) && r.quantitySold == Some(3.0) && r.totalSale == None
    ensures DeriveTotalRow(r).totalSale == Some(15.0)
  {
    assert RoundHalfEven(1500.0) == 1500;
  }

  // ---------------------------------------------------------------------
  // Negative values and the consistency audit (transform.py:79-90)
  // ---------------------------------------------------------------------

  predicate IsNegative(v: Option<real>)
  {
    v.Some? && v.value < 0.0
  }

  function NonNegative(v: Option<real>): Option<real>
  {
    if IsNegative(v) then None else v
  }

  const NumericColumns: seq<NumericColumn> := [Price, QuantitySold, TotalSale]

  /** The reference effect of the column loop on one row. */
  function NullifyRow(r: Row): Row
  {
    r.(price := NonNegative(r.price),
       quantitySold := NonNegative(r.quantitySold),
       totalSale := NonNegative(r.totalSale))
  }

  function NullifyNegatives(rows: seq<Row>): seq<Row>
  {
    seq(|rows|, i requires 0 <= i < |rows| => NullifyRow(rows[i]))
  }

  function NegativeMask(rows: seq<Row>, c: NumericColumn): seq<bool>
  {
    seq(|rows|, i requires 0 <= i < |rows| => IsNegative(GetNumber(rows[i], c)))
  }

  /** `len(neg_values)` for one column. */
  function NegativeCount(rows: seq<Row>, c: NumericColumn): nat
  {
    CountTrue(NegativeMask(rows, c))
  }

  /**
   * A negative cell becomes missing, every other cell is kept, and no row
   * is dropped or added.
   */
  lemma NullifyRowSpec(r: Row)
    ensures forall c :: !IsNegative(GetNumber(NullifyRow(r), c))
    ensures forall c :: !IsNegative(GetNumber(r, c)) ==> GetNumber(NullifyRow(r), c) == GetNumber(r, c)
    ensures forall c :: IsNegative(GetNumber(r, c)) ==> GetNumber(NullifyRow(r), c).None?
    ensures NullifyRow(r) == r.(price := NullifyRow(r).price, quantitySold := NullifyRow(r).quantitySold,
                                totalSale := NullifyRow(r).totalSale)
  {
    forall c ensures !IsNegative(GetNumber(NullifyRow(r), c)) {
      match c
      case Price =>
      case QuantitySold =>
      case TotalSale =>
    }
  }

  /** A price of -5 becomes missing, the row stays, and the price count is 1. */
  lemma NegativePriceExample(r: Row)
    requires r.price == Some(-5.0) && !IsNegative(r.quantitySold) && !IsNegative(r.totalSale)
    ensures NullifyNegatives([r]) == [r.(price := None)]
    ensures NegativeCount([r], Price) == 1
    ensures NegativeCount([r], QuantitySold) == 0 && NegativeCount([r], TotalSale) == 0
  {
    assert NegativeMask([r], Price) == [true];
    assert NegativeMask([r], QuantitySold) == [false];
    assert NegativeMask([r], TotalSale) == [false];
    assert CountTrue([false]) == 0;
  }

  function InconsistentMask(rows: seq<Row>): seq<bool>
  {
    seq(|rows|, i requires 0 <= i < |rows| => Inconsistent(rows[i]))
  }

  /** The count the consistency warning reports. */
  function InconsistentCount(rows: seq<Row>): nat
  {
    CountTrue(InconsistentMask(rows))
  }

  lemma {:induction false} CountTrueExists(m: seq<bool>)
    ensures CountTrue(m) > 0 <==> exists i :: 0 <= i < |m| && m[i]
  {
    CountTrueZero(m);
  }

  /** The audit reports a positive count exactly when some row is inconsistent. */
  lemma InconsistentCountSpec(rows: seq<Row>)
    ensures InconsistentCount(rows) > 0 <==> exists i :: 0 <= i < |rows| && Inconsistent(rows[i])
  {
    var m := InconsistentMask(rows);
    CountTrueExists(m);
    if exists i :: 0 <= i < |rows| && Inconsistent(rows[i]) {
      var i :| 0 <= i < |rows| && Inconsistent(rows[i]);
      assert m[i];
    }
  }

  // ---------------------------------------------------------------------
  // The whole cleaning stage (transform.py:28-93)
  // ---------------------------------------------------------------------

  /** Steps up to and including the price fill: these cannot fail. */
  function CleanToPrice(raw: seq<Row>): seq<Row>
  {
    FillPrice(ResolveDuplicateIds(StandardizeText(DropMissingKeys(FillDayOfWeek(DropMissingIds(Distinct(raw)))))))
  }

  /** The cleaned table and the warning counts, or the cast failure. */
  function Clean(raw: seq<Row>): Result<Cleaned, TransformError>
  {
    var r1 := DropMissingIds(Distinct(raw));
    var r2 := FillDayOfWeek(r1);
    var r3 := DropMissingKeys(r2);
    var r4 := StandardizeText(r3);
    var dupes := DuplicatedIdCount(r4);
    var r5 := ResolveDuplicateIds(r4);
    var r6 := FillPrice(r5);
    match FillQuantity(r6)
    case Failure(e) => Failure(e)
    case Success(r7) =>
      var r8 := DeriveTotals(r7);
      var r9 := NullifyNegatives(r8);
      Success(Cleaned(r9, Warnings(dupes, NegativeCount(r8, Price), NegativeCount(r8, QuantitySold),
                                   NegativeCount(r8, TotalSale), InconsistentCount(r9))))
  }

  /** What every cleaned row satisfies. */
  ghost predicate CleanRow(r: Row)
  {
    && r.transactionId.Some?
    && r.dayOfWeek.Some? && TitledCell(r.dayOfWeek)
    && r.productName.Some? && StrippedCell(r.productName)
    && r.productCategory.Some? && StrippedCell(r.productCategory)
    && r.storeLocation.Some? && TitledCell(r.storeLocation)
    && r.customerName.Some? && TitledCell(r.customerName)
    && !IsNegative(r.price)
    && !IsNegative(r.totalSale)
    && (r.quantitySold.Some? ==> IsWhole(r.quantitySold.value) && r.quantitySold.value >= 0.0)
  }

  /** The text and key guarantees that hold once the duplicate check is done. */
  ghost predicate KeysClean(r: Row)
  {
    && r.transactionId.Some?
    && r.dayOfWeek.Some? && TitledCell(r.dayOfWeek)
    && r.productName.Some? && StrippedCell(r.productName)
    && r.productCategory.Some? && StrippedCell(r.productCategory)
    && r.storeLocation.Some? && TitledCell(r.storeLocation)
    && r.customerName.Some? && TitledCell(r.customerName)
  }

  /** After the first drops and the day fill, every row has an id and a day. */
  lemma DayStageSpec(raw: seq<Row>)
    ensures forall x :: x in FillDayOfWeek(DropMissingIds(Distinct(raw))) ==>
              x.transactionId.Some? && x.dayOfWeek.Some?
  {
    var r1 := DropMissingIds(Distinct(raw));
    var r2 := FillDayOfWeek(r1);
    FirstDropsSpec(raw);
    if exists i :: 0 <= i < |r1| && r1[i].dayOfWeek.Some? {
      FillDayOfWeekPresent(r1);
      forall i | 0 <= i < |r2| ensures r2[i].transactionId.Some? && r2[i].dayOfWeek.Some? {
        assert r1[i] in r1;
        assert r2[i].transactionId == r1[i].transactionId;
      }
    } else {
      FillDayOfWeekAbsent(r1);
    }
  }

  /** Dropping rows without keys and standardising text makes every key cell clean. */
  lemma TextStageSpec(r2: seq<Row>)
    requires forall x :: x in r2 ==> x.transactionId.Some? && x.dayOfWeek.Some?
    ensures forall i :: 0 <= i < |StandardizeText(DropMissingKeys(r2))| ==>
              KeysClean(StandardizeText(DropMissingKeys(r2))[i])
  {
    var r3 := DropMissingKeys(r2);
    var r4 := StandardizeText(r3);
    DropMissingKeysSpec(r2);
    forall i | 0 <= i < |r4| ensures KeysClean(r4[i]) {
      var x := r3[i];
      assert x in r3;
      StandardizeCellSpec(x.productName);
      StandardizeCellSpec(x.productCategory);
      StandardizeCellSpec(x.storeLocation);
      StandardizeCellSpec(x.customerName);
      StandardizeCellSpec(x.dayOfWeek);
    }
  }

  /** Resolving repeated ids keeps only rows that were there, so clean keys stay clean. */
  lemma ResolveKeepsKeysClean(r4: seq<Row>)
    requires forall i :: 0 <= i < |r4| ==> KeysClean(r4[i])
    ensures UniqueIds(ResolveDuplicateIds(r4))
    ensures forall x :: x in ResolveDuplicateIds(r4) ==> x in r4
    ensures forall i :: 0 <= i < |ResolveDuplicateIds(r4)| ==> KeysClean(ResolveDuplicateIds(r4)[i])
  {
    var r5 := ResolveDuplicateIds(r4);
    ResolveDuplicateIdsSpec(r4);
    ResolveIsDrop(r4);
    SelectSubset(r4, FirstMask(Tids(r4)));
    forall i | 0 <= i < |r5| ensures KeysClean(r5[i]) {
      assert r5[i] in r4;
      var j :| 0 <= j < |r4| && r4[j] == r5[i];
      assert KeysClean(r4[j]);
    }
  }

  /** The price fill touches neither ids nor key cells. */
  lemma FillPriceKeepsKeysClean(r5: seq<Row>)
    requires UniqueIds(r5)
    requires forall i :: 0 <= i < |r5| ==> KeysClean(r5[i])
    ensures |FillPrice(r5)| == |r5|
    ensures forall i :: 0 <= i < |r5| ==> FillPrice(r5)[i] == r5[i].(price := FillPrice(r5)[i].price)
    ensures UniqueIds(FillPrice(r5))
    ensures forall i :: 0 <= i < |FillPrice(r5)| ==> KeysClean(FillPrice(r5)[i])
  {
  }

  /** The duplicate check and the price fill keep the key cells clean and make ids unique. */
  lemma DedupStageSpec(r4: seq<Row>)
    requires forall i :: 0 <= i < |r4| ==> KeysClean(r4[i])
    ensures UniqueIds(FillPrice(ResolveDuplicateIds(r4)))
    ensures forall i :: 0 <= i < |FillPrice(ResolveDuplicateIds(r4))| ==>
              KeysClean(FillPrice(ResolveDuplicateIds(r4))[i])
  {
    ResolveKeepsKeysClean(r4);
    FillPriceKeepsKeysClean(ResolveDuplicateIds(r4));
  }

  lemma CleanToPriceSpec(raw: seq<Row>)
    ensures UniqueIds(CleanToPrice(raw))
    ensures forall i :: 0 <= i < |CleanToPrice(raw)| ==> KeysClean(CleanToPrice(raw)[i])
  {
    var r2 := FillDayOfWeek(DropMissingIds(Distinct(raw)));
    DayStageSpec(raw);
    TextStageSpec(r2);
    DedupStageSpec(StandardizeText(DropMissingKeys(r2)));
  }

  /** The steps after the price fill turn a row with clean keys into a clean row. */
  lemma TailRowSpec(x: Row, fill: real)
    requires KeysClean(x)
    ensures var y := NullifyRow(DeriveTotalRow(RoundQuantityRow(x, fill)));
              CleanRow(y) && y.transactionId == x.transactionId
  {
    var q := RoundQuantityRow(x, fill);
    var t := DeriveTotalRow(q);
    var y := NullifyRow(t);
    NullifyRowSpec(t);
    assert GetNumber(y, Price) == y.price;
    assert GetNumber(y, TotalSale) == y.totalSale;
    assert GetNumber(y, QuantitySold) == y.quantitySold;
    assert q.quantitySold.Some? && IsWhole(q.quantitySold.value);
  }

  /**
   * When cleaning succeeds, transaction ids are unique and every row is
   * clean: ids, days and dimension keys present, text trimmed and
   * title-cased where required, no negative number, quantities whole.
   * Cleaning fails only on the quantity cast.
   */
  lemma CleanSpec(raw: seq<Row>)
    ensures Clean(raw).Failure? <==> FillQuantity(CleanToPrice(raw)).Failure?
    ensures Clean(raw).Success? ==>
              UniqueIds(Clean(raw).value.rows)
              && forall i :: 0 <= i < |Clean(raw).value.rows| ==> CleanRow(Clean(raw).value.rows[i])
  {
    var r6 := CleanToPrice(raw);
    CleanToPriceSpec(raw);
    FillQuantitySpec(r6);
    if FillQuantity(r6).Success? {
      var r7 := FillQuantity(r6).value;
      var r8 := DeriveTotals(r7);
      var r9 := NullifyNegatives(r8);
      var fill := Mean(PresentQuantities(r6)).GetOr(0.0);
      forall i | 0 <= i < |r9| ensures CleanRow(r9[i]) && r9[i].transactionId == r6[i].transactionId {
        assert r9[i] == NullifyRow(DeriveTotalRow(RoundQuantityRow(r6[i], fill)));
        TailRowSpec(r6[i], fill);
      }
    }
  }
}
