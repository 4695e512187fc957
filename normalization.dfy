/**
 * The normalisation stage of `transform_data` (transform.py:100-126):
 * three dimension tables with dense surrogate ids, and the sales fact
 * table obtained by inner-joining the cleaned rows against them.
 */
module Normalization {
  import opened Wrappers
  import opened Selection
  import opened Rows

  /** A dimension row: its natural key and its surrogate id. */
  datatype Entry<K> = Entry(key: K, id: nat)

  /** The natural key of a product: its name and its category. */
  type ProductKey = (Option<string>, Option<string>)

  /** One row of the `sales` table, with the columns the source selects. */
  datatype Sale = Sale(
    transactionId: Option<string>,
    dayOfWeek: Option<string>,
    productId: nat,
    customerId: nat,
    storeId: nat,
    price: Option<real>,
    quantitySold: Option<real>,
    totalSale: Option<real>)

  datatype Tables = Tables(
    customers: seq<Entry<Option<string>>>,
    stores: seq<Entry<Option<string>>>,
    products: seq<Entry<ProductKey>>,
    sales: seq<Sale>)

  function CustomerKeys(rows: seq<Row>): seq<Option<string>>
  {
    seq(|rows|, i requires 0 <= i < |rows| => rows[i].customerName)
  }

  function StoreKeys(rows: seq<Row>): seq<Option<string>>
  {
    seq(|rows|, i requires 0 <= i < |rows| => rows[i].storeLocation)
  }

  function ProductKeys(rows: seq<Row>): seq<ProductKey>
  {
    seq(|rows|, i requires 0 <= i < |rows| => (rows[i].productName, rows[i].productCategory))
  }

  /** `df[[key]].drop_duplicates().reset_index(drop=True)`, then `id = index + 1`. */
  function Dimension<K(==)>(keys: seq<K>): seq<Entry<K>>
  {
    var d := Distinct(keys);
    seq(|d|, i requires 0 <= i < |d| => Entry(d[i], i + 1))
  }

  /** The ids of the dimension rows whose key is `k`, in table order. */
  function Lookup<K(==)>(dim: seq<Entry<K>>, k: K): seq<nat>
  {
    if dim == [] then [] else (if dim[0].key == k then [dim[0].id] else []) + Lookup(dim[1..], k)
  }

  function Pair<T>(x: T, ids: seq<nat>): seq<(T, nat)>
  {
    seq(|ids|, i requires 0 <= i < |ids| => (x, ids[i]))
  }

  /**
   * Inner `merge` on a key: every left row paired with the id of every
   * dimension row carrying its key, in the order of the left rows. `keys`
   * holds the key of each left row.
   */
  function Merge<T, K(==)>(left: seq<T>, keys: seq<K>, dim: seq<Entry<K>>): seq<(T, nat)>
    requires |keys| == |left|
  {
    if left == [] then [] else Pair(left[0], Lookup(dim, keys[0])) + Merge(left[1..], keys[1..], dim)
  }

  /** The column selection at transform.py:115-126. */
  function ToSale(w: (((Row, nat), nat), nat)): Sale
  {
    var r := w.0.0.0;
    Sale(r.transactionId, r.dayOfWeek, w.1, w.0.0.1, w.0.1, r.price, r.quantitySold, r.totalSale)
  }

  function Customers(rows: seq<Row>): seq<Entry<Option<string>>> { Dimension(CustomerKeys(rows)) }
  function Stores(rows: seq<Row>): seq<Entry<Option<string>>> { Dimension(StoreKeys(rows)) }
  function Products(rows: seq<Row>): seq<Entry<ProductKey>> { Dimension(ProductKeys(rows)) }

  /** `df.merge(customers, on="customer_name")` */
  function WithCustomer(rows: seq<Row>): seq<(Row, nat)>
  {
    Merge(rows, CustomerKeys(rows), Customers(rows))
  }

  /** `.merge(stores, on="store_location")` */
  function WithStore(rows: seq<Row>): seq<((Row, nat), nat)>
  {
    var w := WithCustomer(rows);
    Merge(w, seq(|w|, i requires 0 <= i < |w| => w[i].0.storeLocation), Stores(rows))
  }

  /** `.merge(products, on=["product_name", "product_category"])` */
  function WithProduct(rows: seq<Row>): seq<(((Row, nat), nat), nat)>
  {
    var w := WithStore(rows);
    Merge(w, seq(|w|, i requires 0 <= i < |w| => (w[i].0.0.productName, w[i].0.0.productCategory)), Products(rows))
  }

  /** Build the three dimension tables and the fact table from the cleaned rows. */
  function Normalize(rows: seq<Row>): Tables
  {
    var w := WithProduct(rows);
    Tables(Customers(rows), Stores(rows), Products(rows), seq(|w|, i requires 0 <= i < |w| => ToSale(w[i])))
  }

  /**
   * A dimension table has ids exactly 1..N, no natural key twice, exactly
   * the keys of the rows, and lists them in the order each first appears.
   */
  lemma DimensionSpec<K>(keys: seq<K>)
    ensures forall i :: 0 <= i < |Dimension(keys)| ==> Dimension(keys)[i].id == i + 1
    ensures forall i, j :: 0 <= i < j < |Dimension(keys)| ==> Dimension(keys)[i].key != Dimension(keys)[j].key
    ensures forall i :: 0 <= i < |Dimension(keys)| ==> Dimension(keys)[i].key in keys
    ensures forall k :: k in keys ==> exists i :: 0 <= i < |Dimension(keys)| && Dimension(keys)[i].key == k
    ensures forall i, j :: 0 <= i < j < |Dimension(keys)| ==>
              (Dimension(keys)[i].key in keys && Dimension(keys)[j].key in keys
               && FirstIndex(keys, Dimension(keys)[i].key) < FirstIndex(keys, Dimension(keys)[j].key))
  {
    var d, t := Distinct(keys), Dimension(keys);
    DistinctSpec(keys);
    forall k | k in keys ensures exists i :: 0 <= i < |t| && t[i].key == k {
      assert k in d;
      var i :| 0 <= i < |d| && d[i] == k;
      assert t[i].key == k;
    }
  }

  /** In a table without repeated keys, a key that occurs matches exactly one row. */
  lemma {:induction false} LookupUnique<K>(dim: seq<Entry<K>>, p: nat)
    requires forall i, j :: 0 <= i < j < |dim| ==> dim[i].key != dim[j].key
    requires p < |dim|
    ensures Lookup(dim, dim[p].key) == [dim[p].id]
  {
    if p == 0 {
      LookupAbsent(dim[1..], dim[0].key);
    } else {
      LookupUnique(dim[1..], p - 1);
    }
  }

  /** A key no row carries matches nothing. */
  lemma {:induction false} LookupAbsent<K>(dim: seq<Entry<K>>, k: K)
    requires forall i :: 0 <= i < |dim| ==> dim[i].key != k
    ensures Lookup(dim, k) == []
  {
    if dim != [] {
      LookupAbsent(dim[1..], k);
    }
  }

  /** Looking up a key of the rows in their dimension table finds exactly the row with that key. */
  lemma DimensionLookup<K>(keys: seq<K>, k: K)
    requires k in keys
    ensures var t, ids := Dimension(keys), Lookup(Dimension(keys), k);
              |ids| == 1 && 0 < ids[0] <= |t| && t[ids[0] - 1].key == k
  {
    var t := Dimension(keys);
    DimensionSpec(keys);
    var p :| 0 <= p < |t| && t[p].key == k;
    LookupUnique(t, p);
  }

  /** When every left row matches exactly one dimension row, the merge pairs each row with that id, in order. */
  lemma {:induction false} MergeExact<T, K>(left: seq<T>, keys: seq<K>, dim: seq<Entry<K>>)
    requires |keys| == |left|
    requires forall i :: 0 <= i < |keys| ==> |Lookup(dim, keys[i])| == 1
    ensures |Merge(left, keys, dim)| == |left|
    ensures forall i :: 0 <= i < |left| ==> Merge(left, keys, dim)[i] == (left[i], Lookup(dim, keys[i])[0])
  {
    if left != [] {
      MergeExact(left[1..], keys[1..], dim);
      assert forall i :: 1 <= i < |keys| ==> keys[1..][i - 1] == keys[i];
    }
  }

  /** Every cleaned row matches exactly one customer, and the merge keeps the rows in order. */
  lemma WithCustomerSpec(rows: seq<Row>)
    ensures |WithCustomer(rows)| == |rows|
    ensures forall i :: 0 <= i < |rows| ==>
              |Lookup(Customers(rows), rows[i].customerName)| == 1
              && WithCustomer(rows)[i] == (rows[i], Lookup(Customers(rows), rows[i].customerName)[0])
  {
    var ck := CustomerKeys(rows);
    forall i | 0 <= i < |rows| ensures |Lookup(Customers(rows), ck[i])| == 1 {
      DimensionLookup(ck, ck[i]);
    }
    MergeExact(rows, ck, Customers(rows));
  }

  lemma WithStoreSpec(rows: seq<Row>)
    ensures |WithCustomer(rows)| == |rows| && |WithStore(rows)| == |rows|
    ensures forall i :: 0 <= i < |rows| ==>
              |Lookup(Stores(rows), rows[i].storeLocation)| == 1
              && WithStore(rows)[i] == (WithCustomer(rows)[i], Lookup(Stores(rows), rows[i].storeLocation)[0])
  {
    WithCustomerSpec(rows);
    var w, sk := WithCustomer(rows), StoreKeys(rows);
    var keys := seq(|w|, i requires 0 <= i < |w| => w[i].0.storeLocation);
    forall i | 0 <= i < |rows| ensures keys[i] == sk[i] && |Lookup(Stores(rows), keys[i])| == 1 {
      DimensionLookup(sk, sk[i]);
    }
    MergeExact(w, keys, Stores(rows));
  }

  lemma WithProductSpec(rows: seq<Row>)
    ensures |WithStore(rows)| == |rows| && |WithProduct(rows)| == |rows|
    ensures forall i :: 0 <= i < |rows| ==>
              |Lookup(Products(rows), (rows[i].productName, rows[i].productCategory))| == 1
              && WithProduct(rows)[i] ==
                   (WithStore(rows)[i], Lookup(Products(rows), (rows[i].productName, rows[i].productCategory))[0])
  {
    WithStoreSpec(rows);
    WithCustomerSpec(rows);
    var w, pk := WithStore(rows), ProductKeys(rows);
    var keys := seq(|w|, i requires 0 <= i < |w| => (w[i].0.0.productName, w[i].0.0.productCategory));
    forall i | 0 <= i < |rows| ensures keys[i] == pk[i] && |Lookup(Products(rows), keys[i])| == 1 {
      DimensionLookup(pk, pk[i]);
    }
    MergeExact(w, keys, Products(rows));
  }

  /** One sale per cleaned row, in row order, carrying the row's own cells. */
  lemma SalesSpec(rows: seq<Row>)
    ensures |Normalize(rows).sales| == |rows|
    ensures forall i :: 0 <= i < |rows| ==>
              var s := Normalize(rows).sales[i];
              && s.transactionId == rows[i].transactionId
              && s.dayOfWeek == rows[i].dayOfWeek
              && s.price == rows[i].price
              && s.quantitySold == rows[i].quantitySold
              && s.totalSale == rows[i].totalSale
              && Lookup(Customers(rows), rows[i].customerName) == [s.customerId]
              && Lookup(Stores(rows), rows[i].storeLocation) == [s.storeId]
              && Lookup(Products(rows), (rows[i].productName, rows[i].productCategory)) == [s.productId]
  {
    WithProductSpec(rows);
    WithStoreSpec(rows);
    WithCustomerSpec(rows);
    var w := WithProduct(rows);
    forall i | 0 <= i < |rows|
      ensures w[i].0.0.0 == rows[i]
      ensures [w[i].0.0.1] == Lookup(Customers(rows), rows[i].customerName)
      ensures [w[i].0.1] == Lookup(Stores(rows), rows[i].storeLocation)
      ensures [w[i].1] == Lookup(Products(rows), (rows[i].productName, rows[i].productCategory))
    {
      assert w[i].0 == WithStore(rows)[i];
      assert w[i].0.0 == WithCustomer(rows)[i];
    }
  }

  /**
   * Referential integrity: each foreign key of a sale matches exactly one
   * dimension row, and the row holding that id carries the sale's natural key.
   */
  lemma ReferentialIntegrity(rows: seq<Row>)
    ensures var t := Normalize(rows);
      && |t.sales| == |rows|
      && forall i :: 0 <= i < |rows| ==>
           && Lookup(t.customers, rows[i].customerName) == [t.sales[i].customerId]
           && 0 < t.sales[i].customerId <= |t.customers|
           && t.customers[t.sales[i].customerId - 1].key == rows[i].customerName
           && Lookup(t.stores, rows[i].storeLocation) == [t.sales[i].storeId]
           && 0 < t.sales[i].storeId <= |t.stores|
           && t.stores[t.sales[i].storeId - 1].key == rows[i].storeLocation
           && Lookup(t.products, (rows[i].productName, rows[i].productCategory)) == [t.sales[i].productId]
           && 0 < t.sales[i].productId <= |t.products|
           && t.products[t.sales[i].productId - 1].key == (rows[i].productName, rows[i].productCategory)
  {
    SalesSpec(rows);
    var t := Normalize(rows);
    var ck, sk, pk := CustomerKeys(rows), StoreKeys(rows), ProductKeys(rows);
    forall i | 0 <= i < |rows|
      ensures 0 < t.sales[i].customerId <= |t.customers| && t.customers[t.sales[i].customerId - 1].key == ck[i]
      ensures 0 < t.sales[i].storeId <= |t.stores| && t.stores[t.sales[i].storeId - 1].key == sk[i]
      ensures 0 < t.sales[i].productId <= |t.products| && t.products[t.sales[i].productId - 1].key == pk[i]
    {
      DimensionLookup(ck, ck[i]);
      DimensionLookup(sk, sk[i]);
      DimensionLookup(pk, pk[i]);
    }
  }

  /** Unique transaction ids in the cleaned rows stay unique in `sales`. */
  lemma SalesIdsUnique(rows: seq<Row>)
    requires UniqueIds(rows)
    ensures forall i, j :: 0 <= i < j < |Normalize(rows).sales| ==>
              Normalize(rows).sales[i].transactionId != Normalize(rows).sales[j].transactionId
  {
    SalesSpec(rows);
  }
}
