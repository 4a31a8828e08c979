/**
 * Dimension normalisation and fact loading of `Report.start_process`: the
 * distinct country and product names of the raw records are appended to the
 * `country` and `petroleum_product` tables, each table is read back into a
 * name -> id dictionary, and every raw record is rewritten with those ids.
 *
 * The two dimension tables are modelled as their rows in rowid order; an
 * `autoincrement` insert gives the new row the largest id so far plus one.
 */
module Normalize {
  import opened Wrappers

  /** One element of the fetched JSON array. */
  datatype RawRecord = RawRecord(country: string, petroleumProduct: string, year: int, sale: real)

  /** A row `(id, name)` of the `country` or the `petroleum_product` table. */
  datatype DimRow = DimRow(id: int, name: string)

  /** A row `(country_id, product_id, year, sales)` of `petroleum_sales`. */
  datatype FactRow = FactRow(countryId: int, productId: int, year: int, sales: real)

  /** The `KeyError` a dictionary lookup raises for a missing name. */
  datatype LookupError = KeyError(key: string)

  /** The three tables of the database. */
  datatype Tables = Tables(country: seq<DimRow>, product: seq<DimRow>, sales: seq<FactRow>)

  /** The set comprehension over `x['country']`. */
  function CountryNames(raw: seq<RawRecord>): set<string>
  {
    set x | x in raw :: x.country
  }

  /** The set comprehension over `x['petroleum_product']`. */
  function ProductNames(raw: seq<RawRecord>): set<string>
  {
    set x | x in raw :: x.petroleumProduct
  }

  predicate Distinct(names: seq<string>)
  {
    forall i, j :: 0 <= i < j < |names| ==> names[i] != names[j]
  }

  /**
   * `list(names)` for a set `names`: every name exactly once, in an order
   * Python does not specify.
   */
  predicate IsEnumeration(order: seq<string>, names: set<string>)
  {
    Distinct(order) && (forall n :: n in order ==> n in names) && (forall n :: n in names ==> n in order)
  }

  /** An enumeration has one element per name of the set. */
  lemma {:induction false} EnumerationSize(order: seq<string>, names: set<string>)
    requires IsEnumeration(order, names)
    ensures |order| == |names|
  {
    if order != [] {
      var last := order[|order| - 1];
      var front := order[..|order| - 1];
      assert forall n :: n in front <==> n in order && n != last by {
        forall n ensures n in front <==> n in order && n != last {
          if n in order && n != last {
            var i :| 0 <= i < |order| && order[i] == n;
            assert i < |order| - 1 && front[i] == n;
          }
        }
      }
      EnumerationSize(front, names - {last});
    }
  }

  /** The largest id of the table, or 0 for an empty table. */
  function MaxId(table: seq<DimRow>): (m: nat)
    ensures forall i :: 0 <= i < |table| ==> table[i].id <= m
  {
    if table == [] then 0
    else
      var rest := MaxId(table[..|table| - 1]);
      var last := table[|table| - 1].id;
      if last > rest then last else rest
  }

  /** The maximum is 0 or the id of some row of the table. */
  lemma {:induction false} MaxIdAttained(table: seq<DimRow>)
    ensures MaxId(table) == 0 || exists i :: 0 <= i < |table| && table[i].id == MaxId(table)
  {
    if table != [] {
      var front := table[..|table| - 1];
      MaxIdAttained(front);
      if MaxId(table) != 0 && MaxId(table) != table[|table| - 1].id {
        var i :| 0 <= i < |front| && front[i].id == MaxId(front);
        assert table[i] == front[i];
      }
    }
  }

  /** No two rows of the table share an id (`id integer primary key`). */
  predicate UniqueIds(table: seq<DimRow>)
  {
    forall i, j :: 0 <= i < j < |table| ==> table[i].id != table[j].id
  }

  /** Rows for `names`, in order, with consecutive ids from `start`. */
  function FreshRows(start: int, names: seq<string>): (r: seq<DimRow>)
    ensures |r| == |names|
    ensures forall i :: 0 <= i < |names| ==> r[i] == DimRow(start + i, names[i])
    decreases |names|
  {
    if names == [] then [] else [DimRow(start, names[0])] + FreshRows(start + 1, names[1..])
  }

  /**
   * `executemany("insert into ... values (?)", names)`: one `autoincrement`
   * insert per name, in order, each taking the largest id so far plus one.
   * The old rows stay as they were and one row per name follows them,
   * carrying that name.
   */
  function InsertNames(table: seq<DimRow>, names: seq<string>): (r: seq<DimRow>)
    ensures |r| == |table| + |names| && r[..|table|] == table
    ensures forall i :: 0 <= i < |names| ==> r[|table| + i].name == names[i]
    decreases |names|
  {
    if names == [] then table
    else
      var next := table + [DimRow(MaxId(table) + 1, names[0])];
      var r := InsertNames(next, names[1..]);
      assert r[..|table|] == r[..|next|][..|table|];
      assert r[|table|] == next[|table|];
      r
  }

  /**
   * The new rows follow the old ones, in the order of `names`, with
   * consecutive ids from the old maximum plus one.
   */
  lemma {:induction false} InsertNamesFresh(table: seq<DimRow>, names: seq<string>)
    ensures InsertNames(table, names) == table + FreshRows(MaxId(table) + 1, names)
    decreases |names|
  {
    if names == [] {
      assert table + FreshRows(MaxId(table) + 1, names) == table;
    } else {
      var next := table + [DimRow(MaxId(table) + 1, names[0])];
      InsertNamesFresh(next, names[1..]);
      InsertOneStep(table, names);
    }
  }

  /** Inserting the first name and then the rest gives the same rows as the closed form. */
  lemma InsertOneStep(table: seq<DimRow>, names: seq<string>)
    requires names != []
    ensures var next := table + [DimRow(MaxId(table) + 1, names[0])];
            table + FreshRows(MaxId(table) + 1, names) == next + FreshRows(MaxId(next) + 1, names[1..])
  {
    var row := DimRow(MaxId(table) + 1, names[0]);
    MaxIdSnoc(table, names[0]);
    assert table + ([row] + FreshRows(MaxId(table) + 2, names[1..]))
           == (table + [row]) + FreshRows(MaxId(table) + 2, names[1..]);
  }

  /** Appending a row with the next id raises the maximum by one. */
  lemma MaxIdSnoc(table: seq<DimRow>, n: string)
    ensures MaxId(table + [DimRow(MaxId(table) + 1, n)]) == MaxId(table) + 1
  {
  }

  /** The inserts keep the primary key unique: every fresh id is above every old one. */
  lemma InsertNamesKeepsUniqueIds(table: seq<DimRow>, names: seq<string>)
    requires UniqueIds(table)
    ensures UniqueIds(InsertNames(table, names))
  {
    var r := InsertNames(table, names);
    var n := |table|;
    InsertNamesFresh(table, names);
    forall i, j | 0 <= i < j < |r| ensures r[i].id != r[j].id {
      if j < n {
        assert r[i] == r[..n][i] && r[j] == r[..n][j];
      } else if i < n {
        assert r[i] == r[..n][i];
        assert r[j] == r[n + (j - n)];
        assert r[i].id <= MaxId(table);
      } else {
        assert r[i] == r[n + (i - n)] && r[j] == r[n + (j - n)];
      }
    }
  }

  /** Row `i` is the last row of the table whose name is `n`. */
  predicate LastRowFor(rows: seq<DimRow>, n: string, i: int)
  {
    0 <= i < |rows| && rows[i].name == n && forall j :: i < j < |rows| ==> rows[j].name != n
  }

  /**
   * The dictionary comprehension `{x[1]: x[0] for x in rows}`: a key for
   * every name in the table, each mapped to the id of a row of that name.
   */
  function NameToId(rows: seq<DimRow>): (m: map<string, int>)
    ensures forall n :: n in m <==> exists i :: 0 <= i < |rows| && rows[i].name == n
    ensures forall n :: n in m ==> DimRow(m[n], n) in rows
  {
    if rows == [] then map[]
    else
      var front, last := rows[..|rows| - 1], rows[|rows| - 1];
      var m := NameToId(front)[last.name := last.id];
      assert forall i :: 0 <= i < |front| ==> front[i] == rows[i];
      assert forall r :: r in front ==> r in rows;
      m
  }

  /**
   * Later rows overwrite earlier ones: a name maps to the id of the LAST row
   * of the table that carries it.
   */
  lemma {:induction false} NameToIdLastWins(rows: seq<DimRow>, n: string, i: int)
    requires LastRowFor(rows, n, i)
    ensures n in NameToId(rows) && NameToId(rows)[n] == rows[i].id
  {
    var front, last := rows[..|rows| - 1], rows[|rows| - 1];
    if i < |rows| - 1 {
      assert LastRowFor(front, n, i);
      NameToIdLastWins(front, n, i);
    }
  }

  /**
   * With distinct names, the row inserted for `order[i]` is the last row of
   * that name, and it carries the `i`-th fresh id.
   */
  lemma InsertedRowIsLast(table: seq<DimRow>, order: seq<string>, i: nat)
    requires Distinct(order) && i < |order|
    ensures LastRowFor(InsertNames(table, order), order[i], |table| + i)
    ensures InsertNames(table, order)[|table| + i].id == MaxId(table) + 1 + i
  {
    var rows := InsertNames(table, order);
    InsertNamesFresh(table, order);
    assert rows[|table| + i] == FreshRows(MaxId(table) + 1, order)[i];
    forall j | |table| + i < j < |rows|
      ensures rows[j].name != order[i]
    {
      assert rows[j].name == order[j - |table|];
    }
  }

  /**
   * Shared body of `_populate_country_table` and
   * `_populate_petroleum_products`: insert the names, read the whole table
   * back and build the name -> id dictionary over every row of the table,
   * old and new. Every inserted name maps to
   * the fresh id of its own new row, never to an older row of the same name,
   * and every id in the dictionary belongs to a row of that name.
   */
  function PopulateDimension(table: seq<DimRow>, order: seq<string>): (r: (seq<DimRow>, map<string, int>))
    requires Distinct(order)
    ensures r.0 == InsertNames(table, order)
    ensures |r.0| == |table| + |order| && r.0[..|table|] == table
    ensures forall i :: 0 <= i < |order| ==> order[i] in r.1 && r.1[order[i]] == MaxId(table) + 1 + i
    ensures forall n :: n in r.1 ==> DimRow(r.1[n], n) in r.0
    ensures r.1 == NameToId(r.0)
  {
    var rows := InsertNames(table, order);
    var ids := NameToId(rows);
    forall i | 0 <= i < |order|
      ensures order[i] in ids && ids[order[i]] == MaxId(table) + 1 + i
    {
      InsertedRowIsLast(table, order, i);
      NameToIdLastWins(rows, order[i], |table| + i);
    }
    (rows, ids)
  }

  /**
   * `_populate_country_table`: the table becomes the old rows followed by one
   * row per distinct country, the dictionary maps every name of the table to
   * its id, and every country of the raw records maps to the fresh id of its
   * new row.
   */
  function PopulateCountryTable(table: seq<DimRow>, raw: seq<RawRecord>, order: seq<string>)
    : (r: (seq<DimRow>, map<string, int>))
    requires IsEnumeration(order, CountryNames(raw))
    ensures r.0 == InsertNames(table, order) && r.1 == NameToId(r.0)
    ensures |r.0| == |table| + |CountryNames(raw)| && r.0[..|table|] == table
    ensures forall x :: x in raw ==>
              x.country in r.1 && r.1[x.country] > MaxId(table) && DimRow(r.1[x.country], x.country) in r.0
    ensures forall n :: n in r.1 ==> DimRow(r.1[n], n) in r.0
  {
    EnumerationSize(order, CountryNames(raw));
    var r := PopulateDimension(table, order);
    assert forall x :: x in raw ==> x.country in order;
    r
  }

  /**
   * `_populate_petroleum_products`: the table becomes the old rows followed by
   * one row per distinct product, the dictionary maps every name of the table
   * to its id, and every product of the raw records maps to the fresh id of
   * its new row.
   */
  function PopulatePetroleumProducts(table: seq<DimRow>, raw: seq<RawRecord>, order: seq<string>)
    : (r: (seq<DimRow>, map<string, int>))
    requires IsEnumeration(order, ProductNames(raw))
    ensures r.0 == InsertNames(table, order) && r.1 == NameToId(r.0)
    ensures |r.0| == |table| + |ProductNames(raw)| && r.0[..|table|] == table
    ensures forall x :: x in raw ==>
              x.petroleumProduct in r.1 && r.1[x.petroleumProduct] > MaxId(table)
              && DimRow(r.1[x.petroleumProduct], x.petroleumProduct) in r.0
    ensures forall n :: n in r.1 ==> DimRow(r.1[n], n) in r.0
  {
    EnumerationSize(order, ProductNames(raw));
    var r := PopulateDimension(table, order);
    assert forall x :: x in raw ==> x.petroleumProduct in order;
    r
  }

  /** Both names of the record are keys of their dictionaries. */
  predicate Resolvable(x: RawRecord, countryIds: map<string, int>, productIds: map<string, int>)
  {
    x.country in countryIds && x.petroleumProduct in productIds
  }

  /** The key whose lookup raises first: the country is looked up first. */
  function MissingKey(x: RawRecord, countryIds: map<string, int>): string
  {
    if x.country !in countryIds then x.country else x.petroleumProduct
  }

  /**
   * The list comprehension of `start_process`: each raw record becomes
   * `(country_id, product_id, year, sale)`, in order. It succeeds exactly
   * when every name resolves; otherwise it raises the `KeyError` of the first
   * record that does not resolve.
   */
  function NormalizeSales(raw: seq<RawRecord>, countryIds: map<string, int>, productIds: map<string, int>)
    : (r: Result<seq<FactRow>, LookupError>)
    ensures r.Success? <==> forall i :: 0 <= i < |raw| ==> Resolvable(raw[i], countryIds, productIds)
    ensures r.Success? ==>
              |r.value| == |raw| &&
              forall i :: 0 <= i < |raw| ==>
                r.value[i] == FactRow(countryIds[raw[i].country], productIds[raw[i].petroleumProduct],
                                      raw[i].year, raw[i].sale)
    ensures r.Failure? ==>
              exists i :: 0 <= i < |raw| && !Resolvable(raw[i], countryIds, productIds)
                && (forall j :: 0 <= j < i ==> Resolvable(raw[j], countryIds, productIds))
                && r.error == KeyError(MissingKey(raw[i], countryIds))
  {
    if raw == [] then Success([])
    else
      var x := raw[0];
      if x.country !in countryIds then Failure(KeyError(x.country))
      else if x.petroleumProduct !in productIds then Failure(KeyError(x.petroleumProduct))
      else
        match NormalizeSales(raw[1..], countryIds, productIds)
        case Failure(e) => Failure(e)
        case Success(rest) =>
          Success([FactRow(countryIds[x.country], productIds[x.petroleumProduct], x.year, x.sale)] + rest)
  }

  /** Every fact refers to an existing country row and an existing product row. */
  predicate ReferencesResolve(t: Tables)
  {
    forall f :: f in t.sales ==> CountryResolves(t, f) && ProductResolves(t, f)
  }

  predicate CountryResolves(t: Tables, f: FactRow)
  {
    exists c :: c in t.country && c.id == f.countryId
  }

  predicate ProductResolves(t: Tables, f: FactRow)
  {
    exists p :: p in t.product && p.id == f.productId
  }

  /**
   * `start_process` without the table creation, the fetch and the reports:
   * populate both dimensions, rewrite the raw records with their ids and
   * append them to `petroleum_sales`. Each dimension table becomes the old
   * rows followed by one fresh row per distinct name. The lookups never fail,
   * one fact is appended per raw record in input order, each fact's ids are
   * fresh ids of rows carrying the record's own names, and year and sale are
   * carried through.
   */
  function StartProcess(t: Tables, raw: seq<RawRecord>, countryOrder: seq<string>, productOrder: seq<string>)
    : (r: Result<Tables, LookupError>)
    requires IsEnumeration(countryOrder, CountryNames(raw))
    requires IsEnumeration(productOrder, ProductNames(raw))
    ensures r.Success?
    ensures |r.value.country| == |t.country| + |CountryNames(raw)| && r.value.country[..|t.country|] == t.country
    ensures |r.value.product| == |t.product| + |ProductNames(raw)| && r.value.product[..|t.product|] == t.product
    ensures |r.value.sales| == |t.sales| + |raw| && r.value.sales[..|t.sales|] == t.sales
    ensures r.value.country == InsertNames(t.country, countryOrder)
    ensures r.value.product == InsertNames(t.product, productOrder)
    ensures forall i :: 0 <= i < |raw| ==>
              DimRow(r.value.sales[|t.sales| + i].countryId, raw[i].country) in r.value.country
              && DimRow(r.value.sales[|t.sales| + i].productId, raw[i].petroleumProduct) in r.value.product
              && r.value.sales[|t.sales| + i].countryId > MaxId(t.country)
              && r.value.sales[|t.sales| + i].productId > MaxId(t.product)
              && r.value.sales[|t.sales| + i].year == raw[i].year
              && r.value.sales[|t.sales| + i].sales == raw[i].sale
  {
    var (countries, countryIds) := PopulateCountryTable(t.country, raw, countryOrder);
    var (products, productIds) := PopulatePetroleumProducts(t.product, raw, productOrder);
    assert forall i :: 0 <= i < |raw| ==> raw[i] in raw;
    match NormalizeSales(raw, countryIds, productIds)
    case Failure(e) => Failure(e)
    case Success(facts) => Success(Tables(countries, products, t.sales + facts))
  }

  /**
   * Loading keeps referential integrity: when every fact already in the
   * database resolves, so does every fact after the load.
   */
  lemma StartProcessKeepsReferences(t: Tables, raw: seq<RawRecord>, countryOrder: seq<string>, productOrder: seq<string>)
    requires IsEnumeration(countryOrder, CountryNames(raw))
    requires IsEnumeration(productOrder, ProductNames(raw))
    requires ReferencesResolve(t)
    ensures ReferencesResolve(StartProcess(t, raw, countryOrder, productOrder).value)
  {
  }
}
