/**
 * The bucketed multi-year average of `Report._print_task_v`, computed over
 * the rows `(year, product_name, sales)` that its query returns: distinct
 * years sorted, a per-year per-product table in which a later row overwrites
 * an earlier one, years grouped four at a time into buckets keyed by their
 * first year, non-zero values collected per bucket and product, and each
 * collected list averaged.
 */
module BucketAverage {
  import Grouper

  /** One row `(year, product_name, sales)` of the query. */
  datatype SaleRow = SaleRow(year: int, product: string, sales: real)

  /** `input_dict`: year -> product -> sales. */
  type YearTable = map<int, map<string, real>>

  /** One entry of `output_dict`: product -> the values collected for it. */
  type Bucket = map<string, seq<real>>

  /** `output_dict`: first year of a bucket -> its products' collected values. */
  type Buckets = map<int, Bucket>

  /** The chunk size passed to `grouper`. */
  const BucketSize: nat := 4

  /** The offset of the printed label `first_year-(first_year + 3)`. */
  const LabelSpan: int := 3

  /** One reported line: bucket label, product and average. */
  datatype ReportLine = ReportLine(fromYear: int, toYear: int, product: string, average: real)

  // ----- the sorted distinct years -------------------------------------------

  predicate StrictlyAscending(s: seq<int>)
  {
    forall i, j :: 0 <= i < j < |s| ==> s[i] < s[j]
  }

  /** Some row carries year `y`. */
  predicate HasYear(rows: seq<SaleRow>, y: int)
  {
    exists i :: 0 <= i < |rows| && rows[i].year == y
  }

  /** Adds `y` to an ascending list of distinct years, unless it is there already. */
  function InsertYear(s: seq<int>, y: int): (r: seq<int>)
    requires StrictlyAscending(s)
    ensures StrictlyAscending(r)
    ensures forall x :: x in r <==> x in s || x == y
  {
    if s == [] then [y]
    else if y < s[0] then [y] + s
    else if y == s[0] then s
    else
      var rest := InsertYear(s[1..], y);
      assert forall x :: x in s[1..] ==> s[0] < x;
      assert forall k :: 0 <= k < |rest| ==> s[0] < rest[k] by {
        forall k | 0 <= k < |rest| ensures s[0] < rest[k] {
          assert rest[k] in rest;
        }
      }
      [s[0]] + rest
  }

  /**
   * `sorted(set([x[0] for x in ress]))`: strictly ascending, and holding
   * exactly the years present in the rows.
   */
  function SortedYears(rows: seq<SaleRow>): (r: seq<int>)
    ensures StrictlyAscending(r)
    ensures forall y :: y in r <==> HasYear(rows, y)
  {
    if rows == [] then []
    else
      var front := rows[..|rows| - 1];
      var r := InsertYear(SortedYears(front), rows[|rows| - 1].year);
      assert forall i :: 0 <= i < |front| ==> front[i] == rows[i];
      r
  }

  /**
   * A strictly ascending list is determined by its elements, so
   * `SortedYears` is the only list that is sorted and holds exactly the
   * years of the rows.
   */
  lemma {:induction false} AscendingUnique(a: seq<int>, b: seq<int>)
    requires StrictlyAscending(a) && StrictlyAscending(b)
    requires forall x :: x in a <==> x in b
    ensures a == b
  {
    if a == [] {
      assert forall k :: 0 <= k < |b| ==> b[k] in b;
    } else if b == [] {
      HeadIn(a);
      assert false;
    } else {
      assert a[0] in a && b[0] in b;
      var k :| 0 <= k < |b| && b[k] == a[0];
      assert b[0] <= a[0];
      var l :| 0 <= l < |a| && a[l] == b[0];
      assert a[0] <= b[0];
      forall x
        ensures x in a[1..] <==> x in b[1..]
      {
        AscendingTail(a, x);
        AscendingTail(b, x);
      }
      AscendingUnique(a[1..], b[1..]);
      assert a == [a[0]] + a[1..] && b == [b[0]] + b[1..];
    }
  }

  lemma HeadIn(s: seq<int>)
    ensures s != [] ==> s[0] in s
  {
  }

  lemma AscendingTail(a: seq<int>, x: int)
    requires StrictlyAscending(a) && a != []
    ensures x in a[1..] <==> x in a && x != a[0]
  {
  }

  /** Any sorted duplicate-free list of exactly the rows' years is `SortedYears(rows)`. */
  lemma SortedYearsUnique(rows: seq<SaleRow>, s: seq<int>)
    requires StrictlyAscending(s)
    requires forall y :: y in s <==> HasYear(rows, y)
    ensures s == SortedYears(rows)
  {
    AscendingUnique(s, SortedYears(rows));
  }

  // ----- input_dict: the per-year, per-product table -------------------------

  /** `input_dict[x[0]][x[1]] = x[2]` for one row. */
  function Store(d: YearTable, x: SaleRow): YearTable
  {
    var inner := if x.year in d then d[x.year] else map[];
    d[x.year := inner[x.product := x.sales]]
  }

  /**
   * `input_dict` after the loop over all rows, in order: it has a year
   * exactly when some row has that year.
   */
  function YearProductTable(rows: seq<SaleRow>): (d: YearTable)
    ensures forall y :: y in d <==> HasYear(rows, y)
  {
    if rows == [] then map[]
    else
      var front := rows[..|rows| - 1];
      assert forall i :: 0 <= i < |front| ==> front[i] == rows[i];
      Store(YearProductTable(front), rows[|rows| - 1])
  }

  predicate Matches(x: SaleRow, y: int, p: string)
  {
    x.year == y && x.product == p
  }

  /** Row `i` is the last row with year `y` and product `p`. */
  predicate IsLastMatch(rows: seq<SaleRow>, y: int, p: string, i: int)
  {
    0 <= i < |rows| && Matches(rows[i], y, p) && forall j :: i < j < |rows| ==> !Matches(rows[j], y, p)
  }

  /**
   * The table has an entry for `(y, p)` exactly when some row has that year
   * and product.
   */
  lemma {:induction false} YearProductTableEntries(rows: seq<SaleRow>, y: int, p: string)
    ensures (y in YearProductTable(rows) && p in YearProductTable(rows)[y])
            <==> exists i :: 0 <= i < |rows| && Matches(rows[i], y, p)
  {
    if rows != [] {
      var front, last := rows[..|rows| - 1], rows[|rows| - 1];
      YearProductTableEntries(front, y, p);
      if !Matches(last, y, p) {
        if exists i :: 0 <= i < |rows| && Matches(rows[i], y, p) {
          var i :| 0 <= i < |rows| && Matches(rows[i], y, p);
          assert Matches(front[i], y, p);
        }
        if exists i :: 0 <= i < |front| && Matches(front[i], y, p) {
          var i :| 0 <= i < |front| && Matches(front[i], y, p);
          assert Matches(rows[i], y, p);
        }
      } else {
        assert Matches(rows[|rows| - 1], y, p);
      }
    }
  }

  /**
   * The entry for `(y, p)` is the sales value of the LAST row with that year
   * and product: values are overwritten, never summed.
   */
  lemma {:induction false} YearProductTableLastWins(rows: seq<SaleRow>, y: int, p: string, i: int)
    requires IsLastMatch(rows, y, p, i)
    ensures y in YearProductTable(rows) && p in YearProductTable(rows)[y]
    ensures YearProductTable(rows)[y][p] == rows[i].sales
  {
    var front, last := rows[..|rows| - 1], rows[|rows| - 1];
    if i < |rows| - 1 {
      assert !Matches(last, y, p);
      assert IsLastMatch(front, y, p, i);
      YearProductTableLastWins(front, y, p, i);
    }
  }

  /** The loop `for x in ress: input_dict[x[0]][x[1]] = x[2]`. */
  method BuildYearProductTable(ress: seq<SaleRow>) returns (inputDict: YearTable)
    ensures inputDict == YearProductTable(ress)
  {
    inputDict := map[];
    for i := 0 to |ress|
      invariant inputDict == YearProductTable(ress[..i])
    {
      var x := ress[i];
      var inner := if x.year in inputDict then inputDict[x.year] else map[];
      inputDict := inputDict[x.year := inner[x.product := x.sales]];
      assert ress[..i + 1][..i] == ress[..i];
    }
    assert ress[..|ress|] == ress;
  }

  // ----- output_dict: collecting the non-zero values per bucket --------------

  /** `input_dict[y]`: the defaultdict answers an unseen year with an empty dict. */
  function YearRow(d: YearTable, y: int): map<string, real>
  {
    if y in d then d[y] else map[]
  }

  /** What year `y` appends for product `p`: its value, unless that is zero. */
  function RetainedAt(d: YearTable, y: int, p: string): seq<real>
  {
    var row := YearRow(d, y);
    if p in row && row[p] != 0.0 then [row[p]] else []
  }

  /** The values a run of years appends for product `p`, in year order. */
  function Retained(d: YearTable, years: seq<int>, p: string): seq<real>
  {
    if years == [] then [] else Retained(d, years[..|years| - 1], p) + RetainedAt(d, years[|years| - 1], p)
  }

  /**
   * Zero values are never collected, and every non-zero value of a year of
   * the run is.
   */
  lemma {:induction false} RetainedExactly(d: YearTable, years: seq<int>, p: string, v: real)
    ensures v in Retained(d, years, p) <==>
              v != 0.0 && exists k :: 0 <= k < |years| && p in YearRow(d, years[k]) && YearRow(d, years[k])[p] == v
  {
    if years != [] {
      var front := years[..|years| - 1];
      RetainedExactly(d, front, p, v);
      assert forall k :: 0 <= k < |front| ==> front[k] == years[k];
    }
  }

  /**
   * A bucket after the products in `done` of one more year, with values
   * `row`, have been visited: each visited non-zero value is appended to its
   * product's list, which is created on first use.
   */
  function AddYear(m: Bucket, row: map<string, real>, done: set<string>): Bucket
  {
    map p | p in m.Keys + (set q | q in done && q in row && row[q] != 0.0) ::
      (if p in m then m[p] else []) + (if p in done && p in row && row[p] != 0.0 then [row[p]] else [])
  }

  /** Every list of the bucket is non-empty and holds no zero. */
  predicate BucketValid(b: Bucket)
  {
    forall p :: p in b ==> b[p] != [] && forall v :: v in b[p] ==> v != 0.0
  }

  /** `output_dict[first_year]` after all years of one chunk. */
  function ChunkBucket(d: YearTable, years: seq<int>): (b: Bucket)
    ensures BucketValid(b)
  {
    if years == [] then map[]
    else
      var row := YearRow(d, years[|years| - 1]);
      AddYear(ChunkBucket(d, years[..|years| - 1]), row, row.Keys)
  }

  /** The bucket of one more year of the chunk. */
  lemma ChunkBucketSnoc(d: YearTable, years: seq<int>, j: nat)
    requires j < |years|
    ensures ChunkBucket(d, years[..j + 1])
            == AddYear(ChunkBucket(d, years[..j]), YearRow(d, years[j]), YearRow(d, years[j]).Keys)
  {
    assert years[..j + 1][..j] == years[..j];
  }

  /**
   * A product has a list in the bucket exactly when the chunk retains some
   * value for it, and that list is the retained values in year order.
   */
  lemma {:induction false} ChunkBucketRetained(d: YearTable, years: seq<int>, p: string)
    ensures p in ChunkBucket(d, years) <==> Retained(d, years, p) != []
    ensures p in ChunkBucket(d, years) ==> ChunkBucket(d, years)[p] == Retained(d, years, p)
  {
    if years != [] {
      ChunkBucketRetained(d, years[..|years| - 1], p);
    }
  }

  /** Before any product of the year is visited, the bucket is unchanged. */
  lemma AddYearNone(m: Bucket, row: map<string, real>)
    ensures AddYear(m, row, {}) == m
  {
    var a := AddYear(m, row, {});
    assert a.Keys == m.Keys;
    forall q | q in a ensures a[q] == m[q] {}
  }

  /** Visiting one more product of the year changes only that product's list. */
  lemma AddYearStep(m: Bucket, row: map<string, real>, done: set<string>, p: string)
    requires p in row && p !in done
    ensures row[p] == 0.0 ==> AddYear(m, row, done + {p}) == AddYear(m, row, done)
    ensures row[p] != 0.0 ==>
              var a := AddYear(m, row, done);
              AddYear(m, row, done + {p}) == a[p := (if p in a then a[p] else []) + [row[p]]]
  {
    var a, a2 := AddYear(m, row, done), AddYear(m, row, done + {p});
    if row[p] == 0.0 {
      assert a2.Keys == a.Keys;
      forall q | q in a2 ensures a2[q] == a[q] {}
    } else {
      var b := a[p := (if p in a then a[p] else []) + [row[p]]];
      assert a2.Keys == b.Keys;
      forall q | q in a2 ensures a2[q] == b[q] {}
    }
  }

  /** `output_dict` gains the chunk's entry only when something was appended. */
  function Install(out: Buckets, first: int, b: Bucket): Buckets
  {
    if b == map[] then out else out[first := b]
  }

  predicate NonEmptyGroups(groups: seq<seq<int>>)
  {
    forall i :: 0 <= i < |groups| ==> groups[i] != []
  }

  /** `output_dict` after the given chunks, in order. */
  function Bucketize(d: YearTable, groups: seq<seq<int>>): (out: Buckets)
    requires NonEmptyGroups(groups)
    ensures forall f :: f in out ==> out[f] != map[] && BucketValid(out[f])
  {
    if groups == [] then map[]
    else
      var c := groups[|groups| - 1];
      Install(Bucketize(d, groups[..|groups| - 1]), c[0], ChunkBucket(d, c))
  }

  /** Every key of `output_dict` is the first year of one of the chunks. */
  lemma {:induction false} BucketizeKeys(d: YearTable, groups: seq<seq<int>>, f: int)
    requires NonEmptyGroups(groups)
    requires f in Bucketize(d, groups)
    ensures exists i :: 0 <= i < |groups| && groups[i][0] == f
  {
    var front, c := groups[..|groups| - 1], groups[|groups| - 1];
    if f != c[0] {
      BucketizeKeys(d, front, f);
      var i :| 0 <= i < |front| && front[i][0] == f;
      assert groups[i] == front[i];
    }
  }

  /** When every chunk starts below `bound`, so does every key. */
  lemma {:induction false} BucketizeKeysBelow(d: YearTable, groups: seq<seq<int>>, bound: int)
    requires NonEmptyGroups(groups)
    requires forall i :: 0 <= i < |groups| ==> groups[i][0] < bound
    ensures forall f :: f in Bucketize(d, groups) ==> f < bound
  {
    if groups != [] {
      var front := groups[..|groups| - 1];
      assert forall i :: 0 <= i < |front| ==> front[i] == groups[i];
      BucketizeKeysBelow(d, front, bound);
    }
  }

  /**
   * With distinct first years, the entry of chunk `j` is exactly that
   * chunk's bucket, present exactly when that bucket collected something.
   */
  lemma {:induction false} BucketizeAt(d: YearTable, groups: seq<seq<int>>, j: nat)
    requires NonEmptyGroups(groups) && Grouper.FirstsAscending(groups) && j < |groups|
    ensures groups[j][0] in Bucketize(d, groups) <==> ChunkBucket(d, groups[j]) != map[]
    ensures groups[j][0] in Bucketize(d, groups) ==> Bucketize(d, groups)[groups[j][0]] == ChunkBucket(d, groups[j])
    decreases |groups|, 1
  {
    if j < |groups| - 1 {
      FirstsAscendingPrefix(groups, |groups| - 1);
      BucketizeAtEarlier(d, groups, j);
    } else {
      BucketizeAtLast(d, groups);
    }
  }

  /** `BucketizeAt` for a chunk before the last: the last chunk's key differs from it. */
  lemma {:induction false} BucketizeAtEarlier(d: YearTable, groups: seq<seq<int>>, j: nat)
    requires NonEmptyGroups(groups) && Grouper.FirstsAscending(groups) && j < |groups| - 1
    requires Grouper.FirstsAscending(groups[..|groups| - 1])
    ensures groups[j][0] in Bucketize(d, groups) <==> ChunkBucket(d, groups[j]) != map[]
    ensures groups[j][0] in Bucketize(d, groups) ==> Bucketize(d, groups)[groups[j][0]] == ChunkBucket(d, groups[j])
    decreases |groups|, 0
  {
    var n := |groups|;
    var front := groups[..n - 1];
    assert front[j] == groups[j];
    assert NonEmptyGroups(front) by {
      forall i | 0 <= i < |front| ensures front[i] != [] {
        assert front[i] == groups[i];
      }
    }
    BucketizeAt(d, front, j);
    assert Grouper.FirstLess(groups, j, n - 1);
    BucketizeOther(d, groups, groups[j][0]);
  }

  /** A key other than the last chunk's first year is untouched by installing the last chunk. */
  lemma BucketizeOther(d: YearTable, groups: seq<seq<int>>, f: int)
    requires NonEmptyGroups(groups) && groups != [] && f != groups[|groups| - 1][0]
    ensures NonEmptyGroups(groups[..|groups| - 1])
    ensures f in Bucketize(d, groups) <==> f in Bucketize(d, groups[..|groups| - 1])
    ensures f in Bucketize(d, groups) ==> Bucketize(d, groups)[f] == Bucketize(d, groups[..|groups| - 1])[f]
  {
    var front, c := groups[..|groups| - 1], groups[|groups| - 1];
    forall i | 0 <= i < |front| ensures front[i] != [] {
      assert front[i] == groups[i];
    }
    InstallOther(Bucketize(d, front), c[0], ChunkBucket(d, c), f);
  }

  /** `BucketizeAt` for the last chunk: its key is above every earlier key. */
  lemma BucketizeAtLast(d: YearTable, groups: seq<seq<int>>)
    requires NonEmptyGroups(groups) && Grouper.FirstsAscending(groups) && groups != []
    ensures var c := groups[|groups| - 1];
            && (c[0] in Bucketize(d, groups) <==> ChunkBucket(d, c) != map[])
            && (c[0] in Bucketize(d, groups) ==> Bucketize(d, groups)[c[0]] == ChunkBucket(d, c))
  {
    var n := |groups|;
    var front, c := groups[..n - 1], groups[n - 1];
    BucketizeSnoc(d, groups, n - 1);
    assert groups[..n] == groups;
    assert c[0] !in Bucketize(d, front) by {
      forall i | 0 <= i < |front| ensures front[i][0] < c[0] {
        assert front[i] == groups[i];
        assert Grouper.FirstLess(groups, i, n - 1);
      }
      BucketizeKeysBelow(d, front, c[0]);
    }
    InstallSame(Bucketize(d, front), c[0], ChunkBucket(d, c));
  }

  /** Installing a bucket under a key not yet used: present exactly when non-empty. */
  lemma InstallSame(out: Buckets, first: int, b: Bucket)
    requires first !in out
    ensures first in Install(out, first, b) <==> b != map[]
    ensures first in Install(out, first, b) ==> Install(out, first, b)[first] == b
  {
  }

  /** Installing one bucket leaves every other key as it was. */
  lemma InstallOther(out: Buckets, first: int, b: Bucket, f: int)
    requires f != first
    ensures f in Install(out, first, b) <==> f in out
    ensures f in out ==> Install(out, first, b)[f] == out[f]
  {
  }

  lemma FirstsAscendingPrefix(groups: seq<seq<int>>, n: nat)
    requires Grouper.FirstsAscending(groups) && n <= |groups|
    ensures Grouper.FirstsAscending(groups[..n])
  {
    var front := groups[..n];
    forall a: nat, b: nat | a < b < |front|
      ensures Grouper.FirstLess(front, a, b)
    {
      assert Grouper.FirstLess(groups, a, b);
    }
  }

  /** `output_dict` for the rows: buckets of four consecutive sorted years. */
  function OutputDict(rows: seq<SaleRow>): (out: Buckets)
    ensures forall f, p :: f in out && p in out[f] ==> out[f][p] != []
  {
    var years := SortedYears(rows);
    var out := Bucketize(YearProductTable(rows), Grouper.Chunks(BucketSize, years));
    assert forall f :: f in out ==> BucketValid(out[f]);
    out
  }

  /**
   * Each year contributes only to the bucket keyed by the first year of its
   * chunk of four: for chunk `j`, product `p` has a list under the chunk's
   * first year exactly when the chunk retains a non-zero value for `p`, and
   * the list is those values in year order. Every key is such a first year.
   */
  lemma OutputDictBuckets(rows: seq<SaleRow>, j: nat, p: string)
    requires j < |Grouper.Chunks(BucketSize, SortedYears(rows))|
    ensures var c := Grouper.Chunks(BucketSize, SortedYears(rows))[j];
            var out := OutputDict(rows);
            c != []
            && (c[0] in out && p in out[c[0]] <==> Retained(YearProductTable(rows), c, p) != [])
            && (c[0] in out && p in out[c[0]] ==> out[c[0]][p] == Retained(YearProductTable(rows), c, p))
  {
    var years := SortedYears(rows);
    var groups := Grouper.Chunks(BucketSize, years);
    var d := YearProductTable(rows);
    Grouper.ChunkFirstsAscending(BucketSize, years);
    BucketizeAt(d, groups, j);
    ChunkBucketRetained(d, groups[j], p);
  }

  /** Every key of `output_dict` is the first year of a chunk of the sorted years. */
  lemma OutputDictKeys(rows: seq<SaleRow>, f: int)
    requires f in OutputDict(rows)
    ensures exists j :: 0 <= j < |Grouper.Chunks(BucketSize, SortedYears(rows))|
              && Grouper.Chunks(BucketSize, SortedYears(rows))[j] != []
              && Grouper.Chunks(BucketSize, SortedYears(rows))[j][0] == f
  {
    var years := SortedYears(rows);
    BucketizeKeys(YearProductTable(rows), Grouper.Chunks(BucketSize, years), f);
  }

  // ----- the averages ----------------------------------------------------------

  /** `sum(xs)`, adding left to right. */
  function Sum(xs: seq<real>): real
  {
    if xs == [] then 0.0 else Sum(xs[..|xs| - 1]) + xs[|xs| - 1]
  }

  /**
   * `sum(sales_list) / len(sales_list)`: it lies between the smallest and
   * the largest value averaged.
   */
  function Average(xs: seq<real>): (r: real)
    requires xs != []
    ensures MinOf(xs) <= r <= MaxOf(xs)
  {
    WithinMinMax(xs);
    MeanBetween(xs, MinOf(xs), MaxOf(xs));
    Sum(xs) / (|xs| as real)
  }

  function MinOf(xs: seq<real>): (m: real)
    requires xs != []
    ensures m in xs
    ensures forall i :: 0 <= i < |xs| ==> m <= xs[i]
  {
    if |xs| == 1 then xs[0]
    else
      var front := xs[..|xs| - 1];
      var rest := MinOf(front);
      assert forall i :: 0 <= i < |front| ==> front[i] == xs[i];
      assert rest in xs;
      if xs[|xs| - 1] < rest then xs[|xs| - 1] else rest
  }

  function MaxOf(xs: seq<real>): (m: real)
    requires xs != []
    ensures m in xs
    ensures forall i :: 0 <= i < |xs| ==> xs[i] <= m
  {
    if |xs| == 1 then xs[0]
    else
      var front := xs[..|xs| - 1];
      var rest := MaxOf(front);
      assert forall i :: 0 <= i < |front| ==> front[i] == xs[i];
      assert rest in xs;
      if xs[|xs| - 1] > rest then xs[|xs| - 1] else rest
  }

  lemma WithinMinMax(xs: seq<real>)
    requires xs != []
    ensures forall v :: v in xs ==> MinOf(xs) <= v <= MaxOf(xs)
  {
  }

  /** Values between `lo` and `hi` have their mean between `lo` and `hi`. */
  lemma MeanBetween(xs: seq<real>, lo: real, hi: real)
    requires xs != []
    requires forall v :: v in xs ==> lo <= v <= hi
    ensures lo <= Sum(xs) / (|xs| as real) <= hi
  {
    SumBetween(xs, lo, hi);
    DivBounds(Sum(xs), |xs| as real, lo, hi);
  }

  lemma {:induction false} SumBetween(xs: seq<real>, lo: real, hi: real)
    requires forall v :: v in xs ==> lo <= v <= hi
    ensures (|xs| as real) * lo <= Sum(xs) <= (|xs| as real) * hi
  {
    if xs != [] {
      var front, last := xs[..|xs| - 1], xs[|xs| - 1];
      assert forall v :: v in front ==> v in xs;
      assert last in xs;
      SumBetween(front, lo, hi);
      var n := |front| as real;
      assert (|xs| as real) == n + 1.0;
      MulSucc(n, lo);
      MulSucc(n, hi);
      assert Sum(xs) == Sum(front) + last;
    }
  }

  lemma MulSucc(n: real, x: real)
    ensures (n + 1.0) * x == n * x + x
  {
  }

  lemma DivBounds(s: real, n: real, lo: real, hi: real)
    requires n > 0.0 && n * lo <= s <= n * hi
    ensures lo <= s / n <= hi
  {
  }

  /**
   * The formatting loop, without the string: one line per bucket and
   * product, labelled `first_year` to `first_year + 3` whatever the chunk's
   * real extent, carrying the average of the collected values, which lies
   * between their minimum and maximum.
   */
  function AverageReport(out: Buckets): (r: set<ReportLine>)
    requires forall f, p :: f in out && p in out[f] ==> out[f][p] != []
    ensures forall f, p :: f in out && p in out[f] ==> ReportLine(f, f + LabelSpan, p, Average(out[f][p])) in r
    ensures forall line :: line in r ==>
              && line.toYear == line.fromYear + LabelSpan
              && line.fromYear in out && line.product in out[line.fromYear]
              && line.average == Average(out[line.fromYear][line.product])
              && MinOf(out[line.fromYear][line.product]) <= line.average <= MaxOf(out[line.fromYear][line.product])
  {
    set f, p | f in out && p in out[f] :: ReportLine(f, f + LabelSpan, p, Average(out[f][p]))
  }


  /**
   * `for product, value in input_dict[single_year].items()`: every non-zero
   * value of the year is appended to its product's list under `firstYear`,
   * the bucket and the list being created on first use.
   */
  method CollectYear(outputDict: Buckets, ghost before: Buckets, firstYear: int,
                     ghost start: Bucket, row: map<string, real>)
    returns (out: Buckets)
    requires firstYear !in before
    requires outputDict == Install(before, firstYear, start)
    ensures out == Install(before, firstYear, AddYear(start, row, row.Keys))
  {
    out := outputDict;
    AddYearNone(start, row);
    var products := row.Keys;
    ghost var done: set<string> := {};
    while products != {}
      invariant products + done == row.Keys && products !! done
      invariant out == Install(before, firstYear, AddYear(start, row, done))
      decreases products
    {
      var product :| product in products;
      var value := row[product];
      AddYearStep(start, row, done, product);
      if value != 0.0 {
        InstallRead(before, firstYear, AddYear(start, row, done));
        var inner := if firstYear in out then out[firstYear] else map[];
        var values := if product in inner then inner[product] else [];
        InstallAppend(before, firstYear, inner, product, values + [value]);
        out := out[firstYear := inner[product := values + [value]]];
      }
      products := products - {product};
      done := done + {product};
    }
  }

  /** Reading back the bucket installed under a key no earlier bucket used. */
  lemma InstallRead(before: Buckets, first: int, b: Bucket)
    requires first !in before
    ensures var out := Install(before, first, b);
            (if first in out then out[first] else map[]) == b
  {
  }

  /** Storing a list into the installed bucket installs the updated bucket. */
  lemma InstallAppend(before: Buckets, first: int, b: Bucket, p: string, xs: seq<real>)
    ensures Install(before, first, b)[first := b[p := xs]] == Install(before, first, b[p := xs])
  {
    assert p in b[p := xs];
  }

  /**
   * `for single_year in years`: the chunk's years in order, each appending
   * to the bucket of the chunk's first year, which no earlier chunk used.
   */
  method CollectChunk(outputDict: Buckets, inputDict: YearTable, years: seq<int>) returns (out: Buckets)
    requires years != [] && years[0] !in outputDict
    ensures out == Install(outputDict, years[0], ChunkBucket(inputDict, years))
  {
    var firstYear := years[0];
    out := outputDict;
    var j := 0;
    while j < |years|
      invariant 0 <= j <= |years|
      invariant out == Install(outputDict, firstYear, ChunkBucket(inputDict, years[..j]))
    {
      var singleYear := years[j];
      var row := YearRow(inputDict, singleYear);
      out := CollectYear(out, outputDict, firstYear, ChunkBucket(inputDict, years[..j]), row);
      ChunkBucketSnoc(inputDict, years, j);
      j := j + 1;
    }
    assert years[..|years|] == years;
  }

  /** No chunk before chunk `g` has used its first year as a key. */
  lemma ChunkKeyFresh(d: YearTable, groups: seq<seq<int>>, g: nat)
    requires NonEmptyGroups(groups) && Grouper.FirstsAscending(groups) && g < |groups|
    ensures NonEmptyGroups(groups[..g])
    ensures groups[g][0] !in Bucketize(d, groups[..g])
  {
    var front := groups[..g];
    forall i | 0 <= i < g
      ensures front[i] != [] && front[i][0] < groups[g][0]
    {
      assert front[i] == groups[i];
      assert Grouper.FirstLess(groups, i, g);
    }
    BucketizeKeysBelow(d, front, groups[g][0]);
  }

  /** One more chunk installs its bucket under its first year. */
  lemma BucketizeSnoc(d: YearTable, groups: seq<seq<int>>, g: nat)
    requires NonEmptyGroups(groups) && g < |groups|
    ensures NonEmptyGroups(groups[..g]) && NonEmptyGroups(groups[..g + 1])
    ensures Bucketize(d, groups[..g + 1]) == Install(Bucketize(d, groups[..g]), groups[g][0], ChunkBucket(d, groups[g]))
  {
    assert groups[..g + 1][..g] == groups[..g];
    assert forall i :: 0 <= i < g + 1 ==> groups[..g + 1][i] == groups[i];
  }

  /**
   * The computation of `_print_task_v` after its query: the sorted years,
   * `input_dict`, the loop over the chunks of four years filling
   * `output_dict`, and the averages.
   */
  method PrintTaskV(ress: seq<SaleRow>) returns (outputDict: Buckets, report: set<ReportLine>)
    ensures outputDict == OutputDict(ress)
    ensures report == AverageReport(outputDict)
  {
    var initialYear := SortedYears(ress);
    var inputDict := BuildYearProductTable(ress);
    outputDict := map[];
    var grouped := Grouper.Grouper(BucketSize, initialYear);
    var groups := grouped.value;
    Grouper.ChunkFirstsAscending(BucketSize, initialYear);
    var g := 0;
    while g < |groups|
      invariant 0 <= g <= |groups|
      invariant outputDict == Bucketize(inputDict, groups[..g])
    {
      var years := groups[g];
      ChunkKeyFresh(inputDict, groups, g);
      outputDict := CollectChunk(outputDict, inputDict, years);
      BucketizeSnoc(inputDict, groups, g);
      g := g + 1;
    }
    assert groups[..|groups|] == groups;
    report := AverageReport(outputDict);
  }
}
