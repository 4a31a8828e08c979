/**
 * Worked inputs for the bucketed average: the bucket boundaries and labels,
 * last-write-wins, and the exclusion of zero values.
 */
module Scenarios {
  import Grouper
  import opened BucketAverage

  /** Sales of diesel in six consecutive years, none of them zero. */
  const SixRows := [SaleRow(2000, "diesel", 1.0), SaleRow(2001, "diesel", 2.0), SaleRow(2002, "diesel", 3.0),
                    SaleRow(2003, "diesel", 4.0), SaleRow(2004, "diesel", 5.0), SaleRow(2005, "diesel", 6.0)]

  /** The distinct years of the six rows, ascending. */
  lemma SixRowsYears()
    ensures SortedYears(SixRows) == [2000, 2001, 2002, 2003, 2004, 2005]
  {
    var s := [2000, 2001, 2002, 2003, 2004, 2005];
    forall y ensures y in s <==> HasYear(SixRows, y) {
      assert SixRows[0].year == 2000 && SixRows[1].year == 2001 && SixRows[2].year == 2002;
      assert SixRows[3].year == 2003 && SixRows[4].year == 2004 && SixRows[5].year == 2005;
    }
    SortedYearsUnique(SixRows, s);
  }

  /** Six consecutive years form one full chunk of four and one chunk of two. */
  lemma SixYearChunks()
    ensures Grouper.Chunks(BucketSize, [2000, 2001, 2002, 2003, 2004, 2005])
            == [[2000, 2001, 2002, 2003], [2004, 2005]]
  {
    var s := [2000, 2001, 2002, 2003, 2004, 2005];
    assert s[..4] == [2000, 2001, 2002, 2003];
    assert s[4..] == [2004, 2005];
  }

  /** The second chunk keeps both of its diesel values, 5 and 6. */
  lemma SixRowsSecondChunk()
    ensures Retained(YearProductTable(SixRows), [2004, 2005], "diesel") == [5.0, 6.0]
  {
    var d := YearProductTable(SixRows);
    assert IsLastMatch(SixRows, 2004, "diesel", 4);
    YearProductTableLastWins(SixRows, 2004, "diesel", 4);
    YearProductTableLastWins(SixRows, 2005, "diesel", 5);
    assert RetainedAt(d, 2004, "diesel") == [5.0];
    assert RetainedAt(d, 2005, "diesel") == [6.0];
    assert [2004, 2005][..1] == [2004] && [2004][..0] == [];
    assert Retained(d, [2004], "diesel") == [5.0];
  }

  /**
   * The bucket of 2004 holds only the two years 2004 and 2005, yet its report
   * line is labelled 2004 to 2007, with the average 5.5 of its values.
   */
  lemma BucketBoundaries()
    ensures 2004 in OutputDict(SixRows) && "diesel" in OutputDict(SixRows)[2004]
    ensures OutputDict(SixRows)[2004]["diesel"] == [5.0, 6.0]
    ensures ReportLine(2004, 2007, "diesel", 5.5) in AverageReport(OutputDict(SixRows))
  {
    SixRowsYears();
    SixYearChunks();
    SixRowsSecondChunk();
    OutputDictBuckets(SixRows, 1, "diesel");
    AverageOfTwo(5.0, 6.0);
  }

  /** Two rows for the same year and product: the later value is kept, not the sum. */
  lemma LastWriteWinsScenario()
    ensures YearProductTable([SaleRow(2000, "diesel", 5.0), SaleRow(2000, "diesel", 8.0)])[2000]["diesel"] == 8.0
  {
  }

  /** Sales of product P in three consecutive years, the first of them zero. */
  const ZeroRows := [SaleRow(2000, "P", 0.0), SaleRow(2001, "P", 5.0), SaleRow(2002, "P", 10.0)]

  /** The distinct years of the rows, ascending. */
  lemma ZeroRowsYears()
    ensures SortedYears(ZeroRows) == [2000, 2001, 2002]
  {
    var s := [2000, 2001, 2002];
    forall y ensures y in s <==> HasYear(ZeroRows, y) {
      assert ZeroRows[0].year == 2000 && ZeroRows[1].year == 2001 && ZeroRows[2].year == 2002;
    }
    SortedYearsUnique(ZeroRows, s);
  }

  /** `input_dict` for the rows: one product per year. */
  lemma ZeroRowsTable()
    ensures YearProductTable(ZeroRows) == map[2000 := map["P" := 0.0], 2001 := map["P" := 5.0], 2002 := map["P" := 10.0]]
  {
    var r1, r2 := ZeroRows[..1], ZeroRows[..2];
    assert r1[..0] == [] && r2[..1] == r1;
    assert YearProductTable(r1) == map[2000 := map["P" := 0.0]];
    assert YearProductTable(r2) == map[2000 := map["P" := 0.0], 2001 := map["P" := 5.0]];
  }

  /** Of the three years, only the non-zero values of 2001 and 2002 are kept. */
  lemma ZeroRowsRetained()
    ensures Retained(map[2000 := map["P" := 0.0], 2001 := map["P" := 5.0], 2002 := map["P" := 10.0]],
                     [2000, 2001, 2002], "P") == [5.0, 10.0]
  {
    var years := [2000, 2001, 2002];
    assert years[..2] == [2000, 2001] && years[..2][..1] == [2000] && [2000][..0] == [];
  }

  /**
   * When all the years fit in one chunk, the list of product `p` under the
   * first year is what that chunk retains.
   */
  lemma SingleChunkList(rows: seq<SaleRow>, p: string)
    requires 0 < |SortedYears(rows)| <= BucketSize
    requires Retained(YearProductTable(rows), SortedYears(rows), p) != []
    ensures var f := SortedYears(rows)[0];
            f in OutputDict(rows) && p in OutputDict(rows)[f]
            && OutputDict(rows)[f][p] == Retained(YearProductTable(rows), SortedYears(rows), p)
  {
    var years := SortedYears(rows);
    assert Grouper.Chunks(BucketSize, years) == [years];
    OutputDictBuckets(rows, 0, p);
  }

  lemma AverageOfTwo(a: real, b: real)
    ensures Average([a, b]) == (a + b) / 2.0
  {
    assert [a, b][..1] == [a] && [a][..0] == [];
    assert Sum([a]) == a;
    assert Sum([a, b]) == a + b;
  }

  /**
   * The zero of 2000 is not collected; 5 and 10 are, under the bucket 2000,
   * and they average to 7.5.
   */
  lemma ZeroExclusionScenario()
    ensures 2000 in OutputDict(ZeroRows) && "P" in OutputDict(ZeroRows)[2000]
    ensures OutputDict(ZeroRows)[2000]["P"] == [5.0, 10.0]
    ensures Average(OutputDict(ZeroRows)[2000]["P"]) == 7.5
  {
    ZeroRowsYears();
    ZeroRowsTable();
    ZeroRowsRetained();
    SingleChunkList(ZeroRows, "P");
    AverageOfTwo(5.0, 10.0);
  }

  /** Two sales of product X in the same year. */
  const RepeatedRows := [SaleRow(2000, "X", 10.0), SaleRow(2000, "X", 20.0)]

  /** `input_dict` for the repeated rows: the later sale replaces the earlier. */
  lemma RepeatedRowsTable()
    ensures YearProductTable(RepeatedRows) == map[2000 := map["X" := 20.0]]
  {
    var r1 := RepeatedRows[..1];
    assert r1[..0] == [];
    assert YearProductTable(r1) == map[2000 := map["X" := 10.0]];
    assert map["X" := 10.0]["X" := 20.0] == map["X" := 20.0];
  }

  /**
   * The second sale overwrites the first in `input_dict`, so the bucket of
   * 2000 holds only 20 and the reported average is 20, not 15.
   */
  lemma RepeatedSaleScenario()
    ensures 2000 in OutputDict(RepeatedRows) && "X" in OutputDict(RepeatedRows)[2000]
    ensures OutputDict(RepeatedRows)[2000]["X"] == [20.0]
    ensures Average(OutputDict(RepeatedRows)[2000]["X"]) == 20.0
  {
    RepeatedRowsYears();
    RepeatedRowsTable();
    assert Retained(map[2000 := map["X" := 20.0]], [2000], "X") == [20.0] by {
      assert [2000][..0] == [];
    }
    SingleChunkList(RepeatedRows, "X");
    assert [20.0][..0] == [];
  }

  /** Both rows have the year 2000. */
  lemma RepeatedRowsYears()
    ensures SortedYears(RepeatedRows) == [2000]
  {
  }
}
