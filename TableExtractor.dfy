/**
 * The page-side half of `scrapeFundData`: the callback handed to
 * `page.evaluate`, which pairs the header cells of the ranking table with
 * the cells of every body row. The rendered table arrives as the cell texts
 * of its header rows and of its body rows.
 */
module TableExtractor {
  import opened Wrappers

  /** One scraped fund: cell text keyed by column label. */
  type RawRow = map<string, string>

  /** The cell texts of the table's `thead > tr` rows and of its `tbody > tr` rows, in document order. */
  datatype Table = Table(headerRows: seq<seq<string>>, bodyRows: seq<seq<string>>)

  /** The last column that carries `heading`. */
  function LastIndex(columns: seq<string>, heading: string): (k: nat)
    requires heading in columns
    ensures k < |columns| && columns[k] == heading
    ensures forall j :: k < j < |columns| ==> columns[j] != heading
  {
    if columns[|columns| - 1] == heading then |columns| - 1
    else
      assert columns == columns[..|columns| - 1] + [columns[|columns| - 1]];
      LastIndex(columns[..|columns| - 1], heading)
  }

  /**
   * The record built for `row`: one entry per distinct label, holding the
   * cell under the last column with that label.
   */
  function Record(columns: seq<string>, row: seq<string>): RawRow
    requires |columns| <= |row|
  {
    map heading | heading in columns :: row[LastIndex(columns, heading)]
  }

  /** Writing the next column's cell extends the record of the columns before it. */
  lemma RecordStep(columns: seq<string>, row: seq<string>, i: nat)
    requires i < |columns| && i < |row|
    ensures Record(columns[..i + 1], row) == Record(columns[..i], row)[columns[i] := row[i]]
  {
    var longer, shorter := columns[..i + 1], columns[..i];
    assert longer[..i] == shorter;
    forall heading | heading in shorter && heading != columns[i]
      ensures LastIndex(longer, heading) == LastIndex(shorter, heading)
    {
      assert longer[|longer| - 1] != heading;
      assert longer[..|longer| - 1] == shorter;
    }
    assert LastIndex(longer, columns[i]) == i;
    assert longer == shorter + [columns[i]];
  }

  /**
   * The body of `rows.map(row => ...)`: a fresh object gets `columns[i]`
   * set to cell `i` for each column in turn. A row with fewer cells than
   * there are columns makes `row.cells[i]` undefined and reading its text
   * throw, so it yields nothing.
   */
  method PairRow(columns: seq<string>, row: seq<string>) returns (fund: Option<RawRow>)
    ensures fund.None? <==> |row| < |columns|
    ensures fund.Some? ==> fund.value == Record(columns, row)
  {
    var record: RawRow := map[];
    for i := 0 to |columns|
      invariant i <= |row|
      invariant record == Record(columns[..i], row)
    {
      if i >= |row| {
        return None;
      }
      RecordStep(columns, row, i);
      record := record[columns[i] := row[i]];
    }
    assert columns[..|columns|] == columns;
    return Some(record);
  }

  /** Some body row has fewer cells than the header has labels. */
  predicate HasShortRow(columns: seq<string>, bodyRows: seq<seq<string>>) {
    exists r :: 0 <= r < |bodyRows| && |bodyRows[r]| < |columns|
  }

  /**
   * What `scrapeFundData` returns: `None` (undefined) when loading the page
   * failed (`page` is `None`), when there is no header row, or when a body
   * row is too short; otherwise one record per body row, in order, keyed
   * by the first header row's labels.
   */
  function Scrape(page: Option<Table>): Option<seq<RawRow>> {
    match page
    case None => None
    case Some(table) =>
      if table.headerRows == [] then None
      else
        var columns := table.headerRows[0];
        if HasShortRow(columns, table.bodyRows) then None
        else Some(Records(columns, table.bodyRows))
  }

  /** `rows.map(...)` over rows that are all long enough: record `r` is built from row `r`. */
  function Records(columns: seq<string>, rows: seq<seq<string>>): (records: seq<RawRow>)
    requires !HasShortRow(columns, rows)
    ensures |records| == |rows|
    ensures forall r :: 0 <= r < |rows| ==> |columns| <= |rows[r]| && records[r] == Record(columns, rows[r])
  {
    if rows == [] then []
    else
      ShortRowTail(columns, rows);
      [Record(columns, rows[0])] + Records(columns, rows[1..])
  }

  lemma ShortRowTail(columns: seq<string>, rows: seq<seq<string>>)
    requires rows != [] && !HasShortRow(columns, rows)
    ensures |columns| <= |rows[0]| && !HasShortRow(columns, rows[1..])
  {
    forall r | 0 <= r < |rows| - 1 ensures |columns| <= |rows[1..][r]| {
      assert rows[1..][r] == rows[r + 1];
    }
  }

  /** The `page.evaluate` callback together with the `try`/`catch` around it. */
  method Extract(page: Option<Table>) returns (data: Option<seq<RawRow>>)
    ensures data == Scrape(page)
  {
    if page.None? || page.value.headerRows == [] {
      return None;
    }
    var columns := page.value.headerRows[0];
    var rows := page.value.bodyRows;
    var funds: seq<RawRow> := [];
    for r := 0 to |rows|
      invariant |funds| == r
      invariant forall k :: 0 <= k < r ==> |columns| <= |rows[k]| && funds[k] == Record(columns, rows[k])
    {
      var fund := PairRow(columns, rows[r]);
      if fund.None? {
        return None;
      }
      funds := funds + [fund.value];
    }
    assert !HasShortRow(columns, rows);
    assert funds == Records(columns, rows);
    return Some(funds);
  }

  // ---------------------------------------------------------------------
  // Properties of the records

  /** Each label of the header is a key, and nothing else is. */
  lemma RecordKeys(columns: seq<string>, row: seq<string>, heading: string)
    requires |columns| <= |row|
    ensures heading in Record(columns, row) <==> heading in columns
  {
  }

  /**
   * Last write wins: the record holds, under each label, the cell of the
   * last column bearing that label.
   */
  lemma RecordLastWriteWins(columns: seq<string>, row: seq<string>, j: nat)
    requires j < |columns| <= |row|
    requires forall k :: j < k < |columns| ==> columns[k] != columns[j]
    ensures Record(columns, row)[columns[j]] == row[j]
  {
    assert LastIndex(columns, columns[j]) == j;
  }

  /** With distinct labels every cell is kept: the record has one entry per column. */
  lemma RecordDistinctLabels(columns: seq<string>, row: seq<string>)
    requires |columns| <= |row|
    requires forall i, j :: 0 <= i < j < |columns| ==> columns[i] != columns[j]
    ensures |Record(columns, row)| == |columns|
    ensures forall i :: 0 <= i < |columns| ==> Record(columns, row)[columns[i]] == row[i]
  {
    forall i | 0 <= i < |columns| ensures Record(columns, row)[columns[i]] == row[i] {
      RecordLastWriteWins(columns, row, i);
    }
    DistinctCardinality(columns);
    assert Record(columns, row).Keys == set heading | heading in columns;
  }

  lemma {:induction false} DistinctCardinality(columns: seq<string>)
    requires forall i, j :: 0 <= i < j < |columns| ==> columns[i] != columns[j]
    ensures |set heading | heading in columns| == |columns|
  {
    if columns != [] {
      var init := columns[..|columns| - 1];
      assert forall i :: 0 <= i < |init| ==> init[i] == columns[i];
      DistinctCardinality(init);
      var last := columns[|columns| - 1];
      assert columns == init + [last];
      assert (set heading | heading in columns) == (set heading | heading in init) + {last};
      assert last !in init by {
        forall k | 0 <= k < |init| ensures init[k] != last {
          assert init[k] == columns[k];
        }
      }
    }
  }

  /** Cells to the right of the last labelled column are never read. */
  lemma ExtraCellsIgnored(columns: seq<string>, row: seq<string>, extra: seq<string>)
    requires |columns| <= |row|
    ensures Record(columns, row + extra) == Record(columns, row)
    ensures Record(columns, row) == Record(columns, row[..|columns|])
  {
    assert forall heading | heading in columns :: (row + extra)[LastIndex(columns, heading)] == row[LastIndex(columns, heading)];
    assert forall heading | heading in columns :: row[..|columns|][LastIndex(columns, heading)] == row[LastIndex(columns, heading)];
  }

  // ---------------------------------------------------------------------
  // Properties of the scrape

  /** A successful scrape has one record per body row, in body-row order. */
  lemma ScrapeOneRecordPerRow(table: Table)
    requires Scrape(Some(table)).Some?
    ensures table.headerRows != []
    ensures |Scrape(Some(table)).value| == |table.bodyRows|
    ensures forall r :: 0 <= r < |table.bodyRows| ==>
              |table.headerRows[0]| <= |table.bodyRows[r]| &&
              Scrape(Some(table)).value[r] == Record(table.headerRows[0], table.bodyRows[r])
  {
  }

  /** A scrape fails exactly when the page did not load, there is no header row, or a body row is short. */
  lemma ScrapeFails(page: Option<Table>)
    ensures Scrape(page).None? <==>
              page.None? || page.value.headerRows == [] ||
              HasShortRow(page.value.headerRows[0], page.value.bodyRows)
  {
  }

  /** A table without body rows scrapes to an empty list, which is not a failure. */
  lemma ScrapeEmptyBody(headerRows: seq<seq<string>>)
    requires headerRows != []
    ensures Scrape(Some(Table(headerRows, []))) == Some([])
  {
  }
}
