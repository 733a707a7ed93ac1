/**
 * `run`: scrape the ranking page, stop when nothing came back, otherwise
 * map every scraped row through `toModel`.
 */
module Pipeline {
  import opened Wrappers
  import opened JsNumber
  import opened Normalizer
  import opened TableExtractor
  import opened RowMapper

  /**
   * How `run` ends. `NotScraped`: the scrape returned undefined, so `run`
   * logs and returns. `Crashed(row, column)`: `toModel` threw on body row
   * `row` because its numeric `column` is absent; nothing catches this, so
   * the promise of `run` rejects. `Mapped(funds)`: every row was mapped.
   */
  datatype Outcome = NotScraped | Crashed(row: nat, column: string) | Mapped(funds: seq<FundRecord>)

  /**
   * `Array.prototype.map` with a callback that may throw: the results in
   * order, or the index of the first element the callback throws on
   * together with what it threw.
   */
  function MapAll<A, B, E>(f: A -> Result<B, E>, xs: seq<A>): (r: Result<seq<B>, (nat, E)>)
    ensures r.Success? <==> forall i :: 0 <= i < |xs| ==> f(xs[i]).Success?
    ensures r.Success? ==>
              |r.value| == |xs| && forall i :: 0 <= i < |xs| ==> f(xs[i]) == Success(r.value[i])
    ensures r.Failure? ==>
              && r.error.0 < |xs|
              && f(xs[r.error.0]) == Failure(r.error.1)
              && forall i :: 0 <= i < r.error.0 ==> f(xs[i]).Success?
  {
    if xs == [] then Success([])
    else
      match f(xs[0])
      case Failure(e) => Failure((0, e))
      case Success(y) =>
        var rest := MapAll(f, xs[1..]);
        assert forall i :: 0 < i < |xs| ==> xs[i] == xs[1..][i - 1];
        match rest
        case Failure((k, e)) => Failure((k + 1, e))
        case Success(ys) => Success([y] + ys)
  }

  /**
   * `run`. An empty scrape is a JavaScript array and therefore truthy, so
   * it maps to an empty list rather than stopping early.
   */
  function Run(scraped: Option<seq<RawRow>>): (o: Outcome)
    ensures o.NotScraped? <==> scraped.None?
    ensures scraped == Some([]) ==> o == Mapped([])
    ensures o.Mapped? ==>
              && |o.funds| == |scraped.value|
              && forall i :: 0 <= i < |o.funds| ==> ToModel(scraped.value[i]) == Success(o.funds[i])
    ensures o.Crashed? ==>
              && o.row < |scraped.value|
              && ToModel(scraped.value[o.row]) == Failure(o.column)
              && forall i :: 0 <= i < o.row ==> ToModel(scraped.value[i]).Success?
  {
    match scraped
    case None => NotScraped
    case Some(rows) =>
      match MapAll(ToModel, rows)
      case Failure((row, column)) => Crashed(row, column)
      case Success(funds) => Mapped(funds)
  }

  // End-to-end properties of the scrape followed by the mapping

  /** The heading list of a table that has a header row. */
  function Columns(table: Table): seq<string>
    requires table.headerRows != []
  {
    table.headerRows[0]
  }

  /** Every numeric heading appears in the header row. */
  predicate HasNumericColumns(columns: seq<string>) {
    PriceLabel in columns && LiquidityLabel in columns && PriceToBookLabel in columns && DividendYieldLabel in columns
  }

  /** A record built from a header row with every numeric heading maps successfully. */
  lemma RecordMaps(columns: seq<string>, row: seq<string>)
    requires |columns| <= |row|
    requires HasNumericColumns(columns)
    ensures ToModel(Record(columns, row)).Success?
    ensures ToModel(Record(columns, row)).value.price == ToNum(row[LastIndex(columns, PriceLabel)])
    ensures ToModel(Record(columns, row)).value.dy == Percent(row[LastIndex(columns, DividendYieldLabel)])
  {
    var raw := Record(columns, row);
    RecordKeys(columns, row, PriceLabel);
    RecordKeys(columns, row, LiquidityLabel);
    RecordKeys(columns, row, PriceToBookLabel);
    RecordKeys(columns, row, DividendYieldLabel);
    MissingNumeric(raw);
  }

  /**
   * When the page loads with a header row listing every numeric heading
   * and no short body row, `run` maps every body row; the price of fund
   * `r` is the price cell of row `r` (the last column so headed) passed
   * through `toNum`, and its yield the yield cell passed through `percent`.
   */
  lemma {:induction false} ScrapedTableMaps(table: Table)
    requires table.headerRows != []
    requires HasNumericColumns(Columns(table))
    requires !HasShortRow(Columns(table), table.bodyRows)
    ensures Run(Scrape(Some(table))).Mapped?
    ensures |Run(Scrape(Some(table))).funds| == |table.bodyRows|
    ensures forall r :: 0 <= r < |table.bodyRows| ==>
              Run(Scrape(Some(table))).funds[r].price ==
                ToNum(table.bodyRows[r][LastIndex(Columns(table), PriceLabel)])
    ensures forall r :: 0 <= r < |table.bodyRows| ==>
              Run(Scrape(Some(table))).funds[r].dy ==
                Percent(table.bodyRows[r][LastIndex(Columns(table), DividendYieldLabel)])
  {
    var columns := Columns(table);
    var rows := Records(columns, table.bodyRows);
    assert Scrape(Some(table)) == Some(rows);
    forall r | 0 <= r < |rows| ensures ToModel(rows[r]).Success? {
      RecordMaps(columns, table.bodyRows[r]);
    }
    RunMapsAll(rows);
    var funds := Run(Some(rows)).funds;
    forall r | 0 <= r < |rows|
      ensures funds[r].price == ToNum(table.bodyRows[r][LastIndex(columns, PriceLabel)])
      ensures funds[r].dy == Percent(table.bodyRows[r][LastIndex(columns, DividendYieldLabel)])
    {
      RecordMaps(columns, table.bodyRows[r]);
    }
  }

  /** When every row maps, `run` keeps all of them, in order. */
  lemma RunMapsAll(rows: seq<RawRow>)
    requires forall i :: 0 <= i < |rows| ==> ToModel(rows[i]).Success?
    ensures Run(Some(rows)).Mapped? && |Run(Some(rows)).funds| == |rows|
    ensures forall i :: 0 <= i < |rows| ==> Run(Some(rows)).funds[i] == ToModel(rows[i]).value
  {
  }

  /**
   * A loaded table whose header row lacks the price heading, with at least
   * one body row and no short one, makes `run` throw on the first row.
   */
  lemma MissingPriceColumnCrashes(table: Table)
    requires table.headerRows != [] && table.bodyRows != []
    requires PriceLabel !in Columns(table)
    requires !HasShortRow(Columns(table), table.bodyRows)
    ensures Run(Scrape(Some(table))) == Crashed(0, PriceLabel)
  {
    var columns := Columns(table);
    var rows := Records(columns, table.bodyRows);
    assert Scrape(Some(table)) == Some(rows);
    RecordKeys(columns, table.bodyRows[0], PriceLabel);
    MissingNumeric(rows[0]);
  }

  /** A body row shorter than the header row stops `run` before any mapping. */
  lemma ShortRowNotScraped(table: Table, r: nat)
    requires table.headerRows != []
    requires r < |table.bodyRows| && |table.bodyRows[r]| < |Columns(table)|
    ensures Run(Scrape(Some(table))) == NotScraped
  {
  }
}
