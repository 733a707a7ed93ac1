/**
 * One ranking page run through the whole pipeline: a two-row table with
 * the six headings in page order, one fund with figures and one whose
 * every cell but the code is the placeholder.
 */
module EndToEnd {
  import opened Wrappers
  import opened JsNumber
  import opened Normalizer
  import opened TableExtractor
  import opened RowMapper
  import opened Pipeline

  const Header := [CodeLabel, CategoryLabel, PriceLabel, LiquidityLabel, PriceToBookLabel, DividendYieldLabel]
  const FiguresRow := ["ABCD11", "Shoppings", "100,50", "1.000.000,00", "1,02", "8,75%"]
  const PlaceholderRow := ["WXYZ11", "N/A", "N/A", "N/A", "N/A", "N/A"]
  const Page := Table([Header], [FiguresRow, PlaceholderRow])

  /** The six headings of the page are pairwise different. */
  lemma HeaderDistinct()
    ensures forall i, j :: 0 <= i < j < |Header| ==> Header[i] != Header[j]
  {
    assert |CodeLabel| == 6 && |CategoryLabel| == 5 && |PriceLabel| == 16;
    assert |LiquidityLabel| == 20 && |PriceToBookLabel| == 5 && |DividendYieldLabel| == 18;
    assert CategoryLabel[0] == 'S' && PriceToBookLabel[0] == 'P';
  }

  /** A six-cell row under the page's header maps cell by cell. */
  lemma RowUnderHeader(row: seq<string>)
    requires |row| == 6
    ensures ToModel(Record(Header, row)) ==
              Success(FundRecord(Some(row[0]), Some(row[1]), ToNum(row[2]), ToNum(row[3]), Percent(row[4]), Percent(row[5])))
  {
    RowCells(row);
    CellsMap(Record(Header, row), row);
  }

  /** Each heading of the page keys its own cell. */
  lemma RowCells(row: seq<string>)
    requires |row| == 6
    ensures var raw := Record(Header, row);
            && CodeLabel in raw && CategoryLabel in raw && PriceLabel in raw
            && LiquidityLabel in raw && PriceToBookLabel in raw && DividendYieldLabel in raw
            && raw[CodeLabel] == row[0] && raw[CategoryLabel] == row[1]
            && raw[PriceLabel] == row[2] && raw[LiquidityLabel] == row[3]
            && raw[PriceToBookLabel] == row[4] && raw[DividendYieldLabel] == row[5]
  {
    HeaderDistinct();
    RecordDistinctLabels(Header, row);
    assert Header[0] == CodeLabel && Header[1] == CategoryLabel && Header[2] == PriceLabel;
    assert Header[3] == LiquidityLabel && Header[4] == PriceToBookLabel && Header[5] == DividendYieldLabel;
  }

  /** A row holding all six headings maps to their cells. */
  lemma CellsMap(raw: RawRow, row: seq<string>)
    requires |row| == 6
    requires CodeLabel in raw && CategoryLabel in raw && PriceLabel in raw
    requires LiquidityLabel in raw && PriceToBookLabel in raw && DividendYieldLabel in raw
    requires raw[CodeLabel] == row[0] && raw[CategoryLabel] == row[1]
    requires raw[PriceLabel] == row[2] && raw[LiquidityLabel] == row[3]
    requires raw[PriceToBookLabel] == row[4] && raw[DividendYieldLabel] == row[5]
    ensures ToModel(raw) ==
              Success(FundRecord(Some(row[0]), Some(row[1]), ToNum(row[2]), ToNum(row[3]), Percent(row[4]), Percent(row[5])))
  {
    MissingNumeric(raw);
  }

  /** The scrape of the page is one record per row. */
  lemma PageScrape()
    ensures Scrape(Some(Page)) == Some([Record(Header, FiguresRow), Record(Header, PlaceholderRow)])
  {
    var rows := Page.bodyRows;
    assert Page.headerRows[0] == Header;
    assert !HasShortRow(Header, rows) by {
      assert |rows[0]| == 6 && |rows[1]| == 6;
    }
    var records := Records(Header, rows);
    assert records == [records[0], records[1]];
  }

  /** Two rows that both map give both records, in order. */
  lemma RunTwo(raws: seq<RawRow>, first: FundRecord, second: FundRecord)
    requires |raws| == 2 && ToModel(raws[0]) == Success(first) && ToModel(raws[1]) == Success(second)
    ensures Run(Some(raws)) == Mapped([first, second])
  {
    MapAllTwo(ToModel, raws, first, second);
  }

  lemma MapAllTwo<A, B, E>(f: A -> Result<B, E>, xs: seq<A>, y0: B, y1: B)
    requires |xs| == 2 && f(xs[0]) == Success(y0) && f(xs[1]) == Success(y1)
    ensures MapAll(f, xs) == Success([y0, y1])
  {
    forall i | 0 <= i < |xs| ensures f(xs[i]).Success? {
      if i == 0 { } else { assert i == 1; }
    }
    var ys := MapAll(f, xs).value;
    assert ys == [ys[0], ys[1]];
  }

  lemma RowFigures()
    ensures ToNum("100,50") == Finite(Decimal(10050, -2))
    ensures ToNum("1.000.000,00") == Finite(Decimal(100000000, -2))
    ensures Percent("1,02") == Finite(Decimal(102, -4))
    ensures Percent("8,75%") == Finite(Decimal(875, -4))
  {
    Digits10050();
    ToNumLocale(["100"], "50", "100,50", "10050");
    ToNumMillion();
    PercentPriceToBook();
    PercentDividendYield();
  }

  lemma Digits10050()
    ensures DigitsValue("10050") == 10050
  {
    assert "10050"[..4] == "1005";
    assert "1005"[..3] == "100";
    assert "100"[..2] == "10";
    assert "10"[..1] == "1";
    assert "1"[..0] == "";
  }

  lemma PlaceholderFigures()
    ensures ToNum("N/A") == Zero && Percent("N/A") == Zero
  {
    SentinelPadded([], []);
    assert [] + NotAvailable + [] == "N/A";
  }

  /** What the listed fund's row maps to: price 100.50, liquidity one million, P/VPA 0.0102, yield 0.0875. */
  const FiguresFund := FundRecord(Some("ABCD11"), Some("Shoppings"),
    Finite(Decimal(10050, -2)), Finite(Decimal(100000000, -2)),
    Finite(Decimal(102, -4)), Finite(Decimal(875, -4)))

  /** What the unlisted fund's row maps to: the category "N/A" copied as text, every figure zero. */
  const PlaceholderFund := FundRecord(Some("WXYZ11"), Some("N/A"), Zero, Zero, Zero, Zero)

  lemma FiguresRowMaps()
    ensures ToModel(Record(Header, FiguresRow)) == Success(FiguresFund)
  {
    RowUnderHeader(FiguresRow);
    RowFigures();
  }

  lemma PlaceholderRowMaps()
    ensures ToModel(Record(Header, PlaceholderRow)) == Success(PlaceholderFund)
  {
    RowUnderHeader(PlaceholderRow);
    PlaceholderFigures();
  }

  /** `run` on the page yields the two funds in page order. */
  lemma PageRun()
    ensures Run(Scrape(Some(Page))) == Mapped([FiguresFund, PlaceholderFund])
  {
    PageScrape();
    FiguresRowMaps();
    PlaceholderRowMaps();
    RunTwo([Record(Header, FiguresRow), Record(Header, PlaceholderRow)], FiguresFund, PlaceholderFund);
  }
}
