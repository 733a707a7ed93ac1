/**
 * `toModel`: a scraped row, keyed by the ranking page's Portuguese column
 * headings, turned into the fund record the pipeline keeps.
 */
module RowMapper {
  import opened Wrappers
  import opened JsNumber
  import opened Normalizer
  import opened TableExtractor

  const CodeLabel := "Fundos"
  const CategoryLabel := "Setor"
  const PriceLabel := "Preço Atual (R$)"
  const LiquidityLabel := "Liquidez Diária (R$)"
  const PriceToBookLabel := "P/VPA"
  const DividendYieldLabel := "DY (12M) Acumulado"

  /**
   * The columns read through `toNum` or `percent`, in the order the object
   * literal evaluates them; a missing one is `undefined`, and calling
   * `trim` on it throws.
   */
  const NumericLabels := [PriceLabel, LiquidityLabel, PriceToBookLabel, DividendYieldLabel]

  /**
   * The canonical record. `code` and `category` are copied as they are and
   * are `None` (undefined) when their column is absent.
   */
  datatype FundRecord = FundRecord(
    code: Option<string>,
    category: Option<string>,
    price: Number,
    liquidity: Number,
    pvpa: Number,
    dy: Number)

  /** Property access on the raw row: `undefined` when the key is absent. */
  function Get(raw: RawRow, key: string): Option<string> {
    if key in raw then Some(raw[key]) else None
  }

  /** The labels absent from the row, in the order given. */
  function Missing(labels: seq<string>, raw: RawRow): (absent: seq<string>)
    ensures forall k :: 0 <= k < |absent| ==> absent[k] in labels && absent[k] !in raw
    ensures forall k :: 0 <= k < |labels| && labels[k] !in raw ==> labels[k] in absent
    ensures absent != [] ==> exists k :: 0 <= k < |labels| && labels[k] == absent[0] && forall j :: 0 <= j < k ==> labels[j] in raw
  {
    if labels == [] then []
    else if labels[0] in raw then
      var rest := Missing(labels[1..], raw);
      assert rest != [] ==> exists k :: 0 <= k < |labels| && labels[k] == rest[0] && forall j :: 0 <= j < k ==> labels[j] in raw by {
        if rest != [] {
          var k :| 0 <= k < |labels[1..]| && labels[1..][k] == rest[0] && forall j :: 0 <= j < k ==> labels[1..][j] in raw;
          assert labels[k + 1] == rest[0];
          forall j | 0 <= j < k + 1 ensures labels[j] in raw {
            if j > 0 { assert labels[j] == labels[1..][j - 1]; }
          }
        }
      }
      rest
    else
      [labels[0]] + Missing(labels[1..], raw)
  }

  /**
   * `toModel`. It fails exactly when a numeric column is absent, naming the
   * first absent one in evaluation order; otherwise the fields are the
   * code and category cells as they are and the numeric cells normalised.
   */
  function ToModel(raw: RawRow): (r: Result<FundRecord, string>)
    ensures r.Success? <==> Missing(NumericLabels, raw) == []
    ensures r.Failure? ==> r.error == Missing(NumericLabels, raw)[0]
    ensures r.Success? ==>
              && PriceLabel in raw && LiquidityLabel in raw && PriceToBookLabel in raw && DividendYieldLabel in raw
              && r.value.code == Get(raw, CodeLabel)
              && r.value.category == Get(raw, CategoryLabel)
              && r.value.price == ToNum(raw[PriceLabel])
              && r.value.liquidity == ToNum(raw[LiquidityLabel])
              && r.value.pvpa == Percent(raw[PriceToBookLabel])
              && r.value.dy == Percent(raw[DividendYieldLabel])
  {
    MissingNumeric(raw);
    if PriceLabel !in raw then Failure(PriceLabel)
    else if LiquidityLabel !in raw then Failure(LiquidityLabel)
    else if PriceToBookLabel !in raw then Failure(PriceToBookLabel)
    else if DividendYieldLabel !in raw then Failure(DividendYieldLabel)
    else
      Success(FundRecord(
        code := Get(raw, CodeLabel),
        category := Get(raw, CategoryLabel),
        price := ToNum(raw[PriceLabel]),
        liquidity := ToNum(raw[LiquidityLabel]),
        pvpa := Percent(raw[PriceToBookLabel]),
        dy := Percent(raw[DividendYieldLabel])))
  }

  /** Unfolds `Missing` over the numeric labels, one label at a time. */
  lemma MissingNumeric(raw: RawRow)
    ensures PriceLabel !in raw ==> Missing(NumericLabels, raw) != [] && Missing(NumericLabels, raw)[0] == PriceLabel
    ensures PriceLabel in raw && LiquidityLabel !in raw ==> Missing(NumericLabels, raw) != [] && Missing(NumericLabels, raw)[0] == LiquidityLabel
    ensures PriceLabel in raw && LiquidityLabel in raw && PriceToBookLabel !in raw ==>
              Missing(NumericLabels, raw) != [] && Missing(NumericLabels, raw)[0] == PriceToBookLabel
    ensures PriceLabel in raw && LiquidityLabel in raw && PriceToBookLabel in raw && DividendYieldLabel !in raw ==>
              Missing(NumericLabels, raw) != [] && Missing(NumericLabels, raw)[0] == DividendYieldLabel
    ensures PriceLabel in raw && LiquidityLabel in raw && PriceToBookLabel in raw && DividendYieldLabel in raw ==>
              Missing(NumericLabels, raw) == []
  {
    var l3 := [DividendYieldLabel];
    var l2 := [PriceToBookLabel] + l3;
    var l1 := [LiquidityLabel] + l2;
    assert NumericLabels == [PriceLabel] + l1;
    assert ([PriceLabel] + l1)[1..] == l1;
    assert l1[1..] == l2;
    assert l2[1..] == l3;
    assert l3[1..] == [];
    MissingCons(l3, raw);
    MissingCons(l2, raw);
    MissingCons(l1, raw);
    MissingCons([PriceLabel] + l1, raw);
  }

  lemma MissingCons(labels: seq<string>, raw: RawRow)
    requires labels != []
    ensures Missing(labels, raw) == (if labels[0] in raw then [] else [labels[0]]) + Missing(labels[1..], raw)
  {
  }

  /**
   * P/VPA goes through `percent`, so a plain ratio such as "1,02" is
   * divided by one hundred like the dividend yield.
   */
  lemma PriceToBookDividedBy100(raw: RawRow)
    requires ToModel(raw).Success?
    requires var cell := raw[PriceToBookLabel]; !IsSentinel(cell) && '%' !in cell && ' ' !in cell
    ensures ToModel(raw).value.pvpa == Div100(ToNum(raw[PriceToBookLabel]))
  {
    PercentIsToNumOver100(raw[PriceToBookLabel]);
  }

  /** A row whose numeric cells all read "N/A" maps to zeros, with code and category copied. */
  lemma SentinelRow(raw: RawRow)
    requires PriceLabel in raw && LiquidityLabel in raw && PriceToBookLabel in raw && DividendYieldLabel in raw
    requires raw[PriceLabel] == raw[LiquidityLabel] == raw[PriceToBookLabel] == raw[DividendYieldLabel] == NotAvailable
    ensures ToModel(raw) == Success(FundRecord(Get(raw, CodeLabel), Get(raw, CategoryLabel), Zero, Zero, Zero, Zero))
  {
    SentinelPadded([], []);
    assert [] + NotAvailable + [] == NotAvailable;
  }
}
