/** A worked ledger: the five required columns and one interstate sale at
    17 %, followed through every stage of the run to the single line it
    displays. */
module LedgerSample {
  import opened Wrappers
  import opened Text
  import opened Decimal
  import opened Locale
  import opened Ledger

  /** One exported row: the code in its quoted spreadsheet form, the base
      with a thousands separator, the amount without one. */
  const ROW: seq<string> := ["17", "=\"1/00\"", "6102", "1.234,56", "209,88"]

  const ENTRY := Entry(Rate(17.0), "1/00", "6102", "1.234,56", "209,88")
  const ITEM := Item(17.0, 1234.56, 209.88)
  const TOTAL := Total(17.0, 1234.56, 209.88)
  const LINE := Line(17.0, "1.234,56", "209,88")

  /** The whole run on that file shows one interstate line and no
      intrastate line. */
  lemma SampleRun()
    ensures Pipeline(REQUIRED, [ROW]) == Ok([LINE], [])
  {
    SampleHeader();
    SampleNormalized();
    SampleKept();
    SampleBuckets();
    SampleLines();
    RunVia(REQUIRED, [ROW], [ENTRY], [TOTAL]);
  }

  /** The stages of the run, each taken as given. */
  lemma RunVia(header: seq<string>, rows: seq<seq<string>>, es: seq<Entry>, ts: seq<Total>)
    requires Missing(header) == [] && NormalizeAll(header, rows) == es
    requires !AnyMalformed(es) && Kept(es) == es && es != []
    requires Bucket(es, INTERSTATE) == ts && Bucket(es, INTRASTATE) == [] && ts != []
    ensures Pipeline(header, rows) == Ok(Render(ts), Render([]))
  {
  }

  lemma SampleHeader()
    ensures Missing(REQUIRED) == []
  {
    MissingExactly(REQUIRED);
  }

  lemma SampleNormalized()
    ensures NormalizeAll(REQUIRED, [ROW]) == [ENTRY]
  {
    SampleEntry();
    assert [ROW][..0] == [];
  }

  lemma SampleEntry()
    ensures Normalize(REQUIRED, ROW) == ENTRY
  {
    SampleCells();
    SampleRate();
    CleanCstQuoted();
  }

  /** The column `j` of the required list is found at position `j`. */
  lemma FindRequired(j: nat)
    requires j < |REQUIRED|
    ensures Find(REQUIRED, REQUIRED[j]) == j
  {
    RequiredDistinct();
  }

  lemma SampleCells()
    ensures Cell(REQUIRED, ROW, RATE_COL) == "17"
    ensures Cell(REQUIRED, ROW, CST_COL) == "=\"1/00\""
    ensures Cell(REQUIRED, ROW, CFOP_COL) == "6102"
    ensures Cell(REQUIRED, ROW, BASE_COL) == "1.234,56"
    ensures Cell(REQUIRED, ROW, AMOUNT_COL) == "209,88"
  {
    FindRequired(0);
    FindRequired(1);
    FindRequired(2);
    FindRequired(3);
    FindRequired(4);
  }

  lemma SampleRate()
    ensures ParseRate("17") == Rate(17.0)
  {
    assert AllDigits("17") && "17" != [];
    RateWhole("17");
    assert "17"[..1] == "1";
    assert Value("17") == 17;
  }

  lemma SampleKept()
    ensures !AnyMalformed([ENTRY]) && Kept([ENTRY]) == [ENTRY]
  {
    SampleStripped();
    StripNoop("1/00");
    assert [ENTRY][..0] == [];
    assert ByRate([ENTRY]) == [ENTRY];
  }

  lemma SampleBuckets()
    ensures Bucket([ENTRY], INTERSTATE) == [TOTAL]
    ensures Bucket([ENTRY], INTRASTATE) == []
  {
    assert [ENTRY][..0] == [];
    assert Select([ENTRY], INTERSTATE) == [ENTRY];
    assert Select([ENTRY], INTRASTATE) == [];
    SampleItem();
    SampleTotal();
  }

  lemma SampleItem()
    ensures Repair([ENTRY]) == [ITEM]
  {
    RepairSample();
    AmountSample();
    RepairOne(ENTRY, 1234.56, 209.88);
  }

  /** A one-row bucket whose money parses repairs to that row's item. */
  lemma RepairOne(e: Entry, b: real, a: real)
    requires e.rate.Rate? && ParseMoney(e.base) == Some(b) && ParseMoney(e.amount) == Some(a)
    ensures Repair([e]) == [Item(e.rate.value, b, a)]
  {
    assert [e][..0] == [];
  }

  lemma SampleTotal()
    ensures GroupSums([ITEM]) == [TOTAL]
  {
    assert [ITEM][..0] == [];
    assert Keys([ITEM]) == [17.0];
    assert Sum([ITEM], 17.0, Base) == 1234.56;
    assert Sum([ITEM], 17.0, Amount) == 209.88;
  }

  lemma SampleLines()
    ensures Render([TOTAL]) == [LINE]
    ensures Render([]) == []
  {
    FormatSample();
    FormatAmountSample();
  }

  /** The sample amount renders without a thousands separator ... */
  lemma FormatAmountSample()
    ensures FormatMoney(209.88) == "209,88"
  {
    assert Abs(209.88) * 100.0 == 20988.0;
    assert RoundHalfEven(20988.0) == 20988;
    AmountDigits();
    assert CentsText(false, 209, 88) == "209,88";
    FormatVia(209.88, 20988, "209,88");
  }

  lemma AmountDigits()
    ensures Grouped(209) == "209"
    ensures PaddedText(88, 2) == "88"
  {
    assert IntText(2) == "2";
    assert IntText(20) == "20";
    assert PaddedText(8, 1) == "8";
  }

  /** ... and the money repair reads it back. */
  lemma AmountSample()
    ensures ParseMoney("209,88") == Some(209.88)
  {
    FormatAmountSample();
    ParseFormatCents(20988);
    assert 20988 as real / 100.0 == 209.88;
  }
}
