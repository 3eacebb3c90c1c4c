/** The ICMS ledger export processed by `carregar_arquivo`, as a pure
    function from the header and the data rows of the CSV file to the
    outcome the program reports: the first missing required columns, a rate
    that does not convert, nothing left after the whitelists, nothing left
    after the money repair, or the per-rate totals of the interstate and the
    intrastate operations in Brazilian notation. Each stage of the program is
    one function here, applied in the program's order. */
module Ledger {
  import opened Wrappers
  import opened Text
  import opened Decimal
  import opened Locale

  const RATE_COL := "Alíquota de ICMS"
  const CST_COL := "CST ICMS"
  const CFOP_COL := "CFOP"
  const BASE_COL := "Base de ICMS"
  const AMOUNT_COL := "Valor do ICMS"

  /** The columns the file must have, in the order they are reported. */
  const REQUIRED: seq<string> := [RATE_COL, CST_COL, CFOP_COL, BASE_COL, AMOUNT_COL]

  /** The tax rates (percent) and tax-situation codes that are kept. */
  const RATES: set<real> := {4.0, 10.0, 12.0, 17.0, 25.0}
  const CSTS: set<string> := {"1/00", "1/10", "1/20", "1/51", "1/90"}

  /** First character of the fiscal operation code (CFOP) of an operation
      with another state and within the state. */
  const INTERSTATE := '6'
  const INTRASTATE := '5'

  /** A data row after the text cleanup of the tax-situation code and the
      conversion of the rate; the remaining cells are still text. */
  datatype Entry = Entry(rate: RateCell, cst: string, cfop: string, base: string, amount: string)

  /** A row of a bucket whose base and tax amount both parsed. */
  datatype Item = Item(rate: real, base: real, amount: real)

  /** The two summed columns. */
  datatype Field = Base | Amount

  /** One row of `groupby(rate).agg(sum)`: a rate and its two totals. */
  datatype Total = Total(rate: real, base: real, amount: real)

  /** A total as displayed: the rate and the two totals in Brazilian notation. */
  datatype Line = Line(rate: real, base: string, amount: string)

  datatype Outcome =
    | MissingColumns(names: seq<string>)
    | RateParseError
    | EmptyAfterFilter
    | EmptyAfterAggregation
    | Ok(interstate: seq<Line>, intrastate: seq<Line>)

  // ---------------------------------------------------------------- columns

  /** Position of the first `n` in `names`, or `|names|` when absent. */
  function Find(names: seq<string>, n: string): (i: nat)
    ensures i <= |names|
    ensures i < |names| <==> n in names
    ensures i < |names| ==> names[i] == n
    ensures forall k :: 0 <= k < i ==> names[k] != n
  {
    if names == [] then 0 else if names[0] == n then 0 else 1 + Find(names[1..], n)
  }

  /** The names of `names` that `header` lacks, in the order of `names`. */
  function Absent(names: seq<string>, header: seq<string>): (r: seq<string>)
    ensures forall n :: n in r <==> n in names && n !in header
  {
    if names == [] then []
    else
      var init, n := names[..|names| - 1], names[|names| - 1];
      assert names == init + [n];
      var r0 := Absent(init, header);
      if n in header then r0 else r0 + [n]
  }

  /** The required columns the header lacks. */
  function Missing(header: seq<string>): seq<string> {
    Absent(REQUIRED, header)
  }

  predicate Distinct(s: seq<string>) {
    forall i, j :: 0 <= i < j < |s| ==> s[i] != s[j]
  }

  lemma RequiredDistinct()
    ensures Distinct(REQUIRED)
  {
  }

  lemma {:induction false} FindPrefix(a: seq<string>, b: seq<string>, n: string)
    requires n in a
    ensures Find(a + b, n) == Find(a, n)
  {
    if a[0] != n {
      assert (a + b)[1..] == a[1..] + b;
      FindPrefix(a[1..], b, n);
    }
  }

  /** The elements of `r` occur in `names` in the order of `r`. */
  predicate InOrder(names: seq<string>, r: seq<string>) {
    forall i, j :: 0 <= i < j < |r| ==> Find(names, r[i]) < Find(names, r[j])
  }

  /** The absent names are reported in the order of `names`. */
  lemma {:induction false} AbsentInOrder(names: seq<string>, header: seq<string>)
    requires Distinct(names)
    ensures InOrder(names, Absent(names, header))
  {
    if names != [] {
      var init, n := names[..|names| - 1], names[|names| - 1];
      assert names == init + [n];
      AbsentInOrder(init, header);
      assert n !in init by {
        forall i | 0 <= i < |init| ensures init[i] != n { assert init[i] == names[i]; }
      }
      InOrderSnoc(init, n, Absent(init, header));
    }
  }

  /** Appending a fresh name keeps every order and puts the name last. */
  lemma InOrderSnoc(init: seq<string>, n: string, r0: seq<string>)
    requires n !in init
    requires forall m :: m in r0 ==> m in init
    requires InOrder(init, r0)
    ensures InOrder(init + [n], r0)
    ensures InOrder(init + [n], r0 + [n])
  {
    var names, r := init + [n], r0 + [n];
    forall m | m in r0 ensures Find(names, m) == Find(init, m) < |init| {
      FindPrefix(init, [n], m);
    }
    assert Find(names, n) == |init|;
    forall i, j | 0 <= i < j < |r| ensures Find(names, r[i]) < Find(names, r[j]) {
      assert r[i] == r0[i] && r0[i] in r0;
      if j < |r0| {
        assert r[j] == r0[j] && r0[j] in r0;
      }
    }
    forall i, j | 0 <= i < j < |r0| ensures Find(names, r0[i]) < Find(names, r0[j]) {
      assert r0[i] in r0 && r0[j] in r0;
    }
  }

  /** The missing-column report: exactly the required names the header
      lacks, each once, in the order of the required list. */
  lemma MissingExactly(header: seq<string>)
    ensures forall n :: n in Missing(header) <==> n in REQUIRED && n !in header
    ensures InOrder(REQUIRED, Missing(header))
    ensures Missing(header) == [] <==> forall n :: n in REQUIRED ==> n in header
  {
    RequiredDistinct();
    AbsentInOrder(REQUIRED, header);
    var m := Missing(header);
    if m != [] {
      assert m[0] in m;
      assert m[0] in REQUIRED && m[0] !in header;
    }
    assert forall n :: n in REQUIRED && n !in header ==> n in m;
  }

  /** The text of the cell under column `name`; a row shorter than the
      header reads as empty cells (pandas pads it with missing values). */
  function Cell(header: seq<string>, row: seq<string>, name: string): string {
    var i := Find(header, name);
    if i < |row| then row[i] else ""
  }

  // ------------------------------------------------------------ normalising

  /** Cleanup of the tax-situation code: every `="` and then every `"` is
      deleted, then the surrounding whitespace. A cleaned code has no `"`
      and no surrounding whitespace. */
  function CleanCst(s: string): (r: string)
    ensures '"' !in r
    ensures Stripped(r)
  {
    var t := RemoveChar(RemoveAll(s, "=\""), '"');
    StripShape(t);
    Strip(t)
  }

  /** A code that has no `"` and no surrounding whitespace is left as it is. */
  lemma CleanCstKeepsClean(s: string)
    requires '"' !in s && Stripped(s)
    ensures CleanCst(s) == s
  {
    assert "=\""[1] !in s;
    RemoveAllAbsent(s, "=\"", 1);
  }

  /** Cleaning is idempotent. */
  lemma CleanCstIdempotent(s: string)
    ensures CleanCst(CleanCst(s)) == CleanCst(s)
  {
    CleanCstKeepsClean(CleanCst(s));
  }

  /** The spreadsheet wrapper `="…"` around a value is removed: what is left
      is the value, stripped. The value must not hold a `"` of its own nor
      end in `=`, which would make a second `="` with the closing quote. */
  lemma CleanCstWrapped(x: string)
    requires '"' !in x && (x == [] || x[|x| - 1] != '=')
    ensures CleanCst("=\"" + x + "\"") == Strip(x)
  {
    var t := x + "\"";
    WrapperAbsent(x);
    ClosingQuoteRemoved(x);
    UnwrapVia("=\"" + x + "\"", t, x);
  }

  lemma UnwrapVia(s: string, t: string, x: string)
    requires s == "=\"" + t
    requires forall k: nat :: !OccursAt(t, "=\"", k)
    requires RemoveChar(t, '"') == x
    ensures CleanCst(s) == Strip(x)
  {
    RemoveAllLeading("=\"", t);
  }

  /** Deleting every `"` from the value and its closing quote leaves the
      value. */
  lemma ClosingQuoteRemoved(x: string)
    requires '"' !in x
    ensures RemoveChar(x + "\"", '"') == x
  {
    RemoveCharAppend(x, "\"", '"');
    assert RemoveChar("\"", '"') == [];
  }

  /** No `="` occurs in the value followed by the closing quote. */
  lemma WrapperAbsent(x: string)
    requires '"' !in x && (x == [] || x[|x| - 1] != '=')
    ensures forall k: nat :: !OccursAt(x + "\"", "=\"", k)
  {
    var t := x + "\"";
    forall k: nat ensures !OccursAt(t, "=\"", k) {
      if k + 2 <= |t| {
        if k + 1 < |x| {
          assert t[k + 1] == x[k + 1] && x[k + 1] in x;
          assert t[k..k + 2][1] != "=\""[1];
        } else {
          assert t[k] == x[|x| - 1];
          assert t[k..k + 2][0] != "=\""[0];
        }
      }
    }
  }

  /** The quoted spreadsheet form of a code, `="1/00"`, cleans to `1/00`. */
  lemma CleanCstQuoted()
    ensures CleanCst("=\"1/00\"") == "1/00"
  {
    SampleStripped();
    QuotedVia("=\"1/00\"", "1/00");
  }

  lemma QuotedVia(s: string, x: string)
    requires s == "=\"" + x + "\"" && '"' !in x && x != [] && x[|x| - 1] != '=' && Stripped(x)
    ensures CleanCst(s) == x
  {
    CleanCstWrapped(x);
    StripNoop(x);
  }

  lemma SampleStripped()
    ensures Stripped("1/00")
  {
    assert "1/00"[0] == '1' && "1/00"[3] == '0';
  }

  /** A pattern whose first character does not occur is never found. */
  lemma RemoveAllAbsent(s: string, pat: string, i: nat)
    requires i < |pat| && pat[i] !in s
    ensures RemoveAll(s, pat) == s
  {
    forall k: nat ensures !OccursAt(s, pat, k) {
      if k + |pat| <= |s| {
        assert s[k..k + |pat|][i] == s[k + i];
      }
    }
  }

  /** Lines 28 and 34 applied to one row: the cleaned code has no `"` and
      no surrounding whitespace, and the rate is missing exactly when its
      cell is empty. */
  function Normalize(header: seq<string>, row: seq<string>): (e: Entry)
    ensures '"' !in e.cst && Stripped(e.cst)
    ensures e.rate.Blank? <==> Cell(header, row, RATE_COL) == ""
  {
    Entry(ParseRate(Cell(header, row, RATE_COL)), CleanCst(Cell(header, row, CST_COL)),
          Cell(header, row, CFOP_COL), Cell(header, row, BASE_COL), Cell(header, row, AMOUNT_COL))
  }

  function NormalizeAll(header: seq<string>, rows: seq<seq<string>>): (es: seq<Entry>)
    ensures |es| == |rows|
  {
    if rows == [] then [] else NormalizeAll(header, rows[..|rows| - 1]) + [Normalize(header, rows[|rows| - 1])]
  }

  /** Row `k` of the normalised table is row `k` of the file, normalised. */
  lemma {:induction false} NormalizedAt(header: seq<string>, rows: seq<seq<string>>, k: nat)
    requires k < |rows|
    ensures NormalizeAll(header, rows)[k] == Normalize(header, rows[k])
  {
    if k < |rows| - 1 {
      NormalizedAt(header, rows[..|rows| - 1], k);
      assert rows[..|rows| - 1][k] == rows[k];
    }
  }

  /** Some rate does not convert: `astype(float)` raises for the column. */
  predicate AnyMalformed(es: seq<Entry>) {
    exists k :: 0 <= k < |es| && es[k].rate.Malformed?
  }

  // -------------------------------------------------------------- filtering

  predicate RateWanted(e: Entry) {
    e.rate.Rate? && e.rate.value in RATES
  }

  predicate CstWanted(e: Entry) {
    Strip(e.cst) in CSTS
  }

  /** `df[rate.isin(RATES)]`: a missing or unlisted rate is dropped. */
  function ByRate(es: seq<Entry>): (r: seq<Entry>)
    ensures forall e :: multiset(r)[e] == if RateWanted(e) then multiset(es)[e] else 0
    ensures forall e :: e in r <==> e in es && RateWanted(e)
    ensures |r| <= |es|
  {
    if es == [] then []
    else
      var init, e := es[..|es| - 1], es[|es| - 1];
      assert es == init + [e];
      ByRate(init) + (if RateWanted(e) then [e] else [])
  }

  /** `df[cst.astype(str).str.strip().isin(CSTS)]`. */
  function ByCst(es: seq<Entry>): (r: seq<Entry>)
    ensures forall e :: multiset(r)[e] == if CstWanted(e) then multiset(es)[e] else 0
    ensures forall e :: e in r <==> e in es && CstWanted(e)
    ensures |r| <= |es|
  {
    if es == [] then []
    else
      var init, e := es[..|es| - 1], es[|es| - 1];
      assert es == init + [e];
      ByCst(init) + (if CstWanted(e) then [e] else [])
  }

  /** The rows that pass both whitelists, in file order: a row is kept
      exactly when its rate and its code are both listed. */
  function Kept(es: seq<Entry>): (r: seq<Entry>)
    ensures forall e :: e in r <==> e in es && RateWanted(e) && CstWanted(e)
  {
    ByCst(ByRate(es))
  }

  /** A row with a listed rate and a listed code is kept as many times as
      it occurs in the file; any other row not at all. */
  lemma KeptExactly(es: seq<Entry>)
    ensures forall e :: multiset(Kept(es))[e] ==
                        (if e.rate.Rate? && e.rate.value in RATES && Strip(e.cst) in CSTS then multiset(es)[e] else 0)
  {
  }

  /** After the cleanup of line 28 the second strip of line 43 changes
      nothing. */
  lemma SecondStripIsNoop(s: string)
    ensures Strip(CleanCst(s)) == CleanCst(s)
  {
  }

  /** `df[cfop.astype(str).str.startswith(c)]`. */
  function Select(es: seq<Entry>, c: char): (r: seq<Entry>)
    ensures forall e :: e in r <==> e in es && StartsWith(e.cfop, c)
    ensures |r| <= |es|
  {
    if es == [] then []
    else
      var init, e := es[..|es| - 1], es[|es| - 1];
      assert es == init + [e];
      Select(init, c) + (if StartsWith(e.cfop, c) then [e] else [])
  }

  /** The rows whose code starts with neither `6` nor `5`. */
  function Neither(es: seq<Entry>): (r: seq<Entry>)
    ensures forall e :: e in r <==> e in es && !StartsWith(e.cfop, INTERSTATE) && !StartsWith(e.cfop, INTRASTATE)
  {
    if es == [] then []
    else
      var init, e := es[..|es| - 1], es[|es| - 1];
      assert es == init + [e];
      Neither(init) + (if !StartsWith(e.cfop, INTERSTATE) && !StartsWith(e.cfop, INTRASTATE) then [e] else [])
  }

  /** The split is a partition: no row is in both buckets, and the two
      buckets and the rows in neither together are the kept rows, with their
      multiplicities. */
  lemma {:induction false} SplitPartition(es: seq<Entry>)
    ensures forall e :: !(e in Select(es, INTERSTATE) && e in Select(es, INTRASTATE))
    ensures multiset(Select(es, INTERSTATE)) + multiset(Select(es, INTRASTATE)) + multiset(Neither(es)) == multiset(es)
    ensures |Select(es, INTERSTATE)| + |Select(es, INTRASTATE)| + |Neither(es)| == |es|
  {
    if es != [] {
      var init, e := es[..|es| - 1], es[|es| - 1];
      assert es == init + [e];
      SplitPartition(init);
    }
  }

  // ----------------------------------------------------------------- repair

  /** A row yields an item when its rate is a number (always so for the
      rows that pass the rate whitelist) and both money columns parse. */
  predicate Repairable(e: Entry) {
    e.rate.Rate? && ParseMoney(e.base).Some? && ParseMoney(e.amount).Some?
  }

  /** The item a repairable row yields. */
  function ItemOf(e: Entry): Item
    requires Repairable(e)
  {
    Item(e.rate.value, ParseMoney(e.base).value, ParseMoney(e.amount).value)
  }

  /** The row `e` yields the item `x`. */
  predicate Yields(e: Entry, x: Item) {
    Repairable(e) && ItemOf(e) == x
  }

  /** How many rows of `es` yield the item `x`. */
  function CountYields(es: seq<Entry>, x: Item): nat {
    if es == [] then 0
    else CountYields(es[..|es| - 1], x) + (if Yields(es[|es| - 1], x) then 1 else 0)
  }

  /** Lines 57-61: both money columns repaired and parsed; a row where
      either fails is dropped. Each item occurs once for every row that
      yields it. */
  function Repair(es: seq<Entry>): (r: seq<Item>)
    ensures |r| <= |es|
    ensures forall x :: multiset(r)[x] == CountYields(es, x)
  {
    if es == [] then []
    else
      var init, e := es[..|es| - 1], es[|es| - 1];
      assert es == init + [e];
      Repair(init) + (if Repairable(e) then [ItemOf(e)] else [])
  }

  /** Every copy of a repairable row yields its own item: identical rows
      are not merged. */
  lemma RepairKeepsCopies(es: seq<Entry>, e: Entry)
    requires Repairable(e)
    ensures multiset(Repair(es))[ItemOf(e)] >= multiset(es)[e]
  {
    CountCopies(es, e, ItemOf(e));
  }

  lemma {:induction false} CountCopies(es: seq<Entry>, e: Entry, x: Item)
    requires Yields(e, x)
    ensures CountYields(es, x) >= multiset(es)[e]
  {
    if es != [] {
      var init, d := es[..|es| - 1], es[|es| - 1];
      assert es == init + [d];
      assert multiset(es)[e] == multiset(init)[e] + (if d == e then 1 else 0);
      assert CountYields(es, x) == CountYields(init, x) + (if Yields(d, x) then 1 else 0);
      CountCopies(init, e, x);
      if d == e {
        assert Yields(d, x);
      }
    }
  }

  /** An item is kept exactly for a row of the bucket whose base and amount
      both parse; the item carries the row's rate and the two parsed values. */
  lemma {:induction false} RepairExactly(es: seq<Entry>)
    ensures forall x :: x in Repair(es) <==>
      exists e :: e in es && e.rate == Rate(x.rate) && ParseMoney(e.base) == Some(x.base) && ParseMoney(e.amount) == Some(x.amount)
  {
    if es != [] {
      var init, e := es[..|es| - 1], es[|es| - 1];
      assert es == init + [e];
      RepairExactly(init);
      forall x ensures x in Repair(es) <==>
        exists d :: d in es && d.rate == Rate(x.rate) && ParseMoney(d.base) == Some(x.base) && ParseMoney(d.amount) == Some(x.amount)
      {
        if x in Repair(es) && x !in Repair(init) {
          assert e.rate == Rate(x.rate);
        }
      }
    }
  }

  // ------------------------------------------------------------ aggregation

  predicate Increasing(ks: seq<real>) {
    forall i, j :: 0 <= i < j < |ks| ==> ks[i] < ks[j]
  }

  /** `k` added to the ascending keys `ks` unless already there. */
  function InsertSorted(ks: seq<real>, k: real): (r: seq<real>)
    ensures forall x :: x in r <==> x in ks || x == k
  {
    if ks == [] then [k]
    else if k < ks[0] then [k] + ks
    else if k == ks[0] then ks
    else [ks[0]] + InsertSorted(ks[1..], k)
  }

  lemma {:induction false} InsertSortedIncreasing(ks: seq<real>, k: real)
    requires Increasing(ks)
    ensures Increasing(InsertSorted(ks, k))
  {
    if ks != [] && k > ks[0] {
      InsertSortedIncreasing(ks[1..], k);
      var r := InsertSorted(ks, k);
      assert r == [ks[0]] + InsertSorted(ks[1..], k);
      forall j | 1 <= j < |r| ensures ks[0] < r[j] {
        assert r[j] in InsertSorted(ks[1..], k);
      }
    }
  }

  function Rates(items: seq<Item>): set<real> {
    set x | x in items :: x.rate
  }

  /** The distinct rates of the items, ascending: the group keys. */
  function Keys(items: seq<Item>): seq<real> {
    if items == [] then []
    else InsertSorted(Keys(items[..|items| - 1]), items[|items| - 1].rate)
  }

  lemma {:induction false} KeysSpec(items: seq<Item>)
    ensures Increasing(Keys(items))
    ensures forall k :: k in Keys(items) <==> k in Rates(items)
  {
    if items != [] {
      var init, x := items[..|items| - 1], items[|items| - 1];
      assert items == init + [x];
      KeysSpec(init);
      InsertSortedIncreasing(Keys(init), x.rate);
      forall k ensures k in Rates(items) <==> k in Rates(init) || k == x.rate {
        if k in Rates(items) {
          var y :| y in items && y.rate == k;
          if y != x { assert y in init; }
        }
      }
    }
  }

  function FieldOf(x: Item, f: Field): real {
    match f
    case Base => x.base
    case Amount => x.amount
  }

  /** The sum of field `f` over exactly the items with rate `k`. */
  function Sum(items: seq<Item>, k: real, f: Field): real {
    if items == [] then 0.0
    else
      var x := items[|items| - 1];
      Sum(items[..|items| - 1], k, f) + (if x.rate == k then FieldOf(x, f) else 0.0)
  }

  /** The sum of field `f` over all items. */
  function Grand(items: seq<Item>, f: Field): real {
    if items == [] then 0.0 else Grand(items[..|items| - 1], f) + FieldOf(items[|items| - 1], f)
  }

  /** One total per key, in the order of the keys. */
  function Totals(items: seq<Item>, ks: seq<real>): seq<Total> {
    seq(|ks|, i requires 0 <= i < |ks| => Total(ks[i], Sum(items, ks[i], Base), Sum(items, ks[i], Amount)))
  }

  /** `calcular_somas_por_aliquota`: group by rate (pandas sorts the group
      keys) and sum the base and the amount. The rows are ascending by rate,
      each at a rate of some item and carrying the sums over exactly the
      items at its rate; there is a row exactly when there is an item. */
  function GroupSums(items: seq<Item>): (g: seq<Total>)
    ensures forall i, j :: 0 <= i < j < |g| ==> g[i].rate < g[j].rate
    ensures forall i :: 0 <= i < |g| ==> g[i].rate in Rates(items)
    ensures forall i :: 0 <= i < |g| ==> g[i].base == Sum(items, g[i].rate, Base) && g[i].amount == Sum(items, g[i].rate, Amount)
    ensures g == [] <==> items == []
  {
    KeysSpec(items);
    KeysNonEmpty(items);
    Totals(items, Keys(items))
  }

  /** A bucket with an item has a group key. */
  lemma KeysNonEmpty(items: seq<Item>)
    ensures Keys(items) == [] <==> items == []
  {
    if items != [] {
      KeysSpec(items);
      assert items[0].rate in Rates(items);
    }
  }

  function TotalOf(t: Total, f: Field): real {
    match f
    case Base => t.base
    case Amount => t.amount
  }

  /** One row per distinct rate of the bucket, ascending by rate, each
      carrying the sums over exactly the rows of its rate; empty exactly
      when the bucket is. */
  lemma GroupSumsSpec(items: seq<Item>)
    ensures var g := GroupSums(items);
      && (forall i, j :: 0 <= i < j < |g| ==> g[i].rate < g[j].rate)
      && (forall k :: k in Rates(items) <==> exists i :: 0 <= i < |g| && g[i].rate == k)
      && (forall i, f :: 0 <= i < |g| ==> TotalOf(g[i], f) == Sum(items, g[i].rate, f))
      && (g == [] <==> items == [])
  {
    KeysSpec(items);
    var g, ks := GroupSums(items), Keys(items);
    forall k ensures k in Rates(items) <==> exists i :: 0 <= i < |g| && g[i].rate == k {
      if k in ks {
        var i :| 0 <= i < |ks| && ks[i] == k;
        assert g[i].rate == k;
      }
    }
    forall i, f | 0 <= i < |g| ensures TotalOf(g[i], f) == Sum(items, g[i].rate, f) {
      match f
      case Base =>
      case Amount =>
    }
    if items != [] {
      assert items[0].rate in Rates(items);
    }
  }

  /** A rate absent from the bucket sums to zero. */
  lemma {:induction false} SumAbsent(items: seq<Item>, k: real, f: Field)
    requires k !in Rates(items)
    ensures Sum(items, k, f) == 0.0
  {
    if items != [] {
      var init := items[..|items| - 1];
      assert Rates(init) <= Rates(items) by {
        forall r | r in Rates(init) ensures r in Rates(items) {
          var y :| y in init && y.rate == r;
          assert y in items;
        }
      }
      assert items[|items| - 1] in items;
      SumAbsent(init, k, f);
    }
  }

  /** The sum over the keys `ks` of their per-rate sums. */
  function SumOver(items: seq<Item>, ks: seq<real>, f: Field): real {
    if ks == [] then 0.0 else SumOver(items, ks[..|ks| - 1], f) + Sum(items, ks[|ks| - 1], f)
  }

  /** Sum of field `f` over a list of totals. */
  function SumTotals(ts: seq<Total>, f: Field): real {
    if ts == [] then 0.0 else SumTotals(ts[..|ts| - 1], f) + TotalOf(ts[|ts| - 1], f)
  }

  /** The sum over `ks` of an amount `v` counted at the key `k` only. */
  function Hits(ks: seq<real>, k: real, v: real): real {
    if ks == [] then 0.0 else Hits(ks[..|ks| - 1], k, v) + (if ks[|ks| - 1] == k then v else 0.0)
  }

  lemma {:induction false} HitsOnce(ks: seq<real>, k: real, v: real)
    requires Increasing(ks)
    ensures Hits(ks, k, v) == if k in ks then v else 0.0
  {
    if ks != [] {
      var init := ks[..|ks| - 1];
      assert ks == init + [ks[|ks| - 1]];
      HitsOnce(init, k, v);
      if ks[|ks| - 1] == k {
        assert k !in init by {
          forall i | 0 <= i < |init| ensures init[i] != k { assert ks[i] < ks[|ks| - 1]; }
        }
      }
    }
  }

  lemma {:induction false} SumOverSnoc(init: seq<Item>, x: Item, ks: seq<real>, f: Field)
    ensures SumOver(init + [x], ks, f) == SumOver(init, ks, f) + Hits(ks, x.rate, FieldOf(x, f))
  {
    if ks != [] {
      assert (init + [x])[..|init + [x]| - 1] == init;
      SumOverSnoc(init, x, ks[..|ks| - 1], f);
    }
  }

  /** Summing the per-rate sums over ascending keys that cover every rate
      gives the sum over all items. */
  lemma {:induction false} SumOverCovers(items: seq<Item>, ks: seq<real>, f: Field)
    requires Increasing(ks)
    requires forall x :: x in items ==> x.rate in ks
    ensures SumOver(items, ks, f) == Grand(items, f)
  {
    if items == [] {
      SumOverEmpty(ks, f);
    } else {
      var init, x := items[..|items| - 1], items[|items| - 1];
      assert items == init + [x];
      SumOverCovers(init, ks, f);
      SumOverSnoc(init, x, ks, f);
      HitsOnce(ks, x.rate, FieldOf(x, f));
    }
  }

  lemma {:induction false} SumOverEmpty(ks: seq<real>, f: Field)
    ensures SumOver([], ks, f) == 0.0
  {
    if ks != [] {
      SumOverEmpty(ks[..|ks| - 1], f);
    }
  }

  lemma {:induction false} SumTotalsOfTotals(items: seq<Item>, ks: seq<real>, f: Field)
    ensures SumTotals(Totals(items, ks), f) == SumOver(items, ks, f)
  {
    if ks != [] {
      var init := ks[..|ks| - 1];
      assert Totals(items, ks)[..|ks| - 1] == Totals(items, init);
      SumTotalsOfTotals(items, init, f);
      match f
      case Base =>
      case Amount =>
    }
  }

  /** Grouping loses nothing: the group totals add up to the bucket total. */
  lemma GroupSumsConserve(items: seq<Item>, f: Field)
    ensures SumTotals(GroupSums(items), f) == Grand(items, f)
  {
    KeysSpec(items);
    SumTotalsOfTotals(items, Keys(items), f);
    forall x | x in items ensures x.rate in Keys(items) {
      assert x.rate in Rates(items);
    }
    SumOverCovers(items, Keys(items), f);
  }

  // -------------------------------------------------------------- rendering

  /** Lines 80-83: both totals of every row formatted. Each line keeps its
      total's rate and has both amounts in the Brazilian money shape. */
  function Render(ts: seq<Total>): (ls: seq<Line>)
    ensures |ls| == |ts|
    ensures forall i :: 0 <= i < |ls| ==> ls[i].rate == ts[i].rate && MoneyShape(ls[i].base) && MoneyShape(ls[i].amount)
  {
    seq(|ts|, i requires 0 <= i < |ts| => Line(ts[i].rate, FormatMoney(ts[i].base), FormatMoney(ts[i].amount)))
  }

  /** A whole number of cents. */
  predicate IsCents(v: real) {
    (v * 100.0).Floor as real == v * 100.0
  }

  /** A rendered amount has the Brazilian money shape and, when it is a
      whole number of cents, the money repair of the input reads it back. */
  lemma {:induction false} FormatSpec(v: real)
    ensures MoneyShape(FormatMoney(v))
    ensures IsCents(v) ==> ParseMoney(FormatMoney(v)) == Some(v)
  {
    if IsCents(v) {
      var c := (v * 100.0).Floor;
      assert v == c as real / 100.0;
      ParseFormatCents(c);
    }
  }

  /** Every rendered total keeps its rate and has both totals in the
      Brazilian money shape, read back exactly by the money repair when they
      are whole numbers of cents. */
  lemma RenderSpec(ts: seq<Total>)
    ensures var ls := Render(ts);
      && |ls| == |ts|
      && (forall i :: 0 <= i < |ls| ==> ls[i].rate == ts[i].rate && MoneyShape(ls[i].base) && MoneyShape(ls[i].amount))
      && (forall i :: 0 <= i < |ls| && IsCents(ts[i].base) ==> ParseMoney(ls[i].base) == Some(ts[i].base))
      && (forall i :: 0 <= i < |ls| && IsCents(ts[i].amount) ==> ParseMoney(ls[i].amount) == Some(ts[i].amount))
  {
    var ls := Render(ts);
    forall i | 0 <= i < |ts|
      ensures ls[i].rate == ts[i].rate && MoneyShape(ls[i].base) && MoneyShape(ls[i].amount)
      ensures IsCents(ts[i].base) ==> ParseMoney(ls[i].base) == Some(ts[i].base)
      ensures IsCents(ts[i].amount) ==> ParseMoney(ls[i].amount) == Some(ts[i].amount)
    {
      FormatSpec(ts[i].base);
      FormatSpec(ts[i].amount);
    }
  }

  // --------------------------------------------------------------- pipeline

  /** The totals of the bucket of kept rows whose code starts with `c`. */
  function Bucket(kept: seq<Entry>, c: char): seq<Total>
  {
    GroupSums(Repair(Select(kept, c)))
  }

  lemma KeptHaveRates(es: seq<Entry>)
    ensures forall e :: e in Kept(es) ==> e.rate.Rate? && e.rate.value in RATES
  {
    assert forall e :: e in Kept(es) ==> e in ByRate(es);
  }

  /** `carregar_arquivo` from the parsed file to what it reports. It stops
      at the column check exactly when a required column is absent, naming
      exactly the absent ones. A result shows at least one line. */
  function Pipeline(header: seq<string>, rows: seq<seq<string>>): (out: Outcome)
    ensures out.MissingColumns? <==> exists n :: n in REQUIRED && n !in header
    ensures out.MissingColumns? ==> forall n :: n in out.names <==> n in REQUIRED && n !in header
    ensures out.Ok? ==> out.interstate != [] || out.intrastate != []
  {
    MissingExactly(header);
    var missing := Missing(header);
    if missing != [] then MissingColumns(missing) else Convert(NormalizeAll(header, rows))
  }

  /** A result lists, in each bucket, one line per rate, ascending, each
      rate a listed one, each amount in Brazilian money notation. */
  lemma PipelineOk(header: seq<string>, rows: seq<seq<string>>)
    requires Pipeline(header, rows).Ok?
    ensures WellFormed(Pipeline(header, rows).interstate)
    ensures WellFormed(Pipeline(header, rows).intrastate)
  {
    var es := NormalizeAll(header, rows);
    KeptHaveRates(es);
    assert Pipeline(header, rows) == Whitelisted(Kept(es));
    WhitelistedOk(Kept(es));
  }

  /** From the normalised rows: the rate conversion either raises or the
      whitelists apply. */
  function Convert(es: seq<Entry>): Outcome {
    if AnyMalformed(es) then RateParseError else Whitelisted(Kept(es))
  }

  /** From the rows that pass the whitelists. */
  function Whitelisted(kept: seq<Entry>): Outcome
  {
    if kept == [] then EmptyAfterFilter else Aggregate(Bucket(kept, INTERSTATE), Bucket(kept, INTRASTATE))
  }

  /** From the two buckets' totals. */
  function Aggregate(inter: seq<Total>, intra: seq<Total>): Outcome {
    if inter == [] && intra == [] then EmptyAfterAggregation else Ok(Render(inter), Render(intra))
  }

  /** The run stops at the column check exactly when a required column is
      absent; it then reports the missing names, whatever the rows hold. */
  lemma MissingStops(header: seq<string>, rows: seq<seq<string>>, others: seq<seq<string>>)
    ensures Pipeline(header, rows).MissingColumns? <==> exists n :: n in REQUIRED && n !in header
    ensures Pipeline(header, rows).MissingColumns? ==>
      Pipeline(header, rows) == Pipeline(header, others) == MissingColumns(Missing(header))
  {
    MissingExactly(header);
  }

  /** With every column present, the run fails on the rates exactly when
      some row's rate text does not convert: one bad rate is enough, and it
      is never silently dropped. */
  lemma RateErrorExactly(header: seq<string>, rows: seq<seq<string>>)
    requires Missing(header) == []
    ensures Pipeline(header, rows) == RateParseError <==>
      exists k :: 0 <= k < |rows| && ParseRate(Cell(header, rows[k], RATE_COL)).Malformed?
  {
    var es := NormalizeAll(header, rows);
    forall k | 0 <= k < |rows| ensures es[k].rate == ParseRate(Cell(header, rows[k], RATE_COL)) {
      NormalizedAt(header, rows, k);
    }
  }

  /** A rate cell written in the money convention aborts the whole run. */
  lemma MoneyStyleRateAborts(header: seq<string>, rows: seq<seq<string>>, k: nat)
    requires Missing(header) == [] && k < |rows|
    requires Cell(header, rows[k], RATE_COL) == "1.234,56"
    ensures Pipeline(header, rows) == RateParseError
  {
    MoneyTextIsNoRate();
    RateErrorExactly(header, rows);
  }

  predicate Wanted(e: Entry) {
    RateWanted(e) && CstWanted(e)
  }

  /** Nothing passes the whitelists exactly when no row has both a listed
      rate and a listed code. */
  lemma KeptEmpty(es: seq<Entry>)
    ensures Kept(es) == [] <==> forall e :: e in es ==> !Wanted(e)
  {
    var kept := Kept(es);
    if kept != [] {
      assert kept[0] in kept;
    }
  }

  /** Past the rate conversion, nothing is left exactly when no normalised
      row has both a listed rate and a listed code. */
  lemma FilterEmptyExactly(header: seq<string>, rows: seq<seq<string>>)
    requires Missing(header) == [] && !AnyMalformed(NormalizeAll(header, rows))
    ensures Pipeline(header, rows) == EmptyAfterFilter <==>
      forall e :: e in NormalizeAll(header, rows) ==> !Wanted(e)
  {
    var es := NormalizeAll(header, rows);
    assert Pipeline(header, rows) == Convert(es);
    KeptHaveRates(es);
    assert Convert(es) == Whitelisted(Kept(es));
    WhitelistedEmpty(Kept(es));
    KeptEmpty(es);
  }

  lemma WhitelistedEmpty(kept: seq<Entry>)
    ensures Whitelisted(kept) == EmptyAfterFilter <==> kept == []
  {
  }

  /** Past the whitelists the run cannot fail any more: a row whose money
      does not parse only leaves its bucket, and the outcome is empty
      exactly when both buckets are left without rows. */
  lemma AggregationEmptyExactly(kept: seq<Entry>)
    requires kept != []
    ensures Whitelisted(kept) == EmptyAfterAggregation <==>
      Repair(Select(kept, INTERSTATE)) == [] && Repair(Select(kept, INTRASTATE)) == []
    ensures Whitelisted(kept).Ok? || Whitelisted(kept) == EmptyAfterAggregation
  {
    GroupSumsSpec(Repair(Select(kept, INTERSTATE)));
    GroupSumsSpec(Repair(Select(kept, INTRASTATE)));
  }

  /** Repair keeps the rates of its rows. */
  lemma {:induction false} RepairKeepsRates(es: seq<Entry>)
    requires forall e :: e in es ==> e.rate.Rate? && e.rate.value in RATES
    ensures forall x :: x in Repair(es) ==> x.rate in RATES
  {
    if es != [] {
      var init, e := es[..|es| - 1], es[|es| - 1];
      assert es == init + [e];
      assert forall d :: d in init ==> d in es;
      RepairKeepsRates(init);
    }
  }

  /** Totals only arise at rates of the items. */
  lemma GroupRates(items: seq<Item>)
    requires forall x :: x in items ==> x.rate in RATES
    ensures forall i :: 0 <= i < |GroupSums(items)| ==> GroupSums(items)[i].rate in RATES
  {
    KeysSpec(items);
    var ks := Keys(items);
    forall i | 0 <= i < |ks| ensures ks[i] in RATES {
      assert ks[i] in ks;
      assert ks[i] in Rates(items);
      var x :| x in items && x.rate == ks[i];
    }
  }

  lemma ListedAscending(items: seq<Item>)
    requires forall x :: x in items ==> x.rate in RATES
    ensures var g := GroupSums(items);
      && (forall i :: 0 <= i < |g| ==> g[i].rate in RATES)
      && (forall i, j :: 0 <= i < j < |g| ==> g[i].rate < g[j].rate)
  {
    GroupRates(items);
    KeysSpec(items);
  }

  /** Every total of a bucket of kept rows is at a listed rate, ascending. */
  lemma BucketTotals(kept: seq<Entry>, c: char)
    requires forall e :: e in kept ==> e.rate.Rate? && e.rate.value in RATES
    ensures var g := Bucket(kept, c);
      && (forall i :: 0 <= i < |g| ==> g[i].rate in RATES)
      && (forall i, j :: 0 <= i < j < |g| ==> g[i].rate < g[j].rate)
  {
    var b := Select(kept, c);
    assert forall e :: e in b ==> e.rate.Rate? && e.rate.value in RATES;
    RepairKeepsRates(b);
    ListedAscending(Repair(b));
  }

  /** Lines ascending by rate, at listed rates, in money notation. */
  predicate WellFormed(ls: seq<Line>) {
    && (forall i :: 0 <= i < |ls| ==> ls[i].rate in RATES && MoneyShape(ls[i].base) && MoneyShape(ls[i].amount))
    && (forall i, j :: 0 <= i < j < |ls| ==> ls[i].rate < ls[j].rate)
  }

  /** The rendered lines of ascending totals at listed rates. */
  lemma LinesSpec(ts: seq<Total>)
    requires forall i :: 0 <= i < |ts| ==> ts[i].rate in RATES
    requires forall i, j :: 0 <= i < j < |ts| ==> ts[i].rate < ts[j].rate
    ensures WellFormed(Render(ts))
  {
    RenderSpec(ts);
  }

  lemma WhitelistedOk(kept: seq<Entry>)
    requires forall e :: e in kept ==> e.rate.Rate? && e.rate.value in RATES
    requires Whitelisted(kept).Ok?
    ensures var out := Whitelisted(kept);
      (out.interstate != [] || out.intrastate != []) && WellFormed(out.interstate) && WellFormed(out.intrastate)
  {
    var inter, intra := Bucket(kept, INTERSTATE), Bucket(kept, INTRASTATE);
    assert Whitelisted(kept) == Ok(Render(inter), Render(intra));
    BucketTotals(kept, INTERSTATE);
    BucketTotals(kept, INTRASTATE);
    LinesSpec(inter);
    LinesSpec(intra);
  }
}
