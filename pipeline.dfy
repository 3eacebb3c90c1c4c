/** The processing of `carregar_arquivo` written the way the program runs
    it: one pass over the rows per stage, the two buckets built up row by
    row, and the per-rate sums kept in a map beside the ascending list of the
    rates seen so far. Each method is proved to compute the corresponding
    function of `Ledger`, so everything proved there holds of the run. */
module LedgerRun {
  import opened Wrappers
  import opened Text
  import opened Locale
  import opened Ledger

  /** Lines 21-22: the required columns the header lacks, in order. */
  method MissingColumnsOf(header: seq<string>) returns (missing: seq<string>)
    ensures missing == Missing(header)
  {
    missing := [];
    var i := 0;
    while i < |REQUIRED|
      invariant 0 <= i <= |REQUIRED|
      invariant missing == Absent(REQUIRED[..i], header)
    {
      assert REQUIRED[..i + 1][..i] == REQUIRED[..i];
      if REQUIRED[i] !in header {
        missing := missing + [REQUIRED[i]];
      }
      i := i + 1;
    }
    assert REQUIRED[..|REQUIRED|] == REQUIRED;
  }

  /** Lines 28 and 34 over all rows; `failed` is the exception that
      `astype(float)` raises on the first rate that does not convert. */
  method NormalizeRows(header: seq<string>, rows: seq<seq<string>>) returns (es: seq<Entry>, failed: bool)
    ensures failed == AnyMalformed(NormalizeAll(header, rows))
    ensures !failed ==> es == NormalizeAll(header, rows)
  {
    es := [];
    var i := 0;
    while i < |rows|
      invariant 0 <= i <= |rows|
      invariant es == NormalizeAll(header, rows[..i])
      invariant !AnyMalformed(es)
    {
      var e := Normalize(header, rows[i]);
      NormalizeSnoc(header, rows, i);
      if e.rate.Malformed? {
        MalformedAt(header, rows, i);
        return es, true;
      }
      WellFormedSnoc(es, e);
      es := es + [e];
      i := i + 1;
    }
    assert rows[..|rows|] == rows;
    failed := false;
  }

  lemma NormalizeSnoc(header: seq<string>, rows: seq<seq<string>>, i: nat)
    requires i < |rows|
    ensures NormalizeAll(header, rows[..i + 1]) == NormalizeAll(header, rows[..i]) + [Normalize(header, rows[i])]
  {
    assert rows[..i + 1][..i] == rows[..i];
  }

  lemma MalformedAt(header: seq<string>, rows: seq<seq<string>>, i: nat)
    requires i < |rows| && Normalize(header, rows[i]).rate.Malformed?
    ensures AnyMalformed(NormalizeAll(header, rows))
  {
    NormalizedAt(header, rows, i);
  }

  lemma WellFormedSnoc(es: seq<Entry>, e: Entry)
    requires !AnyMalformed(es) && !e.rate.Malformed?
    ensures !AnyMalformed(es + [e])
  {
    forall k | 0 <= k < |es| + 1 ensures !(es + [e])[k].rate.Malformed? {
      if k < |es| { assert (es + [e])[k] == es[k]; }
    }
  }

  lemma KeptSnoc(es: seq<Entry>, e: Entry)
    ensures Kept(es + [e]) == Kept(es) + (if RateWanted(e) && CstWanted(e) then [e] else [])
  {
    assert (es + [e])[..|es|] == es;
    var r := ByRate(es);
    if RateWanted(e) {
      assert (r + [e])[..|r|] == r;
    } else {
      assert r + [] == r;
    }
  }

  /** One more row of `es` either joins the kept rows or changes nothing. */
  lemma KeptStep(es: seq<Entry>, i: nat, keep: bool)
    requires i < |es| && keep == (RateWanted(es[i]) && CstWanted(es[i]))
    ensures Kept(es[..i + 1]) == Kept(es[..i]) + (if keep then [es[i]] else [])
  {
    assert es[..i + 1] == es[..i] + [es[i]];
    KeptSnoc(es[..i], es[i]);
  }

  lemma SelectSnoc(es: seq<Entry>, e: Entry, c: char)
    ensures Select(es + [e], c) == Select(es, c) + (if StartsWith(e.cfop, c) then [e] else [])
  {
    assert (es + [e])[..|es|] == es;
  }

  /** Lines 37-44: the rows with a listed rate and a listed code. */
  method FilterRows(es: seq<Entry>) returns (kept: seq<Entry>)
    ensures kept == Kept(es)
  {
    kept := [];
    var i := 0;
    while i < |es|
      invariant 0 <= i <= |es|
      invariant kept == Kept(es[..i])
    {
      var e := es[i];
      var keep := e.rate.Rate? && e.rate.value in RATES && Strip(e.cst) in CSTS;
      KeptStep(es, i, keep);
      if keep {
        kept := kept + [e];
      }
      i := i + 1;
    }
    assert es[..|es|] == es;
  }

  /** Lines 52-54 in one pass: a row whose code starts with `6` joins the
      interstate bucket, one that starts with `5` the intrastate bucket, any
      other row neither. */
  method SplitRows(kept: seq<Entry>) returns (inter: seq<Entry>, intra: seq<Entry>)
    ensures inter == Select(kept, INTERSTATE)
    ensures intra == Select(kept, INTRASTATE)
  {
    inter, intra := [], [];
    var i := 0;
    while i < |kept|
      invariant 0 <= i <= |kept|
      invariant inter == Select(kept[..i], INTERSTATE)
      invariant intra == Select(kept[..i], INTRASTATE)
    {
      var e := kept[i];
      assert kept[..i + 1] == kept[..i] + [e];
      SelectSnoc(kept[..i], e, INTERSTATE);
      SelectSnoc(kept[..i], e, INTRASTATE);
      if StartsWith(e.cfop, INTERSTATE) {
        inter := inter + [e];
        assert intra + [] == intra;
      } else if StartsWith(e.cfop, INTRASTATE) {
        intra := intra + [e];
        assert inter + [] == inter;
      } else {
        assert inter + [] == inter && intra + [] == intra;
      }
      i := i + 1;
    }
    assert kept[..|kept|] == kept;
  }

  lemma TakeOneMore<T>(s: seq<T>, i: nat)
    requires i < |s|
    ensures s[..i + 1] == s[..i] + [s[i]]
  {
  }

  /** One more row of a bucket adds its item when its money parses. */
  lemma RepairSnoc(es: seq<Entry>, x: Entry, b: Option<real>, a: Option<real>)
    requires x.rate.Rate? && b == ParseMoney(x.base) && a == ParseMoney(x.amount)
    ensures Repair(es + [x]) == Repair(es) + (if b.Some? && a.Some? then [Item(x.rate.value, b.value, a.value)] else [])
  {
    assert (es + [x])[..|es|] == es;
  }

  /** The repaired prefix grows by the item of row `i`, if any. */
  lemma RepairNext(bucket: seq<Entry>, i: nat, items: seq<Item>, b: Option<real>, a: Option<real>)
    requires i < |bucket| && bucket[i].rate.Rate? && items == Repair(bucket[..i])
    requires b == ParseMoney(bucket[i].base) && a == ParseMoney(bucket[i].amount)
    ensures Repair(bucket[..i + 1])
      == if b.Some? && a.Some? then items + [Item(bucket[i].rate.value, b.value, a.value)] else items
  {
    TakeOneMore(bucket, i);
    RepairSnoc(bucket[..i], bucket[i], b, a);
    assert items + [] == items;
  }

  /** Lines 57-61 (and 64-68) on one bucket. */
  method RepairBucket(bucket: seq<Entry>) returns (items: seq<Item>)
    requires forall e :: e in bucket ==> e.rate.Rate?
    ensures items == Repair(bucket)
  {
    items := [];
    var i := 0;
    while i < |bucket|
      invariant 0 <= i <= |bucket|
      invariant items == Repair(bucket[..i])
    {
      var e := bucket[i];
      assert e in bucket;
      var b, a := ParseMoney(e.base), ParseMoney(e.amount);
      RepairNext(bucket, i, items, b, a);
      if b.Some? && a.Some? {
        items := items + [Item(e.rate.value, b.value, a.value)];
      }
      i := i + 1;
    }
    assert bucket[..|bucket|] == bucket;
  }

  lemma InsertPresent(ks: seq<real>, k: real)
    requires Increasing(ks) && k in ks
    ensures InsertSorted(ks, k) == ks
  {
    if ks[0] != k {
      assert k in ks[1..];
      InsertPresent(ks[1..], k);
      assert [ks[0]] + ks[1..] == ks;
    }
  }

  lemma SumSnoc(items: seq<Item>, x: Item, k: real, f: Field)
    ensures Sum(items + [x], k, f) == Sum(items, k, f) + (if x.rate == k then FieldOf(x, f) else 0.0)
  {
    assert (items + [x])[..|items|] == items;
  }

  /** `rates` are the ascending rates of `items` and `sums` maps each of
      them to its running totals. */
  ghost predicate Tracks(items: seq<Item>, rates: seq<real>, sums: map<real, Total>) {
    && rates == Keys(items)
    && (forall k :: k in sums <==> k in rates)
    && (forall k :: k in rates ==> sums[k] == Total(k, Sum(items, k, Base), Sum(items, k, Amount)))
  }

  lemma TrackedKey(items: seq<Item>, rates: seq<real>, sums: map<real, Total>, j: nat)
    requires Tracks(items, rates, sums) && j < |rates|
    ensures rates[j] in sums
    ensures sums[rates[j]] == Total(rates[j], Sum(items, rates[j], Base), Sum(items, rates[j], Amount))
  {
    var k := rates[j];
    assert k in rates;
    assert k in sums;
  }

  /** An item at a rate already seen adds to that rate's totals. */
  lemma TrackSeen(items: seq<Item>, x: Item, rates: seq<real>, sums: map<real, Total>)
    requires Tracks(items, rates, sums) && x.rate in sums
    ensures var t := sums[x.rate];
      Tracks(items + [x], rates, sums[x.rate := Total(x.rate, t.base + x.base, t.amount + x.amount)])
  {
    KeysSpec(items);
    InsertPresent(rates, x.rate);
    assert (items + [x])[..|items|] == items;
    forall k ensures Sum(items + [x], k, Base) == Sum(items, k, Base) + (if x.rate == k then x.base else 0.0)
      ensures Sum(items + [x], k, Amount) == Sum(items, k, Amount) + (if x.rate == k then x.amount else 0.0)
    {
      SumSnoc(items, x, k, Base);
      SumSnoc(items, x, k, Amount);
    }
  }

  /** An item at a new rate inserts the rate and starts its totals. */
  lemma TrackNew(items: seq<Item>, x: Item, rates: seq<real>, sums: map<real, Total>)
    requires Tracks(items, rates, sums) && x.rate !in sums
    ensures Tracks(items + [x], InsertSorted(rates, x.rate), sums[x.rate := Total(x.rate, x.base, x.amount)])
  {
    KeysSpec(items);
    assert (items + [x])[..|items|] == items;
    SumAbsent(items, x.rate, Base);
    SumAbsent(items, x.rate, Amount);
    forall k ensures Sum(items + [x], k, Base) == Sum(items, k, Base) + (if x.rate == k then x.base else 0.0)
      ensures Sum(items + [x], k, Amount) == Sum(items, k, Amount) + (if x.rate == k then x.amount else 0.0)
    {
      SumSnoc(items, x, k, Base);
      SumSnoc(items, x, k, Amount);
    }
  }

  /** Lines 7-11: `rates` holds the ascending rates seen so far and `sums`
      the running totals of each; the totals are then emitted in rate
      order. */
  method SumByRate(items: seq<Item>) returns (totals: seq<Total>)
    ensures totals == GroupSums(items)
  {
    var rates: seq<real> := [];
    var sums: map<real, Total> := map[];
    var i := 0;
    while i < |items|
      invariant 0 <= i <= |items|
      invariant Tracks(items[..i], rates, sums)
    {
      var x := items[i];
      assert items[..i + 1] == items[..i] + [x];
      if x.rate in sums {
        TrackSeen(items[..i], x, rates, sums);
        var t := sums[x.rate];
        sums := sums[x.rate := Total(x.rate, t.base + x.base, t.amount + x.amount)];
      } else {
        TrackNew(items[..i], x, rates, sums);
        rates := InsertSorted(rates, x.rate);
        sums := sums[x.rate := Total(x.rate, x.base, x.amount)];
      }
      i := i + 1;
    }
    assert items[..|items|] == items;
    assert Tracks(items, rates, sums);
    totals := [];
    var j := 0;
    while j < |rates|
      invariant 0 <= j <= |rates|
      invariant Tracks(items, rates, sums)
      invariant |totals| == j
      invariant forall m :: 0 <= m < j ==> totals[m] == Total(rates[m], Sum(items, rates[m], Base), Sum(items, rates[m], Amount))
    {
      TrackedKey(items, rates, sums, j);
      totals := totals + [sums[rates[j]]];
      j := j + 1;
    }
    assert totals == Totals(items, rates);
  }

  /** Lines 80-83: both totals of every row in Brazilian notation. */
  method RenderTotals(ts: seq<Total>) returns (lines: seq<Line>)
    ensures lines == Render(ts)
  {
    lines := [];
    var i := 0;
    while i < |ts|
      invariant 0 <= i <= |ts|
      invariant lines == Render(ts[..i])
    {
      var line := Line(ts[i].rate, FormatMoney(ts[i].base), FormatMoney(ts[i].amount));
      RenderNext(ts, i, lines, line);
      lines := lines + [line];
      i := i + 1;
    }
    assert ts[..|ts|] == ts;
  }

  lemma RenderNext(ts: seq<Total>, i: nat, lines: seq<Line>, line: Line)
    requires i < |ts| && lines == Render(ts[..i])
    requires line == Line(ts[i].rate, FormatMoney(ts[i].base), FormatMoney(ts[i].amount))
    ensures Render(ts[..i + 1]) == lines + [line]
  {
    var a, b := Render(ts[..i + 1]), lines + [line];
    forall k | 0 <= k < |a| ensures a[k] == b[k] {
      assert ts[..i + 1][k] == ts[k];
      if k < i { assert ts[..i][k] == ts[k]; }
    }
  }

  /** Lines 18-83 after the file is read: the stages in order, each early
      exit of the program an early return here. */
  method Process(header: seq<string>, rows: seq<seq<string>>) returns (out: Outcome)
    ensures out == Pipeline(header, rows)
  {
    var missing := MissingColumnsOf(header);
    if missing != [] {
      return MissingColumns(missing);
    }
    var es, failed := NormalizeRows(header, rows);
    if failed {
      return RateParseError;
    }
    assert Pipeline(header, rows) == Convert(es);
    var kept := FilterRows(es);
    KeptHaveRates(es);
    assert Convert(es) == Whitelisted(kept);
    if kept == [] {
      return EmptyAfterFilter;
    }
    var inter, intra := SplitRows(kept);
    assert forall e :: e in inter ==> e in kept;
    assert forall e :: e in intra ==> e in kept;
    var interItems := RepairBucket(inter);
    var intraItems := RepairBucket(intra);
    var interTotals := SumByRate(interItems);
    var intraTotals := SumByRate(intraItems);
    assert Whitelisted(kept) == Aggregate(interTotals, intraTotals);
    if interTotals == [] && intraTotals == [] {
      return EmptyAfterAggregation;
    }
    var interLines := RenderTotals(interTotals);
    var intraLines := RenderTotals(intraTotals);
    out := Ok(interLines, intraLines);
  }
}
