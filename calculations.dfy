/** The `Calculations` object: it keeps the full record of every collar it
    has priced, one map per collar kind, across calls. Each pricing method
    walks the expirations of a snapshot, rebuilds the price table of each
    one, fills two fresh result dictionaries and writes every record into
    its own map, stopping at the first exception with what it had written
    so far (borrow_check.py:122-308). */
module Engine {
  import opened Results
  import opened OrderedDict
  import opened Pricing
  import opened Chain
  import opened Combinations
  import opened Accumulate
  import opened Symmetric
  import opened Asymmetric

  class Calculations {
    /** Full records of the symmetric collars priced so far, by OCC symbol. */
    var overallSymmetric: map<string, CollarRecord>
    /** Full records of the asymmetric collars priced so far, by strike pair. */
    var overallAsymmetric: map<Tag, CollarRecord>

    constructor ()
      ensures overallSymmetric == map[] && overallAsymmetric == map[]
    {
      overallSymmetric := map[];
      overallAsymmetric := map[];
    }

    /** `calculate_symmetric_collar`: the result dictionaries of the run, or
        the exception it raised; either way the symmetric map holds what the
        run wrote, and the asymmetric map is untouched. */
    method CalculateSymmetricCollar(s: Snapshot, util: real, borrowRate: real)
      returns (result: Result<Trades<string>, Error>)
      modifies this
      ensures var run := SymmetricRun(old(overallSymmetric), s, util, borrowRate);
              overallSymmetric == run.records && result == Outcome(run)
      ensures overallAsymmetric == old(overallAsymmetric)
    {
      ghost var records := overallSymmetric;
      var byRisk: Dict<string, int> := Empty();
      var byProfit: Dict<string, real> := Empty();
      var i := 0;
      assert s.expirations[..0] == [];
      while i < |s.expirations|
        invariant 0 <= i <= |s.expirations|
        invariant overallAsymmetric == old(overallAsymmetric)
        invariant SymmetricDone(records, s, util, borrowRate, i) == Acc(overallSymmetric, byRisk, byProfit, None)
      {
        var failure;
        failure, byRisk, byProfit := PriceSymmetricRows(s, util, borrowRate, i, records, byRisk, byProfit);
        if failure.Some? {
          return Failure(failure.value);
        }
        i := i + 1;
      }
      assert s.expirations[..i] == s.expirations;
      result := Success(Trades(byRisk, byProfit));
    }

    /** Both passes of `calculate_symmetric_collar` over expiration i: build
        its price table, then price every non-put row against it. */
    method PriceSymmetricRows(s: Snapshot, util: real, borrowRate: real, i: int,
                              ghost records: map<string, CollarRecord>,
                              byRisk0: Dict<string, int>, byProfit0: Dict<string, real>)
      returns (failure: Option<Error>, byRisk: Dict<string, int>, byProfit: Dict<string, real>)
      requires 0 <= i < |s.expirations|
      requires SymmetricDone(records, s, util, borrowRate, i) == Acc(overallSymmetric, byRisk0, byProfit0, None)
      modifies this
      ensures overallAsymmetric == old(overallAsymmetric)
      ensures failure.None? ==> SymmetricDone(records, s, util, borrowRate, i + 1) == Acc(overallSymmetric, byRisk, byProfit, None)
      ensures failure.Some? ==> SymmetricRun(records, s, util, borrowRate) == Acc(overallSymmetric, byRisk, byProfit, failure)
    {
      var t := BuildPriceTable(s.expirations[i].rows);
      SymmetricPartialStart(records, s, util, borrowRate, i);
      failure, byRisk, byProfit := PriceNonPutRows(s, util, borrowRate, i, records, t, byRisk0, byProfit0);
      if failure.None? {
        SymmetricPartialEnd(records, s, util, borrowRate, i);
      }
    }

    /** The second pass over expiration i, against its price table `t`. */
    method PriceNonPutRows(s: Snapshot, util: real, borrowRate: real, i: int,
                           ghost records: map<string, CollarRecord>, t: PriceTable,
                           byRisk0: Dict<string, int>, byProfit0: Dict<string, real>)
      returns (failure: Option<Error>, byRisk: Dict<string, int>, byProfit: Dict<string, real>)
      requires 0 <= i < |s.expirations|
      requires t == Prices(s.expirations[i].rows)
      requires SymmetricPartial(records, s, util, borrowRate, i, 0) == Acc(overallSymmetric, byRisk0, byProfit0, None)
      modifies this
      ensures overallAsymmetric == old(overallAsymmetric)
      ensures failure.None? ==> SymmetricPartial(records, s, util, borrowRate, i, |s.expirations[i].rows|)
                                == Acc(overallSymmetric, byRisk, byProfit, None)
      ensures failure.Some? ==> SymmetricRun(records, s, util, borrowRate) == Acc(overallSymmetric, byRisk, byProfit, failure)
    {
      var rows := s.expirations[i].rows;
      byRisk, byProfit := byRisk0, byProfit0;
      var j := 0;
      while j < |rows|
        invariant 0 <= j <= |rows|
        invariant overallAsymmetric == old(overallAsymmetric)
        invariant SymmetricPartial(records, s, util, borrowRate, i, j) == Acc(overallSymmetric, byRisk, byProfit, None)
      {
        failure, byRisk, byProfit := PriceSymmetricRow(s, util, borrowRate, i, j, records, t, byRisk, byProfit);
        if failure.Some? {
          return;
        }
        j := j + 1;
      }
      failure := None;
    }

    /** Row j of expiration i in the second pass: a put is skipped; any other
        row is priced and stored under its OCC symbol, or raises. */
    method PriceSymmetricRow(s: Snapshot, util: real, borrowRate: real, i: int, j: int,
                             ghost records: map<string, CollarRecord>, t: PriceTable,
                             byRisk0: Dict<string, int>, byProfit0: Dict<string, real>)
      returns (failure: Option<Error>, byRisk: Dict<string, int>, byProfit: Dict<string, real>)
      requires 0 <= i < |s.expirations| && 0 <= j < |s.expirations[i].rows|
      requires t == Prices(s.expirations[i].rows)
      requires SymmetricPartial(records, s, util, borrowRate, i, j) == Acc(overallSymmetric, byRisk0, byProfit0, None)
      modifies this
      ensures overallAsymmetric == old(overallAsymmetric)
      ensures failure.None? ==> SymmetricPartial(records, s, util, borrowRate, i, j + 1) == Acc(overallSymmetric, byRisk, byProfit, None)
      ensures failure.Some? ==> SymmetricRun(records, s, util, borrowRate) == Acc(overallSymmetric, byRisk, byProfit, failure)
    {
      var e := s.expirations[i];
      var row := e.rows[j];
      byRisk, byProfit := byRisk0, byProfit0;
      SymmetricPartialStep(records, s, util, borrowRate, i, j);
      if row.optionType != Put {
        var c := PriceRow(Market(s.stockAsk, util, borrowRate), t, e, row);
        if c.Failure? {
          SymmetricPartialStops(records, s, util, borrowRate, i, j + 1);
          return Some(c.error), byRisk, byProfit;
        }
        var key := c.value.0;
        var rec := c.value.1;
        byRisk := SetItem(byRisk, key, rec.daysToProfit);
        byProfit := SetItem(byProfit, key, rec.estimatedPayout);
        overallSymmetric := overallSymmetric[key := rec];
      }
      failure := None;
    }

    /** One non-put row priced against the table `t` of its expiration; a
        separate method only to keep the loop body's proof small. */
    static method PriceRow(m: Market, t: PriceTable, e: Expiration, row: OptionRow)
      returns (c: Candidate<string>)
      requires t == Prices(e.rows) && row.optionType != Put
      ensures c == SymmetricCandidate(m, Prices(e.rows), e, row)
    {
      c := SymmetricCandidate(m, t, e, row);
    }

    /** `calculate_asymmetric_collar`: the result dictionaries of the run,
        or the exception it raised; either way the asymmetric map holds what
        the run wrote, and the symmetric map is untouched. */
    method CalculateAsymmetricCollar(s: Snapshot, util: real, borrowRate: real)
      returns (result: Result<Trades<Tag>, Error>)
      modifies this
      ensures var run := AsymmetricRun(old(overallAsymmetric), s, util, borrowRate);
              overallAsymmetric == run.records && result == Outcome(run)
      ensures overallSymmetric == old(overallSymmetric)
    {
      ghost var records := overallAsymmetric;
      var byRisk: Dict<Tag, int> := Empty();
      var byProfit: Dict<Tag, real> := Empty();
      var i := 0;
      AsymmetricDoneStart(records, s, util, borrowRate);
      while i < |s.expirations|
        invariant 0 <= i <= |s.expirations|
        invariant overallSymmetric == old(overallSymmetric)
        invariant AsymmetricDone(records, s, util, borrowRate, i) == Acc(overallAsymmetric, byRisk, byProfit, None)
      {
        var t := BuildPriceTable(s.expirations[i].rows);
        var combos := CollarCombinations(t, s.stockAsk);
        if combos.Failure? {
          AsymmetricCombinationsFail(records, s, util, borrowRate, i);
          return Failure(combos.error);
        }
        var failure;
        failure, byRisk, byProfit := PriceAsymmetricCombinations(s, util, borrowRate, i, combos.value,
                                                                  records, byRisk, byProfit);
        if failure.Some? {
          return Failure(failure.value);
        }
        i := i + 1;
      }
      AsymmetricDoneEnd(records, s, util, borrowRate);
      result := Success(Trades(byRisk, byProfit));
    }

    /** The third pass of `calculate_asymmetric_collar` over expiration i,
        whose combinations dictionary is `d`. */
    method PriceAsymmetricCombinations(s: Snapshot, util: real, borrowRate: real, i: int, d: Dict<Tag, real>,
                                       ghost records: map<Tag, CollarRecord>,
                                       byRisk0: Dict<Tag, int>, byProfit0: Dict<Tag, real>)
      returns (failure: Option<Error>, byRisk: Dict<Tag, int>, byProfit: Dict<Tag, real>)
      requires 0 <= i < |s.expirations|
      requires OtmCombinations(Prices(s.expirations[i].rows), s.stockAsk) == Success(d)
      requires AsymmetricDone(records, s, util, borrowRate, i) == Acc(overallAsymmetric, byRisk0, byProfit0, None)
      modifies this
      ensures overallSymmetric == old(overallSymmetric)
      ensures failure.None? ==> AsymmetricDone(records, s, util, borrowRate, i + 1) == Acc(overallAsymmetric, byRisk, byProfit, None)
      ensures failure.Some? ==> AsymmetricRun(records, s, util, borrowRate) == Acc(overallAsymmetric, byRisk, byProfit, failure)
    {
      var m := Market(s.stockAsk, util, borrowRate);
      var e := s.expirations[i];
      byRisk, byProfit := byRisk0, byProfit0;
      AsymmetricPartialStart(records, s, util, borrowRate, i);
      var k := 0;
      while k < |d.keys|
        invariant 0 <= k <= |d.keys|
        invariant overallSymmetric == old(overallSymmetric)
        invariant AsymmetricPartial(records, s, util, borrowRate, i, k) == Acc(overallAsymmetric, byRisk, byProfit, None)
      {
        var tag := d.keys[k];
        var net := d.entries[tag];
        var evaluated := Evaluate(m, net, e.daysRemaining, Otm, Combination(tag.call, tag.put), e.date);
        AsymmetricPartialStep(records, s, util, borrowRate, i, k);
        if evaluated.Failure? {
          AsymmetricPartialStops(records, s, util, borrowRate, i, k + 1);
          return Some(evaluated.error), byRisk, byProfit;
        }
        var rec := evaluated.value;
        byRisk := SetItem(byRisk, tag, rec.daysToProfit);
        byProfit := SetItem(byProfit, tag, rec.estimatedPayout);
        overallAsymmetric := overallAsymmetric[tag := rec];
        k := k + 1;
      }
      AsymmetricPartialEnd(records, s, util, borrowRate, i);
      failure := None;
    }
  }
}
