/** The end of a run of the command: price the collars, rank the two result
    dictionaries of each pricing method and pick the overall records of the
    top five of each ranking (borrow_check.py:331-357, 365-391). The tables
    are printed; printing, styling and the header row are not modelled. */
module Report {
  import opened Results
  import opened OrderedDict
  import opened Pricing
  import opened Chain
  import opened Combinations
  import opened Accumulate
  import opened Symmetric
  import opened Asymmetric
  import opened Ranking
  import opened Engine

  /** The four tables of one kind of collar: by risk and by profit. */
  datatype Tables = Tables(topRisk: seq<CollarRecord>, topProfit: seq<CollarRecord>)

  /** `sorted(trades_by_risk.items(), key=lambda t: t[1])` */
  function RiskRanking<K>(d: Dict<K, int>): (r: seq<(K, int)>)
    requires Valid(d)
    ensures |r| == |d.keys|
  {
    SortBy(Items(d), RiskKey, Ascending)
  }

  /** `sorted(trades_by_profit.items(), key=lambda t: t[1], reverse=True)` */
  function ProfitRanking<K>(d: Dict<K, real>): (r: seq<(K, real)>)
    requires Valid(d)
    ensures |r| == |d.keys|
  {
    SortBy(Items(d), ProfitKey, Descending)
  }

  /** `top` holds the overall records of the first five ranked keys. */
  ghost predicate Leads<K, V>(top: seq<CollarRecord>, ranked: seq<(K, V)>, records: map<K, CollarRecord>) {
    && |top| == Min(TopCount, |ranked|)
    && forall i :: 0 <= i < |top| ==> ranked[i].0 in records && top[i] == records[ranked[i].0]
  }

  /** Every ranked item is an item of the dictionary: its key is present and
      its value is the value stored under that key. */
  lemma SortedItems<K, V>(d: Dict<K, V>, key: ((K, V)) -> real, o: Order, i: int)
    requires Valid(d) && 0 <= i < |d.keys|
    ensures SortBy(Items(d), key, o)[i].0 in d.entries
    ensures SortBy(Items(d), key, o)[i].1 == d.entries[SortBy(Items(d), key, o)[i].0]
  {
    var items := Items(d);
    var x := SortBy(items, key, o)[i];
    SortPermutes(items, key, o);
    assert x in multiset(SortBy(items, key, o));
    assert x in multiset(items);
    var n :| 0 <= n < |items| && items[n] == x;
  }

  /** The risk ranking lists each key of the dictionary exactly once, with its
      value, in ascending order of days to profit and, for equal days, in
      insertion order; and it is the only list that does. */
  lemma RiskRankingSpec<K>(d: Dict<K, int>)
    requires Valid(d)
    ensures var r := RiskRanking(d);
            && Ordered(r, RiskKey, Ascending)
            && multiset(r) == multiset(Items(d))
            && (forall v :: WithKey(r, RiskKey, v) == WithKey(Items(d), RiskKey, v))
            && (forall i :: 0 <= i < |r| ==> r[i].0 in d.entries && r[i].1 == d.entries[r[i].0])
  {
    var r := RiskRanking(d);
    SortOrdered(Items(d), RiskKey, Ascending);
    SortPermutes(Items(d), RiskKey, Ascending);
    forall v ensures WithKey(r, RiskKey, v) == WithKey(Items(d), RiskKey, v) {
      SortStable(Items(d), RiskKey, Ascending, v);
    }
    forall i | 0 <= i < |r| ensures r[i].0 in d.entries && r[i].1 == d.entries[r[i].0] {
      SortedItems(d, RiskKey, Ascending, i);
    }
  }

  /** The profit ranking lists each key of the dictionary exactly once, with
      its value, from the largest estimated payout down and, for equal
      payouts, in insertion order. */
  lemma ProfitRankingSpec<K>(d: Dict<K, real>)
    requires Valid(d)
    ensures var r := ProfitRanking(d);
            && Ordered(r, ProfitKey, Descending)
            && multiset(r) == multiset(Items(d))
            && (forall v :: WithKey(r, ProfitKey, v) == WithKey(Items(d), ProfitKey, v))
            && (forall i :: 0 <= i < |r| ==> r[i].0 in d.entries && r[i].1 == d.entries[r[i].0])
  {
    var r := ProfitRanking(d);
    SortOrdered(Items(d), ProfitKey, Descending);
    SortPermutes(Items(d), ProfitKey, Descending);
    forall v ensures WithKey(r, ProfitKey, v) == WithKey(Items(d), ProfitKey, v) {
      SortStable(Items(d), ProfitKey, Descending, v);
    }
    forall i | 0 <= i < |r| ensures r[i].0 in d.entries && r[i].1 == d.entries[r[i].0] {
      SortedItems(d, ProfitKey, Descending, i);
    }
  }

  /** Ranks both dictionaries of one pricing call and picks the top five of
      each from the overall records. */
  method RankTrades<K>(trades: Trades<K>, records: map<K, CollarRecord>) returns (tables: Tables)
    requires Valid(trades.byRisk) && Valid(trades.byProfit)
    requires trades.byRisk.entries.Keys <= records.Keys && trades.byProfit.entries.Keys <= records.Keys
    ensures Leads(tables.topRisk, RiskRanking(trades.byRisk), records)
    ensures Leads(tables.topProfit, ProfitRanking(trades.byProfit), records)
  {
    var risk := RiskRanking(trades.byRisk);
    var profit := ProfitRanking(trades.byProfit);
    forall i | 0 <= i < |risk| ensures risk[i].0 in records {
      SortedItems(trades.byRisk, RiskKey, Ascending, i);
    }
    forall i | 0 <= i < |profit| ensures profit[i].0 in records {
      SortedItems(trades.byProfit, ProfitKey, Descending, i);
    }
    var topRisk := TopFive(risk, records);
    var topProfit := TopFive(profit, records);
    tables := Tables(topRisk, topProfit);
  }

  /** The symmetric half of the command: the exception of the pricing call
      propagates; otherwise the two top-five tables of its result. */
  method ReportSymmetric(engine: Calculations, s: Snapshot, util: real, borrowRate: real)
    returns (r: Result<Tables, Error>)
    modifies engine
    ensures var run := SymmetricRun(old(engine.overallSymmetric), s, util, borrowRate);
            && engine.overallSymmetric == run.records
            && engine.overallAsymmetric == old(engine.overallAsymmetric)
            && (r.Failure? <==> run.failure.Some?)
            && (r.Failure? ==> r.error == run.failure.value)
            && (r.Success? ==>
                  && Consistent(run)
                  && Leads(r.value.topRisk, RiskRanking(run.byRisk), run.records)
                  && Leads(r.value.topProfit, ProfitRanking(run.byProfit), run.records))
  {
    ghost var run := SymmetricRun(engine.overallSymmetric, s, util, borrowRate);
    SymmetricConsistent(engine.overallSymmetric, s, util, borrowRate);
    var result := engine.CalculateSymmetricCollar(s, util, borrowRate);
    if result.Failure? {
      return Failure(result.error);
    }
    var tables := RankTrades(result.value, engine.overallSymmetric);
    r := Success(tables);
  }

  /** The asymmetric half of the command, the same way. */
  method ReportAsymmetric(engine: Calculations, s: Snapshot, util: real, borrowRate: real)
    returns (r: Result<Tables, Error>)
    modifies engine
    ensures var run := AsymmetricRun(old(engine.overallAsymmetric), s, util, borrowRate);
            && engine.overallAsymmetric == run.records
            && engine.overallSymmetric == old(engine.overallSymmetric)
            && (r.Failure? <==> run.failure.Some?)
            && (r.Failure? ==> r.error == run.failure.value)
            && (r.Success? ==>
                  && Consistent(run)
                  && Leads(r.value.topRisk, RiskRanking(run.byRisk), run.records)
                  && Leads(r.value.topProfit, ProfitRanking(run.byProfit), run.records))
  {
    ghost var run := AsymmetricRun(engine.overallAsymmetric, s, util, borrowRate);
    AsymmetricConsistent(engine.overallAsymmetric, s, util, borrowRate);
    var result := engine.CalculateAsymmetricCollar(s, util, borrowRate);
    if result.Failure? {
      return Failure(result.error);
    }
    var tables := RankTrades(result.value, engine.overallAsymmetric);
    r := Success(tables);
  }
}
