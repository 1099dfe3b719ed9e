/** The asymmetric collar: sell a call at or above the stock ask and buy a
    put at or below it. Per expiration, the first pass builds the price
    table, the second pass the combinations dictionary, and the third pass
    prices each combination in the dictionary's order
    (borrow_check.py:217-308). */
module Asymmetric {
  import opened Results
  import opened OrderedDict
  import opened Pricing
  import opened Chain
  import opened Combinations
  import opened Accumulate

  /** The third pass on one combination. */
  function PairCandidate(m: Market, e: Expiration, item: (Tag, real)): (c: Candidate<Tag>)
    ensures c.Success? <==> MarketDailyPayout(m) != 0.0
    ensures c.Failure? ==> c.error == ZeroDivisor
    ensures c.Success? ==> c.value.0 == item.0
  {
    Keyed(item.0, Evaluate(m, item.1, e.daysRemaining, Otm, Combination(item.0.call, item.0.put), e.date))
  }

  /** The third pass over a list of combinations. */
  function PairCandidates(m: Market, e: Expiration, items: seq<(Tag, real)>): (cs: seq<Candidate<Tag>>)
    ensures |cs| == |items|
    decreases |items|
  {
    if items == [] then []
    else
      var n := |items| - 1;
      PairCandidates(m, e, items[..n]) + [PairCandidate(m, e, items[n])]
  }

  /** What one expiration contributes: the second pass's KeyError, or the
      third pass over the combinations dictionary. */
  function ExpirationCandidates(m: Market, e: Expiration): seq<Candidate<Tag>> {
    var t := Prices(e.rows);
    match OtmCombinations(t, m.stockAsk)
    case Failure(err) => [Failure(err)]
    case Success(d) => PairCandidates(m, e, Items(d))
  }

  /** What each expiration of the run contributes, in order. */
  function ExpirationOutputs(m: Market, es: seq<Expiration>): seq<seq<Candidate<Tag>>> {
    MapSeq(e => ExpirationCandidates(m, e), es)
  }

  /** Every candidate of the asymmetric run, expiration by expiration. */
  function AsymmetricCandidates(m: Market, es: seq<Expiration>): seq<Candidate<Tag>> {
    Flatten(ExpirationOutputs(m, es))
  }

  /** `calculate_asymmetric_collar` on an instance whose asymmetric data was
      `records`. */
  function AsymmetricRun(records: map<Tag, CollarRecord>, s: Snapshot, util: real, borrowRate: real)
    : Acc<Tag>
  {
    EmitAll(Start(records), AsymmetricCandidates(Market(s.stockAsk, util, borrowRate), s.expirations))
  }

  /** The second pass of expiration e finds every leg and, if e has any
      combination, the third pass can divide by the daily payout. */
  ghost predicate ExpirationOk(m: Market, e: Expiration) {
    var d := OtmCombinations(Prices(e.rows), m.stockAsk);
    d.Success? && (|d.value.keys| > 0 ==> MarketDailyPayout(m) != 0.0)
  }

  /** Expiration e has combination `tag` in its combinations dictionary. */
  ghost predicate Produces(m: Market, e: Expiration, tag: Tag) {
    var d := OtmCombinations(Prices(e.rows), m.stockAsk);
    d.Success? && tag in d.value.entries
  }

  /** The combination and record one candidate of expiration e can carry:
      a call strike at or above the stock ask and a put strike at or below
      it, both in the table with their legs, and the record the shared
      arithmetic gives their expiration net, with OTM moneyness. */
  ghost predicate PairShape(m: Market, e: Expiration, tag: Tag, rec: CollarRecord) {
    var t := Prices(e.rows);
    && tag.call in t.entries && tag.call >= m.stockAsk
    && tag.put in t.entries && tag.put <= m.stockAsk
    && LegsAt(t, tag.call).callBid.Some? && LegsAt(t, tag.put).putAsk.Some?
    && var r := Evaluate(m, ExpirationNet(LegsAt(t, tag.call).callBid.value, LegsAt(t, tag.put).putAsk.value,
                                          m.stockAsk, tag.put),
                         e.daysRemaining, Otm, Combination(tag.call, tag.put), e.date);
       r == Success(rec)
  }

  // ----- prefix facts used by the method proof -----

  lemma ExpirationOutputsAt(m: Market, es: seq<Expiration>, i: int)
    requires 0 <= i < |es|
    ensures |ExpirationOutputs(m, es)| == |es|
    ensures ExpirationOutputs(m, es)[i] == ExpirationCandidates(m, es[i])
  {
  }

  lemma ExpirationOutputsSlices(m: Market, es: seq<Expiration>, i: int)
    requires 0 <= i <= |es|
    ensures ExpirationOutputs(m, es[..i]) == ExpirationOutputs(m, es)[..i]
    ensures ExpirationOutputs(m, es[i..]) == ExpirationOutputs(m, es)[i..]
  {
    MapSeqSlices(e => ExpirationCandidates(m, e), es, i);
  }

  lemma PairCandidatesPrefix(m: Market, e: Expiration, items: seq<(Tag, real)>, k: int)
    requires 0 <= k <= |items|
    ensures PairCandidates(m, e, items[..k]) <= PairCandidates(m, e, items)
    decreases |items|
  {
    if k < |items| {
      var last := |items| - 1;
      assert items[..last][..k] == items[..k];
      PairCandidatesPrefix(m, e, items[..last], k);
    } else {
      assert items[..k] == items;
    }
  }

  lemma {:induction false} PairCandidatesAt(m: Market, e: Expiration, items: seq<(Tag, real)>, n: int)
    requires 0 <= n < |items|
    ensures PairCandidates(m, e, items)[n] == PairCandidate(m, e, items[n])
    decreases |items|
  {
    var last := |items| - 1;
    if n < last {
      PairCandidatesAt(m, e, items[..last], n);
    }
  }

  lemma PairCandidatesStep(m: Market, e: Expiration, items: seq<(Tag, real)>, k: int)
    requires 0 <= k < |items|
    ensures PairCandidates(m, e, items[..k + 1]) == PairCandidates(m, e, items[..k]) + [PairCandidate(m, e, items[k])]
  {
    assert items[..k + 1][..k] == items[..k];
  }

  /** One more expiration appends its candidates. */
  lemma AsymmetricStep(m: Market, es: seq<Expiration>, i: int)
    requires 0 <= i < |es|
    ensures Flatten(ExpirationOutputs(m, es[..i + 1]))
            == Flatten(ExpirationOutputs(m, es[..i])) + ExpirationCandidates(m, es[i])
  {
    var outs := ExpirationOutputs(m, es);
    ExpirationOutputsSlices(m, es, i);
    ExpirationOutputsSlices(m, es, i + 1);
    ExpirationOutputsAt(m, es, i);
    FlattenStep(outs, i);
  }

  /** An exception raised among the candidates of expiration i ends the
      run. */
  lemma AsymmetricStopsAt(records: map<Tag, CollarRecord>, s: Snapshot, util: real, borrowRate: real,
                          i: int, pre: seq<Candidate<Tag>>)
    requires 0 <= i < |s.expirations|
    requires pre <= ExpirationCandidates(Market(s.stockAsk, util, borrowRate), s.expirations[i])
    requires var m := Market(s.stockAsk, util, borrowRate);
             EmitAll(Start(records), Flatten(ExpirationOutputs(m, s.expirations[..i])) + pre).failure.Some?
    ensures var m := Market(s.stockAsk, util, borrowRate);
            AsymmetricRun(records, s, util, borrowRate)
            == EmitAll(Start(records), Flatten(ExpirationOutputs(m, s.expirations[..i])) + pre)
  {
    var m := Market(s.stockAsk, util, borrowRate);
    var es := s.expirations;
    var outs := ExpirationOutputs(m, es);
    AsymmetricStep(m, es, i);
    ExpirationOutputsSlices(m, es, i + 1);
    FlattenPrefix(outs, i + 1);
    assert es[..|es|] == es;
    EmitAllStopsAt(Start(records), Flatten(ExpirationOutputs(m, es[..i])) + pre, Flatten(outs));
  }

  /** The state of the run after its first i expirations. */
  ghost function AsymmetricDone(records: map<Tag, CollarRecord>, s: Snapshot, util: real, borrowRate: real,
                                i: int): Acc<Tag>
    requires 0 <= i <= |s.expirations|
  {
    EmitAll(Start(records), Flatten(ExpirationOutputs(Market(s.stockAsk, util, borrowRate), s.expirations[..i])))
  }

  /** The state of the run after the first k combinations of expiration i. */
  ghost function AsymmetricPartial(records: map<Tag, CollarRecord>, s: Snapshot, util: real, borrowRate: real,
                                   i: int, k: int): Acc<Tag>
    requires 0 <= i < |s.expirations|
    requires OtmCombinations(Prices(s.expirations[i].rows), s.stockAsk).Success?
    requires 0 <= k <= |OtmCombinations(Prices(s.expirations[i].rows), s.stockAsk).value.keys|
  {
    var m := Market(s.stockAsk, util, borrowRate);
    var es := s.expirations;
    var d := OtmCombinations(Prices(es[i].rows), s.stockAsk).value;
    EmitAll(Start(records), Flatten(ExpirationOutputs(m, es[..i])) + PairCandidates(m, es[i], Items(d)[..k]))
  }

  lemma AsymmetricDoneStart(records: map<Tag, CollarRecord>, s: Snapshot, util: real, borrowRate: real)
    ensures AsymmetricDone(records, s, util, borrowRate, 0) == Start(records)
  {
    assert s.expirations[..0] == [];
  }

  lemma AsymmetricDoneEnd(records: map<Tag, CollarRecord>, s: Snapshot, util: real, borrowRate: real)
    ensures AsymmetricDone(records, s, util, borrowRate, |s.expirations|) == AsymmetricRun(records, s, util, borrowRate)
  {
    assert s.expirations[..|s.expirations|] == s.expirations;
  }

  /** A KeyError in the second pass of expiration i ends the run. */
  lemma AsymmetricCombinationsFail(records: map<Tag, CollarRecord>, s: Snapshot, util: real, borrowRate: real, i: int)
    requires 0 <= i < |s.expirations|
    requires AsymmetricDone(records, s, util, borrowRate, i).failure.None?
    requires OtmCombinations(Prices(s.expirations[i].rows), s.stockAsk).Failure?
    ensures AsymmetricRun(records, s, util, borrowRate)
            == AsymmetricDone(records, s, util, borrowRate, i)
                 .(failure := Some(OtmCombinations(Prices(s.expirations[i].rows), s.stockAsk).error))
  {
    var m := Market(s.stockAsk, util, borrowRate);
    var done := Flatten(ExpirationOutputs(m, s.expirations[..i]));
    var c := [Failure(OtmCombinations(Prices(s.expirations[i].rows), s.stockAsk).error)];
    EmitAllAppend(Start(records), done, c);
    AsymmetricStopsAt(records, s, util, borrowRate, i, c);
  }

  lemma AsymmetricPartialStart(records: map<Tag, CollarRecord>, s: Snapshot, util: real, borrowRate: real, i: int)
    requires 0 <= i < |s.expirations|
    requires OtmCombinations(Prices(s.expirations[i].rows), s.stockAsk).Success?
    ensures AsymmetricPartial(records, s, util, borrowRate, i, 0) == AsymmetricDone(records, s, util, borrowRate, i)
  {
    var m := Market(s.stockAsk, util, borrowRate);
    var es := s.expirations;
    var d := OtmCombinations(Prices(es[i].rows), s.stockAsk).value;
    var done := Flatten(ExpirationOutputs(m, es[..i]));
    assert Items(d)[..0] == [] && PairCandidates(m, es[i], Items(d)[..0]) == [];
    assert done + PairCandidates(m, es[i], Items(d)[..0]) == done;
  }

  /** Combination k of expiration i emits its evaluation. */
  lemma AsymmetricPartialStep(records: map<Tag, CollarRecord>, s: Snapshot, util: real, borrowRate: real,
                              i: int, k: int)
    requires 0 <= i < |s.expirations|
    requires OtmCombinations(Prices(s.expirations[i].rows), s.stockAsk).Success?
    requires 0 <= k < |OtmCombinations(Prices(s.expirations[i].rows), s.stockAsk).value.keys|
    ensures var e := s.expirations[i];
            var d := OtmCombinations(Prices(e.rows), s.stockAsk).value;
            var tag := d.keys[k];
            AsymmetricPartial(records, s, util, borrowRate, i, k + 1)
            == Emit(AsymmetricPartial(records, s, util, borrowRate, i, k),
                    Keyed(tag, Evaluate(Market(s.stockAsk, util, borrowRate), d.entries[tag],
                                        e.daysRemaining, Otm, Combination(tag.call, tag.put), e.date)))
  {
    var m := Market(s.stockAsk, util, borrowRate);
    var es := s.expirations;
    var e := es[i];
    var d := OtmCombinations(Prices(e.rows), s.stockAsk).value;
    var items := Items(d);
    var done := Flatten(ExpirationOutputs(m, es[..i]));
    var before := done + PairCandidates(m, e, items[..k]);
    var c := PairCandidate(m, e, items[k]);
    assert done + PairCandidates(m, e, items[..k + 1]) == before + [c] by {
      PairCandidatesStep(m, e, items, k);
    }
    EmitAllSnoc(Start(records), before, c);
  }

  lemma AsymmetricPartialStops(records: map<Tag, CollarRecord>, s: Snapshot, util: real, borrowRate: real,
                               i: int, k: int)
    requires 0 <= i < |s.expirations|
    requires OtmCombinations(Prices(s.expirations[i].rows), s.stockAsk).Success?
    requires 0 <= k <= |OtmCombinations(Prices(s.expirations[i].rows), s.stockAsk).value.keys|
    requires AsymmetricPartial(records, s, util, borrowRate, i, k).failure.Some?
    ensures AsymmetricRun(records, s, util, borrowRate) == AsymmetricPartial(records, s, util, borrowRate, i, k)
  {
    var m := Market(s.stockAsk, util, borrowRate);
    var e := s.expirations[i];
    var items := Items(OtmCombinations(Prices(e.rows), s.stockAsk).value);
    PairCandidatesPrefix(m, e, items, k);
    AsymmetricStopsAt(records, s, util, borrowRate, i, PairCandidates(m, e, items[..k]));
  }

  lemma AsymmetricPartialEnd(records: map<Tag, CollarRecord>, s: Snapshot, util: real, borrowRate: real, i: int)
    requires 0 <= i < |s.expirations|
    requires OtmCombinations(Prices(s.expirations[i].rows), s.stockAsk).Success?
    ensures var d := OtmCombinations(Prices(s.expirations[i].rows), s.stockAsk).value;
            AsymmetricPartial(records, s, util, borrowRate, i, |d.keys|)
            == AsymmetricDone(records, s, util, borrowRate, i + 1)
  {
    var m := Market(s.stockAsk, util, borrowRate);
    var e := s.expirations[i];
    var items := Items(OtmCombinations(Prices(e.rows), s.stockAsk).value);
    assert items[..|items|] == items;
    AsymmetricStep(m, s.expirations, i);
  }

  // ----- one expiration -----

  /** An expiration contributes no exception exactly when its second pass
      finds every leg and, if it has any combination, the daily payout is
      not zero; it then contributes one candidate per kept call strike and
      kept put strike. */
  lemma ExpirationSucceeds(m: Market, e: Expiration)
    ensures AllSucceed(ExpirationCandidates(m, e)) <==> ExpirationOk(m, e)
    ensures var t := Prices(e.rows);
            var d := OtmCombinations(t, m.stockAsk);
            d.Success? ==> |ExpirationCandidates(m, e)| == |CallStrikes(t.keys, m.stockAsk)| * |PutStrikes(t.keys, m.stockAsk)|
  {
    var t := Prices(e.rows);
    var cs := ExpirationCandidates(m, e);
    var d := OtmCombinations(t, m.stockAsk);
    if d.Success? {
      CombinationsContents(t, m.stockAsk);
      var items := Items(d.value);
      assert cs == PairCandidates(m, e, items);
      if |d.value.keys| > 0 && MarketDailyPayout(m) == 0.0 {
        PairCandidatesAt(m, e, items, 0);
        assert !cs[0].Success?;
      }
      if MarketDailyPayout(m) != 0.0 {
        forall n | 0 <= n < |cs| ensures cs[n].Success? {
          PairCandidatesAt(m, e, items, n);
        }
      }
    } else {
      assert !cs[0].Success?;
    }
  }

  /** Every candidate an expiration evaluates carries one of its combinations
      and the record of that combination. */
  lemma ExpirationShape(m: Market, e: Expiration)
    ensures var cs := ExpirationCandidates(m, e);
            forall n :: 0 <= n < |cs| && cs[n].Success? ==>
              Produces(m, e, cs[n].value.0) && PairShape(m, e, cs[n].value.0, cs[n].value.1)
  {
    var t := Prices(e.rows);
    var cs := ExpirationCandidates(m, e);
    var d := OtmCombinations(t, m.stockAsk);
    if d.Success? {
      CombinationsContents(t, m.stockAsk);
      var items := Items(d.value);
      forall n | 0 <= n < |cs| && cs[n].Success?
        ensures Produces(m, e, cs[n].value.0) && PairShape(m, e, cs[n].value.0, cs[n].value.1)
      {
        var tag := items[n].0;
        PairCandidatesAt(m, e, items, n);
        assert tag == d.value.keys[n] && tag in d.value.entries;
      }
    }
  }

  /** Within one expiration each combination is priced once. */
  lemma ExpirationKeysDistinct(m: Market, e: Expiration, p: int, q: int)
    requires var cs := ExpirationCandidates(m, e);
             0 <= p < q < |cs| && cs[p].Success? && cs[q].Success?
    ensures ExpirationCandidates(m, e)[p].value.0 != ExpirationCandidates(m, e)[q].value.0
  {
    var t := Prices(e.rows);
    var d := OtmCombinations(t, m.stockAsk);
    CombinationsContents(t, m.stockAsk);
    var items := Items(d.value);
    PairCandidatesAt(m, e, items, p);
    PairCandidatesAt(m, e, items, q);
    assert items[p].0 == d.value.keys[p] && items[q].0 == d.value.keys[q];
  }

  // ----- the whole run -----

  /** The run has no failing candidate exactly when every expiration's
      second pass finds all its legs and, if the expiration has a
      combination, the daily payout is not zero. */
  lemma AsymmetricCandidatesSucceed(m: Market, es: seq<Expiration>)
    ensures AllSucceed(AsymmetricCandidates(m, es)) <==> forall i :: 0 <= i < |es| ==> ExpirationOk(m, es[i])
  {
    var outs := ExpirationOutputs(m, es);
    FlattenSucceeds(outs);
    forall i | 0 <= i < |es| ensures AllSucceed(outs[i]) <==> ExpirationOk(m, es[i]) {
      ExpirationOutputsAt(m, es, i);
      ExpirationSucceeds(m, es[i]);
    }
  }

  /** The two returned dictionaries hold the same keys in the same order,
      every key has an overall record, and each entry is that record's days
      to profit or estimated payout. */
  lemma AsymmetricConsistent(records: map<Tag, CollarRecord>, s: Snapshot, util: real, borrowRate: real)
    ensures Consistent(AsymmetricRun(records, s, util, borrowRate))
  {
    EmitAllConsistent(Start(records), AsymmetricCandidates(Market(s.stockAsk, util, borrowRate), s.expirations));
  }

  /** Whether the run raises, in terms of the chains. */
  lemma AsymmetricSucceeds(records: map<Tag, CollarRecord>, s: Snapshot, util: real, borrowRate: real)
    ensures var m := Market(s.stockAsk, util, borrowRate);
            AsymmetricRun(records, s, util, borrowRate).failure.None?
            <==> forall i :: 0 <= i < |s.expirations| ==> ExpirationOk(m, s.expirations[i])
  {
    var m := Market(s.stockAsk, util, borrowRate);
    EmitAllSucceeds(Start(records), AsymmetricCandidates(m, s.expirations));
    AsymmetricCandidatesSucceed(m, s.expirations);
  }

  /** After a run that raises nothing, every returned key is a combination
      one of the expirations produced, and its overall record is that
      combination's record there: an OTM call strike at or above the stock
      ask, a put strike at or below it. */
  lemma AsymmetricRecords(records: map<Tag, CollarRecord>, s: Snapshot, util: real, borrowRate: real, tag: Tag)
    requires AsymmetricRun(records, s, util, borrowRate).failure.None?
    requires tag in AsymmetricRun(records, s, util, borrowRate).byRisk.entries
    ensures var run := AsymmetricRun(records, s, util, borrowRate);
            var m := Market(s.stockAsk, util, borrowRate);
            && tag in run.records
            && tag.call >= s.stockAsk && tag.put <= s.stockAsk
            && exists i :: 0 <= i < |s.expirations| && Produces(m, s.expirations[i], tag)
                           && PairShape(m, s.expirations[i], tag, run.records[tag])
  {
    var m := Market(s.stockAsk, util, borrowRate);
    var es := s.expirations;
    var outs := ExpirationOutputs(m, es);
    var cs := AsymmetricCandidates(m, es);
    var run := AsymmetricRun(records, s, util, borrowRate);
    EmitAllKeys(Start(records), cs);
    EmitAllRecordFrom(Start(records), cs, tag);
    var n :| 0 <= n < |cs| && cs[n] == Success((tag, run.records[tag]));
    FlattenFrom(outs, n);
    var i, p :| 0 <= i < |outs| && 0 <= p < |outs[i]| && cs[n] == outs[i][p];
    ExpirationOutputsAt(m, es, i);
    ExpirationShape(m, es[i]);
  }

  /** After a run that raises nothing, the returned combinations are exactly
      those that some expiration's combinations dictionary holds. */
  lemma AsymmetricKeys(records: map<Tag, CollarRecord>, s: Snapshot, util: real, borrowRate: real, tag: Tag)
    requires AsymmetricRun(records, s, util, borrowRate).failure.None?
    ensures var m := Market(s.stockAsk, util, borrowRate);
            tag in AsymmetricRun(records, s, util, borrowRate).byRisk.entries
            <==> exists i :: 0 <= i < |s.expirations| && Produces(m, s.expirations[i], tag)
  {
    var m := Market(s.stockAsk, util, borrowRate);
    var es := s.expirations;
    if tag in AsymmetricRun(records, s, util, borrowRate).byRisk.entries {
      AsymmetricRecords(records, s, util, borrowRate, tag);
    }
    if exists i :: 0 <= i < |es| && Produces(m, es[i], tag) {
      var i :| 0 <= i < |es| && Produces(m, es[i], tag);
      ProducedReturned(records, s, util, borrowRate, tag, i);
    }
  }

  /** The backward direction of `AsymmetricKeys`, for expiration i. */
  lemma ProducedReturned(records: map<Tag, CollarRecord>, s: Snapshot, util: real, borrowRate: real,
                         tag: Tag, i: int)
    requires AsymmetricRun(records, s, util, borrowRate).failure.None?
    requires 0 <= i < |s.expirations| && Produces(Market(s.stockAsk, util, borrowRate), s.expirations[i], tag)
    ensures tag in AsymmetricRun(records, s, util, borrowRate).byRisk.entries
  {
    var m := Market(s.stockAsk, util, borrowRate);
    var es := s.expirations;
    var outs := ExpirationOutputs(m, es);
    var cs := AsymmetricCandidates(m, es);
    EmitAllSucceeds(Start(records), cs);
    FlattenSucceeds(outs);
    ExpirationOutputsAt(m, es, i);
    assert AllSucceed(outs[i]);
    var p := TagPosition(m, es[i], tag);
    FlattenAt(outs, i, p);
    EmittedKeysAt(cs, tag);
    EmitAllKeys(Start(records), cs);
    assert Start(records).byRisk.entries.Keys == {};
  }

  /** The candidates of expirations in which `tag` is not a combination never
      carry it. */
  lemma NotProducedNotEmitted(m: Market, es: seq<Expiration>, tag: Tag)
    requires forall i :: 0 <= i < |es| ==> !Produces(m, es[i], tag)
    ensures tag !in EmittedKeys(AsymmetricCandidates(m, es))
  {
    var outs := ExpirationOutputs(m, es);
    var cs := AsymmetricCandidates(m, es);
    forall n | 0 <= n < |cs| && cs[n].Success? ensures cs[n].value.0 != tag {
      FlattenFrom(outs, n);
      var i, p :| 0 <= i < |outs| && 0 <= p < |outs[i]| && cs[n] == outs[i][p];
      ExpirationOutputsAt(m, es, i);
      ExpirationShape(m, es[i]);
      assert Produces(m, es[i], cs[n].value.0);
    }
    EmittedKeysAt(cs, tag);
  }

  /** A combination of expiration e is priced at one position of e's
      candidates, and at no later one. */
  lemma TagPosition(m: Market, e: Expiration, tag: Tag) returns (p: int)
    requires Produces(m, e, tag)
    requires AllSucceed(ExpirationCandidates(m, e))
    ensures var cs := ExpirationCandidates(m, e);
            && 0 <= p < |cs| && cs[p].Success? && cs[p].value.0 == tag
            && Success(cs[p].value.1)
               == Evaluate(m, OtmCombinations(Prices(e.rows), m.stockAsk).value.entries[tag],
                           e.daysRemaining, Otm, Combination(tag.call, tag.put), e.date)
            && forall q :: p < q < |cs| && cs[q].Success? ==> cs[q].value.0 != tag
  {
    var t := Prices(e.rows);
    var d := OtmCombinations(t, m.stockAsk).value;
    var items := Items(d);
    assert ExpirationCandidates(m, e) == PairCandidates(m, e, items);
    p := KeyIndex(d, tag);
    PairCandidatesAt(m, e, items, p);
    assert items[p] == (tag, d.entries[tag]);
    LaterKeysDiffer(m, e, p);
  }

  /** No candidate after position p of an expiration carries p's key. */
  lemma LaterKeysDiffer(m: Market, e: Expiration, p: int)
    requires AllSucceed(ExpirationCandidates(m, e)) && 0 <= p < |ExpirationCandidates(m, e)|
    ensures var cs := ExpirationCandidates(m, e);
            forall q :: p < q < |cs| && cs[q].Success? ==> cs[q].value.0 != cs[p].value.0
  {
    var cs := ExpirationCandidates(m, e);
    forall q | p < q < |cs| && cs[q].Success? ensures cs[q].value.0 != cs[p].value.0 {
      ExpirationKeysDistinct(m, e, p, q);
    }
  }

  /** Last write wins across expirations: after a run that raises nothing, a
      combination's overall record is its record in the last expiration
      whose combinations include it. */
  lemma AsymmetricLastWins(records: map<Tag, CollarRecord>, s: Snapshot, util: real, borrowRate: real,
                           i: int, tag: Tag)
    requires AsymmetricRun(records, s, util, borrowRate).failure.None?
    requires 0 <= i < |s.expirations|
    requires Produces(Market(s.stockAsk, util, borrowRate), s.expirations[i], tag)
    requires forall j :: i < j < |s.expirations| ==> !Produces(Market(s.stockAsk, util, borrowRate), s.expirations[j], tag)
    ensures var run := AsymmetricRun(records, s, util, borrowRate);
            var m := Market(s.stockAsk, util, borrowRate);
            var e := s.expirations[i];
            var net := OtmCombinations(Prices(e.rows), s.stockAsk).value.entries[tag];
            && tag in run.records
            && Success(run.records[tag]) == Evaluate(m, net, e.daysRemaining, Otm, Combination(tag.call, tag.put), e.date)
  {
    var m := Market(s.stockAsk, util, borrowRate);
    var es := s.expirations;
    var outs := ExpirationOutputs(m, es);
    assert Flatten(outs) == AsymmetricCandidates(m, es);
    ExpirationOutputsAt(m, es, i);
    assert AllSucceed(outs[i]) by {
      EmitAllSucceeds(Start(records), Flatten(outs));
      FlattenSucceeds(outs);
    }
    var p := TagPosition(m, es[i], tag);
    // no later expiration carries `tag`
    var later := es[i + 1..];
    assert tag !in EmittedKeys(Flatten(outs[i + 1..])) by {
      forall j | 0 <= j < |later| ensures !Produces(m, later[j], tag) {
        assert later[j] == es[i + 1 + j];
      }
      NotProducedNotEmitted(m, later, tag);
      ExpirationOutputsSlices(m, es, i + 1);
    }
    FlattenLastWins(Start(records), outs, i, p);
  }

  // ----- the order of the returned keys -----

  /** The combinations of one expiration's dictionary, in its order; none
      when its second pass raised. */
  ghost function ExpirationKeys(e: Expiration, stockAsk: real): seq<Tag> {
    var d := OtmCombinations(Prices(e.rows), stockAsk);
    if d.Success? then d.value.keys else []
  }

  /** The combinations of every expiration, expiration after expiration,
      repeats included. */
  ghost function ComboKeys(es: seq<Expiration>, stockAsk: real): seq<Tag>
    decreases |es|
  {
    if es == [] then [] else ComboKeys(es[..|es| - 1], stockAsk) + ExpirationKeys(es[|es| - 1], stockAsk)
  }

  /** When the third pass prices every combination, it emits their keys in
      the order of its list. */
  lemma {:induction false} PairsEmitted(m: Market, e: Expiration, items: seq<(Tag, real)>)
    requires AllSucceed(PairCandidates(m, e, items))
    ensures |EmittedSeq(PairCandidates(m, e, items))| == |items|
    ensures forall i :: 0 <= i < |items| ==> EmittedSeq(PairCandidates(m, e, items))[i] == items[i].0
    decreases |items|
  {
    if items != [] {
      var n := |items| - 1;
      var cs := PairCandidates(m, e, items);
      var front := PairCandidates(m, e, items[..n]);
      assert cs == front + [PairCandidate(m, e, items[n])];
      assert cs[..n] == front;
      forall i | 0 <= i < n ensures front[i].Success? {
        assert front[i] == cs[i];
      }
      PairsEmitted(m, e, items[..n]);
      assert cs[n].Success?;
      assert EmittedSeq(cs) == EmittedSeq(front) + [items[n].0];
    }
  }

  /** An expiration whose candidates all evaluate emits the keys of its
      combinations dictionary in the dictionary's order. */
  lemma ExpirationEmitted(m: Market, e: Expiration)
    requires AllSucceed(ExpirationCandidates(m, e))
    ensures EmittedSeq(ExpirationCandidates(m, e)) == ExpirationKeys(e, m.stockAsk)
  {
    ExpirationSucceeds(m, e);
    var d := OtmCombinations(Prices(e.rows), m.stockAsk);
    assert d.Success?;
    var items := Items(d.value);
    PairsEmitted(m, e, items);
  }

  lemma AsymmetricLast(m: Market, es: seq<Expiration>)
    requires es != []
    ensures AsymmetricCandidates(m, es)
            == AsymmetricCandidates(m, es[..|es| - 1]) + ExpirationCandidates(m, es[|es| - 1])
  {
    AsymmetricStep(m, es, |es| - 1);
    assert es[..|es|] == es;
  }

  /** A run whose candidates all evaluate emits every expiration's
      combinations, expiration after expiration. */
  lemma {:induction false} AsymmetricEmitted(m: Market, es: seq<Expiration>)
    requires AllSucceed(AsymmetricCandidates(m, es))
    ensures EmittedSeq(AsymmetricCandidates(m, es)) == ComboKeys(es, m.stockAsk)
    decreases |es|
  {
    if es != [] {
      var n := |es| - 1;
      var front := AsymmetricCandidates(m, es[..n]);
      var last := ExpirationCandidates(m, es[n]);
      AsymmetricLast(m, es);
      AllSucceedSplit(front, last);
      AsymmetricEmitted(m, es[..n]);
      ExpirationEmitted(m, es[n]);
      EmittedSeqConcat(front, last);
    }
  }

  /** After a run that raises nothing, the returned dictionaries list the
      combinations in the order the loops first reach them: expirations in
      chain order, each expiration's combinations in dictionary order, a
      combination already returned by an earlier expiration at its first
      place. */
  lemma AsymmetricOrder(records: map<Tag, CollarRecord>, s: Snapshot, util: real, borrowRate: real)
    requires AsymmetricRun(records, s, util, borrowRate).failure.None?
    ensures var run := AsymmetricRun(records, s, util, borrowRate);
            && run.byRisk.keys == Dedup(ComboKeys(s.expirations, s.stockAsk))
            && run.byProfit.keys == Dedup(ComboKeys(s.expirations, s.stockAsk))
  {
    var m := Market(s.stockAsk, util, borrowRate);
    var cs := AsymmetricCandidates(m, s.expirations);
    EmitAllOrder(records, cs);
    EmitAllSucceeds(Start(records), cs);
    AsymmetricEmitted(m, s.expirations);
  }
}
