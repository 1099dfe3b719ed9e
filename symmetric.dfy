/** The symmetric collar: sell the call and buy the put at the same strike.
    After the first pass over an expiration, every row that is not a put is
    priced against the table entry at its own strike and keyed by its OCC
    symbol (borrow_check.py:131-215). */
module Symmetric {
  import opened Results
  import opened OrderedDict
  import opened Pricing
  import opened Chain
  import opened Accumulate

  /** The second pass on one row: the call bid is read before the put ask,
      either lookup may raise, and then the shared arithmetic runs. */
  function SymmetricCandidate(m: Market, t: PriceTable, e: Expiration, row: OptionRow): (c: Candidate<string>)
    ensures var legs := LegsAt(t, row.strike);
            c.Success? <==> legs.callBid.Some? && legs.putAsk.Some? && MarketDailyPayout(m) != 0.0
    ensures LegsAt(t, row.strike).callBid.None? ==> c == Failure(MissingLeg(row.strike, CallBid))
    ensures LegsAt(t, row.strike).callBid.Some? && LegsAt(t, row.strike).putAsk.None?
            ==> c == Failure(MissingLeg(row.strike, PutAsk))
    ensures c.Success? ==>
            var legs := LegsAt(t, row.strike);
            && c.value.0 == row.symbol
            && c.value.1 == Evaluate(m, ExpirationNet(legs.callBid.value, legs.putAsk.value, m.stockAsk, row.strike),
                                     e.daysRemaining, CallMoneyness(row.strike, m.stockAsk),
                                     Strike(row.strike), e.date).value
  {
    var legs := LegsAt(t, row.strike);
    if legs.callBid.None? then Failure(MissingLeg(row.strike, CallBid))
    else if legs.putAsk.None? then Failure(MissingLeg(row.strike, PutAsk))
    else
      Keyed(row.symbol,
            Evaluate(m, ExpirationNet(legs.callBid.value, legs.putAsk.value, m.stockAsk, row.strike),
                     e.daysRemaining, CallMoneyness(row.strike, m.stockAsk), Strike(row.strike), e.date))
  }

  /** The rows of one expiration the second pass prices, with their
      expiration: puts are skipped. */
  function PricedRows(e: Expiration, rows: seq<OptionRow>): seq<(Expiration, OptionRow)>
    decreases |rows|
  {
    if rows == [] then []
    else
      var n := |rows| - 1;
      PricedRows(e, rows[..n]) + (if rows[n].optionType == Put then [] else [(e, rows[n])])
  }

  /** Every row the symmetric run prices, in loop order. */
  function SymmetricWork(es: seq<Expiration>): seq<(Expiration, OptionRow)>
    decreases |es|
  {
    if es == [] then []
    else
      var n := |es| - 1;
      SymmetricWork(es[..n]) + PricedRows(es[n], es[n].rows)
  }

  /** The candidates of a list of priced rows, each against the first-pass
      table of its own expiration. */
  function SymmetricCandidates(m: Market, work: seq<(Expiration, OptionRow)>): (cs: seq<Candidate<string>>)
    ensures |cs| == |work|
    decreases |work|
  {
    if work == [] then []
    else
      var n := |work| - 1;
      SymmetricCandidates(m, work[..n]) + [CandidateOf(m, work[n])]
  }

  lemma {:induction false} SymmetricCandidatesAt(m: Market, work: seq<(Expiration, OptionRow)>, n: int)
    requires 0 <= n < |work|
    ensures SymmetricCandidates(m, work)[n] == CandidateOf(m, work[n])
    decreases |work|
  {
    var last := |work| - 1;
    var front := work[..last];
    assert SymmetricCandidates(m, work) == SymmetricCandidates(m, front) + [CandidateOf(m, work[last])];
    if n < last {
      SymmetricCandidatesAt(m, front, n);
      assert front[n] == work[n];
    }
  }

  function CandidateOf(m: Market, w: (Expiration, OptionRow)): Candidate<string> {
    SymmetricCandidate(m, Prices(w.0.rows), w.0, w.1)
  }

  /** `calculate_symmetric_collar` on an instance whose symmetric data was
      `records`. */
  function SymmetricRun(records: map<string, CollarRecord>, s: Snapshot, util: real, borrowRate: real)
    : Acc<string>
  {
    EmitAll(Start(records), SymmetricCandidates(Market(s.stockAsk, util, borrowRate), SymmetricWork(s.expirations)))
  }

  /** Row j of expiration i is priced by the second pass. */
  ghost predicate Priced(es: seq<Expiration>, i: int, j: int) {
    0 <= i < |es| && 0 <= j < |es[i].rows| && es[i].rows[j].optionType != Put
  }

  // ----- prefix facts used by the method proof -----

  lemma PricedRowsStep(e: Expiration, rows: seq<OptionRow>, j: int)
    requires 0 <= j < |rows|
    ensures PricedRows(e, rows[..j + 1])
         == PricedRows(e, rows[..j]) + (if rows[j].optionType == Put then [] else [(e, rows[j])])
  {
    assert rows[..j + 1][..j] == rows[..j];
  }

  lemma {:induction false} PricedRowsPrefix(e: Expiration, rows: seq<OptionRow>, j: int)
    requires 0 <= j <= |rows|
    ensures PricedRows(e, rows[..j]) <= PricedRows(e, rows)
    decreases |rows| - j
  {
    if j < |rows| {
      var n := |rows| - 1;
      assert rows[..n][..j] == rows[..j];
      PricedRowsPrefix(e, rows[..n], j);
    } else {
      assert rows[..j] == rows;
    }
  }

  lemma SymmetricWorkStep(es: seq<Expiration>, i: int)
    requires 0 <= i < |es|
    ensures SymmetricWork(es[..i + 1]) == SymmetricWork(es[..i]) + PricedRows(es[i], es[i].rows)
  {
    assert es[..i + 1][..i] == es[..i];
  }

  lemma {:induction false} SymmetricWorkPrefix(es: seq<Expiration>, i: int)
    requires 0 <= i <= |es|
    ensures SymmetricWork(es[..i]) <= SymmetricWork(es)
    decreases |es| - i
  {
    if i < |es| {
      var n := |es| - 1;
      assert es[..n][..i] == es[..i];
      SymmetricWorkPrefix(es[..n], i);
    } else {
      assert es[..i] == es;
    }
  }

  /** What the inner loop has priced after j rows of expiration i is a
      prefix of the whole run's work. */
  lemma SymmetricPrefix(es: seq<Expiration>, i: int, j: int)
    requires 0 <= i < |es| && 0 <= j <= |es[i].rows|
    ensures SymmetricWork(es[..i]) + PricedRows(es[i], es[i].rows[..j]) <= SymmetricWork(es)
  {
    PricedRowsPrefix(es[i], es[i].rows, j);
    SymmetricWorkStep(es, i);
    SymmetricWorkPrefix(es, i + 1);
  }

  /** The candidates of a prefix of the work are a prefix of the candidates. */
  lemma SymmetricCandidatesPrefix(m: Market, pre: seq<(Expiration, OptionRow)>, work: seq<(Expiration, OptionRow)>)
    requires pre <= work
    ensures SymmetricCandidates(m, pre) <= SymmetricCandidates(m, work)
  {
  }

  /** Pricing one more row appends its candidate. */
  lemma SymmetricCandidatesAppend(m: Market, work: seq<(Expiration, OptionRow)>, w: (Expiration, OptionRow))
    ensures SymmetricCandidates(m, work + [w]) == SymmetricCandidates(m, work) + [CandidateOf(m, w)]
  {
    assert (work + [w])[..|work|] == work;
  }

  /** One more row of expiration i: its candidate is appended unless the
      row is a put. */
  lemma SymmetricStep(m: Market, es: seq<Expiration>, i: int, j: int)
    requires 0 <= i < |es| && 0 <= j < |es[i].rows|
    ensures var row := es[i].rows[j];
            SymmetricCandidates(m, SymmetricWork(es[..i]) + PricedRows(es[i], es[i].rows[..j + 1]))
            == SymmetricCandidates(m, SymmetricWork(es[..i]) + PricedRows(es[i], es[i].rows[..j]))
               + (if row.optionType == Put then [] else [CandidateOf(m, (es[i], row))])
  {
    var pre := SymmetricWork(es[..i]);
    var a := PricedRows(es[i], es[i].rows[..j]);
    var b := PricedRows(es[i], es[i].rows[..j + 1]);
    var w := (es[i], es[i].rows[j]);
    PricedRowsStep(es[i], es[i].rows, j);
    if es[i].rows[j].optionType != Put {
      assert pre + b == (pre + a) + [w];
      SymmetricCandidatesAppend(m, pre + a, w);
    } else {
      assert pre + b == pre + a;
    }
  }

  /** An exception raised after j + 1 rows of expiration i ends the run. */
  lemma SymmetricStopsAt(records: map<string, CollarRecord>, s: Snapshot, util: real, borrowRate: real,
                         i: int, j: int)
    requires 0 <= i < |s.expirations| && 0 <= j <= |s.expirations[i].rows|
    requires var es := s.expirations;
             var m := Market(s.stockAsk, util, borrowRate);
             EmitAll(Start(records), SymmetricCandidates(m, SymmetricWork(es[..i]) + PricedRows(es[i], es[i].rows[..j]))).failure.Some?
    ensures var es := s.expirations;
            var m := Market(s.stockAsk, util, borrowRate);
            SymmetricRun(records, s, util, borrowRate)
            == EmitAll(Start(records), SymmetricCandidates(m, SymmetricWork(es[..i]) + PricedRows(es[i], es[i].rows[..j])))
  {
    var es := s.expirations;
    var m := Market(s.stockAsk, util, borrowRate);
    var pre := SymmetricWork(es[..i]) + PricedRows(es[i], es[i].rows[..j]);
    SymmetricPrefix(es, i, j);
    SymmetricCandidatesPrefix(m, pre, SymmetricWork(es));
    EmitAllStopsAt(Start(records), SymmetricCandidates(m, pre), SymmetricCandidates(m, SymmetricWork(es)));
  }

  /** The state of the run after its first i expirations. */
  ghost function SymmetricDone(records: map<string, CollarRecord>, s: Snapshot, util: real, borrowRate: real,
                               i: int): Acc<string>
    requires 0 <= i <= |s.expirations|
  {
    EmitAll(Start(records), SymmetricCandidates(Market(s.stockAsk, util, borrowRate), SymmetricWork(s.expirations[..i])))
  }

  /** The state of the run after the first j rows of expiration i. */
  ghost function SymmetricPartial(records: map<string, CollarRecord>, s: Snapshot, util: real, borrowRate: real,
                                  i: int, j: int): Acc<string>
    requires 0 <= i < |s.expirations| && 0 <= j <= |s.expirations[i].rows|
  {
    var es := s.expirations;
    EmitAll(Start(records), SymmetricCandidates(Market(s.stockAsk, util, borrowRate),
                                                SymmetricWork(es[..i]) + PricedRows(es[i], es[i].rows[..j])))
  }

  lemma SymmetricPartialStart(records: map<string, CollarRecord>, s: Snapshot, util: real, borrowRate: real, i: int)
    requires 0 <= i < |s.expirations|
    ensures SymmetricPartial(records, s, util, borrowRate, i, 0) == SymmetricDone(records, s, util, borrowRate, i)
  {
    var es := s.expirations;
    assert es[i].rows[..0] == [] && PricedRows(es[i], es[i].rows[..0]) == [];
    assert SymmetricWork(es[..i]) + PricedRows(es[i], es[i].rows[..0]) == SymmetricWork(es[..i]);
  }

  /** A put row changes nothing; any other row emits its candidate. */
  lemma SymmetricPartialStep(records: map<string, CollarRecord>, s: Snapshot, util: real, borrowRate: real,
                             i: int, j: int)
    requires 0 <= i < |s.expirations| && 0 <= j < |s.expirations[i].rows|
    ensures var e := s.expirations[i];
            var row := e.rows[j];
            SymmetricPartial(records, s, util, borrowRate, i, j + 1)
            == if row.optionType == Put then SymmetricPartial(records, s, util, borrowRate, i, j)
               else Emit(SymmetricPartial(records, s, util, borrowRate, i, j),
                         SymmetricCandidate(Market(s.stockAsk, util, borrowRate), Prices(e.rows), e, row))
  {
    var m := Market(s.stockAsk, util, borrowRate);
    var es := s.expirations;
    var before := SymmetricCandidates(m, SymmetricWork(es[..i]) + PricedRows(es[i], es[i].rows[..j]));
    SymmetricStep(m, es, i, j);
    if es[i].rows[j].optionType != Put {
      EmitAllSnoc(Start(records), before, CandidateOf(m, (es[i], es[i].rows[j])));
    } else {
      assert before + [] == before;
    }
  }

  lemma SymmetricPartialStops(records: map<string, CollarRecord>, s: Snapshot, util: real, borrowRate: real,
                              i: int, j: int)
    requires 0 <= i < |s.expirations| && 0 <= j <= |s.expirations[i].rows|
    requires SymmetricPartial(records, s, util, borrowRate, i, j).failure.Some?
    ensures SymmetricRun(records, s, util, borrowRate) == SymmetricPartial(records, s, util, borrowRate, i, j)
  {
    SymmetricStopsAt(records, s, util, borrowRate, i, j);
  }

  lemma SymmetricPartialEnd(records: map<string, CollarRecord>, s: Snapshot, util: real, borrowRate: real, i: int)
    requires 0 <= i < |s.expirations|
    ensures SymmetricPartial(records, s, util, borrowRate, i, |s.expirations[i].rows|)
            == SymmetricDone(records, s, util, borrowRate, i + 1)
  {
    var es := s.expirations;
    assert es[i].rows[..|es[i].rows|] == es[i].rows;
    SymmetricWorkStep(es, i);
  }

  // ----- which rows the run prices -----

  /** The priced rows of one expiration are its rows that are not puts. */
  lemma {:induction false} PricedRowsMembers(e: Expiration, rows: seq<OptionRow>)
    ensures forall w :: w in PricedRows(e, rows) <==>
              w.0 == e && exists j :: 0 <= j < |rows| && rows[j].optionType != Put && w.1 == rows[j]
    decreases |rows|
  {
    if rows != [] {
      var n := |rows| - 1;
      PricedRowsMembers(e, rows[..n]);
      forall w ensures w in PricedRows(e, rows) <==>
          w.0 == e && exists j :: 0 <= j < |rows| && rows[j].optionType != Put && w.1 == rows[j]
      {
        if w.0 == e && exists j :: 0 <= j < |rows| && rows[j].optionType != Put && w.1 == rows[j] {
          var j :| 0 <= j < |rows| && rows[j].optionType != Put && w.1 == rows[j];
          if j < n {
            assert rows[..n][j] == rows[j];
          }
        }
        if w in PricedRows(e, rows[..n]) {
          var j :| 0 <= j < n && rows[..n][j].optionType != Put && w.1 == rows[..n][j];
          assert rows[..n][j] == rows[j];
        }
      }
    }
  }

  /** The run prices exactly the rows that are not puts, each with its own
      expiration. */
  lemma {:induction false} SymmetricWorkMembers(es: seq<Expiration>)
    ensures forall w :: w in SymmetricWork(es) <==>
              exists i, j :: Priced(es, i, j) && w == (es[i], es[i].rows[j])
    decreases |es|
  {
    if es != [] {
      var n := |es| - 1;
      var e := es[n];
      SymmetricWorkMembers(es[..n]);
      PricedRowsMembers(e, e.rows);
      forall w ensures w in SymmetricWork(es) <==> exists i, j :: Priced(es, i, j) && w == (es[i], es[i].rows[j]) {
        if exists i, j :: Priced(es, i, j) && w == (es[i], es[i].rows[j]) {
          var i, j :| Priced(es, i, j) && w == (es[i], es[i].rows[j]);
          if i < n {
            assert es[..n][i] == es[i];
            assert Priced(es[..n], i, j) && w == (es[..n][i], es[..n][i].rows[j]);
          } else {
            assert w in PricedRows(e, e.rows);
          }
        }
        if w in SymmetricWork(es[..n]) {
          var i, j :| Priced(es[..n], i, j) && w == (es[..n][i], es[..n][i].rows[j]);
          assert es[..n][i] == es[i];
          assert Priced(es, i, j) && w == (es[i], es[i].rows[j]);
        } else if w in PricedRows(e, e.rows) {
          var j :| 0 <= j < |e.rows| && e.rows[j].optionType != Put && w.1 == e.rows[j];
          assert Priced(es, n, j) && w == (es[n], es[n].rows[j]);
        }
      }
    }
  }

  // ----- what a symmetric run computes -----

  /** The two returned dictionaries hold the same keys in the same order,
      every key has an overall record, and each entry is that record's days
      to profit or estimated payout. */
  lemma SymmetricConsistent(records: map<string, CollarRecord>, s: Snapshot, util: real, borrowRate: real)
    ensures Consistent(SymmetricRun(records, s, util, borrowRate))
  {
    EmitAllConsistent(Start(records), SymmetricCandidates(Market(s.stockAsk, util, borrowRate), SymmetricWork(s.expirations)));
  }

  /** The run raises nothing exactly when every row that is not a put finds
      both legs at its strike and the daily payout is not zero. */
  lemma SymmetricSucceeds(records: map<string, CollarRecord>, s: Snapshot, util: real, borrowRate: real)
    ensures var m := Market(s.stockAsk, util, borrowRate);
            var es := s.expirations;
            SymmetricRun(records, s, util, borrowRate).failure.None?
            <==> forall i, j :: Priced(es, i, j) ==> CandidateOf(m, (es[i], es[i].rows[j])).Success?
  {
    var m := Market(s.stockAsk, util, borrowRate);
    var es := s.expirations;
    var work := SymmetricWork(es);
    var cs := SymmetricCandidates(m, work);
    EmitAllSucceeds(Start(records), cs);
    SymmetricWorkMembers(es);
    if forall i, j :: Priced(es, i, j) ==> CandidateOf(m, (es[i], es[i].rows[j])).Success? {
      forall n | 0 <= n < |cs| ensures cs[n].Success? {
        SymmetricCandidatesAt(m, work, n);
        assert work[n] in work;
      }
    } else {
      var i, j :| Priced(es, i, j) && !CandidateOf(m, (es[i], es[i].rows[j])).Success?;
      assert (es[i], es[i].rows[j]) in work;
      var n :| 0 <= n < |work| && work[n] == (es[i], es[i].rows[j]);
      SymmetricCandidatesAt(m, work, n);
      assert !cs[n].Success?;
    }
  }

  lemma SymmetricKeyFor(records: map<string, CollarRecord>, s: Snapshot, util: real, borrowRate: real, k: string)
    requires SymmetricRun(records, s, util, borrowRate).failure.None?
    ensures var es := s.expirations;
            k in SymmetricRun(records, s, util, borrowRate).byRisk.entries
            <==> exists i, j :: Priced(es, i, j) && es[i].rows[j].symbol == k
  {
    var m := Market(s.stockAsk, util, borrowRate);
    var es := s.expirations;
    var work := SymmetricWork(es);
    var cs := SymmetricCandidates(m, work);
    EmitAllKeys(Start(records), cs);
    EmittedKeysAt(cs, k);
    SymmetricWorkMembers(es);
    if k in EmittedKeys(cs) {
      var n :| 0 <= n < |cs| && cs[n].Success? && cs[n].value.0 == k;
      SymmetricCandidatesAt(m, work, n);
      assert work[n] in work;
      var i, j :| Priced(es, i, j) && work[n] == (es[i], es[i].rows[j]);
      assert es[i].rows[j].symbol == k;
    }
    if exists i, j :: Priced(es, i, j) && es[i].rows[j].symbol == k {
      var i, j :| Priced(es, i, j) && es[i].rows[j].symbol == k;
      assert (es[i], es[i].rows[j]) in work;
      var n :| 0 <= n < |work| && work[n] == (es[i], es[i].rows[j]);
      SymmetricCandidatesAt(m, work, n);
      EmitAllSucceeds(Start(records), cs);
      assert cs[n].Success?;
      assert cs[n].value.0 == work[n].1.symbol;
    }
  }

  /** After a run that raises nothing, the returned dictionaries are keyed
      by exactly the OCC symbols of the rows that are not puts. */
  lemma SymmetricKeys(records: map<string, CollarRecord>, s: Snapshot, util: real, borrowRate: real)
    requires SymmetricRun(records, s, util, borrowRate).failure.None?
    ensures var run := SymmetricRun(records, s, util, borrowRate);
            var es := s.expirations;
            forall k :: k in run.byRisk.entries <==> exists i, j :: Priced(es, i, j) && es[i].rows[j].symbol == k
  {
    forall k {
      SymmetricKeyFor(records, s, util, borrowRate, k);
    }
  }

  /** After a run that raises nothing, the overall record of every returned
      key is the evaluation of a priced row carrying that OCC symbol. */
  lemma SymmetricRecords(records: map<string, CollarRecord>, s: Snapshot, util: real, borrowRate: real)
    requires SymmetricRun(records, s, util, borrowRate).failure.None?
    ensures var run := SymmetricRun(records, s, util, borrowRate);
            var m := Market(s.stockAsk, util, borrowRate);
            var es := s.expirations;
            forall k :: k in run.byRisk.entries ==>
              k in run.records &&
              exists i, j :: Priced(es, i, j) && CandidateOf(m, (es[i], es[i].rows[j])) == Success((k, run.records[k]))
  {
    var m := Market(s.stockAsk, util, borrowRate);
    var es := s.expirations;
    var work := SymmetricWork(es);
    var cs := SymmetricCandidates(m, work);
    var run := SymmetricRun(records, s, util, borrowRate);
    EmitAllKeys(Start(records), cs);
    SymmetricWorkMembers(es);
    forall k | k in run.byRisk.entries
      ensures k in run.records &&
              exists i, j :: Priced(es, i, j) && CandidateOf(m, (es[i], es[i].rows[j])) == Success((k, run.records[k]))
    {
      EmitAllRecordFrom(Start(records), cs, k);
      var n :| 0 <= n < |cs| && cs[n] == Success((k, run.records[k]));
      SymmetricCandidatesAt(m, work, n);
      assert work[n] in work;
      var i, j :| Priced(es, i, j) && work[n] == (es[i], es[i].rows[j]);
    }
  }

  /** The OCC symbols of a list of priced rows, in order, repeats included. */
  ghost function WorkSymbols(work: seq<(Expiration, OptionRow)>): seq<string>
    decreases |work|
  {
    if work == [] then [] else WorkSymbols(work[..|work| - 1]) + [work[|work| - 1].1.symbol]
  }

  /** When every priced row evaluates, the keys emitted are the rows' OCC
      symbols in loop order. */
  lemma {:induction false} EmittedSymbols(m: Market, work: seq<(Expiration, OptionRow)>)
    requires AllSucceed(SymmetricCandidates(m, work))
    ensures EmittedSeq(SymmetricCandidates(m, work)) == WorkSymbols(work)
    decreases |work|
  {
    if work != [] {
      var n := |work| - 1;
      var cs := SymmetricCandidates(m, work);
      var front := SymmetricCandidates(m, work[..n]);
      var c := CandidateOf(m, work[n]);
      assert cs == front + [c];
      AllSucceedSplit(front, [c]);
      EmittedSymbols(m, work[..n]);
      EmittedSeqConcat(front, [c]);
      assert EmittedSeq([c]) == [work[n].1.symbol] by {
        assert [c][..0] == [];
      }
    }
  }

  /** After a run that raises nothing, the returned dictionaries list the
      OCC symbols in the order the loops first reach them: expirations in
      chain order, rows in chain order, a repeated symbol at its first place. */
  lemma SymmetricOrder(records: map<string, CollarRecord>, s: Snapshot, util: real, borrowRate: real)
    requires SymmetricRun(records, s, util, borrowRate).failure.None?
    ensures var run := SymmetricRun(records, s, util, borrowRate);
            && run.byRisk.keys == Dedup(WorkSymbols(SymmetricWork(s.expirations)))
            && run.byProfit.keys == Dedup(WorkSymbols(SymmetricWork(s.expirations)))
  {
    var m := Market(s.stockAsk, util, borrowRate);
    var work := SymmetricWork(s.expirations);
    var cs := SymmetricCandidates(m, work);
    EmitAllOrder(records, cs);
    EmitAllSucceeds(Start(records), cs);
    EmittedSymbols(m, work);
  }
}
