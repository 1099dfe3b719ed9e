/** What both pricing methods do with each evaluated candidate: store its
    days to profit in `trades_by_risk`, its estimated payout in
    `trades_by_profit` and its full record in the instance's overall data,
    all under the candidate's key; and stop at the first exception, keeping
    what was already written (borrow_check.py:199-213, 289-306). */
module Accumulate {
  import opened Results
  import opened OrderedDict
  import opened Pricing

  /** One candidate in evaluation order: its key and record, or the
      exception raised while computing it. */
  type Candidate<K> = Result<(K, CollarRecord), Error>

  /** The state of one pricing call: the instance's overall data, the two
      local dictionaries, and the exception once one has been raised. */
  datatype Acc<K> = Acc(records: map<K, CollarRecord>, byRisk: Dict<K, int>,
                        byProfit: Dict<K, real>, failure: Option<Error>)

  /** The `(trades_by_risk, trades_by_profit)` pair a pricing method returns. */
  datatype Trades<K> = Trades(byRisk: Dict<K, int>, byProfit: Dict<K, real>)

  /** A call starts with empty local dictionaries and whatever overall data
      earlier calls left in the instance. */
  function Start<K>(records: map<K, CollarRecord>): (acc: Acc<K>)
    ensures Consistent(acc) && acc.failure.None?
  {
    Acc(records, Empty(), Empty(), None)
  }

  /** Attaching a key to an evaluation result. */
  function Keyed<K>(key: K, r: Result<CollarRecord, Error>): Candidate<K> {
    match r
    case Failure(e) => Failure(e)
    case Success(rec) => Success((key, rec))
  }

  /** One candidate: after an exception nothing more happens. */
  function Emit<K>(acc: Acc<K>, c: Candidate<K>): Acc<K> {
    if acc.failure.Some? then acc
    else match c
      case Failure(e) => acc.(failure := Some(e))
      case Success((k, r)) =>
        Acc(acc.records[k := r], SetItem(acc.byRisk, k, r.daysToProfit),
            SetItem(acc.byProfit, k, r.estimatedPayout), None)
  }

  /** The candidates one after the other. */
  function EmitAll<K>(acc: Acc<K>, cs: seq<Candidate<K>>): Acc<K>
    decreases |cs|
  {
    if cs == [] then acc else Emit(EmitAll(acc, cs[..|cs| - 1]), cs[|cs| - 1])
  }

  /** What a pricing method returns, or the exception it raises. */
  function Outcome<K>(acc: Acc<K>): Result<Trades<K>, Error> {
    if acc.failure.Some? then Failure(acc.failure.value) else Success(Trades(acc.byRisk, acc.byProfit))
  }

  /** The keys of the candidates that evaluated. */
  ghost function EmittedKeys<K>(cs: seq<Candidate<K>>): set<K>
    decreases |cs|
  {
    if cs == [] then {}
    else
      var n := |cs| - 1;
      EmittedKeys(cs[..n]) + (if cs[n].Success? then {cs[n].value.0} else {})
  }

  /** The two local dictionaries hold the same keys in the same order, and
      each entry is the matching field of the overall record under that key. */
  ghost predicate Consistent<K>(acc: Acc<K>) {
    && Valid(acc.byRisk) && Valid(acc.byProfit)
    && acc.byRisk.keys == acc.byProfit.keys
    && forall k <- acc.byRisk.entries.Keys ::
         && k in acc.records && k in acc.byProfit.entries
         && acc.byRisk.entries[k] == acc.records[k].daysToProfit
         && acc.byProfit.entries[k] == acc.records[k].estimatedPayout
  }

  // ----- structure of the fold -----

  lemma {:induction false} EmitAllAppend<K>(acc: Acc<K>, a: seq<Candidate<K>>, b: seq<Candidate<K>>)
    ensures EmitAll(acc, a + b) == EmitAll(EmitAll(acc, a), b)
    decreases |b|
  {
    if b == [] {
      assert a + b == a;
    } else {
      var n := |b| - 1;
      assert (a + b)[..|a + b| - 1] == a + b[..n];
      EmitAllAppend(acc, a, b[..n]);
    }
  }

  lemma EmitAllSnoc<K>(acc: Acc<K>, cs: seq<Candidate<K>>, c: Candidate<K>)
    ensures EmitAll(acc, cs + [c]) == Emit(EmitAll(acc, cs), c)
  {
    assert (cs + [c])[..|cs|] == cs;
  }

  /** After an exception, the rest of the candidates change nothing. */
  lemma {:induction false} EmitAllSticks<K>(acc: Acc<K>, cs: seq<Candidate<K>>)
    requires acc.failure.Some?
    ensures EmitAll(acc, cs) == acc
    decreases |cs|
  {
    if cs != [] {
      EmitAllSticks(acc, cs[..|cs| - 1]);
    }
  }

  /** An exception raised within a prefix of the candidates is the outcome
      of the whole run. */
  lemma EmitAllStopsAt<K>(acc: Acc<K>, pre: seq<Candidate<K>>, cs: seq<Candidate<K>>)
    requires pre <= cs
    requires EmitAll(acc, pre).failure.Some?
    ensures EmitAll(acc, cs) == EmitAll(acc, pre)
  {
    assert cs == pre + cs[|pre|..];
    EmitAllAppend(acc, pre, cs[|pre|..]);
    EmitAllSticks(EmitAll(acc, pre), cs[|pre|..]);
  }

  // ----- what the fold computes -----

  /** Each step keeps the two dictionaries in step with the overall data. */
  lemma {:induction false} EmitAllConsistent<K>(acc: Acc<K>, cs: seq<Candidate<K>>)
    requires Consistent(acc)
    ensures Consistent(EmitAll(acc, cs))
    decreases |cs|
  {
    if cs != [] {
      var n := |cs| - 1;
      EmitAllConsistent(acc, cs[..n]);
      var prev := EmitAll(acc, cs[..n]);
      if prev.failure.None? && cs[n].Success? {
        var (k, r) := cs[n].value;
        var next := Emit(prev, cs[n]);
        assert next.byRisk.keys == next.byProfit.keys by {
          assert k in prev.byRisk.entries <==> k in prev.byProfit.entries by {
            assert k in prev.byRisk.entries <==> k in prev.byRisk.keys;
            assert k in prev.byProfit.entries <==> k in prev.byProfit.keys;
          }
        }
      }
    }
  }

  /** A run raises nothing exactly when every candidate evaluates. */
  lemma {:induction false} EmitAllSucceeds<K>(acc: Acc<K>, cs: seq<Candidate<K>>)
    requires acc.failure.None?
    ensures EmitAll(acc, cs).failure.None? <==> forall i :: 0 <= i < |cs| ==> cs[i].Success?
    decreases |cs|
  {
    if cs != [] {
      var n := |cs| - 1;
      var pre := cs[..n];
      EmitAllSucceeds(acc, pre);
      assert EmitAll(acc, cs) == Emit(EmitAll(acc, pre), cs[n]);
      forall i | 0 <= i < n ensures pre[i] == cs[i] {
      }
      if EmitAll(acc, pre).failure.Some? {
        var i :| 0 <= i < n && !pre[i].Success?;
        assert !cs[i].Success?;
      }
    }
  }

  /** The exception a run raises is that of its first failing candidate, and
      everything written before it stays written. */
  lemma {:induction false} EmitAllFirstError<K>(acc: Acc<K>, cs: seq<Candidate<K>>, i: int)
    requires acc.failure.None?
    requires 0 <= i < |cs| && cs[i].Failure?
    requires forall j :: 0 <= j < i ==> cs[j].Success?
    ensures EmitAll(acc, cs) == EmitAll(acc, cs[..i]).(failure := Some(cs[i].error))
  {
    EmitAllSucceeds(acc, cs[..i]);
    assert forall j :: 0 <= j < i ==> cs[..i][j] == cs[j];
    assert cs[..i + 1][..i] == cs[..i];
    EmitAllStopsAt(acc, cs[..i + 1], cs);
  }

  /** In a run that raises nothing, the dictionaries gain exactly the keys of
      the candidates. */
  lemma {:induction false} EmitAllKeys<K>(acc: Acc<K>, cs: seq<Candidate<K>>)
    requires acc.failure.None?
    requires EmitAll(acc, cs).failure.None?
    ensures EmitAll(acc, cs).byRisk.entries.Keys == acc.byRisk.entries.Keys + EmittedKeys(cs)
    ensures EmitAll(acc, cs).byProfit.entries.Keys == acc.byProfit.entries.Keys + EmittedKeys(cs)
    ensures EmitAll(acc, cs).records.Keys == acc.records.Keys + EmittedKeys(cs)
    decreases |cs|
  {
    if cs != [] {
      var n := |cs| - 1;
      assert EmitAll(acc, cs[..n]).failure.None?;
      EmitAllKeys(acc, cs[..n]);
    }
  }

  /** The keys of the candidates that evaluated, in evaluation order,
      repeats included. */
  ghost function EmittedSeq<K>(cs: seq<Candidate<K>>): seq<K>
    decreases |cs|
  {
    if cs == [] then []
    else
      var n := |cs| - 1;
      EmittedSeq(cs[..n]) + (if cs[n].Success? then [cs[n].value.0] else [])
  }

  lemma {:induction false} EmittedSeqConcat<K>(a: seq<Candidate<K>>, b: seq<Candidate<K>>)
    ensures EmittedSeq(a + b) == EmittedSeq(a) + EmittedSeq(b)
    decreases |b|
  {
    if b == [] {
      assert a + b == a;
    } else {
      var n := |b| - 1;
      assert (a + b)[..|a + b| - 1] == a + b[..n];
      assert (a + b)[|a + b| - 1] == b[n];
      EmittedSeqConcat(a, b[..n]);
    }
  }

  /** In a run that raises nothing, both local dictionaries list their keys
      in the order in which a candidate first carries them: a key written
      again keeps its first place. */
  lemma {:induction false} EmitAllOrder<K>(records: map<K, CollarRecord>, cs: seq<Candidate<K>>)
    requires EmitAll(Start(records), cs).failure.None?
    ensures EmitAll(Start(records), cs).byRisk.keys == Dedup(EmittedSeq(cs))
    ensures EmitAll(Start(records), cs).byProfit.keys == Dedup(EmittedSeq(cs))
    decreases |cs|
  {
    EmitAllConsistent(Start(records), cs);
    if cs != [] {
      var n := |cs| - 1;
      var prev := EmitAll(Start(records), cs[..n]);
      assert EmitAll(Start(records), cs) == Emit(prev, cs[n]);
      assert prev.failure.None?;
      EmitAllOrder(records, cs[..n]);
      EmitAllConsistent(Start(records), cs[..n]);
      assert cs[n].Success?;
      var k := cs[n].value.0;
      assert EmittedSeq(cs) == EmittedSeq(cs[..n]) + [k];
      DedupSnoc(EmittedSeq(cs[..n]), k);
      assert k in prev.byRisk.entries <==> k in prev.byRisk.keys;
    }
  }

  /** In a run that raises nothing, a key no candidate carries keeps the
      overall record it had before the call. */
  lemma {:induction false} EmitAllUntouched<K>(acc: Acc<K>, cs: seq<Candidate<K>>, k: K)
    requires EmitAll(acc, cs).failure.None?
    requires k !in EmittedKeys(cs)
    ensures k in EmitAll(acc, cs).records <==> k in acc.records
    ensures k in acc.records ==> EmitAll(acc, cs).records[k] == acc.records[k]
    decreases |cs|
  {
    if cs != [] {
      var n := |cs| - 1;
      var prev := EmitAll(acc, cs[..n]);
      assert prev.failure.None?;
      EmitAllUntouched(acc, cs[..n], k);
    }
  }

  /** Last write wins: in a run that raises nothing, the overall record of a
      key is the record of the last candidate carrying it. */
  lemma EmitAllLastWins<K>(acc: Acc<K>, cs: seq<Candidate<K>>, n: int)
    requires EmitAll(acc, cs).failure.None?
    requires 0 <= n < |cs| && cs[n].Success?
    requires cs[n].value.0 !in EmittedKeys(cs[n + 1..])
    ensures cs[n].value.0 in EmitAll(acc, cs).records
    ensures EmitAll(acc, cs).records[cs[n].value.0] == cs[n].value.1
  {
    var k := cs[n].value.0;
    assert cs == cs[..n + 1] + cs[n + 1..];
    EmitAllAppend(acc, cs[..n + 1], cs[n + 1..]);
    var mid := EmitAll(acc, cs[..n + 1]);
    if mid.failure.Some? {
      EmitAllSticks(mid, cs[n + 1..]);
      assert false;
    }
    assert cs[..n + 1][..n] == cs[..n];
    EmitAllUntouched(mid, cs[n + 1..], k);
  }

  /** A key was emitted exactly when some candidate carrying it evaluated. */
  lemma {:induction false} EmittedKeysAt<K>(cs: seq<Candidate<K>>, k: K)
    ensures k in EmittedKeys(cs) <==> exists n :: 0 <= n < |cs| && cs[n].Success? && cs[n].value.0 == k
    decreases |cs|
  {
    if cs != [] {
      var last := |cs| - 1;
      EmittedKeysAt(cs[..last], k);
      if k in EmittedKeys(cs[..last]) {
        var n :| 0 <= n < last && cs[..last][n].Success? && cs[..last][n].value.0 == k;
        assert cs[n] == cs[..last][n];
      }
      if exists n :: 0 <= n < |cs| && cs[n].Success? && cs[n].value.0 == k {
        var n :| 0 <= n < |cs| && cs[n].Success? && cs[n].value.0 == k;
        if n < last {
          assert cs[..last][n] == cs[n];
        }
      }
    }
  }

  /** In a run that raises nothing, the overall record of every emitted key
      is the record of one of the candidates carrying it. */
  lemma {:induction false} EmitAllRecordFrom<K>(acc: Acc<K>, cs: seq<Candidate<K>>, k: K)
    requires EmitAll(acc, cs).failure.None?
    requires k in EmittedKeys(cs)
    ensures k in EmitAll(acc, cs).records
    ensures exists n :: 0 <= n < |cs| && cs[n] == Success((k, EmitAll(acc, cs).records[k]))
    decreases |cs|
  {
    var last := |cs| - 1;
    var prev := EmitAll(acc, cs[..last]);
    assert prev.failure.None?;
    if cs[last].Success? && cs[last].value.0 == k {
      assert cs[last] == Success((k, EmitAll(acc, cs).records[k]));
    } else {
      EmitAllRecordFrom(acc, cs[..last], k);
      var n :| 0 <= n < last && cs[..last][n] == Success((k, prev.records[k]));
      assert cs[n] == cs[..last][n];
    }
  }

  // ----- candidates grouped by expiration -----

  /** `f` applied to every element of `xs`. */
  function MapSeq<A, B>(f: A -> B, xs: seq<A>): (ys: seq<B>)
    ensures |ys| == |xs|
  {
    seq(|xs|, i requires 0 <= i < |xs| => f(xs[i]))
  }

  lemma MapSeqSlices<A, B>(f: A -> B, xs: seq<A>, i: int)
    requires 0 <= i <= |xs|
    ensures MapSeq(f, xs[..i]) == MapSeq(f, xs)[..i]
    ensures MapSeq(f, xs[i..]) == MapSeq(f, xs)[i..]
  {
  }

  /** The groups one after the other. */
  function Flatten<T>(xss: seq<seq<T>>): seq<T>
    decreases |xss|
  {
    if xss == [] then [] else Flatten(xss[..|xss| - 1]) + xss[|xss| - 1]
  }

  lemma FlattenStep<T>(xss: seq<seq<T>>, i: int)
    requires 0 <= i < |xss|
    ensures Flatten(xss[..i + 1]) == Flatten(xss[..i]) + xss[i]
  {
    assert xss[..i + 1][..i] == xss[..i];
  }

  lemma {:induction false} FlattenConcat<T>(a: seq<seq<T>>, b: seq<seq<T>>)
    ensures Flatten(a + b) == Flatten(a) + Flatten(b)
    decreases |b|
  {
    if b == [] {
      assert a + b == a;
    } else {
      var n := |b| - 1;
      assert (a + b)[..|a + b| - 1] == a + b[..n];
      FlattenConcat(a, b[..n]);
    }
  }

  lemma FlattenPrefix<T>(xss: seq<seq<T>>, i: int)
    requires 0 <= i <= |xss|
    ensures Flatten(xss[..i]) <= Flatten(xss)
  {
    assert xss == xss[..i] + xss[i..];
    FlattenConcat(xss[..i], xss[i..]);
  }

  /** Position p of group i in the flattened sequence. */
  lemma FlattenAt<T>(xss: seq<seq<T>>, i: int, p: int)
    requires 0 <= i < |xss| && 0 <= p < |xss[i]|
    ensures |Flatten(xss[..i])| + p < |Flatten(xss)|
    ensures Flatten(xss)[|Flatten(xss[..i])| + p] == xss[i][p]
  {
    FlattenStep(xss, i);
    FlattenPrefix(xss, i + 1);
  }

  /** Every element of the flattened sequence comes from one of the groups. */
  lemma {:induction false} FlattenFrom<T>(xss: seq<seq<T>>, n: int)
    requires 0 <= n < |Flatten(xss)|
    ensures exists i, p :: 0 <= i < |xss| && 0 <= p < |xss[i]| && Flatten(xss)[n] == xss[i][p]
    decreases |xss|
  {
    var last := |xss| - 1;
    var front := Flatten(xss[..last]);
    if n < |front| {
      FlattenFrom(xss[..last], n);
      var i, p :| 0 <= i < last && 0 <= p < |xss[..last][i]| && front[n] == xss[..last][i][p];
      assert xss[..last][i] == xss[i];
    } else {
      assert Flatten(xss)[n] == xss[last][n - |front|];
    }
  }

  /** Every candidate of `cs` evaluates. */
  ghost predicate AllSucceed<K>(cs: seq<Candidate<K>>) {
    forall n :: 0 <= n < |cs| ==> cs[n].Success?
  }

  lemma AllSucceedSplit<K>(a: seq<Candidate<K>>, b: seq<Candidate<K>>)
    requires AllSucceed(a + b)
    ensures AllSucceed(a) && AllSucceed(b)
  {
    forall i | 0 <= i < |a| ensures a[i].Success? {
      assert a[i] == (a + b)[i];
    }
    forall i | 0 <= i < |b| ensures b[i].Success? {
      assert b[i] == (a + b)[|a| + i];
    }
  }

  /** The flattened candidates all evaluate exactly when those of every
      group do. */
  lemma {:induction false} FlattenSucceeds<K>(xss: seq<seq<Candidate<K>>>)
    ensures AllSucceed(Flatten(xss)) <==> forall i :: 0 <= i < |xss| ==> AllSucceed(xss[i])
    decreases |xss|
  {
    if xss != [] {
      if AllSucceed(Flatten(xss)) {
        forall i, p | 0 <= i < |xss| && 0 <= p < |xss[i]| ensures xss[i][p].Success? {
          FlattenAt(xss, i, p);
        }
      }
      if forall i :: 0 <= i < |xss| ==> AllSucceed(xss[i]) {
        forall n | 0 <= n < |Flatten(xss)| ensures Flatten(xss)[n].Success? {
          FlattenFrom(xss, n);
        }
      }
    }
  }

  /** A key no later candidate of its own group and no candidate of a later
      group carries is carried by no later candidate of the flattened
      sequence. */
  lemma FlattenLastKey<K>(xss: seq<seq<Candidate<K>>>, i: int, p: int, k: K, n: int)
    requires 0 <= i < |xss| && 0 <= p < |xss[i]| && n == |Flatten(xss[..i])| + p
    requires forall q :: p < q < |xss[i]| && xss[i][q].Success? ==> xss[i][q].value.0 != k
    requires k !in EmittedKeys(Flatten(xss[i + 1..]))
    ensures n < |Flatten(xss)|
    ensures k !in EmittedKeys(Flatten(xss)[n + 1..])
  {
    var a := Flatten(xss[..i]);
    var b := xss[i];
    var c := Flatten(xss[i + 1..]);
    assert Flatten(xss) == a + b + c by {
      assert xss == xss[..i + 1] + xss[i + 1..];
      FlattenConcat(xss[..i + 1], xss[i + 1..]);
      FlattenStep(xss, i);
    }
    var tail := b[p + 1..];
    assert (a + b + c)[|a| + p + 1..] == tail + c;
    EmittedKeysAt(tail, k);
    EmittedKeysConcat(tail, c);
  }

  lemma {:induction false} EmittedKeysConcat<K>(a: seq<Candidate<K>>, b: seq<Candidate<K>>)
    ensures EmittedKeys(a + b) == EmittedKeys(a) + EmittedKeys(b)
    decreases |b|
  {
    if b == [] {
      assert a + b == a;
    } else {
      var n := |b| - 1;
      assert (a + b)[..|a + b| - 1] == a + b[..n];
      EmittedKeysConcat(a, b[..n]);
    }
  }

  /** Last write wins over groups: the record a group emits for a key it
      emits once, and no later group emits, is the key's overall record. */
  lemma FlattenLastWins<K>(acc: Acc<K>, xss: seq<seq<Candidate<K>>>, i: int, p: int)
    requires EmitAll(acc, Flatten(xss)).failure.None?
    requires 0 <= i < |xss| && 0 <= p < |xss[i]| && xss[i][p].Success?
    requires forall q :: p < q < |xss[i]| && xss[i][q].Success? ==> xss[i][q].value.0 != xss[i][p].value.0
    requires xss[i][p].value.0 !in EmittedKeys(Flatten(xss[i + 1..]))
    ensures xss[i][p].value.0 in EmitAll(acc, Flatten(xss)).records
    ensures EmitAll(acc, Flatten(xss)).records[xss[i][p].value.0] == xss[i][p].value.1
  {
    var all := Flatten(xss);
    var n := |Flatten(xss[..i])| + p;
    FlattenAt(xss, i, p);
    var k := xss[i][p].value.0;
    assert all[n] == xss[i][p];
    FlattenLastKey(xss, i, p, k, n);
    EmitAllLastWins(acc, all, n);
  }
}
