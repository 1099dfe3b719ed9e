/** The second pass of the asymmetric collar: every pairing of a call strike
    at or above the stock ask with a put strike at or below it, keyed by the
    "{call}c/{put}p" tag and valued by the pair's expiration net
    (borrow_check.py:255-270). */
module Combinations {
  import opened Results
  import opened OrderedDict
  import opened Pricing
  import opened Chain

  /** The "{call}c/{put}p" key of an asymmetric collar. */
  datatype Tag = Tag(call: real, put: real)

  /** The strikes the outer loop keeps (no ITM calls), in table order. */
  function CallStrikes(strikes: seq<real>, stockAsk: real): seq<real>
    decreases |strikes|
  {
    if strikes == [] then []
    else
      var n := |strikes| - 1;
      CallStrikes(strikes[..n], stockAsk) + (if strikes[n] >= stockAsk then [strikes[n]] else [])
  }

  /** The strikes the inner loop keeps (no ITM puts), in table order. */
  function PutStrikes(strikes: seq<real>, stockAsk: real): seq<real>
    decreases |strikes|
  {
    if strikes == [] then []
    else
      var n := |strikes| - 1;
      PutStrikes(strikes[..n], stockAsk) + (if strikes[n] <= stockAsk then [strikes[n]] else [])
  }

  /** One call strike against every put strike. */
  function Row(call: real, puts: seq<real>): (r: seq<Tag>)
    ensures |r| == |puts|
    ensures forall i :: 0 <= i < |puts| ==> r[i] == Tag(call, puts[i])
  {
    seq(|puts|, i requires 0 <= i < |puts| => Tag(call, puts[i]))
  }

  /** Every call strike against every put strike, in the nested loops' order. */
  function Pairs(calls: seq<real>, puts: seq<real>): seq<Tag>
    decreases |calls|
  {
    if calls == [] then []
    else
      var n := |calls| - 1;
      Pairs(calls[..n], puts) + Row(calls[n], puts)
  }

  /** The expiration net of a pair, or the KeyError of its lookups: the call
      bid is read before the put ask. */
  function PairNet(t: PriceTable, stockAsk: real, tag: Tag): (r: Result<real, Error>)
    ensures r.Success? <==> LegsAt(t, tag.call).callBid.Some? && LegsAt(t, tag.put).putAsk.Some?
    ensures r.Failure? && LegsAt(t, tag.call).callBid.None? ==> r.error == MissingLeg(tag.call, CallBid)
    ensures r.Failure? && LegsAt(t, tag.call).callBid.Some? ==> r.error == MissingLeg(tag.put, PutAsk)
    ensures r.Success? ==> r.value == ExpirationNet(LegsAt(t, tag.call).callBid.value,
                                                    LegsAt(t, tag.put).putAsk.value, stockAsk, tag.put)
  {
    var callLegs := LegsAt(t, tag.call);
    var putLegs := LegsAt(t, tag.put);
    if callLegs.callBid.None? then Failure(MissingLeg(tag.call, CallBid))
    else if putLegs.putAsk.None? then Failure(MissingLeg(tag.put, PutAsk))
    else Success(ExpirationNet(callLegs.callBid.value, putLegs.putAsk.value, stockAsk, tag.put))
  }

  /** `otm_options_collar_combinations[tag] = expiration_net`, unless an
      earlier lookup already failed. */
  function AddPair(t: PriceTable, stockAsk: real, d: Result<Dict<Tag, real>, Error>, tag: Tag)
    : Result<Dict<Tag, real>, Error>
  {
    if d.Failure? then d
    else match PairNet(t, stockAsk, tag)
      case Failure(e) => Failure(e)
      case Success(net) => Success(SetItem(d.value, tag, net))
  }

  function AddPairs(t: PriceTable, stockAsk: real, d: Result<Dict<Tag, real>, Error>, tags: seq<Tag>)
    : Result<Dict<Tag, real>, Error>
    decreases |tags|
  {
    if tags == [] then d
    else
      var n := |tags| - 1;
      AddPair(t, stockAsk, AddPairs(t, stockAsk, d, tags[..n]), tags[n])
  }

  /** The combinations dictionary of one expiration, or the first KeyError. */
  function OtmCombinations(t: PriceTable, stockAsk: real): (r: Result<Dict<Tag, real>, Error>)
    requires Valid(t)
    ensures r.Success? ==> Valid(r.value)
  {
    var calls := CallStrikes(t.keys, stockAsk);
    var puts := PutStrikes(t.keys, stockAsk);
    var r := AddPairs(t, stockAsk, Success(Empty()), Pairs(calls, puts));
    if r.Failure? then r
    else
      CallStrikesMembers(t.keys, stockAsk);
      PutStrikesMembers(t.keys, stockAsk);
      PairsDistinct(calls, puts);
      AddPairsDict(t, stockAsk, Pairs(calls, puts));
      r
  }

  // ----- prefix facts used by the loop proof -----

  lemma {:induction false} CallStrikesPrefix(strikes: seq<real>, stockAsk: real, i: int)
    requires 0 <= i <= |strikes|
    ensures CallStrikes(strikes[..i], stockAsk) <= CallStrikes(strikes, stockAsk)
    decreases |strikes| - i
  {
    if i < |strikes| {
      var n := |strikes| - 1;
      assert strikes[..n][..i] == strikes[..i];
      CallStrikesPrefix(strikes[..n], stockAsk, i);
    } else {
      assert strikes[..i] == strikes;
    }
  }

  lemma {:induction false} PutStrikesPrefix(strikes: seq<real>, stockAsk: real, i: int)
    requires 0 <= i <= |strikes|
    ensures PutStrikes(strikes[..i], stockAsk) <= PutStrikes(strikes, stockAsk)
    decreases |strikes| - i
  {
    if i < |strikes| {
      var n := |strikes| - 1;
      assert strikes[..n][..i] == strikes[..i];
      PutStrikesPrefix(strikes[..n], stockAsk, i);
    } else {
      assert strikes[..i] == strikes;
    }
  }

  lemma {:induction false} PairsPrefix(calls: seq<real>, longer: seq<real>, puts: seq<real>)
    requires calls <= longer
    ensures Pairs(calls, puts) <= Pairs(longer, puts)
    decreases |longer|
  {
    if |calls| < |longer| {
      var n := |longer| - 1;
      assert calls <= longer[..n];
      PairsPrefix(calls, longer[..n], puts);
    } else {
      assert calls == longer;
    }
  }

  /** Once a lookup has failed, further pairs change nothing. */
  lemma {:induction false} AddPairsSticks(t: PriceTable, stockAsk: real, d: Result<Dict<Tag, real>, Error>,
                                          tags: seq<Tag>, longer: seq<Tag>)
    requires tags <= longer
    requires AddPairs(t, stockAsk, d, tags).Failure?
    ensures AddPairs(t, stockAsk, d, longer) == AddPairs(t, stockAsk, d, tags)
    decreases |longer|
  {
    if |tags| < |longer| {
      var n := |longer| - 1;
      assert tags <= longer[..n];
      AddPairsSticks(t, stockAsk, d, tags, longer[..n]);
    } else {
      assert tags == longer;
    }
  }

  lemma AddPairsAppend(t: PriceTable, stockAsk: real, d: Result<Dict<Tag, real>, Error>, tags: seq<Tag>, tag: Tag)
    ensures AddPairs(t, stockAsk, d, tags + [tag]) == AddPair(t, stockAsk, AddPairs(t, stockAsk, d, tags), tag)
  {
    assert (tags + [tag])[..|tags|] == tags;
  }

  /** One more step of the outer loop adds the row of its strike, if kept. */
  lemma PairsExtend(strikes: seq<real>, stockAsk: real, puts: seq<real>, i: int)
    requires 0 <= i < |strikes|
    ensures Pairs(CallStrikes(strikes[..i + 1], stockAsk), puts)
         == Pairs(CallStrikes(strikes[..i], stockAsk), puts)
            + (if strikes[i] >= stockAsk then Row(strikes[i], puts) else [])
  {
    assert strikes[..i + 1][..i] == strikes[..i];
    var calls := CallStrikes(strikes[..i], stockAsk);
    if strikes[i] >= stockAsk {
      assert CallStrikes(strikes[..i + 1], stockAsk) == calls + [strikes[i]];
      assert (calls + [strikes[i]])[..|calls|] == calls;
    } else {
      assert CallStrikes(strikes[..i + 1], stockAsk) == calls;
    }
  }

  /** One more step of the inner loop adds the pair of its strike, if kept. */
  lemma RowExtend(call: real, strikes: seq<real>, stockAsk: real, j: int)
    requires 0 <= j < |strikes|
    ensures Row(call, PutStrikes(strikes[..j + 1], stockAsk))
         == Row(call, PutStrikes(strikes[..j], stockAsk))
            + (if strikes[j] <= stockAsk then [Tag(call, strikes[j])] else [])
  {
    assert strikes[..j + 1][..j] == strikes[..j];
  }

  /** One kept put strike in the inner loop: the pair goes to the end of
      what is enumerated, and a failing lookup is the outcome of the rest. */
  lemma PairStep(t: PriceTable, stockAsk: real, call: real, before: seq<Tag>, j: int, done: seq<Tag>)
    requires 0 <= j < |t.keys| && t.keys[j] <= stockAsk
    requires done == before + Row(call, PutStrikes(t.keys[..j], stockAsk))
    ensures var tag := Tag(call, t.keys[j]);
            && done + [tag] == before + Row(call, PutStrikes(t.keys[..j + 1], stockAsk))
            && AddPairs(t, stockAsk, Success(Empty()), done + [tag])
               == AddPair(t, stockAsk, AddPairs(t, stockAsk, Success(Empty()), done), tag)
            && (AddPairs(t, stockAsk, Success(Empty()), done + [tag]).Failure? ==>
                AddPairs(t, stockAsk, Success(Empty()), before + Row(call, PutStrikes(t.keys, stockAsk)))
                == AddPairs(t, stockAsk, Success(Empty()), done + [tag]))
  {
    var tag := Tag(call, t.keys[j]);
    RowExtend(call, t.keys, stockAsk, j);
    AddPairsAppend(t, stockAsk, Success(Empty()), done, tag);
    var row := Row(call, PutStrikes(t.keys[..j], stockAsk));
    assert done + [tag] == before + (row + [tag]);
    if AddPairs(t, stockAsk, Success(Empty()), done + [tag]).Failure? {
      PutStrikesPrefix(t.keys, stockAsk, j + 1);
      AddPairsSticks(t, stockAsk, Success(Empty()), done + [tag],
                     before + Row(call, PutStrikes(t.keys, stockAsk)));
    }
  }

  /** The inner loop of the second pass, for one kept call strike: it pairs
      the call with every put strike at or below the stock ask. `before` is
      what the outer loop has enumerated so far. */
  method PairCallWithPuts(t: PriceTable, stockAsk: real, call: real, ghost before: seq<Tag>,
                          combos: Dict<Tag, real>) returns (r: Result<Dict<Tag, real>, Error>)
    requires AddPairs(t, stockAsk, Success(Empty()), before) == Success(combos)
    ensures r == AddPairs(t, stockAsk, Success(Empty()), before + Row(call, PutStrikes(t.keys, stockAsk)))
  {
    var strikes := t.keys;
    ghost var done := before;
    var acc := combos;
    var j := 0;
    assert strikes[..0] == [] && Row(call, []) == [];
    assert done == before + Row(call, PutStrikes(strikes[..0], stockAsk));
    while j < |strikes|
      invariant 0 <= j <= |strikes|
      invariant done == before + Row(call, PutStrikes(strikes[..j], stockAsk))
      invariant AddPairs(t, stockAsk, Success(Empty()), done) == Success(acc)
    {
      var put := strikes[j];
      if put <= stockAsk {
        var tag := Tag(call, put);
        PairStep(t, stockAsk, call, before, j, done);
        var net := PairNet(t, stockAsk, tag);
        if net.Failure? {
          return Failure(net.error);
        }
        assert AddPairs(t, stockAsk, Success(Empty()), done + [tag]) == Success(SetItem(acc, tag, net.value));
        acc := SetItem(acc, tag, net.value);
        done := done + [tag];
      } else {
        RowExtend(call, strikes, stockAsk, j);
        assert done == before + Row(call, PutStrikes(strikes[..j + 1], stockAsk));
      }
      j := j + 1;
    }
    assert strikes[..j] == strikes;
    r := Success(acc);
  }

  /** A lookup that fails within the first i strikes of the outer loop is
      the outcome of the whole second pass. */
  lemma PairsStop(t: PriceTable, stockAsk: real, i: int)
    requires 0 <= i <= |t.keys|
    requires AddPairs(t, stockAsk, Success(Empty()),
                      Pairs(CallStrikes(t.keys[..i], stockAsk), PutStrikes(t.keys, stockAsk))).Failure?
    ensures AddPairs(t, stockAsk, Success(Empty()), Pairs(CallStrikes(t.keys, stockAsk), PutStrikes(t.keys, stockAsk)))
         == AddPairs(t, stockAsk, Success(Empty()), Pairs(CallStrikes(t.keys[..i], stockAsk), PutStrikes(t.keys, stockAsk)))
  {
    var puts := PutStrikes(t.keys, stockAsk);
    CallStrikesPrefix(t.keys, stockAsk, i);
    PairsPrefix(CallStrikes(t.keys[..i], stockAsk), CallStrikes(t.keys, stockAsk), puts);
    AddPairsSticks(t, stockAsk, Success(Empty()), Pairs(CallStrikes(t.keys[..i], stockAsk), puts),
                   Pairs(CallStrikes(t.keys, stockAsk), puts));
  }

  /** The nested loops of the second pass. */
  method CollarCombinations(t: PriceTable, stockAsk: real) returns (r: Result<Dict<Tag, real>, Error>)
    requires Valid(t)
    ensures r == OtmCombinations(t, stockAsk)
  {
    var strikes := t.keys;
    ghost var puts := PutStrikes(strikes, stockAsk);
    ghost var done: seq<Tag> := [];
    var combos: Dict<Tag, real> := Empty();
    var i := 0;
    while i < |strikes|
      invariant 0 <= i <= |strikes|
      invariant done == Pairs(CallStrikes(strikes[..i], stockAsk), puts)
      invariant AddPairs(t, stockAsk, Success(Empty()), done) == Success(combos)
    {
      var call := strikes[i];
      PairsExtend(strikes, stockAsk, puts, i);
      if call >= stockAsk {
        var paired := PairCallWithPuts(t, stockAsk, call, done, combos);
        done := done + Row(call, puts);
        if paired.Failure? {
          PairsStop(t, stockAsk, i + 1);
          return paired;
        }
        combos := paired.value;
      }
      i := i + 1;
    }
    assert strikes[..i] == strikes;
    r := Success(combos);
  }

  // ----- what the second pass produces -----

  /** The kept call strikes are the table strikes at or above the stock ask. */
  lemma {:induction false} CallStrikesMembers(strikes: seq<real>, stockAsk: real)
    ensures forall x :: x in CallStrikes(strikes, stockAsk) <==> x in strikes && x >= stockAsk
    ensures Distinct(strikes) ==> Distinct(CallStrikes(strikes, stockAsk))
    decreases |strikes|
  {
    if strikes != [] {
      var n := |strikes| - 1;
      CallStrikesMembers(strikes[..n], stockAsk);
      assert strikes == strikes[..n] + [strikes[n]];
      if Distinct(strikes) && strikes[n] >= stockAsk {
        DistinctSplit(strikes);
        DistinctAppend(CallStrikes(strikes[..n], stockAsk), strikes[n]);
      }
    }
  }

  /** The kept put strikes are the table strikes at or below the stock ask. */
  lemma {:induction false} PutStrikesMembers(strikes: seq<real>, stockAsk: real)
    ensures forall x :: x in PutStrikes(strikes, stockAsk) <==> x in strikes && x <= stockAsk
    ensures Distinct(strikes) ==> Distinct(PutStrikes(strikes, stockAsk))
    decreases |strikes|
  {
    if strikes != [] {
      var n := |strikes| - 1;
      PutStrikesMembers(strikes[..n], stockAsk);
      assert strikes == strikes[..n] + [strikes[n]];
      if Distinct(strikes) && strikes[n] <= stockAsk {
        DistinctSplit(strikes);
        DistinctAppend(PutStrikes(strikes[..n], stockAsk), strikes[n]);
      }
    }
  }

  lemma {:induction false} PairsLength(calls: seq<real>, puts: seq<real>)
    ensures |Pairs(calls, puts)| == |calls| * |puts|
    decreases |calls|
  {
    if calls != [] {
      var n := |calls| - 1;
      PairsLength(calls[..n], puts);
      assert |Pairs(calls, puts)| == |Pairs(calls[..n], puts)| + |puts|;
      assert n * |puts| + |puts| == (n + 1) * |puts|;
    }
  }

  lemma {:induction false} PairsMembers(calls: seq<real>, puts: seq<real>)
    ensures forall tag :: tag in Pairs(calls, puts) <==> tag.call in calls && tag.put in puts
    decreases |calls|
  {
    if calls != [] {
      var n := |calls| - 1;
      PairsMembers(calls[..n], puts);
      assert calls == calls[..n] + [calls[n]];
      forall tag: Tag | tag in Row(calls[n], puts) ensures tag.call == calls[n] && tag.put in puts {
        var k :| 0 <= k < |puts| && Row(calls[n], puts)[k] == tag;
      }
      forall tag: Tag | tag.call == calls[n] && tag.put in puts ensures tag in Row(calls[n], puts) {
        var k :| 0 <= k < |puts| && puts[k] == tag.put;
        assert Row(calls[n], puts)[k] == tag;
      }
    }
  }

  lemma {:induction false} PairsDistinct(calls: seq<real>, puts: seq<real>)
    requires Distinct(calls) && Distinct(puts)
    ensures Distinct(Pairs(calls, puts))
    decreases |calls|
  {
    if calls != [] {
      var n := |calls| - 1;
      var front := calls[..n];
      assert Distinct(front);
      PairsDistinct(front, puts);
      PairsMembers(front, puts);
      var a := Pairs(front, puts);
      var b := Row(calls[n], puts);
      assert forall x :: x in a ==> x.call in front;
      assert calls[n] !in front;
      forall i, j | 0 <= i < j < |a + b| ensures (a + b)[i] != (a + b)[j] {
        if j < |a| {
        } else if i >= |a| {
          assert b[i - |a|].put != b[j - |a|].put;
        } else {
          assert (a + b)[i] in a;
        }
      }
    }
  }

  /** Enumerating pairs fails exactly when one of the pairs has a missing leg. */
  lemma {:induction false} AddPairsSucceed(t: PriceTable, stockAsk: real, tags: seq<Tag>)
    ensures AddPairs(t, stockAsk, Success(Empty()), tags).Success?
        <==> forall i :: 0 <= i < |tags| ==> PairNet(t, stockAsk, tags[i]).Success?
    decreases |tags|
  {
    if tags != [] {
      var n := |tags| - 1;
      var front := tags[..n];
      AddPairsSucceed(t, stockAsk, front);
      var prev := AddPairs(t, stockAsk, Success(Empty()), front);
      assert AddPairs(t, stockAsk, Success(Empty()), tags) == AddPair(t, stockAsk, prev, tags[n]);
      AddPairSucceeds(t, stockAsk, prev, tags[n]);
      forall i | 0 <= i < n ensures front[i] == tags[i] {
      }
    }
  }

  /** One step of the second pass succeeds exactly when the steps before it
      did and its own lookup does. */
  lemma AddPairSucceeds(t: PriceTable, stockAsk: real, prev: Result<Dict<Tag, real>, Error>, tag: Tag)
    ensures AddPair(t, stockAsk, prev, tag).Success? <==> prev.Success? && PairNet(t, stockAsk, tag).Success?
  {
  }

  /** One successful pair added under a new key keeps every stored net equal to
      that pair's lookup. */
  lemma AddPairNew(t: PriceTable, stockAsk: real, prev: Dict<Tag, real>, tag: Tag)
    requires Valid(prev) && tag !in prev.entries && PairNet(t, stockAsk, tag).Success?
    requires forall x :: x in prev.entries ==> PairNet(t, stockAsk, x) == Success(prev.entries[x])
    ensures var r := AddPair(t, stockAsk, Success(prev), tag);
            && r.Success? && Valid(r.value) && r.value.keys == prev.keys + [tag]
            && forall x :: x in r.value.entries ==> PairNet(t, stockAsk, x) == Success(r.value.entries[x])
  {
    var d := SetItem(prev, tag, PairNet(t, stockAsk, tag).value);
    assert AddPair(t, stockAsk, Success(prev), tag) == Success(d);
    forall x | x in d.entries ensures PairNet(t, stockAsk, x) == Success(d.entries[x]) {
      if x != tag {
        assert x in prev.entries && d.entries[x] == prev.entries[x];
      }
    }
  }

  /** Enumerating distinct pairs with no lookup failure: the combinations
      dictionary is exactly the pairs in order, each with its expiration net. */
  lemma {:induction false} AddPairsDict(t: PriceTable, stockAsk: real, tags: seq<Tag>)
    requires Distinct(tags)
    requires AddPairs(t, stockAsk, Success(Empty()), tags).Success?
    ensures var d := AddPairs(t, stockAsk, Success(Empty()), tags).value;
            && Valid(d) && d.keys == tags
            && forall tag :: tag in d.entries ==> PairNet(t, stockAsk, tag) == Success(d.entries[tag])
    decreases |tags|
  {
    if tags != [] {
      var n := |tags| - 1;
      var front := tags[..n];
      DistinctSplit(tags);
      var prev := AddPairs(t, stockAsk, Success(Empty()), front);
      assert AddPairs(t, stockAsk, Success(Empty()), tags) == AddPair(t, stockAsk, prev, tags[n]);
      assert prev.Success? && PairNet(t, stockAsk, tags[n]).Success?;
      AddPairsDict(t, stockAsk, front);
      assert tags[n] !in prev.value.entries by {
        assert prev.value.keys == front;
      }
      AddPairNew(t, stockAsk, prev.value, tags[n]);
      SnocSplit(tags);
    }
  }

  /** Every kept call strike has a call bid and every kept put strike a put
      ask, for each pair the nested loops visit. */
  ghost predicate LegsPresent(t: PriceTable, calls: seq<real>, puts: seq<real>) {
    forall c, p :: c in calls && p in puts ==> LegsAt(t, c).callBid.Some? && LegsAt(t, p).putAsk.Some?
  }

  lemma AllLegsPresent(t: PriceTable, stockAsk: real, calls: seq<real>, puts: seq<real>)
    requires LegsPresent(t, calls, puts)
    ensures forall i :: 0 <= i < |Pairs(calls, puts)| ==> PairNet(t, stockAsk, Pairs(calls, puts)[i]).Success?
  {
    var all := Pairs(calls, puts);
    PairsMembers(calls, puts);
    forall i | 0 <= i < |all| ensures PairNet(t, stockAsk, all[i]).Success? {
      var tag := all[i];
      assert tag in all;
      assert tag.call in calls && tag.put in puts;
    }
  }

  lemma OneLegMissing(t: PriceTable, stockAsk: real, calls: seq<real>, puts: seq<real>, c: real, p: real)
    requires c in calls && p in puts
    requires !(LegsAt(t, c).callBid.Some? && LegsAt(t, p).putAsk.Some?)
    ensures exists i :: 0 <= i < |Pairs(calls, puts)| && !PairNet(t, stockAsk, Pairs(calls, puts)[i]).Success?
  {
    var all := Pairs(calls, puts);
    PairsMembers(calls, puts);
    assert Tag(c, p) in all;
    var i :| 0 <= i < |all| && all[i] == Tag(c, p);
    assert !PairNet(t, stockAsk, all[i]).Success?;
  }

  /** The second pass fails exactly when a kept call strike has no call bid or
      a kept put strike has no put ask (and both kinds of kept strike exist). */
  lemma CombinationsSucceed(t: PriceTable, stockAsk: real)
    requires Valid(t)
    ensures OtmCombinations(t, stockAsk).Success?
            <==> LegsPresent(t, CallStrikes(t.keys, stockAsk), PutStrikes(t.keys, stockAsk))
  {
    var calls := CallStrikes(t.keys, stockAsk);
    var puts := PutStrikes(t.keys, stockAsk);
    AddPairsSucceed(t, stockAsk, Pairs(calls, puts));
    if LegsPresent(t, calls, puts) {
      AllLegsPresent(t, stockAsk, calls, puts);
      assert OtmCombinations(t, stockAsk).Success?;
    } else if OtmCombinations(t, stockAsk).Success? {
      forall c, p | c in calls && p in puts
        ensures LegsAt(t, c).callBid.Some? && LegsAt(t, p).putAsk.Some?
      {
        if !(LegsAt(t, c).callBid.Some? && LegsAt(t, p).putAsk.Some?) {
          OneLegMissing(t, stockAsk, calls, puts, c, p);
        }
      }
    }
  }

  /** When the second pass succeeds, the combinations are every pair of a
      table strike at or above the stock ask with one at or below it, in loop
      order and each once: their number is the product of the two counts,
      and each is valued by the expiration net of its call bid, its put ask
      and its put strike. */
  lemma CombinationsContents(t: PriceTable, stockAsk: real)
    requires Valid(t)
    requires OtmCombinations(t, stockAsk).Success?
    ensures var d := OtmCombinations(t, stockAsk).value;
            var calls := CallStrikes(t.keys, stockAsk);
            var puts := PutStrikes(t.keys, stockAsk);
            && Valid(d)
            && d.keys == Pairs(calls, puts)
            && |d.keys| == |calls| * |puts|
            && (forall tag :: tag in d.entries <==>
                  tag.call in t.entries && tag.call >= stockAsk && tag.put in t.entries && tag.put <= stockAsk)
            && (forall tag :: tag in d.entries ==>
                  && LegsAt(t, tag.call).callBid.Some? && LegsAt(t, tag.put).putAsk.Some?
                  && d.entries[tag] == ExpirationNet(LegsAt(t, tag.call).callBid.value,
                                                     LegsAt(t, tag.put).putAsk.value, stockAsk, tag.put))
  {
    var d := OtmCombinations(t, stockAsk).value;
    var calls := CallStrikes(t.keys, stockAsk);
    var puts := PutStrikes(t.keys, stockAsk);
    var all := Pairs(calls, puts);
    CallStrikesMembers(t.keys, stockAsk);
    PutStrikesMembers(t.keys, stockAsk);
    PairsDistinct(calls, puts);
    PairsLength(calls, puts);
    AddPairsDict(t, stockAsk, all);
    assert Valid(d) && d.keys == all;
    forall tag ensures tag in d.entries <==>
        tag.call in t.entries && tag.call >= stockAsk && tag.put in t.entries && tag.put <= stockAsk
    {
      PairsMembers(calls, puts);
      assert tag in d.entries <==> tag in all;
    }
    forall tag | tag in d.entries
      ensures && LegsAt(t, tag.call).callBid.Some? && LegsAt(t, tag.put).putAsk.Some?
              && d.entries[tag] == ExpirationNet(LegsAt(t, tag.call).callBid.value,
                                                 LegsAt(t, tag.put).putAsk.value, stockAsk, tag.put)
    {
      assert PairNet(t, stockAsk, tag) == Success(d.entries[tag]);
    }
  }
}
