/** The market snapshot the engine reads, and the first pass both pricing
    methods make over one expiration's chain: merging the call and put rows
    into one table keyed by strike (borrow_check.py:157-162, 245-250). */
module Chain {
  import opened Results
  import opened OrderedDict

  /** The `option_type` of a row; the chain API only sends "call" and "put". */
  datatype OptionType = Call | Put | OtherType

  /** One contract of the chain. */
  datatype OptionRow = OptionRow(strike: real, optionType: OptionType, bid: real, ask: real, symbol: string)

  /** One expiration with its chain. `daysRemaining` stands for the whole days
      of `strptime(date) - now()`, taken as given. */
  datatype Expiration = Expiration(date: string, daysRemaining: int, rows: seq<OptionRow>)

  /** The stock quote's ask, and the chains in the order queried. */
  datatype Snapshot = Snapshot(stockAsk: real, expirations: seq<Expiration>)

  /** The inner dict of a strike: `call_bid` and `put_ask`, each possibly unset. */
  datatype Legs = Legs(callBid: Option<real>, putAsk: Option<real>)

  /** `options_bid_ask_prices`, a `defaultdict(dict)` keyed by strike. */
  type PriceTable = Dict<real, Legs>

  /** Subscripting the defaultdict: an unseen strike reads as an empty dict. */
  function LegsAt(t: PriceTable, strike: real): Legs {
    if strike in t.entries then t.entries[strike] else Legs(None, None)
  }

  /** One step of the first pass. */
  function RecordRow(t: PriceTable, row: OptionRow): PriceTable {
    match row.optionType
    case Call => SetItem(t, row.strike, LegsAt(t, row.strike).(callBid := Some(row.bid)))
    case Put => SetItem(t, row.strike, LegsAt(t, row.strike).(putAsk := Some(row.ask)))
    case OtherType => t
  }

  /** The table after the first pass over `rows`. */
  function Prices(rows: seq<OptionRow>): (t: PriceTable)
    ensures Valid(t)
    decreases |rows|
  {
    if rows == [] then Empty() else RecordRow(Prices(rows[..|rows| - 1]), rows[|rows| - 1])
  }

  /** The first pass as the source runs it, one row at a time. */
  method BuildPriceTable(rows: seq<OptionRow>) returns (t: PriceTable)
    ensures t == Prices(rows)
  {
    t := Empty();
    var i := 0;
    while i < |rows|
      invariant 0 <= i <= |rows|
      invariant t == Prices(rows[..i])
    {
      var row := rows[i];
      if row.optionType == Call {
        t := SetItem(t, row.strike, LegsAt(t, row.strike).(callBid := Some(row.bid)));
      } else if row.optionType == Put {
        t := SetItem(t, row.strike, LegsAt(t, row.strike).(putAsk := Some(row.ask)));
      }
      assert rows[..i + 1][..i] == rows[..i];
      i := i + 1;
    }
    assert rows[..|rows|] == rows;
  }

  ghost predicate IsCallAt(rows: seq<OptionRow>, i: int, k: real) {
    0 <= i < |rows| && rows[i].optionType == Call && rows[i].strike == k
  }

  ghost predicate IsPutAt(rows: seq<OptionRow>, i: int, k: real) {
    0 <= i < |rows| && rows[i].optionType == Put && rows[i].strike == k
  }

  /** Row i is the last call row at strike k. */
  ghost predicate IsLastCallAt(rows: seq<OptionRow>, i: int, k: real) {
    IsCallAt(rows, i, k) && forall j :: i < j < |rows| ==> !IsCallAt(rows, j, k)
  }

  /** Row i is the last put row at strike k. */
  ghost predicate IsLastPutAt(rows: seq<OptionRow>, i: int, k: real) {
    IsPutAt(rows, i, k) && forall j :: i < j < |rows| ==> !IsPutAt(rows, j, k)
  }

  /** One first-pass step changes only the legs of the row's own strike. */
  lemma RecordRowLegs(t: PriceTable, row: OptionRow, k: real)
    ensures k in RecordRow(t, row).entries <==> k in t.entries || (k == row.strike && row.optionType != OtherType)
    ensures LegsAt(RecordRow(t, row), k).callBid
         == if k == row.strike && row.optionType == Call then Some(row.bid) else LegsAt(t, k).callBid
    ensures LegsAt(RecordRow(t, row), k).putAsk
         == if k == row.strike && row.optionType == Put then Some(row.ask) else LegsAt(t, k).putAsk
  {
  }

  /** Row i is a call or a put at strike k. */
  ghost predicate IsLegAt(rows: seq<OptionRow>, i: int, k: real) {
    0 <= i < |rows| && rows[i].strike == k && rows[i].optionType != OtherType
  }

  /** The table holds exactly the strikes that some call or put row has. */
  lemma {:induction false} PricesStrikes(rows: seq<OptionRow>, k: real)
    ensures k in Prices(rows).entries <==> exists i :: IsLegAt(rows, i, k)
    decreases |rows|
  {
    if rows != [] {
      var n := |rows| - 1;
      var p := rows[..n];
      PricesStrikes(p, k);
      RecordRowLegs(Prices(p), rows[n], k);
      forall i ensures IsLegAt(p, i, k) <==> i < n && IsLegAt(rows, i, k) {
        if 0 <= i < n {
          assert p[i] == rows[i];
        }
      }
      if exists i :: IsLegAt(rows, i, k) {
        var i :| IsLegAt(rows, i, k);
        assert i == n || IsLegAt(p, i, k);
      }
      if k in Prices(p).entries {
        var i :| IsLegAt(p, i, k);
        assert IsLegAt(rows, i, k);
      }
      if k == rows[n].strike && rows[n].optionType != OtherType {
        assert IsLegAt(rows, n, k);
      }
    }
  }

  /** The strikes of the call and put rows, in row order, repeats included. */
  ghost function LegStrikes(rows: seq<OptionRow>): seq<real>
    decreases |rows|
  {
    if rows == [] then []
    else
      var n := |rows| - 1;
      LegStrikes(rows[..n]) + (if rows[n].optionType != OtherType then [rows[n].strike] else [])
  }

  /** The table lists its strikes in the order in which a call or put row
      first names them: a later row at a known strike keeps its place. */
  lemma {:induction false} PricesOrder(rows: seq<OptionRow>)
    ensures Prices(rows).keys == Dedup(LegStrikes(rows))
    decreases |rows|
  {
    if rows != [] {
      var n := |rows| - 1;
      var p := rows[..n];
      var t := Prices(p);
      PricesOrder(p);
      assert Prices(rows) == RecordRow(t, rows[n]);
      if rows[n].optionType != OtherType {
        var k := rows[n].strike;
        assert LegStrikes(rows) == LegStrikes(p) + [k];
        DedupSnoc(LegStrikes(p), k);
        assert k in t.entries <==> k in t.keys;
      } else {
        assert LegStrikes(rows) == LegStrikes(p);
      }
    }
  }

  /** A strike's call bid is unset exactly when no call row has that strike,
      and otherwise it is the bid of the last such row: later rows overwrite
      earlier ones. */
  lemma {:induction false} PricesCallBid(rows: seq<OptionRow>, k: real)
    ensures LegsAt(Prices(rows), k).callBid.None? <==> forall i :: !IsCallAt(rows, i, k)
    ensures forall i :: IsLastCallAt(rows, i, k) ==> LegsAt(Prices(rows), k).callBid == Some(rows[i].bid)
    decreases |rows|
  {
    if rows != [] {
      var n := |rows| - 1;
      var p := rows[..n];
      PricesCallBid(p, k);
      RecordRowLegs(Prices(p), rows[n], k);
      assert Prices(rows) == RecordRow(Prices(p), rows[n]);
      forall i ensures IsCallAt(p, i, k) <==> i < n && IsCallAt(rows, i, k) {
        if 0 <= i < n {
          assert p[i] == rows[i];
        }
      }
      if IsCallAt(rows, n, k) {
        forall i | IsLastCallAt(rows, i, k) ensures i == n {
        }
      } else {
        forall i | IsLastCallAt(rows, i, k) ensures IsLastCallAt(p, i, k) {
        }
      }
    }
  }

  /** A strike's put ask is unset exactly when no put row has that strike,
      and otherwise it is the ask of the last such row. */
  lemma {:induction false} PricesPutAsk(rows: seq<OptionRow>, k: real)
    ensures LegsAt(Prices(rows), k).putAsk.None? <==> forall i :: !IsPutAt(rows, i, k)
    ensures forall i :: IsLastPutAt(rows, i, k) ==> LegsAt(Prices(rows), k).putAsk == Some(rows[i].ask)
    decreases |rows|
  {
    if rows != [] {
      var n := |rows| - 1;
      var p := rows[..n];
      PricesPutAsk(p, k);
      RecordRowLegs(Prices(p), rows[n], k);
      assert Prices(rows) == RecordRow(Prices(p), rows[n]);
      forall i ensures IsPutAt(p, i, k) <==> i < n && IsPutAt(rows, i, k) {
        if 0 <= i < n {
          assert p[i] == rows[i];
        }
      }
      if IsPutAt(rows, n, k) {
        forall i | IsLastPutAt(rows, i, k) ensures i == n {
        }
      } else {
        forall i | IsLastPutAt(rows, i, k) ensures IsLastPutAt(p, i, k) {
        }
      }
    }
  }
}
