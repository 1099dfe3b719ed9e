/** The per-candidate arithmetic of a collar: the share-lending payout, the
    net premium of the two legs, the cost of the trade and what is derived
    from it (borrow_check.py, module constants and the formulas shared by
    both pricing methods). Decimal values are exact reals here. */
module Pricing {
  import opened Results

  /** A one-lot contract costs at least one dollar per action. */
  const OptionContractCost: int := 1
  /** Actions needed to run a collar without pin risk. */
  const ContractActionsPerCollar: int := 4
  /** The annual fee rate is only paid out on trading days. */
  const LoanAdjustedRate: real := 253.0 / 365.0
  /** The broker pays the lender half of the borrow rate. */
  const FeeSplit: real := 0.5
  /** Shares per option contract. */
  const ContractSize: int := 100

  /** Which price of which leg a lookup wanted. */
  datatype Leg = CallBid | PutAsk

  /** The two ways a pricing run stops: a strike whose call bid or put ask
      was never recorded (KeyError), or a Decimal division by zero. */
  datatype Error = MissingLeg(strike: real, leg: Leg) | ZeroDivisor

  datatype Moneyness = Itm | Otm

  /** The `strike` column: one strike, or the "{call}c/{put}p" pair. */
  datatype StrikeLabel = Strike(strike: real) | Combination(call: real, put: real)

  /** One evaluated collar, with the fields in the order the source stores
      them; the money and percentage fields are kept as exact numbers. */
  datatype CollarRecord = CollarRecord(
    daysToProfit: int,
    annualizedPerformance: real,
    breakevenBorrowRate: real,
    callMoneyness: Moneyness,
    estimatedPayout: real,
    costPerDay: real,
    expirationNet: real,
    strike: StrikeLabel,
    expirationDate: string,
    profitable: bool)

  /** The stock ask and the two trader-supplied rates, as fractions. */
  datatype Market = Market(stockAsk: real, util: real, borrowRate: real)

  function DailyPayoutPerShare(stockAsk: real, borrowRate: real): real {
    ((stockAsk * (borrowRate * FeeSplit)) / 365.0) * LoanAdjustedRate
  }

  /** Daily lending income of the 100 shares behind one contract. It is zero
      exactly when one of its three factors is, and positive when all are. */
  function DailyPayout(stockAsk: real, borrowRate: real, util: real): (r: real)
    ensures r == 0.0 <==> stockAsk == 0.0 || borrowRate == 0.0 || util == 0.0
    ensures stockAsk > 0.0 && borrowRate > 0.0 && util > 0.0 ==> r > 0.0
  {
    (DailyPayoutPerShare(stockAsk, borrowRate) * util) * ContractSize as real
  }

  function MarketDailyPayout(m: Market): real {
    DailyPayout(m.stockAsk, m.borrowRate, m.util)
  }

  function OptionsFeesPaid(): real {
    (OptionContractCost * ContractActionsPerCollar) as real
  }

  function BuyingPower(stockAsk: real): real {
    stockAsk * ContractSize as real
  }

  /** Net premium of selling the call and buying the put, per contract,
      adjusted by what the stock gains or loses down to the put strike:
      positive for a credit, negative for a debit. */
  function ExpirationNet(callBid: real, putAsk: real, stockAsk: real, strike: real): (r: real)
    ensures r > 0.0 <==> callBid - putAsk > stockAsk - strike
    ensures r == 0.0 <==> callBid - putAsk == stockAsk - strike
  {
    ((callBid - putAsk) - (stockAsk - strike)) * ContractSize as real
  }

  function Abs(x: real): real {
    if x < 0.0 then -x else x
  }

  /** A credit costs nothing; a debit costs its size plus the fees. */
  function CostOfTrade(net: real): (r: real)
    ensures r >= 0.0
    ensures net > 0.0 ==> r == 0.0
    ensures net <= 0.0 ==> r == OptionsFeesPaid() - net && r >= OptionsFeesPaid()
  {
    if net > 0.0 then 0.0 else Abs(net - OptionsFeesPaid())
  }

  /** The cost spread over the days remaining; on a day count of zero the
      whole cost falls on that day. A negative day count gives a negative
      cost per day for a debit. */
  function CostPerDay(net: real, days: int): (r: real)
    ensures net > 0.0 ==> r == 0.0
    ensures days == 0 ==> r == CostOfTrade(net)
    ensures days != 0 ==> r * days as real == CostOfTrade(net)
    ensures days >= 0 ==> r >= 0.0
    ensures days < 0 && net <= 0.0 ==> r < 0.0
  {
    if net > 0.0 then 0.0
    else if days == 0 then CostOfTrade(net)
    else CostOfTrade(net) / days as real
  }

  /** Lending income up to expiration minus the cost of the trade: all of
      it for a credit, less at least the fees for a debit. */
  function NetPayout(daily: real, days: int, net: real): (r: real)
    ensures r <= daily * days as real
    ensures net > 0.0 ==> r == daily * days as real
    ensures net <= 0.0 ==> r <= daily * days as real - OptionsFeesPaid()
  {
    daily * days as real - CostOfTrade(net)
  }

  /** Daily income net of the daily cost, as a yearly percentage of the
      capital that buys the shares. */
  function AnnualizedPerformance(daily: real, perDay: real, stockAsk: real): (r: real)
    requires stockAsk != 0.0
    ensures r * BuyingPower(stockAsk) == (daily - perDay) * 36500.0
    ensures stockAsk > 0.0 ==> (r > 0.0 <==> daily > perDay)
  {
    ((daily - perDay) / BuyingPower(stockAsk)) * 36500.0
  }

  /** The borrow rate, in percent, at which a fully utilized position would
      earn exactly the cost per day. */
  function BreakevenBorrowRate(perDay: real, stockAsk: real): (r: real)
    requires stockAsk != 0.0
    ensures DailyPayout(stockAsk, r / 100.0, 1.0) == perDay
    ensures perDay == 0.0 ==> r == 0.0
    ensures stockAsk > 0.0 && perDay >= 0.0 ==> r >= 0.0
  {
    (((perDay / BuyingPower(stockAsk)) * 36500.0) / FeeSplit) / LoanAdjustedRate
  }

  /** `math.ceil`: the least integer at or above x. */
  function Ceil(x: real): (r: int)
    ensures r as real >= x && (r - 1) as real < x
  {
    -((-x).Floor)
  }

  /** Days of lending income needed to pay for the trade. */
  function DaysToProfit(cost: real, daily: real): (r: int)
    requires daily != 0.0
    ensures cost == 0.0 ==> r == 0
    ensures daily > 0.0 ==> r as real * daily >= cost && (r - 1) as real * daily < cost
    ensures daily > 0.0 && cost > 0.0 ==> r >= 1
  {
    if daily > 0.0 then
      CeilQuotient(cost, daily);
      Ceil(cost / daily)
    else
      Ceil(cost / daily)
  }

  /** The rounded-up quotient, multiplied back, covers the dividend, and one
      less does not. */
  lemma CeilQuotient(cost: real, daily: real)
    requires daily > 0.0
    ensures Ceil(cost / daily) as real * daily >= cost
    ensures (Ceil(cost / daily) - 1) as real * daily < cost
    ensures cost > 0.0 ==> Ceil(cost / daily) >= 1
  {
    var q := cost / daily;
    var r := Ceil(q);
    QuotientScales(cost, daily);
    ScaleNonStrict(q, r as real, daily, cost);
    ScaleStrict((r - 1) as real, q, daily, cost);
    assert cost > 0.0 ==> q > 0.0;
  }

  /** Dividing by a positive number and multiplying back is the identity. */
  lemma QuotientScales(x: real, d: real)
    requires d > 0.0
    ensures (x / d) * d == x
  {
  }

  lemma ScaleNonStrict(a: real, b: real, d: real, c: real)
    requires a <= b && d > 0.0 && a * d == c
    ensures c <= b * d
  {
    ProductNonNegative(b - a, d);
  }

  lemma ScaleStrict(a: real, b: real, d: real, c: real)
    requires a < b && d > 0.0 && b * d == c
    ensures a * d < c
  {
    ProductPositive(b - a, d);
  }

  lemma ProductNonNegative(e: real, d: real)
    requires e >= 0.0 && d > 0.0
    ensures e * d >= 0.0
  {
  }

  lemma ProductPositive(e: real, d: real)
    requires e > 0.0 && d > 0.0
    ensures e * d > 0.0
  {
  }

  function Profitable(daysToProfit: int, days: int): bool {
    daysToProfit < days
  }

  function CallMoneyness(strike: real, stockAsk: real): Moneyness {
    if strike < stockAsk then Itm else Otm
  }

  /** The record of one candidate with net premium `net` and `days`
      days remaining. Decimal division by the buying power or by the daily
      payout fails when either is zero. */
  function Evaluate(m: Market, net: real, days: int, moneyness: Moneyness,
                    strikeLabel: StrikeLabel, date: string): (r: Result<CollarRecord, Error>)
    ensures r.Success? <==> MarketDailyPayout(m) != 0.0
    ensures r.Failure? ==> r.error == ZeroDivisor
    ensures r.Success? ==> && r.value.expirationNet == net
                           && r.value.callMoneyness == moneyness
                           && r.value.strike == strikeLabel
                           && r.value.expirationDate == date
  {
    var daily := MarketDailyPayout(m);
    if BuyingPower(m.stockAsk) == 0.0 || daily == 0.0 then Failure(ZeroDivisor)
    else
      var cost := CostOfTrade(net);
      var perDay := CostPerDay(net, days);
      var toProfit := DaysToProfit(cost, daily);
      Success(CollarRecord(
        toProfit,
        AnnualizedPerformance(daily, perDay, m.stockAsk),
        BreakevenBorrowRate(perDay, m.stockAsk),
        moneyness,
        NetPayout(daily, days, net),
        perDay,
        net,
        strikeLabel,
        date,
        Profitable(toProfit, days)))
  }

  /** No smaller whole number of days pays for the trade. */
  lemma DaysToProfitIsLeast(cost: real, daily: real, n: int)
    requires daily > 0.0
    requires n as real * daily >= cost
    ensures n >= DaysToProfit(cost, daily)
  {
    var d := DaysToProfit(cost, daily);
    assert (n - (d - 1)) as real * daily > 0.0;
  }

  /** A trade is flagged profitable exactly when, once it has paid for
      itself, at least one more full day of income is left: the day on which
      the trade breaks even does not count. */
  lemma ProfitableIffSpareDay(net: real, days: int, daily: real)
    requires daily > 0.0
    ensures Profitable(DaysToProfit(CostOfTrade(net), daily), days)
        <==> NetPayout(daily, days, net) >= daily
  {
    var cost := CostOfTrade(net);
    var d := DaysToProfit(cost, daily);
    if d < days {
      assert ((days - 1) - d) as real * daily >= 0.0;
    } else if NetPayout(daily, days, net) >= daily {
      DaysToProfitIsLeast(cost, daily, days - 1);
    }
  }

  /** What the day-count fields of an evaluated candidate mean, in terms of
      its net premium and the daily payout. */
  lemma EvaluateProfit(m: Market, net: real, days: int, moneyness: Moneyness,
                       strikeLabel: StrikeLabel, date: string)
    requires Evaluate(m, net, days, moneyness, strikeLabel, date).Success?
    ensures var r := Evaluate(m, net, days, moneyness, strikeLabel, date).value;
            var daily := MarketDailyPayout(m);
            && r.daysToProfit == DaysToProfit(CostOfTrade(net), daily)
            && r.costPerDay == CostPerDay(net, days)
            && (r.profitable <==> r.daysToProfit < days)
            && (days >= 0 ==> r.costPerDay >= 0.0)
            && (net > 0.0 ==> && r.costPerDay == 0.0 && r.daysToProfit == 0
                              && r.estimatedPayout == daily * days as real
                              && (r.profitable <==> days > 0))
            && (net <= 0.0 ==> r.estimatedPayout == daily * days as real - (OptionsFeesPaid() - net))
            && (daily > 0.0 && net <= 0.0 ==> r.daysToProfit >= 1)
            && (daily > 0.0 ==> (r.profitable <==> r.estimatedPayout >= daily))
  {
    var daily := MarketDailyPayout(m);
    var r := Evaluate(m, net, days, moneyness, strikeLabel, date).value;
    var cost := CostOfTrade(net);
    assert && r.daysToProfit == DaysToProfit(cost, daily)
           && r.costPerDay == CostPerDay(net, days)
           && r.estimatedPayout == daily * days as real - cost
           && r.profitable == (r.daysToProfit < days);
    if daily > 0.0 {
      ProfitableIffSpareDay(net, days, daily);
    }
  }

  /** What the rate fields of an evaluated candidate mean: the breakeven rate
      is the borrow rate whose payout at full utilization equals the cost per
      day, and the annualized performance is the yearly margin over the
      buying power, in percent. */
  lemma EvaluateRates(m: Market, net: real, days: int, moneyness: Moneyness,
                      strikeLabel: StrikeLabel, date: string)
    requires Evaluate(m, net, days, moneyness, strikeLabel, date).Success?
    ensures var r := Evaluate(m, net, days, moneyness, strikeLabel, date).value;
            var daily := MarketDailyPayout(m);
            && DailyPayout(m.stockAsk, r.breakevenBorrowRate / 100.0, 1.0) == r.costPerDay
            && (net > 0.0 ==> r.breakevenBorrowRate == 0.0)
            && r.annualizedPerformance * BuyingPower(m.stockAsk) == (daily - r.costPerDay) * 36500.0
            && (m.stockAsk > 0.0 ==> (r.annualizedPerformance > 0.0 <==> daily > r.costPerDay))
  {
    var r := Evaluate(m, net, days, moneyness, strikeLabel, date).value;
    assert r.costPerDay == CostPerDay(net, days);
  }
}
