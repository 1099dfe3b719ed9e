# Collar pricing and ranking engine of `borrow_check.py`

`borrow_check.py` prices option collars on a stock the user lends out. A
collar here means selling a call and buying a put. The program prices them
against the stock's share-lending income and shows the five least risky and
the five most profitable ones. This project models its core in Dafny:

- the module constants and the per-candidate arithmetic: daily lending
  payout, expiration net, cost of trade, cost per day, net payout,
  annualized performance, breakeven borrow rate, days to profit and the
  profitable flag (`pricing.dfy`);
- the first pass over an expiration's chain. It merges the call and put rows
  into a price table keyed by strike (`chain.dfy`);
- the asymmetric second pass, which enumerates every call strike at or above
  the stock ask against every put strike at or below it (`combinations.dfy`);
- how both pricing methods store each evaluated candidate in
  `trades_by_risk`, `trades_by_profit` and the instance's overall data
  (`accumulate.dfy`), and the two methods themselves (`symmetric.dfy`,
  `asymmetric.dfy`);
- the `Calculations` class. It is a Dafny `class` whose two overall-data
  dictionaries are fields updated in place by loops that follow the
  source's loops (`calculations.dfy`);
- the ranking at the end of the run. It sorts the result dictionaries with
  a stable sort, ascending by days to profit and descending by estimated
  payout, and picks the first five overall records of each (`ranking.dfy`,
  `report.dfy`).

Python's `Decimal` is modelled as exact `real`. The price table, the
combinations dictionary and the two result dictionaries `trades_by_risk`
and `trades_by_profit` are modelled as `OrderedDict.Dict`: a key order plus
a map, where assigning to an existing key keeps its place. The order of the
result dictionaries decides how ties fall in the stable sort, and lemmas
state it: keys appear in the order a candidate first carries them
(`Accumulate.EmitAllOrder`, `Symmetric.SymmetricOrder`,
`Asymmetric.AsymmetricOrder`), and strikes in the order a call or put row
first names them (`Chain.PricesOrder`). The instance's overall data is only
ever looked up by key, so it is a plain `map`. The two exceptions the core can raise are modelled as `Error`
values:

- `MissingLeg`: the `KeyError` when a strike has no call bid or no put ask;
- `ZeroDivisor`: the `Decimal` division by a zero daily payout or a zero
  buying power.

An exception ends the pricing call. Whatever the call already wrote into the
instance's overall data stays there, and the model keeps it too.

The model follows the code as written, including where its own docstrings
and comments suggest otherwise:

- **Symmetric candidates.** The docstring of `calculate_symmetric_collar`
  (borrow_check.py:132-134) speaks of an ITM call and a put at the same
  strike. The code prices every row that is not a put, whatever its
  moneyness. That gives one candidate per call row, not one per strike that
  has both legs. A call row whose strike has no put ask raises `KeyError`,
  and that ends the run; it is not skipped (`Symmetric.SymmetricSucceeds`).
  A row whose type is neither call nor put is left out of the price table
  but priced like a call in the second pass.
- **Asymmetric pairs.** The docstring of `calculate_asymmetric_collar`
  (borrow_check.py:218-220) speaks of an OTM call and an OTM put at
  different strikes. Both strike filters are inclusive (borrow_check.py:259,
  263), so when a strike equals the stock ask the same-strike pair is
  produced and priced (`Combinations.CombinationsContents`).
- **Asymmetric lookups.** A kept call strike (at or above the stock ask)
  with no call bid raises `KeyError` when at least one put strike is kept;
  so does a kept put strike (at or below the stock ask) with no put ask
  when at least one call strike is kept. An expiration where calls and puts
  do not share strikes can therefore end the run. When no strike is kept
  on one side, no lookup happens and nothing is raised
  (`Combinations.CombinationsSucceed`).
- **Zero daily payout.** The source does not treat it as a trade that is
  never profitable: the division by it raises.
  For the asymmetric method it is raised only for an expiration that has at
  least one combination (`Asymmetric.ExpirationSucceeds`).
- **Negative day counts.** The day count may be negative: on the expiration
  date it is `-1`. A debit then has a negative cost per day, so cost per day
  is non-negative only for non-negative day counts (`Pricing.CostPerDay`).

## Model

| member | source | states |
|---|---|---|
| Pricing.DailyPayout | borrow_check.py:139-140 | the daily lending payout of one contract is zero exactly when the stock ask, the borrow rate or the utilization is zero, and positive when all three are |
| Pricing.CostOfTrade | borrow_check.py:178-184 | the cost is never negative; a credit costs nothing; a debit costs the fees minus the (negative) net, so at least the fees |
| Pricing.ExpirationNet | borrow_check.py:175 | the expiration net is a credit (positive) exactly when the call bid minus the put ask exceeds the stock's drop from the ask to the put strike, and zero exactly when they are equal |
| Pricing.CostPerDay | borrow_check.py:178-189 | zero for a credit; the whole cost on a zero day count; otherwise cost per day times days is the cost; non-negative for non-negative day counts and negative for a debit with a negative day count |
| Pricing.NetPayout | borrow_check.py:170-191 | the estimated payout never exceeds the lending income up to expiration; it is all of that income for a credit and falls short of it by at least the fees for a debit |
| Pricing.AnnualizedPerformance | borrow_check.py:192 | the annualized figure times the buying power is 36500 times the daily margin; it is positive exactly when the daily payout exceeds the cost per day |
| Pricing.BreakevenBorrowRate | borrow_check.py:193 | the breakeven rate, as a percentage, is the borrow rate whose fully utilized daily payout equals the cost per day |
| Pricing.Ceil | borrow_check.py:194 | `math.ceil`: the least integer not below its argument |
| Pricing.DaysToProfit | borrow_check.py:194 | that many days of payout cover the cost and one day fewer does not; zero for no cost, at least one for a positive cost |
| Pricing.DaysToProfitIsLeast | borrow_check.py:194 | any whole number of days whose payout covers the cost is at least days to profit |
| Pricing.ProfitableIffSpareDay | borrow_check.py:191-194 | the profitable flag (stored at line 212) holds exactly when the net payout is at least one day's payout |
| Pricing.Profitable | borrow_check.py:212 | the flag compares days to profit with the days remaining; `Pricing.ProfitableIffSpareDay` proves that it holds exactly when the estimated payout covers at least one more day's payout |
| Pricing.CallMoneyness | borrow_check.py:206 | the label of a symmetric candidate; `Symmetric.SymmetricCandidate` states that it is ITM exactly when the strike is below the stock ask |
| Pricing.Evaluate | borrow_check.py:170-212 | evaluating a candidate fails, with the division error, exactly when the daily payout is zero; otherwise the record carries the given net, moneyness, strike label and date |
| Pricing.EvaluateProfit | borrow_check.py:178-212 | the day-count fields of a record: days to profit and cost per day are those of the record's net; profitable iff days to profit is less than days remaining; a credit has zero cost per day, zero days to profit and the full payout; a debit's payout is the total payout minus fees and debit |
| Pricing.EvaluateRates | borrow_check.py:192-193 | the rate fields of a record: the breakeven rate reproduces the cost per day; a credit breaks even at rate zero; the annualized figure is the yearly margin over the buying power |
| Chain.BuildPriceTable | borrow_check.py:157-162 | the first-pass loop builds exactly the table `Prices` describes |
| Chain.RecordRowLegs | borrow_check.py:159-162 | one first-pass row changes only the legs of its own strike, and adds the strike only for a call or a put |
| Chain.PricesStrikes | borrow_check.py:157-162 | the table holds exactly the strikes of the call and put rows |
| Chain.PricesOrder | borrow_check.py:157-162 | the table lists its strikes in the order a call or put row first names them; a later row at a known strike keeps its place |
| Chain.PricesCallBid | borrow_check.py:159-160 | a strike has no call bid exactly when no call row has that strike; otherwise it holds the bid of the last such row |
| Chain.PricesPutAsk | borrow_check.py:161-162 | a strike has no put ask exactly when no put row has that strike; otherwise it holds the ask of the last such row |
| Combinations.PairNet | borrow_check.py:268 | a pair's lookup succeeds exactly when its call strike has a call bid and its put strike a put ask; the call lookup fails first; the value is the expiration net at the put strike |
| Combinations.PairCallWithPuts | borrow_check.py:262-270 | the inner loop adds the pairs of one call strike with every kept put strike, in table order |
| Combinations.CollarCombinations | borrow_check.py:255-270 | the nested loops build exactly the combinations dictionary `OtmCombinations` describes |
| Combinations.CallStrikesMembers | borrow_check.py:257-260 | the kept call strikes are the table strikes at or above the stock ask, each once |
| Combinations.PutStrikesMembers | borrow_check.py:262-264 | the kept put strikes are the table strikes at or below the stock ask, each once |
| Combinations.PairsLength | borrow_check.py:257-270 | there are C×P pairs for C kept call strikes and P kept put strikes |
| Combinations.PairsMembers | borrow_check.py:257-270 | a pair is enumerated exactly when its call strike is kept and its put strike is kept |
| Combinations.PairsDistinct | borrow_check.py:257-270 | no pair is enumerated twice |
| Combinations.AddPairsSucceed | borrow_check.py:262-270 | enumerating pairs raises exactly when some pair has a missing leg |
| Combinations.AddPairsDict | borrow_check.py:266-270 | with distinct pairs and no missing leg, the dictionary lists the pairs in order and maps each to its expiration net |
| Combinations.CombinationsSucceed | borrow_check.py:255-270 | the second pass raises exactly when, for some kept call strike and some kept put strike, the call strike has no call bid or the put strike has no put ask; with no kept strike on one side nothing is looked up |
| Combinations.CombinationsContents | borrow_check.py:255-270 | on success, the combinations are the C×P pairs in loop order, each once, each valued by its expiration net |
| Accumulate.EmitAllAppend | borrow_check.py:150-213 | pricing two runs of candidates one after the other stores the same as pricing them together |
| Accumulate.EmitAllSticks | borrow_check.py:150-213 | after an exception nothing more is stored |
| Accumulate.EmitAllStopsAt | borrow_check.py:150-213 | once an exception is raised, the candidates that follow change nothing |
| Accumulate.EmitAllConsistent | borrow_check.py:199-213 | the two dictionaries keep the same keys in the same order, and each entry is the matching field of the overall record; the asymmetric loop does the same at lines 292-306 |
| Accumulate.EmitAllSucceeds | borrow_check.py:150-213 | a run raises nothing exactly when every candidate evaluates |
| Accumulate.EmitAllFirstError | borrow_check.py:150-213 | a run raises the error of its first failing candidate and keeps what was stored before it |
| Accumulate.EmitAllKeys | borrow_check.py:199-202 | the keys of both dictionaries and of the overall data are the old keys plus those of the evaluated candidates; the asymmetric loop does the same at lines 292-295 |
| OrderedDict.DedupMembers | borrow_check.py:199-200 | the first-appearance order that assigning keys one after the other gives a dictionary holds every assigned key, once |
| Accumulate.EmitAllOrder | borrow_check.py:199-200 | after a run that raises nothing, both dictionaries list their keys in the order a candidate first carries them; a key written again keeps its first place; the asymmetric loop does the same at lines 292-293 |
| Accumulate.EmitAllUntouched | borrow_check.py:202 | after a run that raises nothing, an overall record whose key no candidate carries is left as it was; the asymmetric loop does the same at line 295 |
| Accumulate.EmitAllLastWins | borrow_check.py:202 | after a run that raises nothing, a key's overall record is the record of the last candidate carrying that key; the asymmetric loop does the same at line 295 |
| Accumulate.EmitAllRecordFrom | borrow_check.py:202 | every stored record is the record of some candidate with its key; the asymmetric loop does the same at line 295 |
| Symmetric.SymmetricCandidate | borrow_check.py:167-213 | a non-put row is priced exactly when its strike has both legs and the daily payout is not zero; the call lookup fails first; the record is keyed by the row's OCC symbol, has its strike, and is ITM iff the strike is below the stock ask |
| Symmetric.PricedRowsMembers | borrow_check.py:164-169 | the second pass prices exactly the rows that are not puts |
| Symmetric.SymmetricWorkMembers | borrow_check.py:150-169 | the run prices exactly the non-put rows of every expiration, each with its own expiration |
| Symmetric.SymmetricConsistent | borrow_check.py:199-213 | after the run, the two dictionaries agree with each other and with the overall records |
| Symmetric.SymmetricSucceeds | borrow_check.py:164-194 | the run raises nothing exactly when every non-put row finds both legs at its strike and the daily payout is not zero |
| Symmetric.SymmetricKeys | borrow_check.py:172-200 | after a run that raises nothing, the returned keys are exactly the OCC symbols of the non-put rows |
| Symmetric.SymmetricOrder | borrow_check.py:150-200 | after a run that raises nothing, the returned keys are the OCC symbols of the non-put rows in loop order, expirations then rows, each at its first place |
| Symmetric.SymmetricKeyFor | borrow_check.py:172-200 | one key at a time: a key is returned exactly when some non-put row has that OCC symbol |
| Symmetric.SymmetricRecords | borrow_check.py:199-213 | each returned key's overall record is the record of a priced row with that symbol |
| Asymmetric.PairCandidate | borrow_check.py:273-306 | a combination is evaluated exactly when the daily payout is not zero, and is keyed by its strike pair |
| Asymmetric.ExpirationSucceeds | borrow_check.py:245-306 | an expiration raises nothing exactly when its second pass finds every leg and, if it has a combination, the daily payout is not zero; it then evaluates C×P candidates |
| Asymmetric.ExpirationShape | borrow_check.py:273-306 | every record an expiration evaluates belongs to one of its combinations: call strike at or above the ask, put strike at or below it, OTM, priced from its expiration net |
| Asymmetric.ExpirationKeysDistinct | borrow_check.py:255-273 | within one expiration each combination is evaluated once |
| Asymmetric.AsymmetricCandidatesSucceed | borrow_check.py:236-306 | the run has no failing candidate exactly when every expiration passes |
| Asymmetric.AsymmetricConsistent | borrow_check.py:292-306 | after the run, the two dictionaries agree with each other and with the overall records |
| Asymmetric.AsymmetricSucceeds | borrow_check.py:236-306 | the run raises nothing exactly when every expiration finds its legs and can divide by the daily payout |
| Asymmetric.AsymmetricRecords | borrow_check.py:292-306 | each returned combination comes from some expiration and its overall record is its record there |
| Asymmetric.AsymmetricKeys | borrow_check.py:255-295 | after a run that raises nothing, a combination is returned exactly when some expiration's combinations dictionary holds it |
| Asymmetric.AsymmetricOrder | borrow_check.py:236-293 | after a run that raises nothing, the returned combinations are those of each expiration's dictionary in its order, expiration after expiration, each at its first place |
| Asymmetric.NotProducedNotEmitted | borrow_check.py:255-273 | a combination that no expiration produces is never evaluated |
| Asymmetric.TagPosition | borrow_check.py:273-295 | a combination of an expiration is evaluated at one position there and at no later one |
| Asymmetric.AsymmetricLastWins | borrow_check.py:236-306 | across expirations the last write wins: a combination's overall record is its evaluation in the last expiration that produces it |
| Engine.Calculations.constructor | borrow_check.py:124-129 | both overall-data dictionaries start empty |
| Engine.Calculations.CalculateSymmetricCollar | borrow_check.py:131-215 | the loop leaves the symmetric overall data and the result exactly as `SymmetricRun` describes, and does not touch the asymmetric data |
| Engine.Calculations.PriceSymmetricRows | borrow_check.py:155-213 | both passes over one expiration advance the run by that expiration's rows, or stop with the run's exception |
| Engine.Calculations.PriceNonPutRows | borrow_check.py:164-213 | the second-pass loop over one expiration's rows advances the run by its non-put rows, or stops with the run's exception |
| Engine.Calculations.PriceSymmetricRow | borrow_check.py:164-213 | one row of that loop: a put is skipped; any other row is priced and stored under its OCC symbol in all three dictionaries, or its exception ends the run |
| Engine.Calculations.CalculateAsymmetricCollar | borrow_check.py:217-308 | the loop leaves the asymmetric overall data and the result exactly as `AsymmetricRun` describes, and does not touch the symmetric data |
| Engine.Calculations.PriceAsymmetricCombinations | borrow_check.py:272-306 | the third pass over one expiration advances the run by its combinations, or stops with the run's exception |
| Ranking.SortOrdered | borrow_check.py:337-338 | the sorted list is ordered by its key: ascending, or descending with `reverse=True` |
| Ranking.SortPermutes | borrow_check.py:337-338 | the sorted list is a permutation of the items |
| Ranking.SortStable | borrow_check.py:337-338 | the sort is stable in both directions: items with equal keys keep their original order |
| Ranking.SortUnique | borrow_check.py:337-338 | an ordered list that keeps the original order of each key's items is the sorted list |
| Ranking.TopFive | borrow_check.py:343-357 | the selection loop returns min(5, n) records, the i-th being the overall record of the i-th ranked key |
| Report.SortedItems | borrow_check.py:337-338 | every ranked item is a key of the dictionary with its stored value |
| Report.RiskRankingSpec | borrow_check.py:337 | the risk ranking lists the dictionary's items, ascending by days to profit, with ties in insertion order |
| Report.ProfitRankingSpec | borrow_check.py:338 | the profit ranking lists the dictionary's items, descending by estimated payout, with ties in insertion order |
| Report.RankTrades | borrow_check.py:337-357 | both top-five lists hold the overall records of the first min(5, n) keys of their ranking |
| Report.ReportSymmetric | borrow_check.py:331-357 | the symmetric half of the command: its exception propagates, or its two top-five tables are built from the run's dictionaries and records |
| Report.ReportAsymmetric | borrow_check.py:365-391 | the asymmetric half of the command, the same way |

## Left out

- Data acquisition is not modelled: `input_section`, `tradier_key`, the `Queries` class, HTTP, the API key file and the progress bar. A run takes a `Snapshot` value: the stock's ask, and the chains in query order.
- Dates are not modelled. `datetime.strptime(...) - datetime.now()` depends on the clock, so each expiration carries its whole-day count `daysRemaining` as an input. The date string is copied into the record unchanged.
- Output is not modelled: `print`, `columnar` tables, `click` colour patterns and the `headers` lists. A record's field order is the order of `CollarRecord`'s fields.
- Text formatting is not modelled: `round(..., 2)` and the `'{0}%'` / `'${0}'` strings of the money and percentage fields. Those fields hold the exact numbers.
- `Decimal` is modelled as exact real arithmetic, with no 28-digit context and no rounding. In the source `LOAN_ADJUSTED_RATE` is `Decimal` of the binary float `253 / 365`; here it is exactly 253/365.
- The unused locals `charge_type`, `symbol`, the commented-out trade description and the quote symbol are not modelled.
- Input parsing errors are not modelled. Strikes, bids and asks arrive as numbers, so `Decimal(...)` on a bad string cannot happen.
- The order of output is not modelled. The source prints the symmetric tables before it runs the asymmetric method, and an exception in the symmetric method stops the program before the asymmetric one runs. `Report.ReportSymmetric` and `Report.ReportAsymmetric` are separate methods, and the program's exit is not modelled.
- Symmetric.SymmetricRecords: it says each returned symbol's record comes from some priced row with that symbol. It does not say which row when one OCC symbol appears on several rows. Last write wins there too, through `Accumulate.EmitAllLastWins`, but no symmetric-specific lemma states it. The last-write-wins lemma about runs of several expirations is `Asymmetric.AsymmetricLastWins`.
- The asymmetric combination key is the pair of strike values (`Tag`). The source uses the string `'{call}c/{put}p'` made from the table's `Decimal` keys. Equal `Decimal` strikes are one table key and distinct ones print differently, so both key the same combinations.
