# Analytics core of mark2, modelled in Dafny

The service derives business metrics from entity counts read from its store.
This project models the analytics in `app/crud.py` and the document
verification update in `app/routes/documents.py`:

- **Growth projector** (`get_employee_growth`, module `Growth`). It builds the
  month → count dict and takes the mean count. It fits an ordinary-least-squares
  line to (month index, count) and reports the fitted value at the next index,
  rounded.
- **Distribution classifier** (`get_trucker_distribution`, module
  `Distribution`). It computes company shares of all truckers, rounded to
  hundredths, and picks the most common company. It then chooses a trend label
  from two share thresholds.
- **Impact calculator** and **compliance snapshot** (`get_business_impact`,
  `get_compliance_data`, module `Impact`). These give guarded percentage rates
  and raw totals.
- **Document verification update** (`update_document`, module `Documents`). A
  `Document` class holds the record's fields. A method changes its verification
  fields in place, and is specified by a pure transition function.

Support modules:

- `PyDict`: Python dicts as insertion-ordered pair lists, with the semantics of
  a dict comprehension.
- `Rounding`: Python's `round` on exact rationals.
- `Ratio`: `(part / whole) * 100`.
- `Sums`: finite sums over reals.
- `Wrappers`: `Option` and `Result`.

The database queries are replaced by their results. These are sequences of
(label, count) rows and integer totals, passed in as parameters. The clock
reading of the update handler is also a parameter. Floats are modelled as exact
reals.

sklearn's `LinearRegression` is replaced by the closed-form least-squares line:

- slope `a = (nΣxy − ΣxΣy) / (nΣx² − (Σx)²)`;
- intercept `b = (Σy − aΣx) / n`;
- for a single month the denominator is 0 and the slope is 0. With one sample
  the centred design is all zeros, so the least-squares solver returns slope 0.

The model proves that this line solves the normal equations and has the least
squared error of all lines. So it is the line the library fits.

Where the code and the intended behaviour differ, the model follows the code:

- **No months.** The average is guarded to 0 (`app/crud.py:15`), but the fit
  raises on an empty training set (`app/crud.py:21`). `Growth.EmployeeGrowth`
  fails for no months.
- **No company rows.** The share comprehension yields `{}`, but `max` then
  raises (`app/crud.py:39`). `Distribution.TruckerDistribution` fails with
  `EmptyMax`.
- **Company rows but a zero trucker total.** The comprehension divides by zero
  (`app/crud.py:38`). The model fails with `ZeroDivision`.
- **Unverified documents.** The count is `total - verified` and is not clamped
  at 0 (`app/crud.py:85`). `Impact.ComplianceData` proves that it is negative
  exactly when the counts are inconsistent.
- **Company names.** `coalesce` folds only a missing company name into
  "Independent" (`app/crud.py:34`). An empty name stays a group of its own:
  `Distribution.CoalesceOnlyMissing`.

The corrected behaviour for the first two cases is under "Findings".

## Model

| member | source | states |
|---|---|---|
| Growth.EmployeeGrowth | app/crud.py:8-29 | fails exactly when there are no months (the fit of an empty training set raises); a report holds the comprehension's month dict, the mean of that dict's counts as its average and the rounded fitted value at the next index as its projection; a single month gives average and projection equal to its count |
| Growth.Counts | app/crud.py:18-19 | the regression targets are the dict's counts, one per month, in dict order, month `i` at index `i` |
| Growth.Mean | app/crud.py:15 | `sum(monthly.values()) / len(monthly)`, guarded to 0 for an empty dict |
| Growth.Slope | app/crud.py:18-21 | the closed-form OLS slope of the counts against their month index, 0 when the indices have no spread (one month) |
| Growth.Intercept | app/crud.py:18-21 | the closed-form OLS intercept, mean count minus slope times mean index |
| Growth.NextValue | app/crud.py:22 | `model.predict([[len(monthly)]])[0]`: the fitted line at the index after the last month |
| Growth.MeanTimesCount | app/crud.py:15 | for at least one month the average growth times the number of months is the total registration count (the arithmetic mean) |
| Growth.MeanWithinCounts | app/crud.py:15 | the average lies between any lower and upper bound of the monthly counts |
| Growth.Projection | app/crud.py:22-23 | the projection is within half a registration of the fitted line's value at index `n` |
| Growth.SpreadPositive | app/crud.py:18-21 | the closed-form denominator is n²(n−1)(n+1)/12, positive from two months on, so the slope never divides by zero |
| Growth.FitSolvesNormalEquations | app/crud.py:18-21 | the fitted line's residuals sum to zero and are uncorrelated with the month index, for every number of months |
| Growth.SquaredErrorExpansion | app/crud.py:18-21 | any line's squared error is at least that of line (a, b) plus the cross terms of (a, b)'s residual sums |
| Growth.FitIsLeastSquares | app/crud.py:18-21 | no line (a', b') has a smaller sum of squared residuals than the fitted one |
| Growth.ExactLineFitted | app/crud.py:18-21 | counts lying exactly on count_i = c·i + d over two or more months are fitted with slope c and intercept d |
| Growth.ExactLineProjected | app/crud.py:18-23 | for such counts with whole c and d the projection is c·n + d |
| Growth.SingleCount | app/crud.py:18-21 | one month is fitted by the flat line through its count (slope 0, intercept the count), and the mean is that count |
| Growth.SingleMonth | app/crud.py:14-23 | one month: the dict is that row, and the average and the projection both equal its count |
| Growth.EmptyMonthsFail | app/crud.py:15-21 | no months: the average alone would be 0, but the projector fails |
| Growth.EmployeeGrowthOrDefault | app/crud.py:8-29 | corrected projector: no months give an empty dict, average 0 and projection 0; otherwise the same report as the code |
| Growth.FourMonthDict | app/crud.py:14 | four distinct month labels make a dict of the rows themselves, with counts 1, 2, 3, 4 |
| Growth.FourCounts | app/crud.py:15-23 | counts 1, 2, 3, 4: slope 1, intercept 1, projection 5, average 2.5 |
| Growth.FourMonthExample | app/crud.py:8-29 | four months with 1, 2, 3, 4 registrations give a report with average 2.5 and projection 5 |
| PyDict.Lookup | app/crud.py:42 | `get` finds a value exactly when the key is present |
| PyDict.GetOr | app/crud.py:42 | `d.get(k, default)`: the value stored under k when k is present, the default when k is absent |
| PyDict.Values | app/crud.py:19 | `values()` lists every stored value in insertion order |
| PyDict.FromPairs | app/crud.py:14 | the dict comprehension `{k: v for k, v in rows}` (also `dict(rows)`), storing the pairs in order |
| PyDict.Store | app/crud.py:14 | storing a present key keeps the dict's length, storing a new key appends it at the end; the key then maps to the new value, other keys keep their values, and keys stay distinct |
| PyDict.StoreInPlace | app/crud.py:14 | storing a present key overwrites its entry at its own position and leaves every other position as it was |
| PyDict.LookupFromPairs | app/crud.py:14 | in a comprehension's dict each key maps to the value of the last pair carrying it |
| PyDict.FromPairsUniqueKeys | app/crud.py:14 | a comprehension's dict never holds a key twice |
| PyDict.FromPairsOfUniqueKeys | app/crud.py:48-49 | pairs with distinct keys, such as GROUP BY rows, become a dict equal to them, in the same order |
| PyDict.FromPairsNonEmpty | app/crud.py:14-15 | a comprehension over at least one row is a non-empty (truthy) dict |
| PyDict.StoreEntries | app/crud.py:38 | after a store every entry is an old entry or the new pair |
| PyDict.FromPairsEntries | app/crud.py:38 | every entry of a comprehension's dict is one of its source pairs |
| PyDict.LookupEntry | app/crud.py:42 | in a dict, looking up an entry's key finds that entry's value |
| Rounding.RoundHalfEven | app/crud.py:23 | `round(x)` is within 0.5 of x and picks the even integer on an exact tie |
| Rounding.RoundOfInteger | app/crud.py:23 | a whole value rounds to itself |
| Rounding.Hundredths | app/crud.py:38 | `round(x, 2)` keeps the number of hundredths nearest to 100·x |
| Rounding.RoundTo2 | app/crud.py:38 | `round(x, 2)` is a multiple of 0.01 within 0.005 of x |
| Rounding.RoundTo2InRange | app/crud.py:38 | rounding keeps a value in [0, 100] inside [0, 100] |
| Rounding.RoundTo2Above | app/crud.py:38-44 | a rounded value above t hundredths comes from a value at least t + 0.5 hundredths |
| Ratio.PercentInRange | app/crud.py:38 | a part of the whole is between 0 and 100 percent of it |
| Ratio.PercentAdd | app/crud.py:38 | percentages of one whole add like their parts |
| Ratio.PercentOfWhole | app/crud.py:38 | the whole is 100 percent of itself |
| Ratio.WholePercent | app/crud.py:38 | c out of 100 is exactly c percent after rounding |
| Ratio.Percent | app/crud.py:38 | the exact percentage `(v / total) * 100` |
| Distribution.CoalesceOnlyMissing | app/crud.py:34-35 | a missing company name becomes "Independent", and any present name, the empty one included, is kept |
| Distribution.CompanyLabel | app/crud.py:34-35 | `coalesce(company_name, 'Independent')` for one trucker |
| Distribution.CompanyLabels | app/crud.py:34-35 | every trucker gets the coalesced label of its company, in order |
| Distribution.CountOne | app/crud.py:34-35 | one more trucker adds one to its group's count (or opens a group), leaves the others, and keeps labels distinct |
| Distribution.GroupCounts | app/crud.py:34-35 | grouping gives distinct labels, each counted as often as it occurs, with counts adding up to the number of truckers |
| Distribution.ShareSumOfTotal | app/crud.py:37-38 | the unrounded shares of the rows sum to the share of their total count |
| Distribution.SharesSumTo100 | app/crud.py:37-38 | when the rows account for every trucker the unrounded shares sum to 100 |
| Distribution.GroupedSharesSumTo100 | app/crud.py:34-38 | every trucker lies in exactly one coalesced group, so the grouped shares sum to 100 |
| Distribution.Share | app/crud.py:38 | a company's exact share `(v / total) * 100` |
| Distribution.RoundedShares | app/crud.py:38 | the pairs `(k, round((v / total) * 100, 2))` the comprehension stores, in row order |
| Distribution.Percentages | app/crud.py:38 | the share dict built from those pairs |
| Distribution.PercentagesEntry | app/crud.py:38 | every share entry is a company row's label with its rounded share |
| Distribution.PercentagesLookup | app/crud.py:38 | for company rows with distinct labels, every company is found in the share dict with its own rounded share |
| Distribution.PercentagesAbsent | app/crud.py:38-42 | a label that is no company's label is not in the share dict, so `get` falls back to its default |
| Distribution.PercentagesInRange | app/crud.py:38 | every reported share is within 0.005 of a company's exact share and, for counts within the total, in [0, 100] |
| Distribution.MostCommonIndex | app/crud.py:39 | `max` with a count key picks a row whose count is at least every count, and the first such row |
| Distribution.AnyAbove | app/crud.py:44 | `any(v > t ...)` holds exactly when some share exceeds t |
| Distribution.ClassifyTrend | app/crud.py:41-45 | "Increasing independence" exactly when the Independent share (0 if absent) exceeds 40; "Company dominance" exactly when it does not and some share exceeds 60; otherwise "Balanced" |
| Distribution.DominatingGroupIsACompany | app/crud.py:41-45 | under company dominance the share above 60 belongs to a group other than Independent |
| Distribution.DominanceNeedsExactShare | app/crud.py:38-45 | company dominance needs a company whose exact share is at least 60.005 percent |
| Distribution.TruckerDistribution | app/crud.py:32-53 | fails with `EmptyMax` exactly when there are no company rows and with `ZeroDivision` exactly when there are rows but no truckers; otherwise the most common company is the first row with the maximal count; a report holds dicts of the province and company rows, the share dict of the company rows and the trend that share dict gives |
| Distribution.TruckerDistributionOrDefault | app/crud.py:32-53 | corrected classifier: no company rows or no truckers give empty shares, an empty most common company and "Balanced"; otherwise the same report as the code |
| Distribution.NoCompaniesFail | app/crud.py:38-39 | no company rows: the shares alone would be an empty dict, but the classifier fails |
| Distribution.AcmeShares | app/crud.py:38 | 70 Acme and 30 independent truckers of 100 have shares 70.0 and 30.0 |
| Distribution.AcmeTrend | app/crud.py:41-45 | shares Acme 70.0 and Independent 30.0 mean company dominance |
| Distribution.AcmeDominance | app/crud.py:32-53 | those truckers give shares 70.0 and 30.0, most common "Acme" and company dominance |
| Distribution.IndependenceFirst | app/crud.py:41-45 | 50 independent and 50 Acme truckers mean increasing independence: that rule comes first |
| Impact.Rate | app/crud.py:59 | a rate over an empty total is 0 (no division); otherwise it is within 0.005 of the exact percentage |
| Impact.RateInRange | app/crud.py:59 | a rate of a subset of the total is in [0, 100] |
| Impact.RateExample | app/crud.py:59 | 20 of 200 is 10.0 |
| Impact.BusinessImpact | app/crud.py:56-73 | employee churn is the rate of archived among all employees, trucker churn that of archived among all truckers, compliance that of verified among all documents; each is 0 when its total is 0 |
| Impact.BusinessImpactInRange | app/crud.py:56-73 | on consistent counts all three rates are in [0, 100] |
| Impact.ComplianceData | app/crud.py:76-95 | the totals pass through unchanged; verified plus unverified is the document total; unverified is non-negative exactly when verified ≤ total |
| Impact.ComplianceRateOfSnapshot | app/crud.py:65-85 | the compliance rate is the verified share of the verified plus unverified documents of the snapshot |
| Documents.Transition | app/routes/documents.py:21-27 | the flag takes the requested value; a first verification records now and the verifier; a repeated one keeps both; unverifying clears both; afterwards verified ⇔ a date is set, and an unverified document has no verifier |
| Documents.TransitionIdempotent | app/routes/documents.py:21-27 | sending the same update again, at any time, changes nothing |
| Documents.FirstVerificationKept | app/routes/documents.py:22-24 | verifying again, by anyone at any time, keeps the first verification's date and verifier |
| Documents.Document.constructor | app/models.py:26-32 | a new record is unverified with no date and no verifier |
| Documents.Document.ApplyUpdate | app/routes/documents.py:21-27 | the record's verification fields become the transition of their old values; id and title stay unchanged |
| Documents.UpdateDocument | app/routes/documents.py:16-30 | an unknown id is a 404 and no record changes; a known id gets the transition applied to its record, keeps its id and title, and answers 204; no other record changes |

## Left out

- The SQL queries (`db.query`, `filter`, `group_by`, `strftime`, `count`) and
  `db.commit`. Their results are the inputs of the model. The month and group
  order a GROUP BY returns is not modelled: the operations take the rows in
  the order given.
- sklearn and numpy. The fit is the closed-form least-squares line, proved to
  be a least-squares solution.
- Float arithmetic. Every quantity is an exact real, so float artefacts of
  `/`, `*` and `round(x, 2)` are not modelled.
- Python returns the integer `0` for a guarded average or rate, and a float
  otherwise. The model uses the real 0.0.
- `datetime.utcnow()`. The handler's clock reading is the parameter `now`.
  The names `datetime` and `Session` are not imported in
  `app/routes/documents.py`; that failure is not modelled.
- HTTP routing, authentication, dependency injection and the response body of
  the handler. The status is modelled as `NoContent` or `NotFound`.
- Distribution.GroupCounts: models a GROUP BY on labels held in memory, in order of first
  appearance. It is used only to show that grouped shares sum to 100. The
  classifier itself takes any rows.
- Growth.MeanWithinCounts: states bounds for the mean, not the exact value;
  the exact value is `Growth.MeanTimesCount`.

## Findings

| source | as written | input that shows it | evidently intended | confidence | as-written member | corrected member |
|---|---|---|---|---|---|---|
| app/crud.py:15-23 | the average is guarded for no months, but `model.fit` on an empty array raises | no non-archived employees (no month rows) | an empty dict, average 0 and projection 0 | not executed | Growth.EmptyMonthsFail | Growth.EmployeeGrowthOrDefault |
| app/crud.py:38-39 | `max` over the company rows raises when there are none | no truckers (no company rows, total 0) | empty shares, most common "" and trend "Balanced" | not executed | Distribution.NoCompaniesFail | Distribution.TruckerDistributionOrDefault |
