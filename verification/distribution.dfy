/** Distribution classifier (`get_trucker_distribution`): from the truckers
    grouped by province and by company (a trucker without a company counted as
    "Independent"), each company's percentage share of all truckers, the most
    common company and a trend label chosen by fixed share thresholds. */
module Distribution {
  import opened Wrappers
  import opened Rounding
  import opened Ratio
  import PyDict

  /** A row of a GROUP BY count query: the group label and its number of truckers. */
  type GroupRow = (string, nat)

  /** A company share as the service reports it, in percent rounded to 0.01. */
  type ShareRow = (string, real)

  /** The three trend labels. */
  datatype Trend = Balanced | IncreasingIndependence | CompanyDominance

  datatype DistributionReport = DistributionReport(
    byProvince: seq<GroupRow>,
    byCompany: seq<GroupRow>,
    percentages: seq<ShareRow>,
    mostCommon: string,
    trend: Trend)

  datatype DistributionError =
    | ZeroDivision  // a share divided by a trucker total of zero
    | EmptyMax      // `max` over no company rows

  /** The label of truckers that belong to no company. */
  const Independent: string := "Independent"

  /** Share above which the Independent group means increasing independence. */
  const IndependenceThreshold: real := 40.0

  /** Share above which one company dominates. */
  const DominanceThreshold: real := 60.0

  // ---------------------------------------------------------------------------
  // The company grouping the query performs

  /** `coalesce(company_name, 'Independent')`: a missing company name becomes
      "Independent"; any present name, the empty one included, is kept. */
  function CompanyLabel(company: Option<string>): string
  {
    if company.Some? then company.value else Independent
  }

  /** Only a missing name is folded into the Independent group. */
  lemma CoalesceOnlyMissing(name: string)
    ensures CompanyLabel(None) == Independent
    ensures CompanyLabel(Some(name)) == name
  {
  }

  /** The company label of every trucker. */
  function CompanyLabels(companies: seq<Option<string>>): (labels: seq<string>)
    ensures |labels| == |companies|
    ensures forall i :: 0 <= i < |companies| ==> labels[i] == CompanyLabel(companies[i])
  {
    if companies == [] then []
    else CompanyLabels(companies[..|companies| - 1]) + [CompanyLabel(companies[|companies| - 1])]
  }

  /** The number of truckers the rows account for. */
  function TotalCount(rows: seq<GroupRow>): nat
  {
    if rows == [] then 0 else rows[0].1 + TotalCount(rows[1..])
  }

  /** One more trucker with label `k`: its group's count goes up by one, or a
      new group with count 1 is added at the end. */
  function CountOne(groups: seq<GroupRow>, k: string): (r: seq<GroupRow>)
    ensures TotalCount(r) == TotalCount(groups) + 1
    ensures PyDict.GetOr(r, k, 0) == PyDict.GetOr(groups, k, 0) + 1
    ensures forall k' :: k' != k ==> PyDict.Lookup(r, k') == PyDict.Lookup(groups, k')
    ensures forall k' :: PyDict.HasKey(r, k') <==> PyDict.HasKey(groups, k') || k' == k
    ensures PyDict.UniqueKeys(groups) ==> PyDict.UniqueKeys(r)
  {
    if groups == [] then
      PyDict.HasKeyCons((k, 1), groups);
      [(k, 1)]
    else if groups[0].0 == k then
      var rest := groups[1..];
      PyDict.HasKeyCons(groups[0], rest);
      PyDict.HasKeyCons((k, groups[0].1 + 1), rest);
      PyDict.UniqueKeysCons(groups[0], rest);
      PyDict.UniqueKeysCons((k, groups[0].1 + 1), rest);
      assert groups == [groups[0]] + rest;
      [(k, groups[0].1 + 1)] + rest
    else
      var rest := CountOne(groups[1..], k);
      PyDict.HasKeyCons(groups[0], groups[1..]);
      PyDict.HasKeyCons(groups[0], rest);
      PyDict.UniqueKeysCons(groups[0], groups[1..]);
      PyDict.UniqueKeysCons(groups[0], rest);
      assert groups == [groups[0]] + groups[1..];
      [groups[0]] + rest
  }

  /** `GROUP BY label` with `count(id)`, groups in order of first appearance. */
  function GroupCounts(labels: seq<string>): (groups: seq<GroupRow>)
    ensures PyDict.UniqueKeys(groups)
    ensures TotalCount(groups) == |labels|
    ensures forall k :: PyDict.GetOr(groups, k, 0) == multiset(labels)[k]
    ensures forall k :: PyDict.HasKey(groups, k) <==> k in labels
  {
    if labels == [] then []
    else
      var init, last := labels[..|labels| - 1], labels[|labels| - 1];
      assert labels == init + [last];
      CountOne(GroupCounts(init), last)
  }

  // ---------------------------------------------------------------------------
  // Shares

  /** The unrounded share of a row. */
  function Share(row: GroupRow, total: nat): real
    requires total > 0
  {
    Percent(row.1 as real, total as real)
  }

  /** The sum of the unrounded shares of the rows. */
  function ShareSum(rows: seq<GroupRow>, total: nat): real
    requires total > 0
  {
    if rows == [] then 0.0 else Share(rows[0], total) + ShareSum(rows[1..], total)
  }

  /** The shares add up to the share of the rows' total count. */
  lemma {:induction false} ShareSumOfTotal(rows: seq<GroupRow>, total: nat)
    requires total > 0
    ensures ShareSum(rows, total) == Percent(TotalCount(rows) as real, total as real)
  {
    if rows != [] {
      ShareSumOfTotal(rows[1..], total);
      PercentAdd(rows[0].1 as real, TotalCount(rows[1..]) as real, total as real);
    }
  }

  /** When the rows account for every trucker, the unrounded shares sum to 100. */
  lemma SharesSumTo100(rows: seq<GroupRow>, total: nat)
    requires total > 0 && TotalCount(rows) == total
    ensures ShareSum(rows, total) == 100.0
  {
    ShareSumOfTotal(rows, total);
    PercentOfWhole(total as real);
  }

  /** Every trucker falls in exactly one coalesced company group, so the
      unrounded shares of the grouped companies sum to 100. */
  lemma GroupedSharesSumTo100(companies: seq<Option<string>>)
    requires companies != []
    ensures ShareSum(GroupCounts(CompanyLabels(companies)), |companies|) == 100.0
  {
    SharesSumTo100(GroupCounts(CompanyLabels(companies)), |companies|);
  }

  /** `{k: round((v / total) * 100, 2) for k, v in by_company}` */
  function Percentages(rows: seq<GroupRow>, total: nat): seq<ShareRow>
    requires total > 0
  {
    PyDict.FromPairs(RoundedShares(rows, total))
  }

  /** The (label, rounded share) pairs the comprehension stores, in row order. */
  function RoundedShares(rows: seq<GroupRow>, total: nat): seq<ShareRow>
    requires total > 0
  {
    seq(|rows|, i requires 0 <= i < |rows| => (rows[i].0, RoundTo2(Share(rows[i], total))))
  }

  /** Every entry of the share dict is a company row's label with that row's
      rounded share. */
  lemma PercentagesEntry(rows: seq<GroupRow>, total: nat, e: ShareRow)
    requires total > 0
    requires e in Percentages(rows, total)
    ensures exists i :: 0 <= i < |rows| && e == (rows[i].0, RoundTo2(Share(rows[i], total)))
  {
    var ps := RoundedShares(rows, total);
    PyDict.FromPairsEntries(ps);
    var i :| 0 <= i < |ps| && ps[i] == e;
  }

  /** Conversely, for company rows with distinct labels (as GROUP BY returns
      them) every company is found in the share dict with its rounded share. */
  lemma PercentagesLookup(rows: seq<GroupRow>, total: nat, i: nat)
    requires total > 0 && PyDict.UniqueKeys(rows) && i < |rows|
    ensures PyDict.Lookup(Percentages(rows, total), rows[i].0) == Some(RoundTo2(Share(rows[i], total)))
  {
    var ps := RoundedShares(rows, total);
    assert PyDict.UniqueKeys(ps) by {
      forall a, b | 0 <= a < b < |ps| ensures ps[a].0 != ps[b].0 {
        assert ps[a].0 == rows[a].0 && ps[b].0 == rows[b].0;
      }
    }
    PyDict.FromPairsOfUniqueKeys(ps);
    PyDict.LookupEntry(ps, i);
  }

  /** A label that is no company row's label is not in the share dict. */
  lemma PercentagesAbsent(rows: seq<GroupRow>, total: nat, k: string)
    requires total > 0
    requires forall i :: 0 <= i < |rows| ==> rows[i].0 != k
    ensures PyDict.Lookup(Percentages(rows, total), k) == None
  {
    var d := Percentages(rows, total);
    if PyDict.HasKey(d, k) {
      var j :| 0 <= j < |d| && d[j].0 == k;
      PercentagesEntry(rows, total, d[j]);
      assert false;
    }
  }

  /** Each reported share is within half a hundredth of a company's unrounded
      share and, for counts within the total, lies in [0, 100]. */
  lemma PercentagesInRange(rows: seq<GroupRow>, total: nat, e: ShareRow)
    requires total > 0
    requires e in Percentages(rows, total)
    ensures exists i :: 0 <= i < |rows| && e.0 == rows[i].0 && -0.005 <= e.1 - Share(rows[i], total) <= 0.005
    ensures (forall i :: 0 <= i < |rows| ==> rows[i].1 <= total) ==> 0.0 <= e.1 <= 100.0
  {
    PercentagesEntry(rows, total, e);
    var i :| 0 <= i < |rows| && e == (rows[i].0, RoundTo2(Share(rows[i], total)));
    if forall i :: 0 <= i < |rows| ==> rows[i].1 <= total {
      PercentInRange(rows[i].1 as real, total as real);
      RoundTo2InRange(Share(rows[i], total));
    }
  }

  // ---------------------------------------------------------------------------
  // The most common company

  /** The position `max(rows, key=count)` picks: Python's `max` scans left to
      right and replaces its candidate only on a strictly larger count, so the
      first of several maximal rows wins. */
  function MostCommonIndex(rows: seq<GroupRow>): (m: nat)
    requires rows != []
    ensures m < |rows|
    ensures forall j :: 0 <= j < |rows| ==> rows[j].1 <= rows[m].1
    ensures forall j :: 0 <= j < m ==> rows[j].1 < rows[m].1
  {
    if |rows| == 1 then 0
    else
      var m := MostCommonIndex(rows[..|rows| - 1]);
      if rows[|rows| - 1].1 > rows[m].1 then |rows| - 1 else m
  }

  // ---------------------------------------------------------------------------
  // The trend

  /** `any(v > t for v in shares.values())` */
  function AnyAbove(shares: seq<ShareRow>, t: real): (b: bool)
    ensures b <==> exists i :: 0 <= i < |shares| && shares[i].1 > t
  {
    if shares == [] then false
    else shares[0].1 > t || AnyAbove(shares[1..], t)
  }

  /** The trend label: the Independent rule is tried first, then the dominance
      rule, and "Balanced" is the fallback. */
  function ClassifyTrend(shares: seq<ShareRow>): (t: Trend)
    ensures t == IncreasingIndependence <==> PyDict.GetOr(shares, Independent, 0.0) > IndependenceThreshold
    ensures t == CompanyDominance <==>
              PyDict.GetOr(shares, Independent, 0.0) <= IndependenceThreshold &&
              exists i :: 0 <= i < |shares| && shares[i].1 > DominanceThreshold
  {
    if PyDict.GetOr(shares, Independent, 0.0) > IndependenceThreshold then IncreasingIndependence
    else if AnyAbove(shares, DominanceThreshold) then CompanyDominance
    else Balanced
  }

  /** Under company dominance the dominating share belongs to a real company,
      never to the Independent group (whose share is at most 40). */
  lemma DominatingGroupIsACompany(shares: seq<ShareRow>)
    requires PyDict.UniqueKeys(shares)
    requires ClassifyTrend(shares) == CompanyDominance
    ensures exists i :: 0 <= i < |shares| && shares[i].1 > DominanceThreshold && shares[i].0 != Independent
  {
    var i :| 0 <= i < |shares| && shares[i].1 > DominanceThreshold;
    if shares[i].0 == Independent {
      PyDict.LookupEntry(shares, i);
      assert false;
    }
  }

  /** The dominance rule fires on rounded shares, so it needs a company whose
      exact share is at least 60.005 percent. */
  lemma DominanceNeedsExactShare(rows: seq<GroupRow>, total: nat)
    requires total > 0
    requires ClassifyTrend(Percentages(rows, total)) == CompanyDominance
    ensures exists i :: 0 <= i < |rows| && Share(rows[i], total) >= 60.005
  {
    var p := Percentages(rows, total);
    var k :| 0 <= k < |p| && p[k].1 > DominanceThreshold;
    PercentagesEntry(rows, total, p[k]);
    var i :| 0 <= i < |rows| && p[k] == (rows[i].0, RoundTo2(Share(rows[i], total)));
    RoundTo2Above(Share(rows[i], total), 6000);
  }

  // ---------------------------------------------------------------------------
  // The operation

  /** `get_trucker_distribution`, as written. The share comprehension divides
      by the trucker total as soon as there is a company row, and `max` fails on
      no company rows. */
  function TruckerDistribution(byProvince: seq<GroupRow>, byCompany: seq<GroupRow>, total: nat)
    : (r: Result<DistributionReport, DistributionError>)
    ensures r == Failure(EmptyMax) <==> byCompany == []
    ensures r == Failure(ZeroDivision) <==> byCompany != [] && total == 0
    ensures r.Success? ==>
              var m := MostCommonIndex(byCompany);
              r.value.mostCommon == byCompany[m].0 &&
              (forall j :: 0 <= j < |byCompany| ==> byCompany[j].1 <= byCompany[m].1) &&
              (forall j :: 0 <= j < m ==> byCompany[j].1 < byCompany[m].1)
    ensures r.Success? ==>
              total > 0 &&
              r.value.byProvince == PyDict.FromPairs(byProvince) &&
              r.value.byCompany == PyDict.FromPairs(byCompany) &&
              r.value.percentages == Percentages(byCompany, total) &&
              r.value.trend == ClassifyTrend(r.value.percentages)
  {
    if byCompany == [] then Failure(EmptyMax)
    else if total == 0 then Failure(ZeroDivision)
    else
      var percentages := Percentages(byCompany, total);
      Success(DistributionReport(
        PyDict.FromPairs(byProvince),
        PyDict.FromPairs(byCompany),
        percentages,
        byCompany[MostCommonIndex(byCompany)].0,
        ClassifyTrend(percentages)))
  }

  /** The distribution with the neutral defaults for no truckers: no shares, an
      empty most common company and the trend the empty shares give. */
  function TruckerDistributionOrDefault(byProvince: seq<GroupRow>, byCompany: seq<GroupRow>, total: nat)
    : (r: DistributionReport)
    ensures byCompany == [] || total == 0 ==>
              r.percentages == [] && r.mostCommon == "" && r.trend == Balanced
    ensures byCompany != [] && total > 0 ==> Success(r) == TruckerDistribution(byProvince, byCompany, total)
  {
    match TruckerDistribution(byProvince, byCompany, total)
    case Success(report) => report
    case Failure(_) =>
      DistributionReport(PyDict.FromPairs(byProvince), PyDict.FromPairs(byCompany), [], "", Balanced)
  }

  /** As written, no company rows make the classifier fail even though the
      share comprehension itself yields an empty dict for them. */
  lemma NoCompaniesFail(byProvince: seq<GroupRow>, total: nat)
    ensures TruckerDistribution(byProvince, [], total) == Failure(EmptyMax)
    ensures total > 0 ==> Percentages([], total) == []
  {
  }

  /** 70 Acme truckers and 30 independent ones out of 100: shares 70.0 and
      30.0, Acme most common, and company dominance. */
  lemma AcmeDominance()
    ensures TruckerDistribution([], [("Acme", 70), (Independent, 30)], 100)
            == Success(DistributionReport([], [("Acme", 70), (Independent, 30)],
                                          [("Acme", 70.0), (Independent, 30.0)], "Acme", CompanyDominance))
  {
    var rows: seq<GroupRow> := [("Acme", 70), (Independent, 30)];
    var shares: seq<ShareRow> := [("Acme", 70.0), (Independent, 30.0)];
    TwoDistinctLabels(rows);
    AcmeShares(rows, shares);
    AcmeTrend(shares);
    assert MostCommonIndex(rows) == 0;
  }

  lemma AcmeShares(rows: seq<GroupRow>, shares: seq<ShareRow>)
    requires rows == [("Acme", 70), (Independent, 30)]
    requires shares == [("Acme", 70.0), (Independent, 30.0)]
    ensures Percentages(rows, 100) == shares
  {
    WholePercent(70);
    WholePercent(30);
    assert RoundedShares(rows, 100) == shares;
    TwoDistinctLabels(shares);
  }

  lemma AcmeTrend(shares: seq<ShareRow>)
    requires shares == [("Acme", 70.0), (Independent, 30.0)]
    ensures ClassifyTrend(shares) == CompanyDominance
  {
    TwoDistinctLabels(shares);
    PyDict.LookupEntry(shares, 1);
    assert shares[0].1 > DominanceThreshold;
  }

  /** 50 independent and 50 Acme truckers out of 100: the independence rule
      comes first. */
  lemma IndependenceFirst()
    ensures TruckerDistribution([], [(Independent, 50), ("Acme", 50)], 100).value.trend
            == IncreasingIndependence
  {
    var rows: seq<GroupRow> := [(Independent, 50), ("Acme", 50)];
    var shares: seq<ShareRow> := [(Independent, 50.0), ("Acme", 50.0)];
    WholePercent(50);
    assert RoundedShares(rows, 100) == shares;
    TwoDistinctLabels(shares);
    PyDict.LookupEntry(shares, 0);
  }

  lemma TwoDistinctLabels<V>(d: seq<(string, V)>)
    requires |d| == 2 && |d[0].0| != |d[1].0|
    ensures PyDict.UniqueKeys(d) && PyDict.FromPairs(d) == d
  {
    PyDict.FromPairsOfUniqueKeys(d);
  }
}
