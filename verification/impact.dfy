/** Impact calculator (`get_business_impact`) and compliance snapshot
    (`get_compliance_data`): guarded percentage rates and raw totals over the
    counts the store reports. */
module Impact {
  import opened Rounding
  import opened Ratio

  /** The counts the two operations read from the store, one per query. */
  datatype StoreCounts = StoreCounts(
    totalEmployees: nat,
    archivedEmployees: nat,
    activeEmployees: nat,
    totalTruckers: nat,
    archivedTruckers: nat,
    activeTruckers: nat,
    totalDocuments: nat,
    verifiedDocuments: nat)

  /** Counts that a single consistent snapshot of the store would give. */
  predicate Consistent(c: StoreCounts)
  {
    c.archivedEmployees <= c.totalEmployees &&
    c.archivedTruckers <= c.totalTruckers &&
    c.verifiedDocuments <= c.totalDocuments
  }

  datatype ImpactReport = ImpactReport(
    employeeChurnRate: real,
    truckerChurnRate: real,
    documentComplianceRate: real)

  datatype ComplianceSnapshot = ComplianceSnapshot(
    totalEmployees: nat,
    activeEmployees: nat,
    totalTruckers: nat,
    activeTruckers: nat,
    totalDocuments: nat,
    verifiedDocuments: nat,
    unverifiedDocuments: int)

  /** `round((subset / total) * 100, 2) if total else 0`: never divides by zero,
      is 0 for an empty total, and otherwise lies within half a hundredth of
      the exact percentage. */
  function Rate(subset: nat, total: nat): (r: real)
    ensures total == 0 ==> r == 0.0
    ensures total > 0 ==> -0.005 <= r - Percent(subset as real, total as real) <= 0.005
  {
    if total == 0 then 0.0 else RoundTo2(Percent(subset as real, total as real))
  }

  /** A rate of a subset of the total is a percentage in [0, 100]. */
  lemma RateInRange(subset: nat, total: nat)
    requires subset <= total
    ensures 0.0 <= Rate(subset, total) <= 100.0
  {
    if total > 0 {
      PercentInRange(subset as real, total as real);
      RoundTo2InRange(Percent(subset as real, total as real));
    }
  }

  /** 20 of 200 is a rate of 10.0. */
  lemma RateExample()
    ensures Rate(20, 200) == 10.0
  {
    assert Percent(20.0, 200.0) == 10.0;
    RoundOfInteger(1000);
  }

  /** `get_business_impact`: the employee and trucker churn rates and the
      document compliance rate; a rate over an empty total is 0. */
  function BusinessImpact(c: StoreCounts): (r: ImpactReport)
    ensures c.totalEmployees == 0 ==> r.employeeChurnRate == 0.0
    ensures c.totalTruckers == 0 ==> r.truckerChurnRate == 0.0
    ensures c.totalDocuments == 0 ==> r.documentComplianceRate == 0.0
    ensures r.employeeChurnRate == Rate(c.archivedEmployees, c.totalEmployees)
    ensures r.truckerChurnRate == Rate(c.archivedTruckers, c.totalTruckers)
    ensures r.documentComplianceRate == Rate(c.verifiedDocuments, c.totalDocuments)
  {
    ImpactReport(
      Rate(c.archivedEmployees, c.totalEmployees),
      Rate(c.archivedTruckers, c.totalTruckers),
      Rate(c.verifiedDocuments, c.totalDocuments))
  }

  /** On consistent counts every rate of the impact report is a percentage in
      [0, 100]. */
  lemma BusinessImpactInRange(c: StoreCounts)
    requires Consistent(c)
    ensures var r := BusinessImpact(c);
            0.0 <= r.employeeChurnRate <= 100.0 &&
            0.0 <= r.truckerChurnRate <= 100.0 &&
            0.0 <= r.documentComplianceRate <= 100.0
  {
    RateInRange(c.archivedEmployees, c.totalEmployees);
    RateInRange(c.archivedTruckers, c.totalTruckers);
    RateInRange(c.verifiedDocuments, c.totalDocuments);
  }

  /** `get_compliance_data`: the raw totals, passed through, and the number of
      unverified documents, which together with the verified ones makes up the
      total. It is not clamped: it is negative exactly when the store reports
      more verified documents than documents. */
  function ComplianceData(c: StoreCounts): (s: ComplianceSnapshot)
    ensures s.totalEmployees == c.totalEmployees && s.activeEmployees == c.activeEmployees
    ensures s.totalTruckers == c.totalTruckers && s.activeTruckers == c.activeTruckers
    ensures s.totalDocuments == c.totalDocuments && s.verifiedDocuments == c.verifiedDocuments
    ensures s.verifiedDocuments + s.unverifiedDocuments == s.totalDocuments
    ensures s.unverifiedDocuments >= 0 <==> c.verifiedDocuments <= c.totalDocuments
  {
    ComplianceSnapshot(
      c.totalEmployees, c.activeEmployees,
      c.totalTruckers, c.activeTruckers,
      c.totalDocuments, c.verifiedDocuments,
      c.totalDocuments - c.verifiedDocuments)
  }

  /** The compliance rate the impact calculator reports is the verified share of
      the documents the snapshot counts. */
  lemma ComplianceRateOfSnapshot(c: StoreCounts)
    requires c.totalDocuments > 0
    ensures var s := ComplianceData(c);
            BusinessImpact(c).documentComplianceRate
              == RoundTo2(Percent(s.verifiedDocuments as real, (s.verifiedDocuments + s.unverifiedDocuments) as real))
  {
  }
}
