/** The result bookkeeping of test/test_report_generator.cpp: test results
    grouped into suites, each suite keeping running counters, and the
    overall totals the report generators add up. Timestamps and the report
    files are not modelled; durations are exact reals. */
module TestReport {
  /** One test result (the timestamp is left out). */
  datatype TestResult = TestResult(testName: string, testCase: string, passed: bool,
                                   durationMs: real, failureMessage: string)

  /** A suite: its results and the counters addTestResult keeps beside them. */
  datatype TestSuiteResult = TestSuiteResult(suiteName: string, results: seq<TestResult>,
                                             totalTests: int, passedTests: int, failedTests: int,
                                             totalDurationMs: real)

  /** The overall statistics the report generators compute. */
  datatype Totals = Totals(suites: nat, tests: int, passed: int, failed: int, durationMs: real)

  /** The suite addTestResult opens when none has been started. */
  const DEFAULT_SUITE: string := "Default Suite"

  function CountPassed(rs: seq<TestResult>): (n: nat)
    ensures n <= |rs|
  {
    if rs == [] then 0
    else CountPassed(rs[..|rs| - 1]) + (if rs[|rs| - 1].passed then 1 else 0)
  }

  /** The failed results: together with the passed ones, every result. */
  function CountFailed(rs: seq<TestResult>): (n: nat)
    ensures n + CountPassed(rs) == |rs|
  {
    if rs == [] then 0
    else CountFailed(rs[..|rs| - 1]) + (if rs[|rs| - 1].passed then 0 else 1)
  }

  function SumDurations(rs: seq<TestResult>): real {
    if rs == [] then 0.0 else SumDurations(rs[..|rs| - 1]) + rs[|rs| - 1].durationMs
  }

  /** A suite's counters describe its results: one test per result, the
      passed ones counted as passed and the rest as failed, and the
      durations summed. */
  predicate Consistent(s: TestSuiteResult) {
    s.totalTests == |s.results|
    && s.passedTests == CountPassed(s.results)
    && s.failedTests == CountFailed(s.results)
    && s.totalDurationMs == SumDurations(s.results)
  }

  /** startTestSuite's fresh suite: no results and every counter zero. */
  function EmptySuite(name: string): (s: TestSuiteResult)
    ensures s.suiteName == name && s.results == []
    ensures Consistent(s)
  {
    TestSuiteResult(name, [], 0, 0, 0, 0.0)
  }

  /** What addTestResult does to the last suite: push the result, count it,
      add its duration, and count it as passed or failed. The counters stay
      consistent with the results. */
  function Record(s: TestSuiteResult, r: TestResult): (t: TestSuiteResult)
    ensures t.suiteName == s.suiteName && t.results == s.results + [r]
    ensures t.totalTests == s.totalTests + 1 && t.totalDurationMs == s.totalDurationMs + r.durationMs
    ensures t.passedTests == s.passedTests + (if r.passed then 1 else 0)
    ensures t.failedTests == s.failedTests + (if r.passed then 0 else 1)
    ensures Consistent(s) ==> Consistent(t)
  {
    var t := s.(results := s.results + [r],
                totalTests := s.totalTests + 1,
                totalDurationMs := s.totalDurationMs + r.durationMs);
    assert t.results[..|t.results| - 1] == s.results;
    if r.passed then t.(passedTests := t.passedTests + 1)
    else t.(failedTests := t.failedTests + 1)
  }

  /** The totals over a list of suites, suite by suite. */
  function SumTotals(ss: seq<TestSuiteResult>): Totals {
    if ss == [] then Totals(0, 0, 0, 0, 0.0)
    else
      var t := SumTotals(ss[..|ss| - 1]);
      var last := ss[|ss| - 1];
      Totals(|ss|, t.tests + last.totalTests, t.passed + last.passedTests,
             t.failed + last.failedTests, t.durationMs + last.totalDurationMs)
  }

  /** The number of results held in all the suites. */
  function ResultCount(ss: seq<TestSuiteResult>): nat {
    if ss == [] then 0 else ResultCount(ss[..|ss| - 1]) + |ss[|ss| - 1].results|
  }

  predicate AllConsistent(ss: seq<TestSuiteResult>) {
    forall k :: 0 <= k < |ss| ==> Consistent(ss[k])
  }

  /** Over consistent suites the totals count every result once, each
      either passed or failed, and the suite count is the number of suites. */
  lemma {:induction false} TotalsCount(ss: seq<TestSuiteResult>)
    requires AllConsistent(ss)
    ensures SumTotals(ss).suites == |ss|
    ensures SumTotals(ss).tests == ResultCount(ss)
    ensures SumTotals(ss).tests == SumTotals(ss).passed + SumTotals(ss).failed
    ensures 0 <= SumTotals(ss).passed <= SumTotals(ss).tests
  {
    if ss != [] {
      TotalsCount(ss[..|ss| - 1]);
    }
  }

  /** Adding a result to the last suite raises the overall test count by
      one, the passed or the failed count by one as the result says, and the
      overall duration by its duration; the suite count is unchanged. */
  lemma {:induction false} TotalsAfterRecord(ss: seq<TestSuiteResult>, r: TestResult)
    requires ss != []
    ensures var after := SumTotals(ss[..|ss| - 1] + [Record(ss[|ss| - 1], r)]);
            var before := SumTotals(ss);
            after.suites == before.suites && after.tests == before.tests + 1
            && after.passed == before.passed + (if r.passed then 1 else 0)
            && after.failed == before.failed + (if r.passed then 0 else 1)
            && after.durationMs == before.durationMs + r.durationMs
  {
    var ss' := ss[..|ss| - 1] + [Record(ss[|ss| - 1], r)];
    assert ss'[..|ss'| - 1] == ss[..|ss| - 1];
  }

  /** Starting a suite adds one suite and leaves every other total as it
      was. */
  lemma {:induction false} TotalsAfterStart(ss: seq<TestSuiteResult>, name: string)
    ensures var after := SumTotals(ss + [EmptySuite(name)]);
            var before := SumTotals(ss);
            after.suites == before.suites + 1 && after.tests == before.tests
            && after.passed == before.passed && after.failed == before.failed
            && after.durationMs == before.durationMs
  {
    var ss' := ss + [EmptySuite(name)];
    assert ss'[..|ss'| - 1] == ss;
    if ss != [] {
      assert SumTotals(ss).suites == |ss|;
    }
  }

  class TestReportGenerator {
    var suiteResults: seq<TestSuiteResult>
    var reportFile: string

    /** Every suite's counters agree with its results. */
    predicate Valid()
      reads this
    {
      AllConsistent(suiteResults)
    }

    /** TestReportGenerator(report_file): no suites yet (the default file
        name is "test_report.html"). */
    constructor(reportFile: string)
      ensures suiteResults == [] && this.reportFile == reportFile
      ensures Valid()
    {
      suiteResults := [];
      this.reportFile := reportFile;
    }

    /** startTestSuite(name): append an empty suite, which later results go
        to. */
    method StartTestSuite(name: string)
      modifies this
      ensures suiteResults == old(suiteResults) + [EmptySuite(name)]
      ensures reportFile == old(reportFile)
      ensures old(Valid()) ==> Valid()
    {
      suiteResults := suiteResults + [EmptySuite(name)];
    }

    /** addTestResult: open "Default Suite" when no suite exists, then record
        the result in the last suite; earlier suites are untouched. */
    method AddTestResult(testName: string, testCase: string, passed: bool,
                         durationMs: real, failureMessage: string)
      modifies this
      ensures var r := TestResult(testName, testCase, passed, durationMs, failureMessage);
              var before := if old(suiteResults) == [] then [EmptySuite(DEFAULT_SUITE)] else old(suiteResults);
              suiteResults == before[..|before| - 1] + [Record(before[|before| - 1], r)]
      ensures reportFile == old(reportFile)
      ensures old(Valid()) ==> Valid()
    {
      if suiteResults == [] {
        StartTestSuite(DEFAULT_SUITE);
      }
      var r := TestResult(testName, testCase, passed, durationMs, failureMessage);
      var n := |suiteResults|;
      suiteResults := suiteResults[..n - 1] + [Record(suiteResults[n - 1], r)];
    }

    /** The overall statistics of both report generators: the suite count,
        then each suite's counters added up in order. */
    method ComputeTotals() returns (t: Totals)
      ensures t == SumTotals(suiteResults)
      ensures Valid() ==> t.tests == t.passed + t.failed && t.suites == |suiteResults|
    {
      var ss := suiteResults;
      t := Totals(|ss|, 0, 0, 0, 0.0);
      var i := 0;
      while i < |ss|
        invariant 0 <= i <= |ss|
        invariant t == SumTotals(ss[..i]).(suites := |ss|)
      {
        assert ss[..i + 1][..i] == ss[..i];
        var suite := ss[i];
        t := t.(tests := t.tests + suite.totalTests, passed := t.passed + suite.passedTests,
                failed := t.failed + suite.failedTests,
                durationMs := t.durationMs + suite.totalDurationMs);
        i := i + 1;
      }
      assert ss[..i] == ss;
      if ss != [] {
        assert SumTotals(ss).suites == |ss|;
      }
      if Valid() {
        TotalsCount(ss);
      }
    }
  }
}
