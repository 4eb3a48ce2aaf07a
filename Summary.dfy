/** getFormattedCoveragePercentage of both variants: the percentage of hit lines (0 for a
    report with no lines at all), and the summary text built around formatPercentage. */
module Summary {

  import opened Wrappers
  import opened Strings
  import opened CoverageTree
  import opened TextFormat
  import opened TextFormatLegacy

  /** The share of found lines that were hit, in percent; 0 when no line was found, so the
      division never has a zero divisor. */
  function Percentage(m: Metrics): (p: real)
    ensures p >= 0.0
    ensures m.linesFound == 0 ==> p == 0.0
    ensures m.linesFound > 0 ==> p * m.linesFound as real == m.linesHit as real * 100.0
    ensures m.linesHit <= m.linesFound ==> p <= 100.0
    ensures 0 < m.linesFound == m.linesHit ==> p == 100.0
  {
    if m.linesFound == 0 then 0.0
    else
      var q := m.linesHit as real / m.linesFound as real;
      RatioFacts(m.linesHit as real, m.linesFound as real);
      q * 100.0
  }

  lemma RatioFacts(h: real, f: real)
    requires h >= 0.0 && f > 0.0
    ensures h / f >= 0.0 && (h / f) * 100.0 * f == h * 100.0
    ensures h <= f ==> h / f <= 1.0
    ensures h == f ==> h / f == 1.0
  {
    var q := h / f;
    assert q * f == h;
    if h <= f {
      if q > 1.0 {
        assert q * f > f;
      }
    }
  }

  /** The summary of src/coverage-report.js: "<hit> of <found> lines covered ( <tiered
      percentage>)", both counts with thousands separators. */
  function FormattedCoverage(m: Metrics, threshold: real): (r: string)
    ensures var head := LocaleString(m.linesHit) + " of " + LocaleString(m.linesFound) + " lines covered ( ";
      |head| < |r| && r[..|head|] == head && r[|r| - 1] == ')'
      && Undecorate(r[|head|..|r| - 1]) == Some((Classify(Percentage(m), threshold), ToFixed2(Percentage(m)) + "%"))
  {
    var head := LocaleString(m.linesHit) + " of " + LocaleString(m.linesFound) + " lines covered ( ";
    var tiered := FormatPercentage(Percentage(m), threshold);
    var r := head + tiered + ")";
    assert r[|head|..|r| - 1] == tiered;
    r
  }

  /** The summary of coverage-report.js: the tiered percentage alone, three tiers. */
  function FormattedCoverageLegacy(m: Metrics, threshold: real): (r: string)
    ensures Undecorate(r) == Some((Classify3(Percentage(m), threshold), ToFixed2(Percentage(m)) + "%"))
  {
    FormatPercentage3(Percentage(m), threshold)
  }

  /** The older summary is the parenthesised part of the newer one, except that full coverage
      shows as success there. */
  lemma SummariesAgree(m: Metrics, threshold: real)
    ensures FormattedCoverage(m, threshold) ==
      LocaleString(m.linesHit) + " of " + LocaleString(m.linesFound) + " lines covered ( "
      + (if Classify(Percentage(m), threshold) == FullCoverage
         then FormatFullCoverageText(ToFixed2(Percentage(m)) + "%")
         else FormattedCoverageLegacy(m, threshold)) + ")"
  {
    var p := Percentage(m);
    VersionsAgree(p, threshold);
  }

  /** The counts in the summary read back, once their separators are dropped, as the plain
      digits of linesHit and linesFound. */
  lemma SummaryCounts(m: Metrics)
    ensures RemoveChar(LocaleString(m.linesHit), ',') == NatToString(m.linesHit)
    ensures RemoveChar(LocaleString(m.linesFound), ',') == NatToString(m.linesFound)
  {
    LocaleStringDigits(m.linesHit);
    LocaleStringDigits(m.linesFound);
  }

  /** A report without any line reads as 0.00%, failing for every positive threshold. */
  lemma EmptyReportFails(m: Metrics, threshold: real)
    requires m.linesFound == 0 && threshold > 0.0
    ensures FormatPercentage(Percentage(m), threshold) == ":no_entry: 0.00%"
  {
    ShowsAs(0.0, threshold, 0, Failing, "0.00", ":no_entry: 0.00%");
  }

  /** Every found line hit, with a threshold up to 100 / 1.1, is full coverage. */
  lemma AllHitIsFull(m: Metrics, threshold: real)
    requires 0 < m.linesFound == m.linesHit && threshold * 1.1 <= 100.0
    ensures FormatPercentage(Percentage(m), threshold) == ":gem: 100.00%"
  {
    ShowsAs(100.0, threshold, 10000, FullCoverage, "100.00", ":gem: 100.00%") by { assert NatToString(100) == "100"; }
  }

  /** The summary assembled from the texts of its three parts. */
  lemma SummaryOf(m: Metrics, threshold: real, hit: string, found: string, percentage: string, text: string)
    requires LocaleString(m.linesHit) == hit && LocaleString(m.linesFound) == found
    requires FormatPercentage(Percentage(m), threshold) == percentage
    requires hit + " of " + found + " lines covered ( " + percentage + ")" == text
    ensures FormattedCoverage(m, threshold) == text
  {
  }

  /** The fixtures of the module's tests, with the threshold at 80. */
  lemma EmptyReportText(hit: string, found: string, percentage: string, text: string)
    requires hit == "0" && found == "0" && percentage == ":no_entry: 0.00%" && text == "0 of 0 lines covered ( :no_entry: 0.00%)"
    ensures hit + " of " + found + " lines covered ( " + percentage + ")" == text
  {
    assert hit + " of " + found == "0 of 0";
    assert "0 of 0" + " lines covered ( " == "0 of 0 lines covered ( ";
    assert "0 of 0 lines covered ( " + percentage == "0 of 0 lines covered ( :no_entry: 0.00%";
  }

  lemma EmptyReportFixture()
    ensures FormattedCoverage(Metrics(0, 0), 80.0) == "0 of 0 lines covered ( :no_entry: 0.00%)"
  {
    EmptyReportFails(Metrics(0, 0), 80.0);
    EmptyReportText("0", "0", ":no_entry: 0.00%", "0 of 0 lines covered ( :no_entry: 0.00%)");
    SummaryOf(Metrics(0, 0), 80.0, "0", "0", ":no_entry: 0.00%", "0 of 0 lines covered ( :no_entry: 0.00%)");
  }

  lemma ReportText(hit: string, found: string, percentage: string, text: string)
    requires hit == "17" && found == "30" && percentage == ":no_entry: 56.67%" && text == "17 of 30 lines covered ( :no_entry: 56.67%)"
    ensures hit + " of " + found + " lines covered ( " + percentage + ")" == text
  {
    assert hit + " of " + found == "17 of 30";
    assert "17 of 30" + " lines covered ( " == "17 of 30 lines covered ( ";
    assert "17 of 30 lines covered ( " + percentage == "17 of 30 lines covered ( :no_entry: 56.67%";
  }

  lemma ReportFixture()
    ensures FormattedCoverage(Metrics(30, 17), 80.0) == "17 of 30 lines covered ( :no_entry: 56.67%)"
  {
    var p := Percentage(Metrics(30, 17));
    assert p * 30.0 == 1700.0;
    ShowsAs(p, 80.0, 5667, Failing, "56.67", ":no_entry: 56.67%") by { assert NatToString(56) == "56"; }
    assert LocaleString(17) == "17" by { assert NatToString(17) == "17"; }
    assert LocaleString(30) == "30" by { assert NatToString(30) == "30"; }
    ReportText("17", "30", ":no_entry: 56.67%", "17 of 30 lines covered ( :no_entry: 56.67%)");
    SummaryOf(Metrics(30, 17), 80.0, "17", "30", ":no_entry: 56.67%", "17 of 30 lines covered ( :no_entry: 56.67%)");
  }

  lemma HalfText(hit: string, found: string, percentage: string, text: string)
    requires hit == "4" && found == "8" && percentage == ":no_entry: 50.00%" && text == "4 of 8 lines covered ( :no_entry: 50.00%)"
    ensures hit + " of " + found + " lines covered ( " + percentage + ")" == text
  {
    assert hit + " of " + found == "4 of 8";
    assert "4 of 8" + " lines covered ( " == "4 of 8 lines covered ( ";
    assert "4 of 8 lines covered ( " + percentage == "4 of 8 lines covered ( :no_entry: 50.00%";
  }

  lemma HalfFixture()
    ensures FormattedCoverage(Metrics(8, 4), 80.0) == "4 of 8 lines covered ( :no_entry: 50.00%)"
  {
    var p := Percentage(Metrics(8, 4));
    assert p * 8.0 == 400.0;
    ShowsAs(p, 80.0, 5000, Failing, "50.00", ":no_entry: 50.00%") by { assert NatToString(50) == "50"; }
    HalfText("4", "8", ":no_entry: 50.00%", "4 of 8 lines covered ( :no_entry: 50.00%)");
    SummaryOf(Metrics(8, 4), 80.0, "4", "8", ":no_entry: 50.00%", "4 of 8 lines covered ( :no_entry: 50.00%)");
  }

  lemma ThirdFileText(hit: string, found: string, percentage: string, text: string)
    requires hit == "5" && found == "13" && percentage == ":no_entry: 38.46%" && text == "5 of 13 lines covered ( :no_entry: 38.46%)"
    ensures hit + " of " + found + " lines covered ( " + percentage + ")" == text
  {
    assert hit + " of " + found == "5 of 13";
    assert "5 of 13" + " lines covered ( " == "5 of 13 lines covered ( ";
    assert "5 of 13 lines covered ( " + percentage == "5 of 13 lines covered ( :no_entry: 38.46%";
  }

  lemma ThirdFileFixture()
    ensures FormattedCoverage(Metrics(13, 5), 80.0) == "5 of 13 lines covered ( :no_entry: 38.46%)"
  {
    var p := Percentage(Metrics(13, 5));
    assert p * 13.0 == 500.0;
    ShowsAs(p, 80.0, 3846, Failing, "38.46", ":no_entry: 38.46%") by { assert NatToString(38) == "38"; }
    assert LocaleString(13) == "13" by { assert NatToString(13) == "13"; }
    ThirdFileText("5", "13", ":no_entry: 38.46%", "5 of 13 lines covered ( :no_entry: 38.46%)");
    SummaryOf(Metrics(13, 5), 80.0, "5", "13", ":no_entry: 38.46%", "5 of 13 lines covered ( :no_entry: 38.46%)");
  }

  lemma UntouchedFileText(hit: string, found: string, percentage: string, text: string)
    requires hit == "0" && found == "1" && percentage == ":no_entry: 0.00%" && text == "0 of 1 lines covered ( :no_entry: 0.00%)"
    ensures hit + " of " + found + " lines covered ( " + percentage + ")" == text
  {
    assert hit + " of " + found == "0 of 1";
    assert "0 of 1" + " lines covered ( " == "0 of 1 lines covered ( ";
    assert "0 of 1 lines covered ( " + percentage == "0 of 1 lines covered ( :no_entry: 0.00%";
  }

  lemma UntouchedFileFixture()
    ensures FormattedCoverage(Metrics(1, 0), 80.0) == "0 of 1 lines covered ( :no_entry: 0.00%)"
  {
    assert Percentage(Metrics(1, 0)) == 0.0;
    ShowsAs(0.0, 80.0, 0, Failing, "0.00", ":no_entry: 0.00%");
    UntouchedFileText("0", "1", ":no_entry: 0.00%", "0 of 1 lines covered ( :no_entry: 0.00%)");
    SummaryOf(Metrics(1, 0), 80.0, "0", "1", ":no_entry: 0.00%", "0 of 1 lines covered ( :no_entry: 0.00%)");
  }

  lemma FullText(hit: string, found: string, percentage: string, text: string)
    requires hit == "8" && found == "8" && percentage == ":gem: 100.00%" && text == "8 of 8 lines covered ( :gem: 100.00%)"
    ensures hit + " of " + found + " lines covered ( " + percentage + ")" == text
  {
    assert hit + " of " + found == "8 of 8";
    assert "8 of 8" + " lines covered ( " == "8 of 8 lines covered ( ";
    assert "8 of 8 lines covered ( " + percentage == "8 of 8 lines covered ( :gem: 100.00%";
  }

  lemma FullFixture()
    ensures FormattedCoverage(Metrics(8, 8), 80.0) == "8 of 8 lines covered ( :gem: 100.00%)"
  {
    AllHitIsFull(Metrics(8, 8), 80.0);
    FullText("8", "8", ":gem: 100.00%", "8 of 8 lines covered ( :gem: 100.00%)");
    SummaryOf(Metrics(8, 8), 80.0, "8", "8", ":gem: 100.00%", "8 of 8 lines covered ( :gem: 100.00%)");
  }

  /** The older summary at 100%: success, the percentage only. */
  lemma LegacyFullFixture()
    ensures FormattedCoverageLegacy(Metrics(8, 8), 80.0) == ":white_check_mark: 100.00%"
  {
    FullIsSuccessFixture();
  }
}
