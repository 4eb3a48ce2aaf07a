/** src/text-format.js: the emoji-prefixed text helpers and the four-tier classification of
    a coverage percentage against the configured threshold. The threshold, read once from
    the action's input when the module loads, is a parameter here. */
module TextFormat {

  import opened Wrappers
  import opened Strings

  /** The classification buckets, one per text helper. */
  datatype Tier = Failing | Warning | FullCoverage | Passing

  function FormatErrorText(input: string): string {
    ":no_entry: " + input
  }

  function FormatWarningText(input: string): string {
    ":warning: " + input
  }

  function FormatSuccessText(input: string): string {
    ":white_check_mark: " + input
  }

  function FormatFullCoverageText(input: string): string {
    ":gem: " + input
  }

  /** The emoji code each tier's helper puts before the space. */
  function Emoji(t: Tier): string {
    match t
    case Failing => ":no_entry:"
    case Warning => ":warning:"
    case FullCoverage => ":gem:"
    case Passing => ":white_check_mark:"
  }

  /** Reads a decorated text back: which helper produced it and what it was given. */
  function Undecorate(s: string): Option<(Tier, string)> {
    if StartsWith(s, ":no_entry: ") then Some((Failing, s[11..]))
    else if StartsWith(s, ":warning: ") then Some((Warning, s[10..]))
    else if StartsWith(s, ":gem: ") then Some((FullCoverage, s[6..]))
    else if StartsWith(s, ":white_check_mark: ") then Some((Passing, s[19..]))
    else None
  }

  /** The helper that belongs to a tier. Its output names the tier and carries the input
      unchanged after the prefix: no prefix is a prefix of another, so the tier of a text
      is never ambiguous. */
  function Decorate(t: Tier, input: string): (r: string)
    ensures Undecorate(r) == Some((t, input))
  {
    PrefixedReadsBack(t, input);
    match t
    case Failing => FormatErrorText(input)
    case Warning => FormatWarningText(input)
    case FullCoverage => FormatFullCoverageText(input)
    case Passing => FormatSuccessText(input)
  }

  lemma PrefixedReadsBack(t: Tier, input: string)
    ensures Undecorate(Emoji(t) + " " + input) == Some((t, input))
  {
    var s := Emoji(t) + " " + input;
    match t
    case Failing => assert s[..11] == ":no_entry: ";
    case Warning =>
      assert s[..10] == ":warning: ";
      assert !StartsWith(s, ":no_entry: ") by { assert s[1] == 'w'; }
    case FullCoverage =>
      assert s[..6] == ":gem: ";
      assert !StartsWith(s, ":no_entry: ") by { assert s[1] == 'g'; }
      assert !StartsWith(s, ":warning: ") by { assert s[1] == 'g'; }
    case Passing =>
      assert s[..19] == ":white_check_mark: ";
      assert !StartsWith(s, ":no_entry: ") by { assert s[1] == 'w'; }
      assert !StartsWith(s, ":warning: ") by { assert s[2] == 'h'; }
      assert !StartsWith(s, ":gem: ") by { assert s[1] == 'w'; }
  }

  /** The `if` chain of formatPercentage: fail below the threshold, warn below 1.1 times the
      threshold, full when the two-decimal text is "100.00%", success otherwise. Both
      thresholds are compared with the unrounded percentage. */
  function Classify(percentage: real, threshold: real): (t: Tier)
    ensures t == Failing <==> percentage < threshold
    ensures t == Warning <==> threshold <= percentage < threshold * 1.1
    ensures t == FullCoverage <==>
      threshold <= percentage && threshold * 1.1 <= percentage && 99.995 <= percentage < 100.005
    ensures t == Passing <==>
      threshold <= percentage && threshold * 1.1 <= percentage && !(99.995 <= percentage < 100.005)
  {
    var text := ToFixed2(percentage) + "%";
    if percentage < threshold then Failing
    else if percentage < threshold * 1.1 then Warning
    else if text == "100.00%" then
      assert percentage >= 0.0 by { FixedIsNotNegative(percentage); }
      ToFixed2Percent100(percentage);
      FullCoverage
    else
      assert percentage >= 0.0 ==> !(99.995 <= percentage < 100.005) by {
        if percentage >= 0.0 { ToFixed2Percent100(percentage); }
      }
      Passing
  }

  /** A negative value never renders as "100.00%" (its text starts with a minus sign). */
  lemma FixedIsNotNegative(percentage: real)
    requires ToFixed2(percentage) + "%" == "100.00%"
    ensures percentage >= 0.0
  {
    assert (ToFixed2(percentage) + "%")[0] == '1';
  }

  lemma ToFixed2Percent100(x: real)
    requires x >= 0.0
    ensures ToFixed2(x) + "%" == "100.00%" <==> 99.995 <= x < 100.005
  {
    ToFixed2Is100(x);
    if ToFixed2(x) + "%" == "100.00%" {
      assert ToFixed2(x) == (ToFixed2(x) + "%")[..|ToFixed2(x)|];
      assert |ToFixed2(x)| == 6;
      assert "100.00%"[..6] == "100.00";
    }
  }

  /** formatPercentage: the tier's prefix, a space, and the percentage to two decimals with a
      percent sign. */
  function FormatPercentage(percentage: real, threshold: real): (r: string)
    ensures Undecorate(r) == Some((Classify(percentage, threshold), ToFixed2(percentage) + "%"))
  {
    var text := ToFixed2(percentage) + "%";
    Decorate(Classify(percentage, threshold), text)
  }

  /** formatPercentage of a value within half a hundredth of `n` hundredths, in tier `t`. */
  lemma ShowsAs(percentage: real, threshold: real, n: nat, t: Tier, digits: string, expected: string)
    requires percentage >= 0.0 && n as real - 0.5 <= percentage * 100.0 < n as real + 0.5
    requires FixedOfHundredths(n) == digits && Classify(percentage, threshold) == t
    requires Emoji(t) + " " + digits + "%" == expected
    ensures FormatPercentage(percentage, threshold) == expected
  {
    Fixed2Of(percentage, n, digits);
  }

  /** The fixtures of the module's tests, with the threshold at 80: below the threshold. */
  lemma FailingAt0()
    ensures FormatPercentage(0.0, 80.0) == ":no_entry: 0.00%"
  {
    ShowsAs(0.0, 80.0, 0, Failing, "0.00", ":no_entry: 0.00%");
  }

  lemma FailingAt25()
    ensures FormatPercentage(25.3, 80.0) == ":no_entry: 25.30%"
  {
    ShowsAs(25.3, 80.0, 2530, Failing, "25.30", ":no_entry: 25.30%") by { assert NatToString(25) == "25"; }
  }

  /** Rounded up to the threshold's text, but still below it. */
  lemma FailingAt79()
    ensures FormatPercentage(79.499, 80.0) == ":no_entry: 79.50%"
  {
    ShowsAs(79.499, 80.0, 7950, Failing, "79.50", ":no_entry: 79.50%") by { assert NatToString(79) == "79"; }
  }

  /** From the threshold (inclusive) up to 1.1 times it. */
  lemma WarningAt80()
    ensures FormatPercentage(80.0, 80.0) == ":warning: 80.00%"
  {
    ShowsAs(80.0, 80.0, 8000, Warning, "80.00", ":warning: 80.00%") by { assert NatToString(80) == "80"; }
  }

  lemma WarningAt85()
    ensures FormatPercentage(85.24, 80.0) == ":warning: 85.24%"
  {
    ShowsAs(85.24, 80.0, 8524, Warning, "85.24", ":warning: 85.24%") by { assert NatToString(85) == "85"; }
  }

  /** Rounded up to 1.1 times the threshold's text, but still below it. */
  lemma WarningAt87()
    ensures FormatPercentage(87.999, 80.0) == ":warning: 88.00%"
  {
    ShowsAs(87.999, 80.0, 8800, Warning, "88.00", ":warning: 88.00%") by { assert NatToString(88) == "88"; }
  }

  /** At or above 1.1 times the threshold. */
  lemma PassingAt88()
    ensures FormatPercentage(88.001, 80.0) == ":white_check_mark: 88.00%"
  {
    ShowsAs(88.001, 80.0, 8800, Passing, "88.00", ":white_check_mark: 88.00%") by { assert NatToString(88) == "88"; }
  }

  lemma PassingAt89()
    ensures FormatPercentage(89.0, 80.0) == ":white_check_mark: 89.00%"
  {
    ShowsAs(89.0, 80.0, 8900, Passing, "89.00", ":white_check_mark: 89.00%") by { assert NatToString(89) == "89"; }
  }

  /** Exactly 100 is the full tier in this version. */
  lemma FullAt100()
    ensures FormatPercentage(100.0, 80.0) == ":gem: 100.00%"
  {
    ShowsAs(100.0, 80.0, 10000, FullCoverage, "100.00", ":gem: 100.00%") by { assert NatToString(100) == "100"; }
  }
}
