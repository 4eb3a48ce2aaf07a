/** text-format.js, the older variant: the same three text helpers (modelled by those of
    TextFormat, whose bodies are identical) and a formatPercentage with three tiers, with no
    separate tier for full coverage. */
module TextFormatLegacy {

  import opened Wrappers
  import opened Strings
  import opened TextFormat

  /** The three-branch `if` chain: fail below the threshold, warn below 1.1 times it,
      success otherwise. */
  function Classify3(percentage: real, threshold: real): (t: Tier)
    ensures t != FullCoverage
    ensures t == Failing <==> percentage < threshold
    ensures t == Warning <==> threshold <= percentage < threshold * 1.1
    ensures t == Passing <==> threshold <= percentage && threshold * 1.1 <= percentage
  {
    if percentage < threshold then Failing
    else if percentage < threshold * 1.1 then Warning
    else Passing
  }

  /** The older formatPercentage. */
  function FormatPercentage3(percentage: real, threshold: real): (r: string)
    ensures Undecorate(r) == Some((Classify3(percentage, threshold), ToFixed2(percentage) + "%"))
  {
    var text := ToFixed2(percentage) + "%";
    Decorate(Classify3(percentage, threshold), text)
  }

  /** The two versions agree everywhere except on the full tier, which the older one reports
      as success. */
  lemma VersionsAgree(percentage: real, threshold: real)
    ensures FormatPercentage3(percentage, threshold) ==
      if Classify(percentage, threshold) == FullCoverage
      then FormatSuccessText(ToFixed2(percentage) + "%")
      else FormatPercentage(percentage, threshold)
  {
  }

  /** 100% at a threshold of 80 is plain success in this version. */
  lemma FullIsSuccessFixture()
    ensures FormatPercentage3(100.0, 80.0) == ":white_check_mark: 100.00%"
  {
    Fixed2Of(100.0, 10000, "100.00") by { assert NatToString(100) == "100"; }
  }
}
