/**
  Worked runs: a clean project, a CVE whose score exceeds the default
  threshold, a CVE whose score stays below an explicit threshold, and an
  advisory that only the verbose mode trips over.
 */
module Scenarios {
  import opened Wrappers
  import opened Numbers
  import opened Scores
  import opened Npm
  import opened Decision

  /** `Number("0.00234")` */
  lemma ReadScoreB()
    ensures ParseNumber("0.00234") == Dec(234, 5)
  {
    assert ToFixedText(Dec(234, 5), 5) == "0.00234" by {
      assert Pow10(5) == 100000 by { assert Pow10(2) == 100; }
      assert DivMod10(234, 5) == (0, 234);
      assert PaddedText(234, 5) == "00234";
    }
    FixedRoundsDec(234, 5, 5);
  }

  /** `Number("0.00001")` */
  lemma ReadScoreD()
    ensures ParseNumber("0.00001") == Dec(1, 5)
  {
    assert ToFixedText(Dec(1, 5), 5) == "0.00001" by {
      assert Pow10(5) == 100000 by { assert Pow10(2) == 100; }
      assert DivMod10(1, 5) == (0, 1);
      assert PaddedText(1, 5) == "00001";
    }
    FixedRoundsDec(1, 5, 5);
  }

  /** An advisory for `cve` with a CVSS score and one finding. */
  function AdvisoryFor(cve: string): Advisory
  {
    Advisory("lodash", "high", Some([cve]), Some(Cvss("7.5")), Some([Finding("4.17.20", Some(["lodash"]))]))
  }

  /** No advisories: "No vulnerabilities found", exit 0. */
  lemma CleanProject(scores: map<string, ScoreEntry>, p: PackageJson, l: PackageLock, env: Env,
                     server: Server, verbose: bool, threshold: Num)
    requires server(Payload(p, l, env)) == Some(Response(false, Some([])))
    ensures Verdict(scores, Parsed(p), Parsed(l), env, server, verbose, threshold) == Exit(0, [])
  {
  }

  /** A score file of two header lines and one data line stores exactly that line's entry. */
  lemma LoadOneLine(model: string, header: string, cve: string, epss: string, percentile: string)
    requires '\n' !in model && '\n' !in header
    requires '\n' !in cve && '\n' !in epss && '\n' !in percentile
    requires ',' !in cve && ',' !in epss && ',' !in percentile
    ensures var line := cve + [','] + (epss + [','] + percentile);
      LoadLines(map[], DataLines(model + ['\n'] + (header + ['\n'] + line)))
      == map[cve := ScoreEntry(Some(epss), Some(percentile))]
  {
    var line := cve + [','] + (epss + [','] + percentile);
    assert '\n' !in line;
    var csv := model + ['\n'] + (header + ['\n'] + line);
    Text.SplitNoSeparator(line, '\n');
    Text.SplitAfterRun(header, '\n', line);
    Text.SplitAfterRun(model, '\n', header + ['\n'] + line);
    assert DataLines(csv) == [line];
    Text.SplitNoSeparator(percentile, ',');
    LeadingFields(cve, epss, percentile, percentile);
    assert [line][..0] == [];
  }

  /** The numbers the audit derives from the EPSS text "0.00234". */
  lemma ScoreBValues(percentile: Option<string>)
    ensures Round5(ScoreEntry(Some("0.00234"), percentile)) == Dec(234, 5)
    ensures Percent(ScoreEntry(Some("0.00234"), percentile)) == Dec(234, 3)
  {
    ReadScoreB();
    FixedRounds(Dec(234, 5), 5);
    FixedRounds(Dec(23400, 5), 3);
    assert RoundAt(23400, 5, 3) == 234 by {
      assert Pow10(2) == 100;
      assert (23400 + 50) / 100 == 234;
    }
  }

  /** The numbers the audit derives from the EPSS text "0.00001". */
  lemma ScoreDValues(percentile: Option<string>)
    ensures Round5(ScoreEntry(Some("0.00001"), percentile)) == Dec(1, 5)
    ensures Percent(ScoreEntry(Some("0.00001"), percentile)) == Dec(1, 3)
  {
    ReadScoreD();
    FixedRounds(Dec(1, 5), 5);
    FixedRounds(Dec(100, 5), 3);
    assert RoundAt(100, 5, 3) == 1 by {
      assert Pow10(2) == 100;
      assert (100 + 50) / 100 == 1;
    }
  }

  /** One advisory with a scored CVE: one row, and the exit code the threshold test gives. */
  lemma DecideOne(cve: string, e: ScoreEntry, threshold: Num)
    ensures var a := AdvisoryFor(cve);
      Decide([a], map[cve := e], false, threshold)
      == Exit(if Greater(Round5(e), Fixed(threshold, 5)) then 2 else 0, [Row("lodash", "high", cve, "7.5", Percent(e))])
  {
    SingleAdvisory(AdvisoryFor(cve), map[cve := e], threshold);
  }

  /** A single advisory that raises nothing gives its own row and its own threshold test. */
  lemma SingleAdvisory(a: Advisory, scores: map<string, ScoreEntry>, threshold: Num)
    requires HasCve(a) && a.cvss.Some? && FirstCve(a) in scores
    ensures Decide([a], scores, false, threshold)
      == Exit(if Exceeds(a, scores, threshold) then 2 else 0, [RowOf(a, scores)])
  {
    SingleNoFault(a, scores);
    SingleRow(a, scores);
    SingleExceeds(a, scores, threshold);
  }

  lemma SingleNoFault(a: Advisory, scores: map<string, ScoreEntry>)
    requires HasCve(a) && a.cvss.Some? && FirstCve(a) in scores
    ensures NoFault([a], scores, false) && FirstFault([a], scores, false) == None
  {
    assert Fault(a, scores, false) == None;
    assert [a][0] == a;
  }

  lemma SingleRow(a: Advisory, scores: map<string, ScoreEntry>)
    requires HasCve(a) && a.cvss.Some? && FirstCve(a) in scores && NoFault([a], scores, false)
    ensures Rows([a], scores) == [RowOf(a, scores)]
  {
    assert [a][..0] == [];
  }

  lemma SingleExceeds(a: Advisory, scores: map<string, ScoreEntry>, threshold: Num)
    ensures AnyExceeds([a], scores, threshold) == Exceeds(a, scores, threshold)
  {
    assert [a][0] == a;
  }

  /**
    CVE-2023-0001 with EPSS 0.00234 under the default threshold 0.0: the run
    prints a 0.234 % row and exits with 2.
   */
  lemma AboveDefaultThreshold(cve: string, percentile: Option<string>)
    ensures var scores := map[cve := ScoreEntry(Some("0.00234"), percentile)];
      Decide([AdvisoryFor(cve)], scores, false, Dec(0, 0))
      == Exit(2, [Row("lodash", "high", cve, "7.5", Dec(234, 3))])
  {
    var e := ScoreEntry(Some("0.00234"), percentile);
    ScoreBValues(percentile);
    FixedRounds(Dec(0, 0), 5);
    SameScaleGreater(Dec(234, 5), Dec(0, 5));
    DecideOne(cve, e, Dec(0, 0));
  }

  /**
    EPSS 0.00001 against the threshold 0.001: nothing exceeds, the run
    prints a 0.001 % row and exits with 0.
   */
  lemma BelowThreshold(cve: string, percentile: Option<string>)
    ensures var scores := map[cve := ScoreEntry(Some("0.00001"), percentile)];
      Decide([AdvisoryFor(cve)], scores, false, Dec(1, 3))
      == Exit(0, [Row("lodash", "high", cve, "7.5", Dec(1, 3))])
  {
    var e := ScoreEntry(Some("0.00001"), percentile);
    ScoreDValues(percentile);
    FixedRounds(Dec(1, 3), 5);
    assert Pow10(2) == 100;
    SameScaleGreater(Dec(1, 5), Dec(100, 5));
    DecideOne(cve, e, Dec(1, 3));
  }

  /** An advisory without findings stops the verbose run at `findings[0]`, but not the tabular one. */
  lemma VerboseOnlyFault(cve: string, scores: map<string, ScoreEntry>, threshold: Num)
    requires cve in scores
    ensures var a := AdvisoryFor(cve).(findings := None);
      && Decide([a], scores, true, threshold) == Thrown(MissingFinding)
      && Decide([a], scores, false, threshold).Exit?
  {
  }
}
