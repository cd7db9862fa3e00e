/**
  What an audit decides, stated as functions: which advisory raises an
  exception, which rows the table gets, whether the EPSS threshold is
  exceeded, and the exit code.  The imperative audit in module Audit is
  proved to compute these.
 */
module Decision {
  import opened Wrappers
  import opened Numbers
  import opened Scores
  import opened Npm

  /** One row of the printed table. */
  datatype Row = Row(moduleName: string, severity: string, cve: string, cvss: string, percent: Num)

  /** The exceptions the audit can raise; each ends the run through the top-level catch. */
  datatype Error =
    | MalformedJson          // JSON.parse of package.json or package-lock.json fails
    | MissingFinding         // verbose: `value.findings[0].version` of an advisory without findings
    | MissingPaths           // verbose: `value.findings[0].paths[0]` without paths
    | MissingCvss            // `value.cvss.score` of an advisory without `cvss`
    | MissingScore(cve: string)  // `epssScores[cve].epss` for a CVE the table lacks
    | ScoresUnreadable       // the score file could not be fetched, unpacked or read
    | RegistryFailed         // the audit request or the parsing of its reply failed

  /** How a run ends: `process.exit(code)` with the table printed, or an exception. */
  datatype Outcome = Exit(code: int, table: seq<Row>) | Thrown(error: Error)

  /** The process exit code: the top-level catch exits with 1. */
  function ExitCode(o: Outcome): int
  {
    match o
    case Exit(code, _) => code
    case Thrown(_) => 1
  }

  /** `value.cves && value.cves.length > 0` */
  predicate HasCve(a: Advisory)
  {
    a.cves.Some? && |a.cves.value| > 0
  }

  /** `value.cves[0]`, the only CVE ever looked at. */
  function FirstCve(a: Advisory): string
    requires HasCve(a)
  {
    a.cves.value[0]
  }

  /** The EPSS probability the threshold test uses: `+Number(epss).toFixed(5)`. */
  function Round5(e: ScoreEntry): Num
  {
    Fixed(ToNumber(e.epss), 5)
  }

  /** The table's "EPSS Score (%)": `+Number(epss * 100.0).toFixed(3)`. */
  function Percent(e: ScoreEntry): Num
  {
    Fixed(Times100(ToNumber(e.epss)), 3)
  }

  /**
    The exception handling advisory `a` raises, if any, in the order the
    source touches its fields: in verbose mode first the first finding and
    its paths, then, for an advisory with a CVE, `cvss` and the score.
   */
  function Fault(a: Advisory, scores: map<string, ScoreEntry>, verbose: bool): Option<Error>
  {
    if verbose && (a.findings.None? || |a.findings.value| == 0) then Some(MissingFinding)
    else if verbose && a.findings.value[0].paths.None? then Some(MissingPaths)
    else if !HasCve(a) then None
    else if a.cvss.None? then Some(MissingCvss)
    else if FirstCve(a) !in scores then Some(MissingScore(FirstCve(a)))
    else None
  }

  /** The first exception raised walking the advisories in order. */
  function FirstFault(advs: seq<Advisory>, scores: map<string, ScoreEntry>, verbose: bool): (e: Option<Error>)
    ensures e.None? <==> NoFault(advs, scores, verbose)
  {
    if advs == [] then None
    else if Fault(advs[0], scores, verbose).Some? then Fault(advs[0], scores, verbose)
    else
      assert forall i :: 1 <= i < |advs| ==> advs[i] == advs[1..][i - 1];
      FirstFault(advs[1..], scores, verbose)
  }

  /** The exception that ends the walk is raised by an advisory all of whose predecessors pass. */
  lemma {:induction false} FirstFaultAt(advs: seq<Advisory>, scores: map<string, ScoreEntry>, verbose: bool)
    returns (i: nat)
    requires FirstFault(advs, scores, verbose).Some?
    ensures i < |advs| && Fault(advs[i], scores, verbose) == FirstFault(advs, scores, verbose)
    ensures NoFault(advs[..i], scores, verbose)
  {
    if Fault(advs[0], scores, verbose).Some? {
      i := 0;
    } else {
      var j := FirstFaultAt(advs[1..], scores, verbose);
      i := j + 1;
      assert advs[..i] == [advs[0]] + advs[1..][..j];
    }
  }

  /** Advisory `a` has a CVE whose 5-decimal EPSS value is above the 5-decimal threshold. */
  predicate Exceeds(a: Advisory, scores: map<string, ScoreEntry>, threshold: Num)
  {
    HasCve(a) && FirstCve(a) in scores && Greater(Round5(scores[FirstCve(a)]), Fixed(threshold, 5))
  }

  predicate AnyExceeds(advs: seq<Advisory>, scores: map<string, ScoreEntry>, threshold: Num)
  {
    exists i :: 0 <= i < |advs| && Exceeds(advs[i], scores, threshold)
  }

  predicate NoFault(advs: seq<Advisory>, scores: map<string, ScoreEntry>, verbose: bool)
  {
    forall i :: 0 <= i < |advs| ==> Fault(advs[i], scores, verbose).None?
  }

  /** The row pushed for an advisory with a CVE. */
  function RowOf(a: Advisory, scores: map<string, ScoreEntry>): Row
    requires HasCve(a) && a.cvss.Some? && FirstCve(a) in scores
  {
    Row(a.moduleName, a.severity, FirstCve(a), a.cvss.value.score, Percent(scores[FirstCve(a)]))
  }

  /** The rows of the table in the order they are pushed (tabular mode). */
  function Rows(advs: seq<Advisory>, scores: map<string, ScoreEntry>): seq<Row>
    requires NoFault(advs, scores, false)
  {
    if advs == [] then []
    else
      var last := advs[|advs| - 1];
      assert Fault(last, scores, false).None?;
      Rows(advs[..|advs| - 1], scores) + (if HasCve(last) then [RowOf(last, scores)] else [])
  }

  /** The advisories with a CVE, in order. */
  function WithCve(advs: seq<Advisory>): (w: seq<Advisory>)
    ensures forall k :: 0 <= k < |w| ==> HasCve(w[k]) && w[k] in advs
    ensures forall a :: a in advs && HasCve(a) ==> a in w
  {
    if advs == [] then []
    else WithCve(advs[..|advs| - 1]) + (if HasCve(advs[|advs| - 1]) then [advs[|advs| - 1]] else [])
  }

  /**
    The decision once the registry has returned non-empty advisories: the
    first exception, if any; else exit 2 when some advisory exceeds the
    threshold and 0 otherwise, with the pushed rows (none in verbose mode).
   */
  function Decide(advs: seq<Advisory>, scores: map<string, ScoreEntry>, verbose: bool, threshold: Num): Outcome
  {
    match FirstFault(advs, scores, verbose)
    case Some(e) => Thrown(e)
    case None =>
      Exit(if AnyExceeds(advs, scores, threshold) then 2 else 0,
           if verbose then [] else Rows(advs, scores))
  }

  /** The whole of `audit`, from the project files to the exit, with the table in push order. */
  function Verdict(scores: map<string, ScoreEntry>, pkg: FileState<PackageJson>, lock: FileState<PackageLock>,
                   env: Env, server: Server, verbose: bool, threshold: Num): Outcome
  {
    match pkg
    case Missing => Exit(1, [])
    case Malformed => Thrown(MalformedJson)
    case Parsed(p) =>
      match lock
      case Missing => Exit(1, [])
      case Malformed => Thrown(MalformedJson)
      case Parsed(l) =>
        match server(Payload(p, l, env))
        case None => Thrown(RegistryFailed)
        case Some(response) =>
          if response.error then Exit(1, [])
          else if response.advisories.None? || response.advisories.value == [] then Exit(0, [])
          else Decide(response.advisories.value, scores, verbose, threshold)
  }

  /** The score file read into the table, then the audit; an unreadable file ends in the catch. */
  function RunVerdict(csv: Option<string>, pkg: FileState<PackageJson>, lock: FileState<PackageLock>,
                      env: Env, server: Server, verbose: bool, threshold: Num): Outcome
  {
    match csv
    case None => Thrown(ScoresUnreadable)
    case Some(text) => Verdict(LoadLines(map[], DataLines(text)), pkg, lock, env, server, verbose, threshold)
  }

  /**
    The advisories the registry reports (none when `advisories` is absent),
    provided both project files parse and the registry answers without error.
   */
  function Reported(pkg: FileState<PackageJson>, lock: FileState<PackageLock>, env: Env,
                    server: Server): Option<seq<Advisory>>
  {
    if pkg.Parsed? && lock.Parsed? then
      match server(Payload(pkg.contents, lock.contents, env))
      case None => None
      case Some(response) =>
        if response.error then None
        else Some(if response.advisories.None? then [] else response.advisories.value)
    else None
  }

  // ---------------------------------------------------------------------
  // Properties of the decision
  // ---------------------------------------------------------------------

  /**
    The exit code is 0, 1 or 2: 2 exactly when the reported advisories raise
    nothing and one of them exceeds the threshold, 0 exactly when they raise
    nothing and none exceeds it, 1 in every other case.
   */
  lemma ExitCodes(scores: map<string, ScoreEntry>, pkg: FileState<PackageJson>, lock: FileState<PackageLock>,
                  env: Env, server: Server, verbose: bool, threshold: Num)
    ensures var code := ExitCode(Verdict(scores, pkg, lock, env, server, verbose, threshold));
      var advs := Reported(pkg, lock, env, server);
      && (code == 2 <==> advs.Some? && NoFault(advs.value, scores, verbose) && AnyExceeds(advs.value, scores, threshold))
      && (code == 0 <==> advs.Some? && NoFault(advs.value, scores, verbose) && !AnyExceeds(advs.value, scores, threshold))
      && (code == 1 <==> advs.None? || !NoFault(advs.value, scores, verbose))
  {
  }

  /** The walk stops at the first advisory that raises, whatever follows it. */
  lemma {:induction false} FirstFaultAfter(advs: seq<Advisory>, scores: map<string, ScoreEntry>, verbose: bool, i: nat)
    requires i < |advs| && NoFault(advs[..i], scores, verbose) && Fault(advs[i], scores, verbose).Some?
    ensures FirstFault(advs, scores, verbose) == Fault(advs[i], scores, verbose)
  {
    if i > 0 {
      assert advs[0] == advs[..i][0];
      assert advs[1..][..i - 1] == advs[..i][1..];
      FirstFaultAfter(advs[1..], scores, verbose, i - 1);
    }
  }

  /**
    An advisory whose first CVE has no score raises once the walk reaches it:
    the run ends through the catch with exit code 1, whatever the threshold.
   */
  lemma MissingScoreThrows(advs: seq<Advisory>, scores: map<string, ScoreEntry>, verbose: bool, threshold: Num, i: nat)
    requires i < |advs| && NoFault(advs[..i], scores, verbose)
    requires HasCve(advs[i]) && advs[i].cvss.Some? && FirstCve(advs[i]) !in scores
    requires verbose ==> Fault(advs[i], scores, verbose) !in {Some(MissingFinding), Some(MissingPaths)}
    ensures Decide(advs, scores, verbose, threshold) == Thrown(MissingScore(FirstCve(advs[i])))
    ensures ExitCode(Decide(advs, scores, verbose, threshold)) == 1
  {
    FirstFaultAfter(advs, scores, verbose, i);
  }

  /** Each advisory with a CVE gives one row, in order, and nothing else does. */
  lemma {:induction false} RowsFollowCves(advs: seq<Advisory>, scores: map<string, ScoreEntry>)
    requires NoFault(advs, scores, false)
    ensures var rows, w := Rows(advs, scores), WithCve(advs);
      && |rows| == |w|
      && forall k :: 0 <= k < |w| ==>
           HasCve(w[k]) && w[k].cvss.Some? && FirstCve(w[k]) in scores && rows[k] == RowOf(w[k], scores)
  {
    if advs != [] {
      var init := advs[..|advs| - 1];
      assert NoFault(init, scores, false) by {
        forall i | 0 <= i < |init| ensures Fault(init[i], scores, false).None? {
          assert init[i] == advs[i];
        }
      }
      RowsFollowCves(init, scores);
      assert Fault(advs[|advs| - 1], scores, false).None?;
    }
  }

  /** A verbose run that raises nothing ends with the tabular run's exit code, and prints no table. */
  lemma VerboseSameExit(advs: seq<Advisory>, scores: map<string, ScoreEntry>, threshold: Num)
    requires NoFault(advs, scores, true)
    ensures NoFault(advs, scores, false)
    ensures Decide(advs, scores, true, threshold) == Exit(ExitCode(Decide(advs, scores, false, threshold)), [])
  {
    forall i | 0 <= i < |advs| ensures Fault(advs[i], scores, false).None? {
      assert Fault(advs[i], scores, true).None?;
    }
  }

  /** A lower threshold fails at least every run a higher one fails. */
  lemma ThresholdMonotone(advs: seq<Advisory>, scores: map<string, ScoreEntry>, low: Num, high: Num)
    requires low.Dec? && high.Dec? && Val(low) <= Val(high)
    requires AnyExceeds(advs, scores, high)
    ensures AnyExceeds(advs, scores, low)
  {
    var i :| 0 <= i < |advs| && Exceeds(advs[i], scores, high);
    FixedMonotone(low, high, 5);
    assert Exceeds(advs[i], scores, low);
  }

  /** `+Number(threshold).toFixed(5)` of a NaN threshold is NaN, and `>` against NaN is false. */
  lemma NaNThresholdNeverExceeds(advs: seq<Advisory>, scores: map<string, ScoreEntry>, verbose: bool)
    ensures !AnyExceeds(advs, scores, NaN)
    ensures ExitCode(Decide(advs, scores, verbose, NaN)) != 2
  {
    FixedRounds(NaN, 5);
  }

  /** With the default threshold 0.0, any CVE whose score rounds to a positive 5-decimal value fails the run. */
  lemma DefaultThreshold(a: Advisory, scores: map<string, ScoreEntry>)
    ensures Exceeds(a, scores, Dec(0, 0)) <==>
      HasCve(a) && FirstCve(a) in scores && Round5(scores[FirstCve(a)]).Dec? && Round5(scores[FirstCve(a)]).digits > 0
  {
    FixedRounds(Dec(0, 0), 5);
    if HasCve(a) && FirstCve(a) in scores {
      var e := scores[FirstCve(a)];
      FixedRounds(ToNumber(e.epss), 5);
      if Round5(e).Dec? {
        SameScaleGreater(Round5(e), Dec(0, 5));
      }
    }
  }

  /** Only an advisory's first CVE is looked at: the others change neither its exception, its test nor its row. */
  lemma OnlyFirstCve(a: Advisory, others: seq<string>, scores: map<string, ScoreEntry>, verbose: bool, threshold: Num)
    requires HasCve(a)
    ensures var b := a.(cves := Some([FirstCve(a)] + others));
      && HasCve(b) && FirstCve(b) == FirstCve(a)
      && Fault(b, scores, verbose) == Fault(a, scores, verbose)
      && Exceeds(b, scores, threshold) == Exceeds(a, scores, threshold)
      && (a.cvss.Some? && FirstCve(a) in scores ==> RowOf(b, scores) == RowOf(a, scores))
  {
  }
}
