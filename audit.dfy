/**
  The run itself, step by step as `bin/index.js` performs it: load the
  score file into the store, walk the reported advisories with the
  `aboveThreshold` flag and the `tabularData` list, sort and reverse the
  table, and map the outcome to an exit code.
 */
module Audit {
  import opened Wrappers
  import opened Numbers
  import opened Scores
  import opened Npm
  import opened Decision
  import opened Table

  /** `o` is how a run with verdict `v` ends: the same exception, or the same exit with `v`'s rows in printed order. */
  predicate Realizes(o: Outcome, v: Outcome)
  {
    match v
    case Thrown(_) => o == v
    case Exit(code, rows) => o.Exit? && o.code == code && PrintedOrder(rows, o.table)
  }

  /** A run realizing a verdict exits with the verdict's code. */
  lemma RealizesExitCode(o: Outcome, v: Outcome)
    requires Realizes(o, v)
    ensures ExitCode(o) == ExitCode(v)
    ensures o.Exit? ==> v.Exit? && (o.table == [] <==> v.table == [])
  {
    if o.Exit? && o.table == [] {
      assert |multiset(v.table)| == 0;
    }
  }

  /** `audit(verbose, threshold)` against the scores already in `store`. */
  method Audit(store: ScoreStore, pkg: FileState<PackageJson>, lock: FileState<PackageLock>, env: Env,
               server: Server, verbose: bool, threshold: Num) returns (o: Outcome)
    ensures Realizes(o, Verdict(store.scores, pkg, lock, env, server, verbose, threshold))
  {
    if pkg.Missing? {
      return Exit(1, []);
    }
    if pkg.Malformed? {
      return Thrown(MalformedJson);
    }
    if lock.Missing? {
      return Exit(1, []);
    }
    if lock.Malformed? {
      return Thrown(MalformedJson);
    }
    var reply := server(Payload(pkg.contents, lock.contents, env));
    if reply.None? {
      return Thrown(RegistryFailed);
    }
    var response := reply.value;
    if response.error {
      return Exit(1, []);
    }
    if response.advisories.None? || |response.advisories.value| == 0 {
      return Exit(0, []);
    }
    var advs := response.advisories.value;
    var scores := store.scores;
    var aboveThreshold := false;
    var tabularData: seq<Row> := [];
    for i := 0 to |advs|
      invariant NoFault(advs[..i], scores, verbose)
      invariant aboveThreshold == AnyExceeds(advs[..i], scores, threshold)
      invariant !verbose ==> tabularData == Rows(advs[..i], scores)
      invariant verbose ==> tabularData == []
    {
      var a := advs[i];
      if verbose {
        if a.findings.None? || |a.findings.value| == 0 {
          FirstFaultAfter(advs, scores, verbose, i);
          return Thrown(MissingFinding);
        }
        if a.findings.value[0].paths.None? {
          FirstFaultAfter(advs, scores, verbose, i);
          return Thrown(MissingPaths);
        }
      }
      if a.cves.Some? && |a.cves.value| > 0 {
        var cve := a.cves.value[0];
        if a.cvss.None? {
          FirstFaultAfter(advs, scores, verbose, i);
          return Thrown(MissingCvss);
        }
        if cve !in scores {
          FirstFaultAfter(advs, scores, verbose, i);
          return Thrown(MissingScore(cve));
        }
        var entry := scores[cve];
        if !verbose {
          tabularData := tabularData + [Row(a.moduleName, a.severity, cve, a.cvss.value.score, Percent(entry))];
        }
        if Greater(Round5(entry), Fixed(threshold, 5)) {
          aboveThreshold := true;
        }
      }
      PrefixStep(advs, scores, verbose, threshold, i);
    }
    assert advs[..|advs|] == advs;
    var table := [];
    if !verbose {
      table := SortDescending(tabularData);
    }
    if aboveThreshold {
      return Exit(2, table);
    } else {
      return Exit(0, table);
    }
  }

  /** What the walk knows after one more advisory that raised nothing. */
  lemma PrefixStep(advs: seq<Advisory>, scores: map<string, ScoreEntry>, verbose: bool, threshold: Num, i: nat)
    requires i < |advs| && NoFault(advs[..i], scores, verbose) && Fault(advs[i], scores, verbose).None?
    ensures NoFault(advs[..i + 1], scores, verbose)
    ensures AnyExceeds(advs[..i + 1], scores, threshold) <==>
      AnyExceeds(advs[..i], scores, threshold) || Exceeds(advs[i], scores, threshold)
    ensures !verbose ==>
      Rows(advs[..i + 1], scores) == Rows(advs[..i], scores) + (if HasCve(advs[i]) then [RowOf(advs[i], scores)] else [])
  {
    var next := advs[..i + 1];
    assert next[..i] == advs[..i] && next[i] == advs[i];
    assert next == advs[..i] + [advs[i]];
    NoFaultAppend(advs[..i], advs[i], scores, verbose);
    AnyExceedsAppend(advs[..i], advs[i], scores, threshold);
  }

  lemma NoFaultAppend(advs: seq<Advisory>, a: Advisory, scores: map<string, ScoreEntry>, verbose: bool)
    requires NoFault(advs, scores, verbose) && Fault(a, scores, verbose).None?
    ensures NoFault(advs + [a], scores, verbose)
  {
  }

  lemma AnyExceedsAppend(advs: seq<Advisory>, a: Advisory, scores: map<string, ScoreEntry>, threshold: Num)
    ensures AnyExceeds(advs + [a], scores, threshold) <==> AnyExceeds(advs, scores, threshold) || Exceeds(a, scores, threshold)
  {
    var next := advs + [a];
    if AnyExceeds(advs, scores, threshold) {
      var k :| 0 <= k < |advs| && Exceeds(advs[k], scores, threshold);
      assert next[k] == advs[k];
    }
    assert next[|advs|] == a;
  }

  /**
    The whole program: a fresh store (`epssScores = {}`), `loadScores`, then
    `audit`, with every exception caught and mapped to exit code 1. `csv` is
    the decompressed score file, or None when it cannot be fetched or read.
   */
  method Run(csv: Option<string>, pkg: FileState<PackageJson>, lock: FileState<PackageLock>, env: Env,
             server: Server, verbose: bool, threshold: Num) returns (code: int, table: seq<Row>)
    ensures var v := RunVerdict(csv, pkg, lock, env, server, verbose, threshold);
      code == ExitCode(v) && (v.Exit? ==> PrintedOrder(v.table, table)) && (v.Thrown? ==> table == [])
  {
    var store := new ScoreStore();
    if csv.None? {
      return 1, [];
    }
    store.LoadScores(csv.value);
    var o := Audit(store, pkg, lock, env, server, verbose, threshold);
    RealizesExitCode(o, RunVerdict(csv, pkg, lock, env, server, verbose, threshold));
    code := ExitCode(o);
    table := if o.Exit? then o.table else [];
  }
}
