/**
  The EPSS score table: the decompressed score file is read line by line
  into a map from CVE identifier to the line's EPSS and percentile fields,
  kept as text.  The first line (a comment) and the second (the header) are
  skipped; every later line is stored under the text before its first
  comma, with no check on how many fields it has and no trimming, and a
  later line overwrites an earlier one with the same key.
 */
module Scores {
  import opened Wrappers
  import Text

  /** The second and third fields of a data line; `None` for a field the line does not have. */
  datatype ScoreEntry = ScoreEntry(epss: Option<string>, percentile: Option<string>)

  function Field(fields: seq<string>, i: nat): Option<string>
  {
    if i < |fields| then Some(fields[i]) else None
  }

  /**
    `const [cve, epss, percentile] = line.split(",")`: the key is the
    longest comma-free prefix of the line.
   */
  function ParseLine(line: string): (r: (string, ScoreEntry))
    ensures r.0 <= line && ',' !in r.0
    ensures |r.0| < |line| ==> line[|r.0|] == ','
    ensures r.1.epss.Some? <==> ',' in line
  {
    var fields := Text.Split(line, ',');
    Text.SplitFirstPiece(line, ',');
    assert ',' in line ==> |fields| > 1 by {
      if |fields| == 1 {
        assert line == fields[0];
      }
    }
    (fields[0], ScoreEntry(Field(fields, 1), Field(fields, 2)))
  }

  function Key(line: string): string
  {
    ParseLine(line).0
  }

  /** The table after storing each line in turn, over an initial table `m`. */
  function LoadLines(m: map<string, ScoreEntry>, lines: seq<string>): map<string, ScoreEntry>
  {
    if lines == [] then m
    else
      var (cve, entry) := ParseLine(lines[|lines| - 1]);
      LoadLines(m, lines[..|lines| - 1])[cve := entry]
  }

  /** The lines of the score file that are stored: all but the first two. */
  function DataLines(csv: string): seq<string>
  {
    var lines := Text.Split(csv, '\n');
    if |lines| <= 2 then [] else lines[2..]
  }

  /** The process-wide score table, filled once by `LoadScores`. */
  class ScoreStore {
    var scores: map<string, ScoreEntry>

    constructor ()
      ensures scores == map[]
    {
      scores := map[];
    }

    /** Reads the decompressed score file `csv` into `scores`. */
    method LoadScores(csv: string)
      modifies this
      ensures scores == LoadLines(old(scores), DataLines(csv))
    {
      var lines := Text.Split(csv, '\n');
      var idx := 1;
      for i := 0 to |lines|
        invariant idx == i + 1
        invariant scores == LoadLines(old(scores), DataPrefix(lines, i))
      {
        var line := lines[i];
        LoadNext(old(scores), lines, i);
        if idx > 2 {
          var (cve, entry) := ParseLine(line);
          scores := scores[cve := entry];
        }
        idx := idx + 1;
      }
      assert |lines| > 2 ==> lines[2..|lines|] == lines[2..];
    }
  }

  /** The data lines among the first `i` lines. */
  function DataPrefix(lines: seq<string>, i: nat): seq<string>
    requires i <= |lines|
  {
    if i <= 2 then [] else lines[2..i]
  }

  /** One more line: a header line changes nothing, a data line is stored over what came before. */
  lemma LoadNext(m: map<string, ScoreEntry>, lines: seq<string>, i: nat)
    requires i < |lines|
    ensures LoadLines(m, DataPrefix(lines, i + 1)) ==
      if i < 2 then LoadLines(m, DataPrefix(lines, i))
      else LoadLines(m, DataPrefix(lines, i))[ParseLine(lines[i]).0 := ParseLine(lines[i]).1]
  {
    if i >= 2 {
      var next := DataPrefix(lines, i + 1);
      assert next[..|next| - 1] == DataPrefix(lines, i);
      assert next[|next| - 1] == lines[i];
    }
  }

  // -----------------------------------------------------------------------
  // What loading promises

  /** Some line of `lines` has key `k`. */
  predicate HasKey(lines: seq<string>, k: string)
  {
    exists i :: 0 <= i < |lines| && Key(lines[i]) == k
  }

  lemma HasKeySplit(lines: seq<string>, k: string)
    requires lines != []
    ensures HasKey(lines, k) <==> HasKey(lines[..|lines| - 1], k) || Key(lines[|lines| - 1]) == k
  {
    var init := lines[..|lines| - 1];
    if HasKey(init, k) {
      var i :| 0 <= i < |init| && Key(init[i]) == k;
      assert lines[i] == init[i];
    }
    if HasKey(lines, k) {
      var i :| 0 <= i < |lines| && Key(lines[i]) == k;
      if i < |init| {
        assert init[i] == lines[i];
      }
    }
  }

  /** A key is in the loaded table exactly when it was there before or some line has it. */
  lemma {:induction false} LoadKeys(m: map<string, ScoreEntry>, lines: seq<string>, k: string)
    ensures k in LoadLines(m, lines) <==> k in m || HasKey(lines, k)
  {
    if lines != [] {
      LoadKeys(m, lines[..|lines| - 1], k);
      HasKeySplit(lines, k);
    }
  }

  /** The entry stored for a key comes from the last line with that key. */
  lemma {:induction false} LoadLastWins(m: map<string, ScoreEntry>, lines: seq<string>, i: nat)
    requires i < |lines|
    requires forall j :: i < j < |lines| ==> Key(lines[j]) != Key(lines[i])
    ensures Key(lines[i]) in LoadLines(m, lines)
    ensures LoadLines(m, lines)[Key(lines[i])] == ParseLine(lines[i]).1
  {
    var last := |lines| - 1;
    if i < last {
      var init := lines[..last];
      forall j | i < j < |init|
        ensures Key(init[j]) != Key(init[i])
      {
        assert init[j] == lines[j];
      }
      LoadLastWins(m, init, i);
    }
  }

  /** Loading never removes a key, and leaves the entry of a key no line has as it was. */
  lemma {:induction false} LoadKeepsOthers(m: map<string, ScoreEntry>, lines: seq<string>, k: string)
    requires k in m
    ensures k in LoadLines(m, lines)
    ensures (forall i :: 0 <= i < |lines| ==> Key(lines[i]) != k) ==> LoadLines(m, lines)[k] == m[k]
  {
    if lines != [] {
      var init := lines[..|lines| - 1];
      LoadKeepsOthers(m, init, k);
      if forall i :: 0 <= i < |lines| ==> Key(lines[i]) != k {
        assert forall i :: 0 <= i < |init| ==> init[i] == lines[i];
      }
    }
  }

  /**
    The comment line and the header create nothing: loaded into an empty
    table, a key is present only if some line from the third on has it.
   */
  lemma HeaderLinesSkipped(csv: string, k: string)
    ensures k in LoadLines(map[], DataLines(csv)) <==>
      exists i :: 2 <= i < |Text.Split(csv, '\n')| && Key(Text.Split(csv, '\n')[i]) == k
  {
    var lines := Text.Split(csv, '\n');
    var data := DataLines(csv);
    LoadKeys(map[], data, k);
    if HasKey(data, k) {
      var i :| 0 <= i < |data| && Key(data[i]) == k;
      assert data[i] == lines[i + 2];
    }
    if exists i :: 2 <= i < |lines| && Key(lines[i]) == k {
      var i :| 2 <= i < |lines| && Key(lines[i]) == k;
      assert data[i - 2] == lines[i];
    }
  }

  /**
    A file that ends with a newline after its header creates the key "" with
    neither an EPSS value nor a percentile: the empty last line is stored too.
   */
  lemma TrailingNewlineStoresEmptyKey(text: string)
    requires '\n' in text
    ensures "" in LoadLines(map[], DataLines(text + "\n"))
    ensures LoadLines(map[], DataLines(text + "\n"))[""] == ScoreEntry(None, None)
  {
    var csv := text + "\n";
    Text.SplitTrailingSeparator(text, '\n');
    var lines := Text.Split(csv, '\n');
    assert |Text.Split(text, '\n')| >= 2;
    var data := DataLines(csv);
    assert data[|data| - 1] == "";
    Text.SplitNoSeparator("", ',');
    assert ParseLine("") == ("", ScoreEntry(None, None));
    LoadLastWins(map[], data, |data| - 1);
  }

  /**
    Fields after the third are ignored: appending ",more" to a line with
    three fields changes neither its key nor its entry.
   */
  lemma ExtraFieldsIgnored(cve: string, epss: string, percentile: string, more: string)
    requires ',' !in cve && ',' !in epss && ',' !in percentile
    ensures ParseLine(cve + [','] + (epss + [','] + (percentile + [','] + more)))
         == ParseLine(cve + [','] + (epss + [','] + percentile))
         == (cve, ScoreEntry(Some(epss), Some(percentile)))
  {
    Text.SplitNoSeparator(percentile, ',');
    LeadingFields(cve, epss, percentile, percentile);
    Text.SplitAfterRun(percentile, ',', more);
    LeadingFields(cve, epss, percentile, percentile + [','] + more);
  }

  /** A line with the fields `cve`, `epss`, then a rest whose first field is `percentile`. */
  lemma LeadingFields(cve: string, epss: string, percentile: string, rest: string)
    requires ',' !in cve && ',' !in epss
    requires Text.Split(rest, ',')[0] == percentile
    ensures ParseLine(cve + [','] + (epss + [','] + rest)) == (cve, ScoreEntry(Some(epss), Some(percentile)))
  {
    Text.SplitAfterRun(epss, ',', rest);
    Text.SplitAfterRun(cve, ',', epss + [','] + rest);
  }
}
