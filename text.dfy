/**
  String splitting as JavaScript's `String.prototype.split` does it when the
  separator is a single character: the loader splits the score file on "\n"
  and every line on ",", and the number reader splits on ".".
 */
module Text {

  /** The pieces glued back together with `sep` between neighbours. */
  function Join(pieces: seq<string>, sep: char): string
  {
    if |pieces| == 0 then ""
    else if |pieces| == 1 then pieces[0]
    else pieces[0] + [sep] + Join(pieces[1..], sep)
  }

  /**
    `s.split(sep)`: never empty, no piece holds the separator, and joining
    the pieces gives `s` back (an empty `s` gives the one piece "").
   */
  function Split(s: string, sep: char): (pieces: seq<string>)
    ensures |pieces| >= 1
    ensures forall i :: 0 <= i < |pieces| ==> sep !in pieces[i]
    ensures Join(pieces, sep) == s
    decreases |s|
  {
    if |s| == 0 then [""]
    else
      var rest := Split(s[1..], sep);
      if s[0] == sep then
        assert s == [sep] + s[1..];
        [""] + rest
      else
        var pieces := [[s[0]] + rest[0]] + rest[1..];
        assert s == [s[0]] + s[1..];
        assert |rest| > 1 ==> rest == [rest[0]] + rest[1..];
        pieces
  }

  /** A text without the separator is a single piece. */
  lemma {:induction false} SplitNoSeparator(s: string, sep: char)
    requires sep !in s
    ensures Split(s, sep) == [s]
    decreases |s|
  {
    if |s| > 0 {
      SplitNoSeparator(s[1..], sep);
    }
  }

  /** A separator-free run followed by the separator is split off as the first piece. */
  lemma {:induction false} SplitAfterRun(run: string, sep: char, rest: string)
    requires sep !in run
    ensures Split(run + [sep] + rest, sep) == [run] + Split(rest, sep)
    decreases |run|
  {
    var s := run + [sep] + rest;
    if |run| == 0 {
      assert s[0] == sep && s[1..] == rest;
    } else {
      assert s[1..] == run[1..] + [sep] + rest;
      SplitAfterRun(run[1..], sep, rest);
      assert [s[0]] + run[1..] == run;
    }
  }

  /** The other round trip: splitting joined separator-free pieces recovers them. */
  lemma {:induction false} SplitJoin(pieces: seq<string>, sep: char)
    requires |pieces| >= 1
    requires forall i :: 0 <= i < |pieces| ==> sep !in pieces[i]
    ensures Split(Join(pieces, sep), sep) == pieces
  {
    if |pieces| == 1 {
      SplitNoSeparator(pieces[0], sep);
    } else {
      SplitJoin(pieces[1..], sep);
      SplitAfterRun(pieces[0], sep, Join(pieces[1..], sep));
      assert pieces == [pieces[0]] + pieces[1..];
    }
  }

  /** A text that ends with the separator has a last piece "". */
  lemma {:induction false} SplitTrailingSeparator(s: string, sep: char)
    ensures Split(s + [sep], sep) == Split(s, sep) + [""]
    decreases |s|
  {
    var t := s + [sep];
    if |s| == 0 {
      assert t == [sep] && t[1..] == [];
    } else {
      assert t[1..] == s[1..] + [sep];
      SplitTrailingSeparator(s[1..], sep);
      var rest := Split(s[1..], sep);
      if s[0] != sep {
        assert (rest + [""])[1..] == rest[1..] + [""];
      }
    }
  }

  /**
    The first piece is the longest separator-free prefix of the text: it is
    a prefix, and the character after it, if any, is the separator.
   */
  lemma {:induction false} SplitFirstPiece(s: string, sep: char)
    ensures Split(s, sep)[0] <= s
    ensures |Split(s, sep)[0]| < |s| ==> s[|Split(s, sep)[0]|] == sep
  {
    var pieces := Split(s, sep);
    if |pieces| > 1 {
      assert s == pieces[0] + [sep] + Join(pieces[1..], sep);
    }
  }
}
