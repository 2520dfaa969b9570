/** src/pattern.rs: the line searcher over text input, which records every
    line the expression matches together with its number. */
module Pattern {
  /** One `read_line` call: the text it read, or a failed read. A read of
      no text (`Ok(0)`) is the end of the input, as is reading past the
      last element. */
  datatype Read = Text(line: string) | ReadError

  /** `pattern::Match`. */
  datatype Match = Match(lineNr: nat, content: string)

  /** Whether this read ends the search. */
  predicate Stops(r: Read)
  {
    r.ReadError? || r.line == ""
  }

  /** The number of reads that yield a line before the search stops. */
  function ReadCount(input: seq<Read>): (n: nat)
    ensures n <= |input|
    ensures forall k :: 0 <= k < n ==> !Stops(input[k])
    ensures n < |input| ==> Stops(input[n])
    decreases |input|
  {
    if input == [] || Stops(input[0]) then 0 else 1 + ReadCount(input[1..])
  }

  /** The lines `search` reads, in order. */
  function LinesRead(input: seq<Read>): (lines: seq<string>)
  {
    seq(ReadCount(input), k requires 0 <= k < ReadCount(input) => input[k].line)
  }

  /** The matches recorded for `lines`, numbered from 1. */
  function Recorded(lines: seq<string>, isMatch: string -> bool): seq<Match>
    decreases |lines|
  {
    if lines == [] then []
    else
      var n := |lines| - 1;
      Recorded(lines[..n], isMatch) + (if isMatch(lines[n]) then [Match(n + 1, lines[n])] else [])
  }

  /** `Searcher`; `isMatch` is the expression's `is_match`. */
  class Searcher {
    var matches: seq<Match>
    var line: string
    const isMatch: string -> bool

    /** `Searcher::new`. */
    constructor(isMatch: string -> bool)
      ensures matches == [] && line == "" && this.isMatch == isMatch
    {
      this.isMatch := isMatch;
      matches := [];
      line := "";
    }

    /** `read_line_`: clears the line buffer and reads the line at `pos`;
        true iff some text was read. */
    method ReadLine(input: seq<Read>, pos: nat) returns (ok: bool)
      modifies this
      ensures ok <==> pos < |input| && !Stops(input[pos])
      ensures line == (if pos < |input| && input[pos].Text? then input[pos].line else "")
      ensures matches == old(matches)
    {
      line := "";
      if pos < |input| && input[pos].Text? {
        line := input[pos].line;
        return line != "";
      }
      return false;
    }

    /** `search`: clears the previous matches and records every matching
        line of `input` with its number; true iff any line was recorded. */
    method Search(input: seq<Read>) returns (found: bool)
      modifies this
      ensures matches == Recorded(LinesRead(input), isMatch)
      ensures found <==> matches != []
      ensures line == ""
    {
      var lineNr: nat := 1;
      matches := [];
      var pos: nat := 0;
      ghost var lines := LinesRead(input);
      while true
        invariant pos <= ReadCount(input) && lineNr == pos + 1
        invariant matches == Recorded(lines[..pos], isMatch)
        decreases |input| - pos
      {
        var more := ReadLine(input, pos);
        if !more {
          break;
        }
        assert lines[..pos + 1][..pos] == lines[..pos] && lines[pos] == line;
        if isMatch(line) {
          matches := matches + [Match(lineNr, line)];
        }
        line := "";
        lineNr := lineNr + 1;
        pos := pos + 1;
      }
      assert lines[..pos] == lines;
      found := matches != [];
    }
  }

  /** Recorded line numbers lie between 1 and the number of lines and
      strictly increase. */
  lemma {:induction false} RecordedAscending(lines: seq<string>, isMatch: string -> bool)
    ensures forall i :: 0 <= i < |Recorded(lines, isMatch)| ==> 1 <= Recorded(lines, isMatch)[i].lineNr <= |lines|
    ensures forall i, j :: 0 <= i < j < |Recorded(lines, isMatch)| ==>
      Recorded(lines, isMatch)[i].lineNr < Recorded(lines, isMatch)[j].lineNr
    decreases |lines|
  {
    if lines != [] {
      var n := |lines| - 1;
      RecordedAscending(lines[..n], isMatch);
      var front := Recorded(lines[..n], isMatch);
      var r := Recorded(lines, isMatch);
      assert r == front + (if isMatch(lines[n]) then [Match(n + 1, lines[n])] else []);
      forall i | 0 <= i < |r|
        ensures 1 <= r[i].lineNr <= |lines|
      {
        if i < |front| {
          assert r[i] == front[i];
        }
      }
      forall i, j | 0 <= i < j < |r|
        ensures r[i].lineNr < r[j].lineNr
      {
        assert r[i] == front[i];
        if j < |front| {
          assert r[j] == front[j];
        }
      }
    }
  }

  /** A line is recorded, with its number, iff the expression matches it. */
  lemma {:induction false} RecordedIffMatch(lines: seq<string>, isMatch: string -> bool, m: Match)
    ensures m in Recorded(lines, isMatch) <==>
      1 <= m.lineNr <= |lines| && m.content == lines[m.lineNr - 1] && isMatch(m.content)
    decreases |lines|
  {
    if lines != [] {
      var n := |lines| - 1;
      RecordedIffMatch(lines[..n], isMatch, m);
    }
  }

  /** The search finds something iff some line read matches. */
  lemma FoundIffSomeLineMatches(lines: seq<string>, isMatch: string -> bool)
    ensures Recorded(lines, isMatch) != [] <==> exists k :: 0 <= k < |lines| && isMatch(lines[k])
  {
    if Recorded(lines, isMatch) != [] {
      var m := Recorded(lines, isMatch)[0];
      RecordedIffMatch(lines, isMatch, m);
      assert isMatch(lines[m.lineNr - 1]);
    }
    if k :| 0 <= k < |lines| && isMatch(lines[k]) {
      RecordedIffMatch(lines, isMatch, Match(k + 1, lines[k]));
    }
  }

  /** The reads before a stop determine how many lines are read. */
  lemma {:induction false} ReadCountUnique(input: seq<Read>, n: nat)
    requires n <= |input| && (forall k :: 0 <= k < n ==> !Stops(input[k])) && (n < |input| ==> Stops(input[n]))
    ensures ReadCount(input) == n
    decreases n
  {
    if n > 0 {
      assert forall k :: 0 <= k < n - 1 ==> input[1..][k] == input[k + 1];
      ReadCountUnique(input[1..], n - 1);
    }
  }

  /** A read error, like the end of the input, ends the search: nothing
      after it is read. */
  lemma ReadErrorEndsSearch(input: seq<Read>, k: nat)
    requires k < |input| && input[k] == ReadError
    ensures LinesRead(input) == LinesRead(input[..k])
  {
    var n := ReadCount(input);
    assert n <= k;
    ReadCountUnique(input[..k], n);
  }
}
