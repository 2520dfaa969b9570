/** src/lib.rs: processing one file, a folder of files, and the standard
    input, as the output settings say. */
module Lib {
  import opened Util
  import opened RegexEngine
  import opened Search
  import opened Output
  import opened Lines
  import opened Files
  import opened Context

  /** `cli::OutputOnly`. */
  datatype OutputOnly = Match | Filenames | Folders

  /** The settings of `cli::Options` that src/lib.rs reads. */
  datatype Config = Config(
    outputOnly: Option<OutputOnly>,
    consoleOutput: Option<bool>,
    verboseLevel: nat,
    invertPattern: bool,
    outputBefore: nat,
    outputAfter: nat,
    simulateReplace: bool,
    nullSeparatedOutput: bool)

  /** The bytes written back to the file at `path`. */
  datatype Written = Written(path: string, bytes: Bytes)

  /** What processing produced: the result, the printed segments, the writes. */
  datatype Outcome = Outcome(result: Result<()>, out: seq<Segment>, written: seq<Written>)

  /** `console_output`: the configured value, else whether stdout is a terminal. */
  function Console(config: Config, stdoutIsTty: bool): bool
  {
    if config.consoleOutput.Some? then config.consoleOutput.value else stdoutIsTty
  }

  // ---------------------------------------------------------------------
  // The searched line index of a file
  // ---------------------------------------------------------------------

  /** The matches the search records in the line with span `r`. */
  function LineMatches(content: Bytes, r: Range, searchOpt: Option<Regex>): seq<Range>
  {
    if searchOpt.Some? then searchOpt.value.findIter(SliceOf(content, r)) else []
  }

  /** The lines with spans `sp`, numbered from `nr`, after the search. */
  function SearchedViews(content: Bytes, sp: seq<Range>, nr: nat, searchOpt: Option<Regex>): (views: seq<LineView>)
    ensures |views| == |sp|
    decreases |sp|
  {
    if sp == [] then []
    else [LineView(nr, sp[0], LineMatches(content, sp[0], searchOpt))] + SearchedViews(content, sp[1..], nr + 1, searchOpt)
  }

  /** The lines of `content` once split and searched. */
  function FileViews(content: Bytes, searchOpt: Option<Regex>): (views: seq<LineView>)
    ensures ViewsInBounds(content, views)
  {
    SearchedViewsInBounds(content, 0, 1, searchOpt);
    SearchedViews(content, Spans(content, 0), 1, searchOpt)
  }

  lemma {:induction false} SearchedViewsInBounds(content: Bytes, start: nat, nr: nat, searchOpt: Option<Regex>)
    ensures ViewsInBounds(content, SearchedViews(content, Spans(content, start), nr, searchOpt))
    decreases |content| - start
  {
    if start < |content| {
      var e := LineEnd(content, start);
      SpansStep(content, start);
      SearchedViewsInBounds(content, e, nr + 1, searchOpt);
      var sp := Spans(content, start);
      assert SearchedViews(content, sp, nr, searchOpt)[1..] == SearchedViews(content, sp[1..], nr + 1, searchOpt);
    }
  }

  /** Without matches anywhere, the searched lines are those of a fresh index. */
  lemma {:induction false} UnmatchedViewsFresh(content: Bytes, sp: seq<Range>, nr: nat, searchOpt: Option<Regex>)
    requires forall k :: 0 <= k < |sp| ==> LineMatches(content, sp[k], searchOpt) == []
    ensures SearchedViews(content, sp, nr, searchOpt) == FreshViews(sp, nr)
    decreases |sp|
  {
    if sp != [] {
      assert LineMatches(content, sp[0], searchOpt) == [];
      assert forall k :: 0 <= k < |sp| - 1 ==> sp[1..][k] == sp[k + 1];
      UnmatchedViewsFresh(content, sp[1..], nr + 1, searchOpt);
    }
  }

  /** The line objects that splitting and searching leave behind have the searched views. */
  lemma {:induction false} LinesSearched(ls: seq<Line>, content: Bytes, sp: seq<Range>, nr: nat, searchOpt: Option<Regex>)
    requires |ls| == |sp|
    requires forall k :: 0 <= k < |ls| ==>
      ls[k].nr == nr + k && ls[k].range == sp[k] && ls[k].matches == LineMatches(content, sp[k], searchOpt)
    ensures ViewsOf(ls) == SearchedViews(content, sp, nr, searchOpt)
    decreases |ls|
  {
    if ls != [] {
      assert ls[0].nr == nr + 0;
      forall k | 0 <= k < |ls| - 1
        ensures ls[1..][k].nr == nr + 1 + k && ls[1..][k].range == sp[1..][k]
             && ls[1..][k].matches == LineMatches(content, sp[1..][k], searchOpt)
      {
        assert ls[k + 1].nr == nr + (k + 1);
      }
      LinesSearched(ls[1..], content, sp[1..], nr + 1, searchOpt);
    }
  }

  /** Per line, whether it has matches. */
  function Marks(views: seq<LineView>): (marks: seq<bool>)
    ensures |marks| == |views|
    ensures forall k :: 0 <= k < |views| ==> marks[k] == (views[k].matches != [])
  {
    seq(|views|, k requires 0 <= k < |views| => views[k].matches != [])
  }

  /** `search_for_matches() ^ invert_pattern`. */
  predicate Found(views: seq<LineView>, invert: bool)
  {
    (exists k :: 0 <= k < |views| && views[k].matches != []) != invert
  }

  // ---------------------------------------------------------------------
  // Rendering the context window
  // ---------------------------------------------------------------------

  /** A line lies in the buffer and `print_colored` renders it without a failing `unwrap`. */
  predicate Renderable(content: Bytes, v: LineView, re: Regex, replaceOpt: Option<Replace>, utf8: Bytes -> bool)
  {
    ViewInBounds(content, v)
    && PrintableFrom(content[v.range.start..v.range.end], v.matches, 0, re, replaceOpt, utf8)
  }

  /** Every line the events render exists and is renderable. */
  predicate RenderSafe(content: Bytes, views: seq<LineView>, evs: seq<Event>, re: Regex, replaceOpt: Option<Replace>, utf8: Bytes -> bool)
  {
    forall k :: 0 <= k < |evs| ==> EventSafe(content, views, evs[k], re, replaceOpt, utf8)
  }

  predicate EventSafe(content: Bytes, views: seq<LineView>, ev: Event, re: Regex, replaceOpt: Option<Replace>, utf8: Bytes -> bool)
  {
    ev.Show? ==> ev.ix < |views| && Renderable(content, views[ev.ix], re, replaceOpt, utf8)
  }

  /** One rendered line: `{path}:` when not on a console, then `print_colored`. */
  function ShowLine(path: string, console: bool, content: Bytes, v: LineView, re: Regex, replaceOpt: Option<Replace>, utf8: Bytes -> bool): seq<Segment>
    requires Renderable(content, v, re, replaceOpt, utf8)
  {
    var slice := content[v.range.start..v.range.end];
    PrintableWithoutTemplate(slice, v.matches, 0, re, utf8);
    (if console then [] else [PathPrefix(path)])
    + ([LineNr(v.nr)] + ColoredFrom(slice, v.matches, 0, re, None, utf8)
       + (if replaceOpt.Some? then [LineNr(v.nr)] + ColoredFrom(slice, v.matches, 0, re, replaceOpt, utf8) else []))
  }

  /** A line as the context loop would print it, or nothing for a line
      that could not be rendered (which `RenderSafe` rules out). */
  function LineShown(path: string, console: bool, content: Bytes, v: LineView, re: Regex, replaceOpt: Option<Replace>, utf8: Bytes -> bool): seq<Segment>
  {
    if Renderable(content, v, re, replaceOpt, utf8) then ShowLine(path, console, content, v, re, replaceOpt, utf8) else []
  }

  /** Every line of the file as the context loop would print it. */
  function Displayed(path: string, console: bool, content: Bytes, views: seq<LineView>, re: Regex, replaceOpt: Option<Replace>, utf8: Bytes -> bool)
    : (shown: seq<seq<Segment>>)
    ensures |shown| == |views|
  {
    seq(|views|, i requires 0 <= i < |views| => LineShown(path, console, content, views[i], re, replaceOpt, utf8))
  }

  /** The segments of one event: a printed line, or `...` on a console. */
  function EventSegments(console: bool, shown: seq<seq<Segment>>, ev: Event): seq<Segment>
  {
    match ev
    case Gap => if console then [Ellipsis] else []
    case Show(i) => if i < |shown| then shown[i] else []
  }

  /** The output of a sequence of context-window events. */
  function Rendered(console: bool, shown: seq<seq<Segment>>, evs: seq<Event>): seq<Segment>
    decreases |evs|
  {
    if evs == [] then []
    else Rendered(console, shown, evs[..|evs| - 1]) + EventSegments(console, shown, evs[|evs| - 1])
  }

  /** Rendering one event more appends its segments. */
  lemma RenderedSnoc(console: bool, shown: seq<seq<Segment>>, evs: seq<Event>, ev: Event)
    ensures Rendered(console, shown, evs + [ev]) == Rendered(console, shown, evs) + EventSegments(console, shown, ev)
  {
    assert (evs + [ev])[..|evs|] == evs;
  }


  // ---------------------------------------------------------------------
  // `process_file`
  // ---------------------------------------------------------------------

  /** What `process_file` needs of the file so that no `unwrap` fails: once
      it is loaded and found, a search exists (an inverted pattern without
      one panics), every line the context window renders is renderable, and,
      when it is rewritten, every group the template names is there. */
  predicate FileSafe(config: Config, searchOpt: Option<Regex>, replaceOpt: Option<Replace>, file: Result<Bytes>, utf8: Bytes -> bool)
  {
    config.outputOnly != Some(Folders) && file.Ok? ==>
      var views := FileViews(file.value, searchOpt);
      Found(views, config.invertPattern) ==>
        searchOpt.Some?
        && (config.outputOnly != Some(Filenames) ==>
              RenderSafe(file.value, views, Run(Marks(views), config.outputBefore, config.outputAfter).events, searchOpt.value, replaceOpt, utf8))
        && (replaceOpt.Some? && !config.simulateReplace ==>
              FileWriteSafe(file.value, views, searchOpt.value, replaceOpt.value.parts))
  }

  /** What `process_file` prints and writes for `path`, whose contents (or
      failure to open) are `file`. */
  function FileOutcome(path: string, config: Config, console: bool, searchOpt: Option<Regex>, replaceOpt: Option<Replace>,
                       file: Result<Bytes>, utf8: Bytes -> bool): Outcome
    requires FileSafe(config, searchOpt, replaceOpt, file, utf8)
  {
    if config.outputOnly == Some(Folders) then Outcome(Ok(()), [], [])
    else if file.Err? then Outcome(Ok(()), if config.verboseLevel >= 1 then [SkipWarning(path)] else [], [])
    else
      var views := FileViews(file.value, searchOpt);
      if !Found(views, config.invertPattern) then Outcome(Ok(()), [], [])
      else FoundOutcome(path, config, console, file.value, views, searchOpt.value, replaceOpt, utf8)
  }

  /** What `process_file` prints and writes for a file that counts as found:
      its path alone, or the context window framed by a header and a blank
      line on a console; then the rewritten file, unless only simulated. */
  function FoundOutcome(path: string, config: Config, console: bool, content: Bytes, views: seq<LineView>,
                        re: Regex, replaceOpt: Option<Replace>, utf8: Bytes -> bool): Outcome
    requires ViewsInBounds(content, views)
    requires replaceOpt.Some? && !config.simulateReplace ==> FileWriteSafe(content, views, re, replaceOpt.value.parts)
  {
    var out := FoundSegments(path, config, console, content, views, re, replaceOpt, utf8);
    if replaceOpt.Some? && !config.simulateReplace then
      match FileWritten(content, views, re, replaceOpt.value.parts)
      case Ok(bytes) => Outcome(Ok(()), out, [Written(path, bytes)])
      case Err(e) => Outcome(Err(e), out, [])
    else Outcome(Ok(()), out, [])
  }

  /** What `process_file` prints for a found file. */
  function FoundSegments(path: string, config: Config, console: bool, content: Bytes, views: seq<LineView>,
                         re: Regex, replaceOpt: Option<Replace>, utf8: Bytes -> bool): seq<Segment>
  {
    if config.outputOnly == Some(Filenames) then [PathEntry(path, config.nullSeparatedOutput)]
    else
      (if console then [FileHeader(path)] else [])
      + Rendered(console, Displayed(path, console, content, views, re, replaceOpt, utf8),
                 Run(Marks(views), config.outputBefore, config.outputAfter).events)
      + (if console then [Newline] else [])
  }

  /** `process_file`, with `file` what opening and reading `path` yields and
      the writes collected rather than performed. */
  method ProcessFile(path: string, config: Config, data: Data, file: Result<Bytes>, stdoutIsTty: bool, utf8: Bytes -> bool)
    returns (o: Outcome)
    requires data.Valid()
    requires FileSafe(config, data.searchOpt, data.replaceOpt, file, utf8)
    modifies data
    ensures data.Valid()
    ensures o == FileOutcome(path, config, Console(config, stdoutIsTty), data.searchOpt, data.replaceOpt, file, utf8)
    ensures config.outputOnly == Some(Folders) ==> unchanged(data)
    ensures config.outputOnly != Some(Folders) && file.Ok? ==>
      data.path == path && data.content == file.value && ViewsOf(data.lines) == FileViews(file.value, data.searchOpt)
  {
    if config.outputOnly == Some(Folders) {
      return Outcome(Ok(()), [], []);
    }
    var console := Console(config, stdoutIsTty);
    var loaded := data.Load(path, file);
    if loaded.Err? {
      var warning := if config.verboseLevel >= 1 then [SkipWarning(path)] else [];
      return Outcome(Ok(()), warning, []);
    }
    o := SearchLoaded(path, config, data, console, utf8, file.value);
  }

  /** The rest of `process_file` once `content` is loaded: index and search
      its lines, and output the file if it counts as found. */
  method SearchLoaded(path: string, config: Config, data: Data, console: bool, utf8: Bytes -> bool, ghost content: Bytes)
    returns (o: Outcome)
    requires data.Valid() && data.lines == [] && data.path == path && data.content == content
    requires config.outputOnly != Some(Folders)
    requires FileSafe(config, data.searchOpt, data.replaceOpt, Ok(content), utf8)
    modifies data
    ensures data.Valid() && data.path == path && data.content == content
    ensures ViewsOf(data.lines) == FileViews(content, data.searchOpt)
    ensures o == FileOutcome(path, config, console, data.searchOpt, data.replaceOpt, Ok(content), utf8)
  {
    var matched := IndexLines(data);
    o := OutputIfFound(path, config, data, console, utf8, matched, content);
  }

  /** The output of a searched file: the found file's output when some line
      matched (or, inverted, none did), and nothing otherwise. */
  method OutputIfFound(path: string, config: Config, data: Data, console: bool, utf8: Bytes -> bool, matched: bool,
                       ghost content: Bytes)
    returns (o: Outcome)
    requires data.Valid() && data.path == path && data.content == content
    requires config.outputOnly != Some(Folders)
    requires FileSafe(config, data.searchOpt, data.replaceOpt, Ok(content), utf8)
    requires ViewsOf(data.lines) == FileViews(content, data.searchOpt)
    requires matched <==> exists k :: 0 <= k < |ViewsOf(data.lines)| && ViewsOf(data.lines)[k].matches != []
    ensures o == FileOutcome(path, config, console, data.searchOpt, data.replaceOpt, Ok(content), utf8)
  {
    if matched != config.invertPattern {
      o := OutputFound(config, data, console, utf8);
    } else {
      o := Outcome(Ok(()), [], []);
    }
  }

  /** `split_in_lines` then `search_for_matches` on freshly loaded content:
      the line objects index the content's searched views, and the search
      reports whether any line matched. */
  method IndexLines(data: Data) returns (matched: bool)
    requires data.Valid() && data.lines == []
    modifies data
    ensures data.Valid()
    ensures data.path == old(data.path) && data.content == old(data.content)
    ensures ViewsOf(data.lines) == FileViews(data.content, data.searchOpt)
    ensures matched <==> exists k :: 0 <= k < |ViewsOf(data.lines)| && ViewsOf(data.lines)[k].matches != []
  {
    var _ := data.SplitInLines();
    ghost var sp := Spans(data.content, 0);
    assert data.lines[0..] == data.lines;
    forall k | 0 <= k < |data.lines|
      ensures fresh(data.lines[k])
    {
      assert data.lines[k] in data.lines[0..];
    }
    forall k | 0 <= k < |data.lines|
      ensures data.lines[k].nr == 1 + k && data.lines[k].range == sp[k] && data.lines[k].matches == []
      ensures data.lines[k].InBounds(data.content)
    {
      assert FreshLine(data.lines[k], 1 + k, sp[k]);
      assert LineOk(data.content, data.lines[k]);
    }
    matched := data.SearchForMatches();
    IndexSearched(data.lines, data.content, data.searchOpt);
    FoundAgrees(data.lines, matched);
  }

  /** The found branch of `process_file`: output, then the rewrite. */
  method OutputFound(config: Config, data: Data, console: bool, utf8: Bytes -> bool) returns (o: Outcome)
    requires data.Valid() && data.searchOpt.Some?
    requires ViewsInBounds(data.content, ViewsOf(data.lines))
    requires config.outputOnly != Some(Filenames) ==>
      RenderSafe(data.content, ViewsOf(data.lines), Run(Marks(ViewsOf(data.lines)), config.outputBefore, config.outputAfter).events,
                 data.searchOpt.value, data.replaceOpt, utf8)
    requires data.replaceOpt.Some? && !config.simulateReplace ==>
      FileWriteSafe(data.content, ViewsOf(data.lines), data.searchOpt.value, data.replaceOpt.value.parts)
    ensures o == FoundOutcome(data.path, config, console, data.content, ViewsOf(data.lines), data.searchOpt.value, data.replaceOpt, utf8)
  {
    var out := PrintFound(config, data, console, utf8);
    var written: seq<Written> := [];
    if data.replaceOpt.Some? {
      if !config.simulateReplace {
        var w := data.ReplaceAndWrite();
        if w.Err? {
          return Outcome(Err(w.error), out, []);
        }
        written := [Written(data.path, w.value)];
      }
    }
    o := Outcome(Ok(()), out, written);
  }

  /** The printing part of the found branch: the path alone, or the context
      window framed by a header and a blank line on a console. */
  method PrintFound(config: Config, data: Data, console: bool, utf8: Bytes -> bool) returns (out: seq<Segment>)
    requires data.Valid() && data.searchOpt.Some?
    requires config.outputOnly != Some(Filenames) ==>
      RenderSafe(data.content, ViewsOf(data.lines), Run(Marks(ViewsOf(data.lines)), config.outputBefore, config.outputAfter).events,
                 data.searchOpt.value, data.replaceOpt, utf8)
    ensures out == FoundSegments(data.path, config, console, data.content, ViewsOf(data.lines), data.searchOpt.value, data.replaceOpt, utf8)
  {
    if config.outputOnly == Some(Filenames) {
      out := [PathEntry(data.path, config.nullSeparatedOutput)];
    } else {
      out := [];
      if console {
        out := [FileHeader(data.path)];
      }
      var body := RenderContext(data, console, config.outputBefore, config.outputAfter, data.searchOpt.value, utf8);
      out := out + body;
      if console {
        out := out + [Newline];
      }
    }
  }

  /** After `load`, `split_in_lines` and `search_for_matches`, the line
      objects have the searched views of the content. */
  lemma IndexSearched(ls: seq<Line>, content: Bytes, searchOpt: Option<Regex>)
    requires |ls| == |Spans(content, 0)|
    requires forall k :: 0 <= k < |ls| ==> ls[k].nr == 1 + k && ls[k].range == Spans(content, 0)[k]
    requires searchOpt.Some? ==>
      forall k :: 0 <= k < |ls| ==> ls[k].InBounds(content) && ls[k].matches == searchOpt.value.findIter(ls[k].AsSlice(content))
    requires searchOpt.None? ==> forall k :: 0 <= k < |ls| ==> ls[k].matches == []
    ensures ViewsOf(ls) == FileViews(content, searchOpt)
  {
    var sp := Spans(content, 0);
    forall k | 0 <= k < |ls|
      ensures ls[k].nr == 1 + k && ls[k].range == sp[k] && ls[k].matches == LineMatches(content, sp[k], searchOpt)
    {
      if searchOpt.Some? {
        assert ls[k].AsSlice(content) == SliceOf(content, sp[k]);
      }
    }
    LinesSearched(ls, content, sp, 1, searchOpt);
  }

  /** Whether some line object has matches is whether some view has. */
  lemma FoundAgrees(ls: seq<Line>, found: bool)
    requires found <==> exists k :: 0 <= k < |ls| && ls[k].matches != []
    ensures found <==> exists k :: 0 <= k < |ViewsOf(ls)| && ViewsOf(ls)[k].matches != []
  {
    if found {
      var k :| 0 <= k < |ls| && ls[k].matches != [];
      ViewsOfAt(ls, k);
    } else {
      forall k | 0 <= k < |ViewsOf(ls)|
        ensures ViewsOf(ls)[k].matches == []
      {
        ViewsOfAt(ls, k);
      }
    }
  }

  /** The context loop of `process_file` (the `for` over the lines, with
      the lagging iterator as the index `consumed`): its output is the
      rendering of the events of the state machine. */
  method RenderContext(data: Data, console: bool, before: nat, after: nat, re: Regex, utf8: Bytes -> bool)
    returns (out: seq<Segment>)
    requires data.Valid()
    requires RenderSafe(data.content, ViewsOf(data.lines), Run(Marks(ViewsOf(data.lines)), before, after).events, re, data.replaceOpt, utf8)
    ensures out == Rendered(console, Displayed(data.path, console, data.content, ViewsOf(data.lines), re, data.replaceOpt, utf8),
                            Run(Marks(ViewsOf(data.lines)), before, after).events)
  {
    var lines := data.lines;
    ghost var marks := Marks(ViewsOf(lines));
    ghost var shown := Displayed(data.path, console, data.content, ViewsOf(lines), re, data.replaceOpt, utf8);
    var consumed: nat := 0;
    var delay: nat := 0;
    var count: Option<nat> := None;
    ghost var evs: seq<Event> := [];
    out := [];
    var i := 0;
    assert marks[..0] == [];
    while i < |lines|
      invariant 0 <= i <= |lines|
      invariant Run(marks[..i], before, after) == Trace(State(consumed, delay, count), evs)
      invariant out == Rendered(console, shown, evs)
    {
      MarkOfLine(lines, i);
      ContextAdvance(data.content, ViewsOf(lines), marks, i, before, after, re, data.replaceOpt, utf8, consumed, delay, count, evs);
      var marked := lines[i].matches != [];
      var ev: Option<Event>;
      consumed, delay, count, ev := Advance(marked, before, after, consumed, delay, count, marks, i, evs);
      if ev.Some? {
        out := OutputEvent(data, console, ev.value, re, utf8, shown, evs, out);
        evs := evs + [ev.value];
      }
      i := i + 1;
    }
    assert marks[..i] == marks;
  }

  /** Line `i` is marked iff its object has matches. */
  lemma MarkOfLine(lines: seq<Line>, i: nat)
    requires i < |lines|
    ensures |Marks(ViewsOf(lines))| == |lines|
    ensures Marks(ViewsOf(lines))[i] == (lines[i].matches != [])
  {
    ViewsOfAt(lines, i);
  }

  /** The bookkeeping of one iteration of the context loop for a line that
      has (`marked`) or has no matches: a marked line re-arms the countdown;
      an armed countdown takes the next lagged line, to be rendered while
      the count lasts or else to close the block; otherwise the delay grows
      up to `before`, after which the lagging iterator skips a line. `ev`
      is what the iteration outputs. */
  method Advance(marked: bool, before: nat, after: nat, consumed: nat, delay: nat, count: Option<nat>,
                 ghost marks: seq<bool>, ghost i: nat, ghost evs: seq<Event>)
    returns (consumed': nat, delay': nat, count': Option<nat>, ev: Option<Event>)
    requires i < |marks| && marks[i] == marked
    requires Run(marks[..i], before, after) == Trace(State(consumed, delay, count), evs)
    ensures ev.None? || ev == Some(Show(consumed)) || ev == Some(Gap)
    ensures ev == Some(Show(consumed)) <==> marked || (count.Some? && count.value > 0)
    ensures ev.None? ==> Run(marks[..i + 1], before, after) == Trace(State(consumed', delay', count'), evs)
    ensures ev.Some? ==> Run(marks[..i + 1], before, after) == Trace(State(consumed', delay', count'), evs + [ev.value])
  {
    RunCases(marks, i, before, after, consumed, delay, count, evs);
    count' := count;
    if marked {
      count' := Some(delay + after + 1);
    }
    delay' := delay;
    if count'.Some? {
      consumed' := consumed + 1;
      if count'.value > 0 {
        ev := Some(Show(consumed));
        count' := Some(count'.value - 1);
      } else {
        ev := Some(Gap);
        count' := None;
      }
    } else if delay < before {
      consumed', delay', ev := consumed, delay + 1, None;
    } else {
      consumed', ev := consumed + 1, None;
    }
  }

  /** What the armed branch of the context loop prints for `ev`: the lagged
      line, or `...` on a console when the block closes. */
  method OutputEvent(data: Data, console: bool, ev: Event, re: Regex, utf8: Bytes -> bool,
                     ghost shown: seq<seq<Segment>>, ghost evs: seq<Event>, out: seq<Segment>)
    returns (out': seq<Segment>)
    requires data.Valid()
    requires shown == Displayed(data.path, console, data.content, ViewsOf(data.lines), re, data.replaceOpt, utf8)
    requires ev.Show? ==> ev.ix < |data.lines| && Renderable(data.content, ViewsOf(data.lines)[ev.ix], re, data.replaceOpt, utf8)
    requires out == Rendered(console, shown, evs)
    ensures out' == Rendered(console, shown, evs + [ev])
  {
    RenderedSnoc(console, shown, evs, ev);
    match ev {
      case Show(ix) =>
        var segs := RenderLine(data, console, ix, re, utf8);
        out' := out + segs;
      case Gap =>
        out' := out;
        if console {
          out' := out' + [Ellipsis];
        }
    }
  }

  /** The lagged line an iteration of the context loop renders is renderable. */
  lemma ContextAdvance(content: Bytes, views: seq<LineView>, marks: seq<bool>, i: nat, before: nat, after: nat,
                       re: Regex, replaceOpt: Option<Replace>, utf8: Bytes -> bool,
                       consumed: nat, delay: nat, count: Option<nat>, evs: seq<Event>)
    requires i < |marks| && Run(marks[..i], before, after) == Trace(State(consumed, delay, count), evs)
    requires RenderSafe(content, views, Run(marks, before, after).events, re, replaceOpt, utf8)
    ensures marks[i] || (count.Some? && count.value > 0) ==>
      consumed < |views| && Renderable(content, views[consumed], re, replaceOpt, utf8)
  {
    RunCases(marks, i, before, after, consumed, delay, count, evs);
    RunPrefix(marks, i + 1, before, after);
    if marks[i] || (count.Some? && count.value > 0) {
      var all := Run(marks, before, after).events;
      assert (evs + [Show(consumed)])[|evs|] == Show(consumed);
      assert all[|evs|] == Show(consumed);
      assert EventSafe(content, views, all[|evs|], re, replaceOpt, utf8);
    }
  }

  /** One rendered line of the context loop: the path when not on a console,
      then `print_colored` of the lagged line `ix`. */
  method RenderLine(data: Data, console: bool, ix: nat, re: Regex, utf8: Bytes -> bool) returns (segs: seq<Segment>)
    requires data.Valid() && ix < |data.lines|
    requires Renderable(data.content, ViewsOf(data.lines)[ix], re, data.replaceOpt, utf8)
    ensures segs == ShowLine(data.path, console, data.content, ViewsOf(data.lines)[ix], re, data.replaceOpt, utf8)
  {
    ViewsOfAt(data.lines, ix);
    var line := data.lines[ix];
    assert LineOk(data.content, line);
    var prefix: seq<Segment> := if console then [] else [PathPrefix(data.path)];
    var slice := line.AsSlice(data.content);
    var colored := line.PrintColored(slice, re, data.replaceOpt, utf8);
    segs := prefix + colored;
  }

  // ---------------------------------------------------------------------
  // What `process_file` promises
  // ---------------------------------------------------------------------

  /** The conditions under which `process_file` rewrites the file. */
  predicate Rewrites(config: Config, searchOpt: Option<Regex>, replaceOpt: Option<Replace>, file: Result<Bytes>)
  {
    config.outputOnly != Some(Folders) && file.Ok?
    && Found(FileViews(file.value, searchOpt), config.invertPattern)
    && replaceOpt.Some? && !config.simulateReplace
  }

  /** A file is written back only when it is loaded and found, a replacement
      is set and the rewrite is not simulated; it is then written once, to
      its own path, unless the transform fails, which is the only error. */
  lemma RewriteConditions(path: string, config: Config, console: bool, searchOpt: Option<Regex>, replaceOpt: Option<Replace>,
                          file: Result<Bytes>, utf8: Bytes -> bool)
    requires FileSafe(config, searchOpt, replaceOpt, file, utf8)
    ensures var o := FileOutcome(path, config, console, searchOpt, replaceOpt, file, utf8);
      !Rewrites(config, searchOpt, replaceOpt, file) ==> o.result == Ok(()) && o.written == []
    ensures var o := FileOutcome(path, config, console, searchOpt, replaceOpt, file, utf8);
      Rewrites(config, searchOpt, replaceOpt, file) ==>
        searchOpt.Some?
        && match FileWritten(file.value, FileViews(file.value, searchOpt), searchOpt.value, replaceOpt.value.parts)
        case Ok(bytes) => o.result == Ok(()) && o.written == [Written(path, bytes)]
        case Err(e) => o.result == Err(e) && o.written == []
  {
  }

  /** When every match has its captures, the file is rewritten to the
      transform preview of its lines, joined. */
  lemma RewrittenIsReplaced(path: string, config: Config, console: bool, searchOpt: Option<Regex>, replaceOpt: Option<Replace>,
                            file: Result<Bytes>, utf8: Bytes -> bool)
    requires FileSafe(config, searchOpt, replaceOpt, file, utf8)
    requires Rewrites(config, searchOpt, replaceOpt, file) && searchOpt.Some?
    requires AllCapturesAvailable(file.value, FileViews(file.value, searchOpt), searchOpt.value, replaceOpt.value.parts)
    ensures FileOutcome(path, config, console, searchOpt, replaceOpt, file, utf8) ==
      Outcome(Ok(()), FoundSegments(path, config, console, file.value, FileViews(file.value, searchOpt), searchOpt.value, replaceOpt, utf8),
              [Written(path, ReplacedFile(file.value, FileViews(file.value, searchOpt), searchOpt.value, replaceOpt.value.parts))])
  {
    WrittenFileIsReplaced(file.value, FileViews(file.value, searchOpt), searchOpt.value, replaceOpt.value.parts);
  }

  /** With an inverted pattern, a file where nothing matches counts as found
      and, with a replacement set and not simulated, is written back byte for byte. */
  lemma InvertedUnmatchedRewrittenVerbatim(path: string, config: Config, console: bool, searchOpt: Option<Regex>, replaceOpt: Option<Replace>,
                                           content: Bytes, utf8: Bytes -> bool)
    requires config.outputOnly != Some(Folders) && config.invertPattern
    requires replaceOpt.Some? && !config.simulateReplace
    requires forall k :: 0 <= k < |FileViews(content, searchOpt)| ==> FileViews(content, searchOpt)[k].matches == []
    requires FileSafe(config, searchOpt, replaceOpt, Ok(content), utf8)
    ensures Rewrites(config, searchOpt, replaceOpt, Ok(content))
    ensures FileOutcome(path, config, console, searchOpt, replaceOpt, Ok(content), utf8).written == [Written(path, content)]
    ensures FileOutcome(path, config, console, searchOpt, replaceOpt, Ok(content), utf8).result == Ok(())
  {
    var sp := Spans(content, 0);
    var views := FileViews(content, searchOpt);
    forall k | 0 <= k < |sp|
      ensures LineMatches(content, sp[k], searchOpt) == []
    {
      SearchedViewsAt(content, sp, 1, searchOpt, k);
    }
    UnmatchedViewsFresh(content, sp, 1, searchOpt);
    UnmatchedFileUnchanged(content, searchOpt.value, replaceOpt.value.parts);
  }

  /** The `k`-th searched view: line number, span and matches of line `k`. */
  lemma {:induction false} SearchedViewsAt(content: Bytes, sp: seq<Range>, nr: nat, searchOpt: Option<Regex>, k: nat)
    requires k < |sp|
    ensures SearchedViews(content, sp, nr, searchOpt)[k] == LineView(nr + k, sp[k], LineMatches(content, sp[k], searchOpt))
    decreases k
  {
    if k > 0 {
      SearchedViewsAt(content, sp[1..], nr + 1, searchOpt, k - 1);
    }
  }

  /** A file that is not found prints and writes nothing; without a context
      window, a found file prints its path and nothing else. */
  lemma FoundGatesOutput(path: string, config: Config, console: bool, searchOpt: Option<Regex>, replaceOpt: Option<Replace>,
                         file: Result<Bytes>, utf8: Bytes -> bool)
    requires FileSafe(config, searchOpt, replaceOpt, file, utf8)
    requires config.outputOnly != Some(Folders) && file.Ok?
    ensures var o := FileOutcome(path, config, console, searchOpt, replaceOpt, file, utf8);
      !Found(FileViews(file.value, searchOpt), config.invertPattern) ==> o == Outcome(Ok(()), [], [])
    ensures var o := FileOutcome(path, config, console, searchOpt, replaceOpt, file, utf8);
      Found(FileViews(file.value, searchOpt), config.invertPattern) && config.outputOnly == Some(Filenames) ==>
        o.out == [PathEntry(path, config.nullSeparatedOutput)]
  {
  }

  // ---------------------------------------------------------------------
  // `process_folder`
  // ---------------------------------------------------------------------

  /** Every path listed, NUL- or newline-terminated, in order. */
  function Listing(paths: seq<string>, nul: bool): (out: seq<Segment>)
  {
    seq(|paths|, k requires 0 <= k < |paths| => PathEntry(paths[k], nul))
  }

  /** What processing `paths` one after the other produces: the outcomes
      joined, up to and including the first that fails. */
  function FilesOutcome(paths: seq<string>, config: Config, console: bool, searchOpt: Option<Regex>, replaceOpt: Option<Replace>,
                        files: string -> Result<Bytes>, utf8: Bytes -> bool): Outcome
    requires FolderSafe(paths, config, console, searchOpt, replaceOpt, files, utf8)
    decreases |paths|, 1
  {
    if paths == [] then Outcome(Ok(()), [], [])
    else
      var o := FilesOutcome(paths[..|paths| - 1], config, console, searchOpt, replaceOpt, files, utf8);
      if o.result.Err? then o
      else
        var f := FileOutcome(paths[|paths| - 1], config, console, searchOpt, replaceOpt, files(paths[|paths| - 1]), utf8);
        Outcome(f.result, o.out + f.out, o.written + f.written)
  }

  /** Every file that `process_folder` reaches is safe to process. */
  predicate FolderSafe(paths: seq<string>, config: Config, console: bool, searchOpt: Option<Regex>, replaceOpt: Option<Replace>,
                       files: string -> Result<Bytes>, utf8: Bytes -> bool)
    decreases |paths|, 0
  {
    paths == [] ||
    (var init := paths[..|paths| - 1];
     FolderSafe(init, config, console, searchOpt, replaceOpt, files, utf8)
     && (FilesOutcome(init, config, console, searchOpt, replaceOpt, files, utf8).result.Ok? ==>
           FileSafe(config, searchOpt, replaceOpt, files(paths[|paths| - 1]), utf8)))
  }

  /** What `process_folder` produces from the outcome of the scan: its error,
      the files processed when a search is configured, else the paths listed. */
  function FolderOutcome(scan: Result<seq<string>>, config: Config, console: bool, searchOpt: Option<Regex>, replaceOpt: Option<Replace>,
                         files: string -> Result<Bytes>, utf8: Bytes -> bool): Outcome
    requires scan.Ok? && searchOpt.Some? ==> FolderSafe(scan.value, config, console, searchOpt, replaceOpt, files, utf8)
  {
    if scan.Err? then Outcome(Err(scan.error), [], [])
    else if searchOpt.Some? then FilesOutcome(scan.value, config, console, searchOpt, replaceOpt, files, utf8)
    else Outcome(Ok(()), Listing(scan.value, config.nullSeparatedOutput), [])
  }

  /** The files before one that is reached are safe, too. */
  lemma {:induction false} FolderSafePrefix(paths: seq<string>, n: nat, config: Config, console: bool, searchOpt: Option<Regex>,
                                            replaceOpt: Option<Replace>, files: string -> Result<Bytes>, utf8: Bytes -> bool)
    requires n <= |paths| && FolderSafe(paths, config, console, searchOpt, replaceOpt, files, utf8)
    ensures FolderSafe(paths[..n], config, console, searchOpt, replaceOpt, files, utf8)
    decreases |paths|
  {
    if n < |paths| {
      assert paths[..|paths| - 1][..n] == paths[..n];
      FolderSafePrefix(paths[..|paths| - 1], n, config, console, searchOpt, replaceOpt, files, utf8);
    } else {
      assert paths[..n] == paths;
    }
  }

  /** Once a file fails, nothing after it is processed. */
  lemma {:induction false} FailureStops(paths: seq<string>, n: nat, config: Config, console: bool, searchOpt: Option<Regex>,
                                        replaceOpt: Option<Replace>, files: string -> Result<Bytes>, utf8: Bytes -> bool)
    requires n <= |paths| && FolderSafe(paths, config, console, searchOpt, replaceOpt, files, utf8)
    requires FolderSafe(paths[..n], config, console, searchOpt, replaceOpt, files, utf8)
    requires FilesOutcome(paths[..n], config, console, searchOpt, replaceOpt, files, utf8).result.Err?
    ensures FilesOutcome(paths, config, console, searchOpt, replaceOpt, files, utf8)
      == FilesOutcome(paths[..n], config, console, searchOpt, replaceOpt, files, utf8)
    decreases |paths|
  {
    if n < |paths| {
      var init := paths[..|paths| - 1];
      assert init[..n] == paths[..n];
      FolderSafePrefix(paths, |paths| - 1, config, console, searchOpt, replaceOpt, files, utf8);
      assert paths[..|paths| - 1] == init;
      FailureStops(init, n, config, console, searchOpt, replaceOpt, files, utf8);
    } else {
      assert paths[..n] == paths;
    }
  }

  /** Only the files of the scan are written, each to its own path. */
  lemma {:induction false} WrittenPathsScanned(paths: seq<string>, config: Config, console: bool, searchOpt: Option<Regex>,
                                               replaceOpt: Option<Replace>, files: string -> Result<Bytes>, utf8: Bytes -> bool)
    requires FolderSafe(paths, config, console, searchOpt, replaceOpt, files, utf8)
    ensures forall w :: w in FilesOutcome(paths, config, console, searchOpt, replaceOpt, files, utf8).written ==> w.path in paths
    decreases |paths|
  {
    if paths != [] {
      var init := paths[..|paths| - 1];
      var last := paths[|paths| - 1];
      WrittenPathsScanned(init, config, console, searchOpt, replaceOpt, files, utf8);
      var o := FilesOutcome(init, config, console, searchOpt, replaceOpt, files, utf8);
      if o.result.Ok? {
        RewriteConditions(last, config, console, searchOpt, replaceOpt, files(last), utf8);
        var f := FileOutcome(last, config, console, searchOpt, replaceOpt, files(last), utf8);
        forall w | w in o.written + f.written
          ensures w.path in paths
        {
          if w in o.written {
            assert w.path in init;
          }
        }
      }
    }
  }

  /** `process_folder`, with `scan` what scanning the root yields and `files`
      what reading each path yields. */
  method ProcessFolder(scan: Result<seq<string>>, config: Config, data: Data, files: string -> Result<Bytes>,
                       stdoutIsTty: bool, utf8: Bytes -> bool) returns (o: Outcome)
    requires data.Valid()
    requires scan.Ok? && data.searchOpt.Some? ==>
      FolderSafe(scan.value, config, Console(config, stdoutIsTty), data.searchOpt, data.replaceOpt, files, utf8)
    modifies data
    ensures data.Valid()
    ensures o == FolderOutcome(scan, config, Console(config, stdoutIsTty), data.searchOpt, data.replaceOpt, files, utf8)
  {
    if scan.Err? {
      return Outcome(Err(scan.error), [], []);
    }
    if data.searchOpt.Some? {
      o := ProcessFiles(scan.value, config, data, files, stdoutIsTty, utf8);
    } else {
      var out := ListPaths(scan.value, config.nullSeparatedOutput);
      o := Outcome(Ok(()), out, []);
    }
  }

  /** The loop of `process_folder` over the scanned paths when a search is
      configured: each file is processed in turn, and the first failure ends it. */
  method ProcessFiles(paths: seq<string>, config: Config, data: Data, files: string -> Result<Bytes>,
                      stdoutIsTty: bool, utf8: Bytes -> bool) returns (o: Outcome)
    requires data.Valid()
    requires FolderSafe(paths, config, Console(config, stdoutIsTty), data.searchOpt, data.replaceOpt, files, utf8)
    modifies data
    ensures data.Valid()
    ensures o == FilesOutcome(paths, config, Console(config, stdoutIsTty), data.searchOpt, data.replaceOpt, files, utf8)
  {
    ghost var console := Console(config, stdoutIsTty);
    var out: seq<Segment> := [];
    var written: seq<Written> := [];
    var i := 0;
    assert paths[..0] == [];
    while i < |paths|
      invariant 0 <= i <= |paths| && data.Valid()
      invariant FolderSafe(paths[..i], config, console, data.searchOpt, data.replaceOpt, files, utf8)
      invariant FilesOutcome(paths[..i], config, console, data.searchOpt, data.replaceOpt, files, utf8) == Outcome(Ok(()), out, written)
    {
      var f := ProcessNext(paths, i, config, data, files, stdoutIsTty, utf8, out, written);
      out := out + f.out;
      written := written + f.written;
      if f.result.Err? {
        FailureStops(paths, i + 1, config, console, data.searchOpt, data.replaceOpt, files, utf8);
        return Outcome(f.result, out, written);
      }
      i := i + 1;
    }
    assert paths[..i] == paths;
    o := Outcome(Ok(()), out, written);
  }

  /** One step of `process_files`: processes the next file and joins its
      outcome to those before it. */
  method ProcessNext(paths: seq<string>, i: nat, config: Config, data: Data, files: string -> Result<Bytes>,
                     stdoutIsTty: bool, utf8: Bytes -> bool, ghost out: seq<Segment>, ghost written: seq<Written>)
    returns (f: Outcome)
    requires i < |paths| && data.Valid()
    requires FolderSafe(paths, config, Console(config, stdoutIsTty), data.searchOpt, data.replaceOpt, files, utf8)
    requires FolderSafe(paths[..i], config, Console(config, stdoutIsTty), data.searchOpt, data.replaceOpt, files, utf8)
    requires FilesOutcome(paths[..i], config, Console(config, stdoutIsTty), data.searchOpt, data.replaceOpt, files, utf8)
          == Outcome(Ok(()), out, written)
    modifies data
    ensures data.Valid()
    ensures FolderSafe(paths[..i + 1], config, Console(config, stdoutIsTty), data.searchOpt, data.replaceOpt, files, utf8)
    ensures FilesOutcome(paths[..i + 1], config, Console(config, stdoutIsTty), data.searchOpt, data.replaceOpt, files, utf8)
         == Outcome(f.result, out + f.out, written + f.written)
  {
    ghost var console := Console(config, stdoutIsTty);
    FileSafeAt(paths, i, config, console, data.searchOpt, data.replaceOpt, files, utf8);
    f := ProcessFile(paths[i], config, data, files(paths[i]), stdoutIsTty, utf8);
    FilesAdvance(paths, i, config, console, data.searchOpt, data.replaceOpt, files, utf8, out, written, f);
  }

  /** The file a run without failure so far reaches is safe to process. */
  lemma FileSafeAt(paths: seq<string>, i: nat, config: Config, console: bool, searchOpt: Option<Regex>,
                   replaceOpt: Option<Replace>, files: string -> Result<Bytes>, utf8: Bytes -> bool)
    requires i < |paths| && FolderSafe(paths, config, console, searchOpt, replaceOpt, files, utf8)
    requires FolderSafe(paths[..i], config, console, searchOpt, replaceOpt, files, utf8)
    requires FilesOutcome(paths[..i], config, console, searchOpt, replaceOpt, files, utf8).result.Ok?
    ensures FolderSafe(paths[..i + 1], config, console, searchOpt, replaceOpt, files, utf8)
    ensures FileSafe(config, searchOpt, replaceOpt, files(paths[i]), utf8)
  {
    FolderSafePrefix(paths, i + 1, config, console, searchOpt, replaceOpt, files, utf8);
    assert paths[..i + 1][..i] == paths[..i];
  }

  /** Processing one more file joins its outcome to those before it. */
  lemma FilesAdvance(paths: seq<string>, i: nat, config: Config, console: bool, searchOpt: Option<Regex>,
                     replaceOpt: Option<Replace>, files: string -> Result<Bytes>, utf8: Bytes -> bool,
                     out: seq<Segment>, written: seq<Written>, f: Outcome)
    requires i < |paths| && FolderSafe(paths[..i + 1], config, console, searchOpt, replaceOpt, files, utf8)
    requires FolderSafe(paths[..i], config, console, searchOpt, replaceOpt, files, utf8)
    requires FilesOutcome(paths[..i], config, console, searchOpt, replaceOpt, files, utf8) == Outcome(Ok(()), out, written)
    requires FileSafe(config, searchOpt, replaceOpt, files(paths[i]), utf8)
    requires f == FileOutcome(paths[i], config, console, searchOpt, replaceOpt, files(paths[i]), utf8)
    ensures FilesOutcome(paths[..i + 1], config, console, searchOpt, replaceOpt, files, utf8)
         == Outcome(f.result, out + f.out, written + f.written)
  {
    assert paths[..i + 1][..i] == paths[..i];
  }

  /** The listing of `process_folder` without a search: each path, terminated
      by NUL or a newline. */
  method ListPaths(paths: seq<string>, nullSeparated: bool) returns (out: seq<Segment>)
    ensures out == Listing(paths, nullSeparated)
  {
    out := [];
    var i := 0;
    while i < |paths|
      invariant 0 <= i <= |paths|
      invariant out == Listing(paths[..i], nullSeparated)
    {
      out := out + [PathEntry(paths[i], nullSeparated)];
      i := i + 1;
    }
    assert paths[..i] == paths;
  }

  // ---------------------------------------------------------------------
  // `process_stdin`
  // ---------------------------------------------------------------------

  /** Whether a line read from the standard input counts as found. */
  predicate LineFound(buffer: Bytes, re: Regex, invert: bool)
  {
    (re.findIter(buffer) != []) != invert
  }

  /** The bytes a line is forwarded as when a replacement is set and stdout
      is redirected: the matches alone or the transform when it is found,
      else the line itself. */
  function Forwarded(buffer: Bytes, config: Config, re: Regex, replace: Replace): Bytes
    requires LineFound(buffer, re, config.invertPattern) && config.outputOnly != Some(Match) ==>
      CapturesAvailable(re, replace.parts, buffer, re.findIter(buffer))
  {
    var ms := re.findIter(buffer);
    if !LineFound(buffer, re, config.invertPattern) then buffer
    else if config.outputOnly == Some(Match) then Flatten(MatchList(buffer, ms, 0))
    else ReplacedFrom(buffer, ms, 0, re, replace.parts)
  }

  /** What `process_stdin` requires of one line so that no `unwrap` fails. */
  predicate StdinLineSafe(buffer: Bytes, config: Config, re: Regex, replaceOpt: Option<Replace>, stdoutIsTty: bool, utf8: Bytes -> bool)
  {
    var ms := re.findIter(buffer);
    LineFound(buffer, re, config.invertPattern) && config.outputOnly != Some(Match) ==>
      if replaceOpt.Some? && !stdoutIsTty then CapturesAvailable(re, replaceOpt.value.parts, buffer, ms)
      else PrintableFrom(buffer, ms, 0, re, replaceOpt, utf8)
  }

  /** What `process_stdin` emits for the line `buffer`, numbered `nr`. */
  function StdinLine(buffer: Bytes, nr: nat, config: Config, re: Regex, replaceOpt: Option<Replace>, stdoutIsTty: bool, utf8: Bytes -> bool)
    : seq<Segment>
    requires StdinLineSafe(buffer, config, re, replaceOpt, stdoutIsTty, utf8)
  {
    var ms := re.findIter(buffer);
    if replaceOpt.Some? && !stdoutIsTty then [Raw(Forwarded(buffer, config, re, replaceOpt.value))]
    else if !LineFound(buffer, re, config.invertPattern) then []
    else if config.outputOnly == Some(Match) then MatchSegmentsFrom(buffer, ms, 0, utf8)
    else
      PrintableWithoutTemplate(buffer, ms, 0, re, utf8);
      [LineNr(nr)] + ColoredFrom(buffer, ms, 0, re, None, utf8)
      + (if replaceOpt.Some? then [LineNr(nr)] + ColoredFrom(buffer, ms, 0, re, replaceOpt, utf8) else [])
  }

  /** Every line of the input from `start` on is safe. */
  predicate StdinSafe(input: Bytes, start: nat, config: Config, re: Regex, replaceOpt: Option<Replace>, stdoutIsTty: bool, utf8: Bytes -> bool)
    decreases |input| - start
  {
    start < |input| ==>
      StdinLineSafe(input[start..LineEnd(input, start)], config, re, replaceOpt, stdoutIsTty, utf8)
      && StdinSafe(input, LineEnd(input, start), config, re, replaceOpt, stdoutIsTty, utf8)
  }

  /** What `process_stdin` emits for the lines of `input` from `start` on,
      the first of them numbered `nr`. */
  function StdinFrom(input: Bytes, start: nat, nr: nat, config: Config, re: Regex, replaceOpt: Option<Replace>,
                     stdoutIsTty: bool, utf8: Bytes -> bool): seq<Segment>
    requires StdinSafe(input, start, config, re, replaceOpt, stdoutIsTty, utf8)
    decreases |input| - start
  {
    if start >= |input| then []
    else
      var e := LineEnd(input, start);
      StdinLine(input[start..e], nr, config, re, replaceOpt, stdoutIsTty, utf8)
      + StdinFrom(input, e, nr + 1, config, re, replaceOpt, stdoutIsTty, utf8)
  }

  /** `read_until(0x0a, ..)` on the input at `pos`: the size of the next line, 0 at the end. */
  method ReadLine(input: Bytes, pos: nat) returns (size: nat)
    requires pos <= |input|
    ensures pos < |input| ==> pos + size == LineEnd(input, pos)
    ensures pos == |input| ==> size == 0
  {
    if pos == |input| {
      return 0;
    }
    size := NextLineSize(input, pos, input[pos..]);
  }

  /** `process_stdin`, with `input` the bytes the standard input yields
      before its end or a read error; everything written to stdout is returned. */
  method ProcessStdin(input: Bytes, config: Config, searchOpt: Option<Regex>, replaceOpt: Option<Replace>,
                      stdoutIsTty: bool, utf8: Bytes -> bool) returns (out: seq<Segment>)
    requires searchOpt.Some? ==> StdinSafe(input, 0, config, searchOpt.value, replaceOpt, stdoutIsTty, utf8)
    ensures searchOpt.None? ==> out == []
    ensures searchOpt.Some? ==> out == StdinFrom(input, 0, 1, config, searchOpt.value, replaceOpt, stdoutIsTty, utf8)
  {
    out := [];
    if searchOpt.None? {
      return;
    }
    var re := searchOpt.value;
    var buffer: Bytes := [];
    var lineNr: nat := 0;
    var pos: nat := 0;
    while true
      invariant pos <= |input| && buffer == []
      invariant StdinSafe(input, pos, config, re, replaceOpt, stdoutIsTty, utf8)
      invariant out + StdinFrom(input, pos, lineNr + 1, config, re, replaceOpt, stdoutIsTty, utf8)
             == StdinFrom(input, 0, 1, config, re, replaceOpt, stdoutIsTty, utf8)
      decreases |input| - pos
    {
      var size := ReadLine(input, pos);
      if size == 0 {
        break;
      }
      var e := pos + size;
      StdinLineSafeAt(input, pos, e, config, re, replaceOpt, stdoutIsTty, utf8);
      buffer := buffer + input[pos..pos + size];
      assert buffer == input[pos..e];
      var segs := StdinEmit(buffer, lineNr + 1, config, re, replaceOpt, stdoutIsTty, utf8);
      StdinAdvance(input, pos, e, lineNr + 1, out, segs, config, re, replaceOpt, stdoutIsTty, utf8);
      out := out + segs;
      pos := e;
      lineNr := lineNr + 1;
      buffer := [];
    }
  }

  /** The line at `start` of safe input is safe. */
  lemma StdinLineSafeAt(input: Bytes, start: nat, e: nat, config: Config, re: Regex, replaceOpt: Option<Replace>,
                        stdoutIsTty: bool, utf8: Bytes -> bool)
    requires start < |input| && e == LineEnd(input, start) && StdinSafe(input, start, config, re, replaceOpt, stdoutIsTty, utf8)
    ensures start < e <= |input|
    ensures StdinLineSafe(input[start..e], config, re, replaceOpt, stdoutIsTty, utf8)
  {
  }

  /** Emitting the line at `start` moves the loop of `process_stdin` on to the
      next line: what is left to emit is the rest of the input. */
  lemma StdinAdvance(input: Bytes, start: nat, e: nat, nr: nat, out: seq<Segment>, segs: seq<Segment>, config: Config, re: Regex,
                     replaceOpt: Option<Replace>, stdoutIsTty: bool, utf8: Bytes -> bool)
    requires start < |input| && e == LineEnd(input, start) && StdinSafe(input, start, config, re, replaceOpt, stdoutIsTty, utf8)
    requires StdinLineSafe(input[start..e], config, re, replaceOpt, stdoutIsTty, utf8)
    requires segs == StdinLine(input[start..e], nr, config, re, replaceOpt, stdoutIsTty, utf8)
    ensures StdinSafe(input, e, config, re, replaceOpt, stdoutIsTty, utf8)
    ensures (out + segs) + StdinFrom(input, e, nr + 1, config, re, replaceOpt, stdoutIsTty, utf8)
         == out + StdinFrom(input, start, nr, config, re, replaceOpt, stdoutIsTty, utf8)
  {
    Assoc(out, segs, StdinFrom(input, e, nr + 1, config, re, replaceOpt, stdoutIsTty, utf8));
  }

  /** The body of the `process_stdin` loop for the line in `buffer`. */
  method StdinEmit(buffer: Bytes, lineNr: nat, config: Config, re: Regex, replaceOpt: Option<Replace>,
                   stdoutIsTty: bool, utf8: Bytes -> bool) returns (segs: seq<Segment>)
    requires StdinLineSafe(buffer, config, re, replaceOpt, stdoutIsTty, utf8)
    ensures segs == StdinLine(buffer, lineNr, config, re, replaceOpt, stdoutIsTty, utf8)
  {
    var line := new Line(lineNr, 0, |buffer|);
    assert buffer[0..|buffer|] == buffer;
    var matched := line.SearchFor(re, buffer);
    var found := matched != config.invertPattern;
    segs := [];
    if replaceOpt.Some? && !stdoutIsTty {
      if found && replaceOpt.Some? {
        var replaced: Bytes;
        if config.outputOnly == Some(Match) {
          replaced := line.OnlyMatches(buffer);
        } else {
          replaced := line.ReplaceWith(buffer, re, replaceOpt.value);
        }
        segs := [Raw(replaced)];
      } else {
        segs := [Raw(buffer)];
      }
    } else if found {
      if config.outputOnly == Some(Match) {
        segs := line.PrintColoredMatch(buffer, utf8);
      } else {
        segs := line.PrintColored(buffer, re, replaceOpt, utf8);
      }
    }
  }

  /** With a replacement set and stdout redirected, every line is forwarded:
      the output carries the forwarded bytes of each line, in order. */
  lemma {:induction false} RedirectedForwardsEveryLine(input: Bytes, start: nat, nr: nat, config: Config, re: Regex, replace: Replace,
                                                      utf8: Bytes -> bool)
    requires start <= |input| && StdinSafe(input, start, config, re, Some(replace), false, utf8)
    ensures TextOf(StdinFrom(input, start, nr, config, re, Some(replace), false, utf8))
         == Flatten(ForwardedLines(input, start, config, re, replace, utf8))
    decreases |input| - start
  {
    if start < |input| {
      var e := LineEnd(input, start);
      var line := [Raw(Forwarded(input[start..e], config, re, replace))];
      RedirectedForwardsEveryLine(input, e, nr + 1, config, re, replace, utf8);
      TextOfAppend(line, StdinFrom(input, e, nr + 1, config, re, Some(replace), false, utf8));
      assert TextOf(line) == Forwarded(input[start..e], config, re, replace) by {
        assert line[1..] == [];
      }
    }
  }

  /** The forwarded bytes of each line of `input` from `start` on. */
  function ForwardedLines(input: Bytes, start: nat, config: Config, re: Regex, replace: Replace, utf8: Bytes -> bool)
    : (fw: seq<Bytes>)
    requires StdinSafe(input, start, config, re, Some(replace), false, utf8)
    decreases |input| - start
  {
    if start >= |input| then []
    else
      var e := LineEnd(input, start);
      [Forwarded(input[start..e], config, re, replace)] + ForwardedLines(input, e, config, re, replace, utf8)
  }

  /** With a replacement set, stdout redirected and the pattern not inverted,
      input where no line matches passes through byte for byte. */
  lemma {:induction false} UnmatchedInputPassesThrough(input: Bytes, start: nat, config: Config, re: Regex, replace: Replace,
                                                      utf8: Bytes -> bool)
    requires start <= |input| && !config.invertPattern
    requires forall k :: 0 <= k < |Spans(input, start)| ==> re.findIter(SliceOf(input, Spans(input, start)[k])) == []
    ensures StdinSafe(input, start, config, re, Some(replace), false, utf8)
    ensures ForwardedLines(input, start, config, re, replace, utf8) == SliceList(input, Spans(input, start))
    decreases |input| - start
  {
    if start < |input| {
      var e := LineEnd(input, start);
      var sp := Spans(input, start);
      SpansStep(input, start);
      assert SliceOf(input, sp[0]) == input[start..e];
      forall k | 0 <= k < |Spans(input, e)|
        ensures re.findIter(SliceOf(input, Spans(input, e)[k])) == []
      {
        assert Spans(input, e)[k] == sp[k + 1];
      }
      UnmatchedInputPassesThrough(input, e, config, re, replace, utf8);
    }
  }

  /** Hence such input is reproduced exactly on the redirected stdout. */
  lemma UnmatchedStdinUnchanged(input: Bytes, config: Config, re: Regex, replace: Replace, utf8: Bytes -> bool)
    requires !config.invertPattern
    requires forall k :: 0 <= k < |Spans(input, 0)| ==> re.findIter(SliceOf(input, Spans(input, 0)[k])) == []
    ensures StdinSafe(input, 0, config, re, Some(replace), false, utf8)
    ensures TextOf(StdinFrom(input, 0, 1, config, re, Some(replace), false, utf8)) == input
  {
    UnmatchedInputPassesThrough(input, 0, config, re, replace, utf8);
    RedirectedForwardsEveryLine(input, 0, 1, config, re, replace, utf8);
    SpansLossless(input, 0);
    assert input[0..] == input;
  }
}
