/** src/file.rs: a loaded file, its line index, the whole-file search and
    the bytes that an in-place replacement writes back. */
module Files {
  import opened Util
  import opened RegexEngine
  import opened Search
  import opened Lines

  // ---------------------------------------------------------------------
  // The line index
  // ---------------------------------------------------------------------

  /** `iter().position(|&v| v == b)`: the first index holding `b`. */
  function Position(s: Bytes, b: byte): (r: Option<nat>)
    ensures r.Some? ==> r.value < |s| && s[r.value] == b
    ensures r.Some? ==> forall k :: 0 <= k < r.value ==> s[k] != b
    ensures r.None? ==> forall k :: 0 <= k < |s| ==> s[k] != b
  {
    if s == [] then None
    else if s[0] == b then Some(0)
    else
      match Position(s[1..], b)
      case None => None
      case Some(i) => Some(i + 1)
  }

  /** The size of the line at the head of a non-empty rest of the buffer:
      up to and including the first line feed, or all of it. */
  function LineSize(rest: Bytes): (size: nat)
    requires |rest| > 0
    ensures 0 < size <= |rest|
    ensures size < |rest| ==> rest[size - 1] == NEWLINE
    ensures forall k :: 0 <= k < size - 1 ==> rest[k] != NEWLINE
  {
    match Position(rest, NEWLINE)
    case None => |rest|
    case Some(ix) => ix + 1
  }

  /** The end of the line that starts at `i`, as an absolute index: just past
      the first line feed at or after `i`, or the end of the buffer. */
  function LineEnd(content: Bytes, i: nat): (e: nat)
    requires i < |content|
    ensures i < e <= |content|
    decreases |content| - i
  {
    if content[i] == NEWLINE || i + 1 == |content| then i + 1 else LineEnd(content, i + 1)
  }

  /** A line holds no line feed before its last byte, and one that another
      line follows ends in a line feed. */
  lemma {:induction false} LineEndFacts(content: Bytes, i: nat)
    requires i < |content|
    ensures forall j :: i <= j < LineEnd(content, i) - 1 ==> content[j] != NEWLINE
    ensures LineEnd(content, i) < |content| ==> content[LineEnd(content, i) - 1] == NEWLINE
    decreases |content| - i
  {
    if !(content[i] == NEWLINE || i + 1 == |content|) {
      LineEndFacts(content, i + 1);
    }
  }

  /** `LineSize` on the rest of the buffer measures the same line as `LineEnd`. */
  lemma LineSizeIsLineEnd(content: Bytes, start: nat)
    requires start < |content|
    ensures LineSize(content[start..]) == LineEnd(content, start) - start
  {
    var rest := content[start..];
    var size := LineSize(rest);
    var e := LineEnd(content, start);
    LineEndFacts(content, start);
    assert forall j :: 0 <= j < |rest| ==> rest[j] == content[start + j];
  }

  /** The size computation of `split_in_lines` on the rest of the buffer,
      measured against the absolute line end. */
  method NextLineSize(content: Bytes, start: nat, rest: Bytes) returns (size: nat)
    requires start < |content| && rest == content[start..]
    ensures start + size == LineEnd(content, start)
  {
    size := LineSize(rest);
    LineSizeIsLineEnd(content, start);
  }

  /** `sp` tiles `start..n`: the first span starts at `start`, is non-empty
      and inside the range, and the rest tile what follows it; there are
      none exactly when the range is empty. */
  predicate Tiles(sp: seq<Range>, start: nat, n: nat)
    decreases |sp|
  {
    if sp == [] then start >= n
    else sp[0].start == start < sp[0].end <= n && Tiles(sp[1..], sp[0].end, n)
  }

  /** The facts `Tiles` gives about one span. */
  lemma {:induction false} TilesAt(sp: seq<Range>, start: nat, n: nat, k: nat)
    requires Tiles(sp, start, n) && k < |sp|
    ensures start <= sp[k].start < sp[k].end <= n
    ensures k + 1 < |sp| ==> sp[k].end == sp[k + 1].start
    ensures k + 1 == |sp| ==> sp[k].end == n
    decreases k
  {
    if k > 0 {
      TilesAt(sp[1..], sp[0].end, n, k - 1);
    } else if 1 < |sp| {
      assert sp[1..][0] == sp[1];
    }
  }

  /** The line spans `split_in_lines` cuts from `content[start..]`. */
  function Spans(content: Bytes, start: nat): (sp: seq<Range>)
    ensures Tiles(sp, start, |content|)
    ensures forall k :: 0 <= k < |sp| ==> start <= sp[k].start < sp[k].end <= |content|
    decreases |content| - start
  {
    if start >= |content| then []
    else [Range(start, LineEnd(content, start))] + Spans(content, LineEnd(content, start))
  }

  /** One step of `Spans`: the first line, then the spans after it. */
  lemma SpansStep(content: Bytes, start: nat)
    requires start < |content|
    ensures Spans(content, start)[0] == Range(start, LineEnd(content, start))
    ensures Spans(content, start)[1..] == Spans(content, LineEnd(content, start))
  {
    var rest := Spans(content, LineEnd(content, start));
    assert ([Range(start, LineEnd(content, start))] + rest)[1..] == rest;
  }

  /** `done` are the lines cut one after the other from `start`, ending at `end`. */
  predicate Cut(content: Bytes, done: seq<Range>, start: nat, end: nat)
    decreases |done|
  {
    if done == [] then start == end
    else
      start < |content| && done[0] == Range(start, LineEnd(content, start))
      && Cut(content, done[1..], LineEnd(content, start), end)
  }

  /** The loop step of `split_in_lines`: cutting one more line. */
  lemma {:induction false} CutStep(content: Bytes, done: seq<Range>, start: nat, end: nat)
    requires Cut(content, done, start, end) && end < |content|
    ensures Cut(content, done + [Range(end, LineEnd(content, end))], start, LineEnd(content, end))
    decreases |done|
  {
    if done != [] {
      assert (done + [Range(end, LineEnd(content, end))])[1..] == done[1..] + [Range(end, LineEnd(content, end))];
      CutStep(content, done[1..], LineEnd(content, start), end);
    }
  }

  /** Lines cut up to the end of the buffer are its line index. */
  lemma {:induction false} CutComplete(content: Bytes, done: seq<Range>, start: nat)
    requires Cut(content, done, start, |content|)
    ensures done == Spans(content, start)
    decreases |done|
  {
    if done != [] {
      CutComplete(content, done[1..], LineEnd(content, start));
      SpansStep(content, start);
    }
  }

  /** The span at index `k` of `Spans(content, start)`, one line at a time. */
  lemma {:induction false} SpanAt(content: Bytes, start: nat, k: nat)
    requires k < |Spans(content, start)|
    ensures var r := Spans(content, start)[k];
      && r.end == LineEnd(content, r.start)
      && (k < |Spans(content, start)| - 1 ==> r.end < |content|)
    decreases k
  {
    var sp := Spans(content, start);
    SpansStep(content, start);
    var e := LineEnd(content, start);
    if k == 0 {
      if 1 < |sp| {
        assert sp[1] == Spans(content, e)[0];
      }
    } else {
      assert sp[k] == Spans(content, e)[k - 1];
      SpanAt(content, e, k - 1);
    }
  }

  /** Every line but the last ends in a line feed, and no line holds a line
      feed anywhere else. */
  lemma SpansDelimited(content: Bytes)
    ensures var sp := Spans(content, 0);
      && (forall k :: 0 <= k < |sp| - 1 ==> content[sp[k].end - 1] == NEWLINE)
      && (forall k, i :: 0 <= k < |sp| && sp[k].start <= i < sp[k].end - 1 ==> content[i] != NEWLINE)
  {
    var sp := Spans(content, 0);
    forall k | 0 <= k < |sp|
      ensures k < |sp| - 1 ==> content[sp[k].end - 1] == NEWLINE
      ensures forall i :: sp[k].start <= i < sp[k].end - 1 ==> content[i] != NEWLINE
    {
      SpanAt(content, 0, k);
      LineEndFacts(content, sp[k].start);
    }
  }

  /** The bytes of a span. */
  function SliceOf(content: Bytes, r: Range): Bytes
  {
    if r.start <= r.end <= |content| then content[r.start..r.end] else []
  }

  /** The bytes of each span. */
  function SliceList(content: Bytes, sp: seq<Range>): (slices: seq<Bytes>)
    ensures |slices| == |sp|
    ensures forall k :: 0 <= k < |sp| ==> slices[k] == SliceOf(content, sp[k])
  {
    if sp == [] then [] else [SliceOf(content, sp[0])] + SliceList(content, sp[1..])
  }

  /** The line index is a lossless partition: its slices, joined, are the buffer. */
  lemma {:induction false} SpansLossless(content: Bytes, start: nat)
    requires start <= |content|
    ensures Flatten(SliceList(content, Spans(content, start))) == content[start..]
    decreases |content| - start
  {
    if start < |content| {
      var e := LineEnd(content, start);
      SpansLossless(content, e);
      SpansStep(content, start);
      var sp := Spans(content, start);
      var sl := SliceList(content, sp);
      assert sl[1..] == SliceList(content, sp[1..]);
      assert content[start..] == content[start..e] + content[e..];
    }
  }

  // ---------------------------------------------------------------------
  // What `replace_and_write` writes
  // ---------------------------------------------------------------------

  /** A line as the rest of the model sees it. */
  datatype LineView = LineView(nr: nat, range: Range, matches: seq<Range>)

  const MissingCaptures := Error("Could not search for capture groups, but they are used here. This happens when a search with word boundary does not match in the substring match_str")

  /** Some instruction of the template names a group. */
  predicate NamesGroup(parts: seq<Part>)
  {
    exists i :: 0 <= i < |parts| && parts[i].captureIx >= 0
  }

  /** What `replace_and_write` needs so that none of its `unwrap`s fails in
      the matches it reaches: a match whose captures exist holds every
      group the template names. Matches after the first failure are not reached. */
  predicate WriteSafeFrom(slice: Bytes, ms: seq<Range>, offset: nat, re: Regex, parts: seq<Part>)
    decreases |ms|
  {
    ms == [] ||
    (offset <= ms[0].start <= ms[0].end <= |slice| ==>
       var caps := re.captures(slice[ms[0].start..ms[0].end]);
       (caps.Some? ==> GroupsPresent(parts, caps.value))
       && ((caps.None? && NamesGroup(parts)) || WriteSafeFrom(slice, ms[1..], ms[0].end, re, parts)))
  }

  /** The bytes `replace_and_write` writes for one line slice from `offset`,
      or the failure for a match without captures when the template names a group. */
  function WrittenLine(slice: Bytes, ms: seq<Range>, offset: nat, re: Regex, parts: seq<Part>): Result<Bytes>
    requires SpansFrom(ms, offset, |slice|) && WriteSafeFrom(slice, ms, offset, re, parts)
    decreases |ms|
  {
    if ms == [] then Ok(slice[offset..])
    else
      SpansInBounds(ms, offset, |slice|, 0);
      var caps := re.captures(slice[ms[0].start..ms[0].end]);
      if caps.None? && NamesGroup(parts) then Err(MissingCaptures)
      else
        var expansion := Expand(parts, if caps.Some? then caps.value else []);
        match WrittenLine(slice, ms[1..], ms[0].end, re, parts)
        case Err(e) => Err(e)
        case Ok(tail) => Ok(slice[offset..ms[0].start] + expansion + tail)
  }

  /** Every line's range lies in `content` and its matches are proper spans of its slice. */
  predicate ViewsInBounds(content: Bytes, views: seq<LineView>)
    decreases |views|
  {
    views == [] || (ViewInBounds(content, views[0]) && ViewsInBounds(content, views[1..]))
  }

  predicate ViewInBounds(content: Bytes, v: LineView)
  {
    v.range.start <= v.range.end <= |content| && SpansFrom(v.matches, 0, v.range.end - v.range.start)
  }

  predicate FileWriteSafe(content: Bytes, views: seq<LineView>, re: Regex, parts: seq<Part>)
    requires ViewsInBounds(content, views)
    decreases |views|
  {
    views == [] ||
    (var slice := content[views[0].range.start..views[0].range.end];
     WriteSafeFrom(slice, views[0].matches, 0, re, parts)
     && (WrittenLine(slice, views[0].matches, 0, re, parts).Ok? ==> FileWriteSafe(content, views[1..], re, parts)))
  }

  /** The whole file `replace_and_write` produces, line after line, or the first failure. */
  function FileWritten(content: Bytes, views: seq<LineView>, re: Regex, parts: seq<Part>): Result<Bytes>
    requires ViewsInBounds(content, views) && FileWriteSafe(content, views, re, parts)
    decreases |views|
  {
    if views == [] then Ok([])
    else
      var slice := content[views[0].range.start..views[0].range.end];
      match WrittenLine(slice, views[0].matches, 0, re, parts)
      case Err(e) => Err(e)
      case Ok(head) =>
        match FileWritten(content, views[1..], re, parts)
        case Err(e) => Err(e)
        case Ok(tail) => Ok(head + tail)
  }

  /** When every match has its captures, a line is written exactly as `replace_with` renders it. */
  lemma {:induction false} WrittenLineIsReplaced(slice: Bytes, ms: seq<Range>, offset: nat, re: Regex, parts: seq<Part>)
    requires SpansFrom(ms, offset, |slice|) && CapturesAvailable(re, parts, slice, ms)
    ensures WriteSafeFrom(slice, ms, offset, re, parts)
    ensures WrittenLine(slice, ms, offset, re, parts) == Ok(ReplacedFrom(slice, ms, offset, re, parts))
    decreases |ms|
  {
    if ms != [] {
      SpansInBounds(ms, offset, |slice|, 0);
      WrittenLineIsReplaced(slice, ms[1..], ms[0].end, re, parts);
    }
  }

  /** Writing a line fails exactly when one of its matches has no captures
      and the template names a group. */
  lemma {:induction false} WrittenLineFails(slice: Bytes, ms: seq<Range>, offset: nat, re: Regex, parts: seq<Part>)
    requires SpansFrom(ms, offset, |slice|) && WriteSafeFrom(slice, ms, offset, re, parts)
    ensures WrittenLine(slice, ms, offset, re, parts).Err?
        <==> NamesGroup(parts) && exists m :: m in MatchList(slice, ms, offset) && re.captures(m).None?
    decreases |ms|
  {
    if ms != [] {
      SpansInBounds(ms, offset, |slice|, 0);
      var caps := re.captures(slice[ms[0].start..ms[0].end]);
      var f := MatchList(slice, ms, offset);
      assert f[1..] == MatchList(slice, ms[1..], ms[0].end);
      assert f[0] in f;
      if !(caps.None? && NamesGroup(parts)) {
        WrittenLineFails(slice, ms[1..], ms[0].end, re, parts);
        assert forall m :: m in f <==> m == f[0] || m in f[1..];
      }
    }
  }

  /** Every match of every line has captures holding the groups the template names. */
  predicate AllCapturesAvailable(content: Bytes, views: seq<LineView>, re: Regex, parts: seq<Part>)
    requires ViewsInBounds(content, views)
    decreases |views|
  {
    views == [] ||
    (CapturesAvailable(re, parts, content[views[0].range.start..views[0].range.end], views[0].matches)
     && AllCapturesAvailable(content, views[1..], re, parts))
  }

  /** Each line as `replace_with` renders it, joined. */
  function ReplacedFile(content: Bytes, views: seq<LineView>, re: Regex, parts: seq<Part>): Bytes
    requires ViewsInBounds(content, views) && AllCapturesAvailable(content, views, re, parts)
    decreases |views|
  {
    if views == [] then []
    else
      ReplacedFrom(content[views[0].range.start..views[0].range.end], views[0].matches, 0, re, parts)
      + ReplacedFile(content, views[1..], re, parts)
  }

  /** When every match has its captures, the file written back is exactly the
      transform preview of its lines, joined. */
  lemma {:induction false} WrittenFileIsReplaced(content: Bytes, views: seq<LineView>, re: Regex, parts: seq<Part>)
    requires ViewsInBounds(content, views) && AllCapturesAvailable(content, views, re, parts)
    ensures FileWriteSafe(content, views, re, parts)
    ensures FileWritten(content, views, re, parts) == Ok(ReplacedFile(content, views, re, parts))
    decreases |views|
  {
    if views != [] {
      var slice := content[views[0].range.start..views[0].range.end];
      WrittenLineIsReplaced(slice, views[0].matches, 0, re, parts);
      WrittenFileIsReplaced(content, views[1..], re, parts);
    }
  }

  /** The view of the lines of an index that no search has touched. */
  function FreshViews(sp: seq<Range>, firstNr: nat): (views: seq<LineView>)
    ensures |views| == |sp|
    decreases |sp|
  {
    if sp == [] then [] else [LineView(firstNr, sp[0], [])] + FreshViews(sp[1..], firstNr + 1)
  }

  /** The fresh views of an index lie in the buffer. */
  lemma {:induction false} FreshViewsInBounds(content: Bytes, start: nat, firstNr: nat)
    ensures ViewsInBounds(content, FreshViews(Spans(content, start), firstNr))
    decreases |content| - start
  {
    if start < |content| {
      var e := LineEnd(content, start);
      SpansStep(content, start);
      FreshViewsInBounds(content, e, firstNr + 1);
      var sp := Spans(content, start);
      assert FreshViews(sp, firstNr)[1..] == FreshViews(sp[1..], firstNr + 1);
    }
  }

  lemma {:induction false} UnmatchedFileWritten(content: Bytes, start: nat, firstNr: nat, re: Regex, parts: seq<Part>)
    requires start <= |content|
    ensures var views := FreshViews(Spans(content, start), firstNr);
      ViewsInBounds(content, views) && FileWriteSafe(content, views, re, parts)
      && FileWritten(content, views, re, parts) == Ok(Flatten(SliceList(content, Spans(content, start))))
    decreases |content| - start
  {
    var sp := Spans(content, start);
    var views := FreshViews(sp, firstNr);
    FreshViewsInBounds(content, start, firstNr);
    if start < |content| {
      var e := LineEnd(content, start);
      UnmatchedFileWritten(content, e, firstNr + 1, re, parts);
      SpansStep(content, start);
      FreshViewsInBounds(content, e, firstNr + 1);
      assert views[1..] == FreshViews(sp[1..], firstNr + 1);
    }
  }

  /** A freshly indexed file with no match anywhere is written back byte for byte. */
  lemma UnmatchedFileUnchanged(content: Bytes, re: Regex, parts: seq<Part>)
    ensures var views := FreshViews(Spans(content, 0), 1);
      ViewsInBounds(content, views) && FileWriteSafe(content, views, re, parts)
      && FileWritten(content, views, re, parts) == Ok(content)
  {
    UnmatchedFileWritten(content, 0, 1, re, parts);
    SpansLossless(content, 0);
  }

  // ---------------------------------------------------------------------
  // Writing, one line and one match at a time
  // ---------------------------------------------------------------------

  /** `out` written before whatever `r` writes; a failure stays a failure. */
  function Prefixed(out: Bytes, r: Result<Bytes>): Result<Bytes>
  {
    match r
    case Err(e) => Err(e)
    case Ok(tail) => Ok(out + tail)
  }

  lemma PrefixedAssoc(a: Bytes, b: Bytes, r: Result<Bytes>)
    ensures Prefixed(a, Prefixed(b, r)) == Prefixed(a + b, r)
  {
    if r.Ok? {
      assert a + (b + r.value) == (a + b) + r.value;
    }
  }

  lemma PrefixedEmpty(r: Result<Bytes>)
    ensures Prefixed([], r) == r
  {
    if r.Ok? {
      assert [] + r.value == r.value;
    }
  }

  /** One line of `FileWritten`: the line's bytes, then the rest of the file. */
  lemma FileWrittenStep(content: Bytes, views: seq<LineView>, re: Regex, parts: seq<Part>)
    requires views != [] && ViewsInBounds(content, views) && FileWriteSafe(content, views, re, parts)
    ensures var slice := content[views[0].range.start..views[0].range.end];
      && SpansFrom(views[0].matches, 0, |slice|) && WriteSafeFrom(slice, views[0].matches, 0, re, parts)
      && ViewsInBounds(content, views[1..])
      && (WrittenLine(slice, views[0].matches, 0, re, parts).Err? ==>
            FileWritten(content, views, re, parts) == WrittenLine(slice, views[0].matches, 0, re, parts))
      && (WrittenLine(slice, views[0].matches, 0, re, parts).Ok? ==>
            FileWriteSafe(content, views[1..], re, parts)
            && FileWritten(content, views, re, parts)
               == Prefixed(WrittenLine(slice, views[0].matches, 0, re, parts).value, FileWritten(content, views[1..], re, parts)))
  {
  }

  /** The replacement of one instruction. */
  function PartBytes(p: Part, caps: Captures): Bytes
    requires p.captureIx >= 0 ==> Group(caps, p.captureIx).Some?
  {
    (if p.captureIx >= 0 then Group(caps, p.captureIx).value else []) + p.literal
  }

  /** Expanding a template one instruction longer appends that instruction's bytes. */
  lemma {:induction false} ExpandSnoc(parts: seq<Part>, p: Part, caps: Captures)
    requires GroupsPresent(parts + [p], caps)
    ensures GroupsPresent(parts, caps)
    ensures p.captureIx >= 0 ==> Group(caps, p.captureIx).Some?
    ensures Expand(parts + [p], caps) == Expand(parts, caps) + PartBytes(p, caps)
    decreases |parts|
  {
    var all := parts + [p];
    assert all[|parts|] == p;
    assert GroupsPresent(parts, caps) by {
      forall i | 0 <= i < |parts| && parts[i].captureIx >= 0
        ensures Group(caps, parts[i].captureIx).Some?
      {
        assert all[i] == parts[i];
      }
    }
    if parts == [] {
      assert all[1..] == [];
    } else {
      var tail := parts[1..];
      assert all[1..] == tail + [p];
      assert GroupsPresent(tail + [p], caps) by {
        forall i | 0 <= i < |tail + [p]| && (tail + [p])[i].captureIx >= 0
          ensures Group(caps, (tail + [p])[i].captureIx).Some?
        {
          assert (tail + [p])[i] == all[i + 1];
        }
      }
      ExpandSnoc(tail, p, caps);
      assert Expand(all, caps) == PartBytes(parts[0], caps) + Expand(tail + [p], caps);
      assert Expand(parts, caps) == PartBytes(parts[0], caps) + Expand(tail, caps);
    }
  }

  /** The inner loop of `replace_and_write` over the template instructions
      of one match: fails at the first instruction naming a group when the
      match has no captures. */
  method WriteExpansion(caps: Option<Captures>, parts: seq<Part>) returns (r: Result<Bytes>)
    requires caps.Some? ==> GroupsPresent(parts, caps.value)
    ensures caps.None? && NamesGroup(parts) ==> r == Err(MissingCaptures)
    ensures !(caps.None? && NamesGroup(parts)) ==>
      GroupsPresent(parts, if caps.Some? then caps.value else [])
      && r == Ok(Expand(parts, if caps.Some? then caps.value else []))
  {
    var c: Captures := if caps.Some? then caps.value else [];
    var out: Bytes := [];
    var j := 0;
    while j < |parts|
      invariant 0 <= j <= |parts|
      invariant forall i :: 0 <= i < j && parts[i].captureIx >= 0 ==> caps.Some? && Group(c, parts[i].captureIx).Some?
      invariant GroupsPresent(parts[..j], c) && out == Expand(parts[..j], c)
    {
      if parts[j].captureIx >= 0 && caps.None? {
        return Err(MissingCaptures);
      }
      ExpandTake(parts, j, c);
      var piece: Bytes := [];
      if parts[j].captureIx >= 0 {
        piece := Group(c, parts[j].captureIx).value;
      }
      out := out + (piece + parts[j].literal);
      j := j + 1;
    }
    assert parts[..j] == parts;
    r := Ok(out);
  }

  /** Expanding one more instruction of `parts` appends its bytes. */
  lemma ExpandTake(parts: seq<Part>, j: nat, c: Captures)
    requires j < |parts| && GroupsPresent(parts[..j], c)
    requires parts[j].captureIx >= 0 ==> Group(c, parts[j].captureIx).Some?
    ensures GroupsPresent(parts[..j + 1], c)
    ensures Expand(parts[..j + 1], c) == Expand(parts[..j], c) + PartBytes(parts[j], c)
  {
    assert parts[..j + 1] == parts[..j] + [parts[j]];
    assert forall i :: 0 <= i < j ==> parts[..j + 1][i] == parts[..j][i];
    ExpandSnoc(parts[..j], parts[j], c);
  }

  /** One match of `WrittenLine`: what precedes it, its replacement, and the rest. */
  lemma WrittenLineStep(slice: Bytes, ms: seq<Range>, offset: nat, re: Regex, parts: seq<Part>)
    requires SpansFrom(ms, offset, |slice|) && WriteSafeFrom(slice, ms, offset, re, parts) && ms != []
    ensures offset <= ms[0].start <= ms[0].end <= |slice|
    ensures var caps := re.captures(slice[ms[0].start..ms[0].end]);
      caps.None? && NamesGroup(parts) ==> WrittenLine(slice, ms, offset, re, parts) == Err(MissingCaptures)
    ensures var caps := re.captures(slice[ms[0].start..ms[0].end]);
      var c := if caps.Some? then caps.value else [];
      !(caps.None? && NamesGroup(parts)) ==>
        && SpansFrom(ms[1..], ms[0].end, |slice|)
        && WriteSafeFrom(slice, ms[1..], ms[0].end, re, parts)
        && GroupsPresent(parts, c)
        && WrittenLine(slice, ms, offset, re, parts)
           == Prefixed(slice[offset..ms[0].start] + Expand(parts, c), WrittenLine(slice, ms[1..], ms[0].end, re, parts))
  {
    SpansInBounds(ms, offset, |slice|, 0);
  }

  /** The body of the loop of `replace_and_write` over the matches of one
      line: the gap before the first match of `rest` and its replacement. */
  method WriteMatch(slice: Bytes, rest: seq<Range>, offset: nat, re: Regex, parts: seq<Part>) returns (r: Result<Bytes>)
    requires SpansFrom(rest, offset, |slice|) && WriteSafeFrom(slice, rest, offset, re, parts) && rest != []
    ensures offset <= rest[0].end <= |slice|
    ensures r.Err? ==> WrittenLine(slice, rest, offset, re, parts) == Err(r.error)
    ensures r.Ok? ==>
      && SpansFrom(rest[1..], rest[0].end, |slice|)
      && WriteSafeFrom(slice, rest[1..], rest[0].end, re, parts)
      && WrittenLine(slice, rest, offset, re, parts) == Prefixed(r.value, WrittenLine(slice, rest[1..], rest[0].end, re, parts))
  {
    WrittenLineStep(slice, rest, offset, re, parts);
    var caps := re.captures(slice[rest[0].start..rest[0].end]);
    var e := WriteExpansion(caps, parts);
    if e.Err? {
      return Err(e.error);
    }
    r := Ok(slice[offset..rest[0].start] + e.value);
  }

  /** The loop of `replace_and_write` over the matches of one line. */
  method WriteLine(slice: Bytes, ms: seq<Range>, re: Regex, parts: seq<Part>) returns (r: Result<Bytes>)
    requires SpansFrom(ms, 0, |slice|) && WriteSafeFrom(slice, ms, 0, re, parts)
    ensures r == WrittenLine(slice, ms, 0, re, parts)
  {
    var out: Bytes := [];
    var offset: nat := 0;
    var i := 0;
    assert ms[0..] == ms;
    PrefixedEmpty(WrittenLine(slice, ms, 0, re, parts));
    while i < |ms|
      invariant 0 <= i <= |ms|
      invariant SpansFrom(ms[i..], offset, |slice|) && WriteSafeFrom(slice, ms[i..], offset, re, parts)
      invariant WrittenLine(slice, ms, 0, re, parts) == Prefixed(out, WrittenLine(slice, ms[i..], offset, re, parts))
    {
      var rest := ms[i..];
      assert rest[0] == ms[i] && rest[1..] == ms[i + 1..];
      var piece := WriteMatch(slice, rest, offset, re, parts);
      if piece.Err? {
        return Err(piece.error);
      }
      PrefixedAssoc(out, piece.value, WrittenLine(slice, ms[i + 1..], ms[i].end, re, parts));
      out := out + piece.value;
      offset := ms[i].end;
      i := i + 1;
    }
    assert ms[i..] == [];
    r := Ok(out + slice[offset..]);
  }

  // ---------------------------------------------------------------------
  // The file object
  // ---------------------------------------------------------------------

  /** The value of each line object, in order. */
  function ViewsOf(ls: seq<Line>): (views: seq<LineView>)
    reads ls
    ensures |views| == |ls|
    decreases |ls|
  {
    if ls == [] then [] else [LineView(ls[0].nr, ls[0].range, ls[0].matches)] + ViewsOf(ls[1..])
  }

  /** The view at index `k` is that of the `k`-th line object. */
  lemma {:induction false} ViewsOfAt(ls: seq<Line>, k: nat)
    requires k < |ls|
    ensures ViewsOf(ls)[k] == LineView(ls[k].nr, ls[k].range, ls[k].matches)
    decreases k
  {
    if k > 0 {
      ViewsOfAt(ls[1..], k - 1);
    }
  }

  lemma ViewsOfSnoc(ls: seq<Line>, l: Line)
    ensures ViewsOf(ls + [l]) == ViewsOf(ls) + [LineView(l.nr, l.range, l.matches)]
  {
    var a := ViewsOf(ls + [l]);
    var b := ViewsOf(ls) + [LineView(l.nr, l.range, l.matches)];
    forall k | 0 <= k < |a|
      ensures a[k] == b[k]
    {
      ViewsOfAt(ls + [l], k);
      if k < |ls| {
        ViewsOfAt(ls, k);
      }
    }
  }

  /** One line of a fresh index: its view, then the views after it. */
  lemma FreshViewsStep(content: Bytes, start: nat, nr: nat)
    requires start < |content|
    ensures FreshViews(Spans(content, start), nr)
         == [LineView(nr, Range(start, LineEnd(content, start)), [])] + FreshViews(Spans(content, LineEnd(content, start)), nr + 1)
  {
    SpansStep(content, start);
  }

  lemma {:induction false} ViewsInBoundsAppend(content: Bytes, a: seq<LineView>, b: seq<LineView>)
    requires ViewsInBounds(content, a) && ViewsInBounds(content, b)
    ensures ViewsInBounds(content, a + b)
    decreases |a|
  {
    if a == [] {
      assert a + b == b;
    } else {
      ViewsInBoundsAppend(content, a[1..], b);
      assert (a + b)[1..] == a[1..] + b;
    }
  }

  /** No line object appears twice. */
  predicate Distinct(ls: seq<Line>)
  {
    forall i, j :: 0 <= i < j < |ls| ==> ls[i] != ls[j]
  }

  /** Pushing an object not yet held keeps a sequence `Distinct`. */
  lemma DistinctPush(ls: seq<Line>, l: Line)
    requires Distinct(ls) && l !in ls
    ensures Distinct(ls + [l])
  {
    assert (ls + [l])[..|ls|] == ls;
  }

  /** A line object with the given number and span and no matches. */
  predicate FreshLine(l: Line, nr: nat, r: Range)
    reads l
  {
    l.nr == nr && l.range == r && l.matches == []
  }

  /** `ls` are line objects as `split_in_lines` makes them for the spans `sp`,
      numbered from `nr`. */
  predicate FreshLines(ls: seq<Line>, sp: seq<Range>, nr: nat)
    reads ls
  {
    |ls| == |sp| && forall k :: 0 <= k < |ls| ==> FreshLine(ls[k], nr + k, sp[k])
  }

  lemma FreshLinesPush(ls: seq<Line>, sp: seq<Range>, nr: nat, l: Line, r: Range)
    requires FreshLines(ls, sp, nr) && FreshLine(l, nr + |ls|, r)
    ensures FreshLines(ls + [l], sp + [r], nr)
  {
    assert forall k :: 0 <= k < |ls| ==> (ls + [l])[k] == ls[k] && (sp + [r])[k] == sp[k];
  }

  /** A line object lies in `content` and holds proper spans of its slice. */
  predicate LineOk(content: Bytes, l: Line)
    reads l
  {
    ViewInBounds(content, LineView(l.nr, l.range, l.matches))
  }

  /** Line objects as `split_in_lines` makes them for `sp`, numbered from `nr`,
      have the views of a fresh index. */
  lemma {:induction false} FreshLinesViews(ls: seq<Line>, sp: seq<Range>, nr: nat)
    requires |ls| == |sp|
    requires forall k :: 0 <= k < |ls| ==> FreshLine(ls[k], nr + k, sp[k])
    ensures ViewsOf(ls) == FreshViews(sp, nr)
    decreases |ls|
  {
    if ls != [] {
      assert FreshLine(ls[0], nr, sp[0]);
      forall k | 0 <= k < |ls| - 1
        ensures FreshLine(ls[1..][k], nr + 1 + k, sp[1..][k])
      {
        assert FreshLine(ls[k + 1], nr + (k + 1), sp[k + 1]);
      }
      FreshLinesViews(ls[1..], sp[1..], nr + 1);
    }
  }

  /** The two parts of a sequence built by appending. */
  lemma AppendParts<T>(a: seq<T>, b: seq<T>, c: seq<T>)
    requires c == a + b
    ensures |c| == |a| + |b| && c[..|a|] == a && c[|a|..] == b
  {
  }

  /** Line objects each in bounds have views in bounds. */
  lemma {:induction false} LinesInBounds(content: Bytes, ls: seq<Line>)
    requires forall k :: 0 <= k < |ls| ==> LineOk(content, ls[k])
    ensures ViewsInBounds(content, ViewsOf(ls))
    decreases |ls|
  {
    if ls != [] {
      assert LineOk(content, ls[0]);
      assert forall k :: 0 <= k < |ls| - 1 ==> ls[1..][k] == ls[k + 1];
      LinesInBounds(content, ls[1..]);
    }
  }

  /** `Data`: the search settings, a loaded file, and its line index. */
  class Data {
    const searchOpt: Option<Regex>
    const invertPattern: bool
    const replaceOpt: Option<Replace>
    var path: string
    var content: Bytes
    var lines: seq<Line>

    /** Every line object is its own, lies in `content`, and holds matches that
        are proper spans of its slice. */
    ghost predicate Valid()
      reads this, lines
    {
      Distinct(lines) && forall k :: 0 <= k < |lines| ==> LineOk(content, lines[k])
    }

    /** `Data::new`: no path, no content, no lines. */
    constructor (searchOpt: Option<Regex>, invertPattern: bool, replaceOpt: Option<Replace>)
      ensures this.searchOpt == searchOpt && this.invertPattern == invertPattern && this.replaceOpt == replaceOpt
      ensures path == "" && content == [] && lines == []
      ensures Valid()
    {
      this.searchOpt := searchOpt;
      this.invertPattern := invertPattern;
      this.replaceOpt := replaceOpt;
      path := "";
      content := [];
      lines := [];
    }

    /** `load`: records the path, then takes the file's bytes and drops the
        line index. `file` is what the file system yields for `path`: its
        bytes, or the error that opening it or reading its metadata
        raises, which leaves the old content and lines in place. */
    method Load(path: string, file: Result<Bytes>) returns (r: Result<()>)
      modifies this
      ensures this.path == path
      ensures file.Err? ==> r == Err(file.error) && content == old(content) && lines == old(lines)
      ensures file.Ok? ==> r == Ok(()) && content == file.value && lines == []
      ensures old(Valid()) || file.Ok? ==> Valid()
    {
      this.path := path;
      if file.Err? {
        return Err(file.error);
      }
      content := file.value;
      lines := [];
      r := Ok(());
    }

    /** `split_in_lines`: appends one fresh line object per line of the
        content, numbered from 1, with no matches; the objects already held
        stay, unchanged. */
    method SplitInLines() returns (r: Result<()>)
      requires Valid()
      modifies this
      ensures r == Ok(())
      ensures Valid()
      ensures content == old(content) && path == old(path)
      ensures |lines| == |old(lines)| + |Spans(content, 0)|
      ensures lines[..|old(lines)|] == old(lines)
      ensures forall l :: l in lines[|old(lines)|..] ==> fresh(l)
      ensures FreshLines(lines[|old(lines)|..], Spans(content, 0), 1)
    {
      var text := content;
      var rest := text;
      var startIx: nat := 0;
      var lineNr: nat := 0;
      ghost var done: seq<Range> := [];
      ghost var added: seq<Line> := [];
      while |rest| > 0
        invariant startIx <= |text| && rest == text[startIx..]
        invariant content == text && path == old(path)
        invariant Cut(text, done, 0, startIx)
        invariant lineNr == |done|
        invariant lines == old(lines) + added
        invariant Valid()
        invariant forall l :: l in added ==> fresh(l)
        invariant FreshLines(added, done, 1)
        decreases |rest|
      {
        lineNr := lineNr + 1;
        var line, done', next, rest' := CutLine(text, startIx, rest, lineNr, done, added);
        added := added + [line];
        done := done';
        rest := rest';
        startIx := next;
      }
      CutComplete(text, done, 0);
      AppendParts(old(lines), added, lines);
      r := Ok(());
    }

    /** `search_for_matches`: without a search nothing changes and nothing is
        found; with one, every line records the matches of the expression in
        its slice, and a match is found exactly when some line has one. */
    method SearchForMatches() returns (found: bool)
      requires Valid()
      modifies lines
      ensures Valid()
      ensures searchOpt.None? ==> !found && forall k :: 0 <= k < |lines| ==> lines[k].matches == old(lines[k].matches)
      ensures searchOpt.Some? ==>
        forall k :: 0 <= k < |lines| ==> lines[k].matches == searchOpt.value.findIter(lines[k].AsSlice(content))
      ensures searchOpt.Some? ==> (found <==> exists k :: 0 <= k < |lines| && lines[k].matches != [])
    {
      if searchOpt.None? {
        return false;
      }
      var re := searchOpt.value;
      found := false;
      var i := 0;
      while i < |lines|
        invariant 0 <= i <= |lines|
        invariant Valid()
        invariant forall k :: 0 <= k < i ==> lines[k].matches == re.findIter(lines[k].AsSlice(content))
        invariant found <==> exists k :: 0 <= k < i && lines[k].matches != []
      {
        var line := lines[i];
        SearchLine(i, re);
        found := line.matches != [] || found;
        i := i + 1;
      }
    }

    /** The body of the loop of `search_for_matches`: line `i` searched, every
        other line as it was. */
    method SearchLine(i: nat, re: Regex)
      requires Valid() && i < |lines|
      modifies lines[i]
      ensures Valid()
      ensures lines[i].matches == re.findIter(lines[i].AsSlice(content))
      ensures forall k :: 0 <= k < |lines| && k != i ==> lines[k].matches == old(lines[k].matches)
    {
      var line := lines[i];
      var _ := line.SearchFor(re, content);
      forall k | 0 <= k < |lines|
        ensures LineOk(content, lines[k])
      {
        if k != i {
          assert old(LineOk(content, lines[k]));
        }
      }
    }

    /** `replace_and_write`: the bytes written back to the file, line after
        line, or the failure for a match without captures. A missing template
        or search is a panic in the source, hence required here. */
    method ReplaceAndWrite() returns (r: Result<Bytes>)
      requires Valid() && replaceOpt.Some? && searchOpt.Some?
      requires ViewsInBounds(content, ViewsOf(lines))
      requires FileWriteSafe(content, ViewsOf(lines), searchOpt.value, replaceOpt.value.parts)
      ensures r == FileWritten(content, ViewsOf(lines), searchOpt.value, replaceOpt.value.parts)
    {
      var parts := replaceOpt.value.parts;
      var re := searchOpt.value;
      ghost var views := ViewsOf(lines);
      var out: Bytes := [];
      var i := 0;
      assert views[0..] == views;
      PrefixedEmpty(FileWritten(content, views, re, parts));
      while i < |lines|
        invariant 0 <= i <= |lines|
        invariant ViewsInBounds(content, views[i..]) && FileWriteSafe(content, views[i..], re, parts)
        invariant FileWritten(content, views, re, parts) == Prefixed(out, FileWritten(content, views[i..], re, parts))
      {
        var rest := views[i..];
        assert rest[1..] == views[i + 1..];
        ViewsOfAt(lines, i);
        assert rest[0] == LineView(lines[i].nr, lines[i].range, lines[i].matches);
        var slice := lines[i].AsSlice(content);
        assert slice == content[lines[i].range.start..lines[i].range.end];
        var w := WriteLine(slice, lines[i].matches, re, parts);
        FileWrittenStep(content, rest, re, parts);
        if w.Err? {
          return Err(w.error);
        }
        PrefixedAssoc(out, w.value, FileWritten(content, views[i + 1..], re, parts));
        out := out + w.value;
        i := i + 1;
      }
      assert views[i..] == [];
      assert out + [] == out;
      r := Ok(out);
    }

    /** The body of the loop of `split_in_lines`: measures the line at
        `startIx` and pushes its fresh line object, numbered `lineNr`. */
    method CutLine(text: Bytes, startIx: nat, rest: Bytes, lineNr: nat, ghost done: seq<Range>, ghost added: seq<Line>)
      returns (line: Line, ghost done': seq<Range>, next: nat, rest': Bytes)
      requires startIx < |text| && rest == text[startIx..]
      requires Cut(text, done, 0, startIx) && lineNr == |done| + 1
      requires Valid() && content == text && FreshLines(added, done, 1)
      modifies this
      ensures startIx < next <= |text| && rest' == text[next..]
      ensures done' == done + [Range(startIx, next)]
      ensures content == old(content) && path == old(path)
      ensures lines == old(lines) + [line] && fresh(line) && Valid()
      ensures Cut(text, done', 0, next)
      ensures FreshLines(added + [line], done', 1)
    {
      var size := NextLineSize(text, startIx, rest);
      CutStep(text, done, 0, startIx);
      var span := Range(startIx, startIx + size);
      line := AddLine(lineNr, span);
      FreshLinesPush(added, done, 1, line, span);
      done' := done + [span];
      next := startIx + size;
      rest' := rest[size..];
    }

    method AddLine(nr: nat, span: Range) returns (line: Line)
      requires Distinct(lines) && span.start <= span.end
      modifies this
      ensures Distinct(lines)
      ensures content == old(content) && path == old(path)
      ensures lines == old(lines) + [line] && fresh(line) && FreshLine(line, nr, span)
    {
      line := new Line(nr, span.start, span.end - span.start);
      DistinctPush(lines, line);
      lines := lines + [line];
    }
  }
}
