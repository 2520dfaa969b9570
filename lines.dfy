/** src/line.rs: one line of a buffer, its matches, and the renderers that
    rebuild it. Match spans are relative to the line's own slice, and every
    renderer is handed that slice as `content`. */
module Lines {
  import opened Util
  import opened RegexEngine
  import opened Search
  import opened Output

  // ---------------------------------------------------------------------
  // Specification functions
  // ---------------------------------------------------------------------

  /** Every instruction that names a group finds it among `caps`. */
  predicate GroupsPresent(parts: seq<Part>, caps: Captures)
  {
    forall i :: 0 <= i < |parts| && parts[i].captureIx >= 0 ==> Group(caps, parts[i].captureIx).Some?
  }

  /** The replacement for one match: per instruction, the group's bytes when
      it names one, then its literal. */
  function Expand(parts: seq<Part>, caps: Captures): Bytes
    requires GroupsPresent(parts, caps)
  {
    if parts == [] then []
    else
      (if parts[0].captureIx >= 0 then Group(caps, parts[0].captureIx).value else [])
      + parts[0].literal + Expand(parts[1..], caps)
  }

  /** The captures of match text `m` exist and hold every group the template names. */
  predicate CapturesFit(re: Regex, parts: seq<Part>, m: Bytes)
  {
    re.captures(m).Some? && GroupsPresent(parts, re.captures(m).value)
  }

  /** `CapturesFit` for every match of `ms`. */
  predicate CapturesAvailable(re: Regex, parts: seq<Part>, content: Bytes, ms: seq<Range>)
    decreases |ms|
  {
    ms == [] ||
    ((ms[0].start <= ms[0].end <= |content| ==> CapturesFit(re, parts, content[ms[0].start..ms[0].end]))
     && CapturesAvailable(re, parts, content, ms[1..]))
  }

  /** The text between and after the matches: `|ms| + 1` pieces. */
  function GapList(content: Bytes, ms: seq<Range>, offset: nat): (gaps: seq<Bytes>)
    requires SpansFrom(ms, offset, |content|)
    ensures |gaps| == |ms| + 1
    decreases |ms|
  {
    if ms == [] then [content[offset..]]
    else
      SpansInBounds(ms, offset, |content|, 0);
      [content[offset..ms[0].start]] + GapList(content, ms[1..], ms[0].end)
  }

  /** The matched texts, in order. */
  function MatchList(content: Bytes, ms: seq<Range>, offset: nat): (found: seq<Bytes>)
    requires SpansFrom(ms, offset, |content|)
    ensures |found| == |ms|
    decreases |ms|
  {
    if ms == [] then []
    else
      SpansInBounds(ms, offset, |content|, 0);
      [content[ms[0].start..ms[0].end]] + MatchList(content, ms[1..], ms[0].end)
  }

  /** The replacement of every match, in order. */
  function SubList(content: Bytes, ms: seq<Range>, offset: nat, re: Regex, parts: seq<Part>): (subs: seq<Bytes>)
    requires SpansFrom(ms, offset, |content|) && CapturesAvailable(re, parts, content, ms)
    ensures |subs| == |ms|
    decreases |ms|
  {
    if ms == [] then []
    else
      SpansInBounds(ms, offset, |content|, 0);
      [Expand(parts, re.captures(content[ms[0].start..ms[0].end]).value)]
      + SubList(content, ms[1..], ms[0].end, re, parts)
  }

  /** `g0 + m0 + g1 + m1 + ... + gn`. */
  function Interleave(gaps: seq<Bytes>, mids: seq<Bytes>): Bytes
    requires |gaps| == |mids| + 1
    decreases |mids|
  {
    if mids == [] then gaps[0] else gaps[0] + mids[0] + Interleave(gaps[1..], mids[1..])
  }

  /** Where the text after the last match starts. */
  function LastEnd(ms: seq<Range>, offset: nat): nat
    decreases |ms|
  {
    if ms == [] then offset else LastEnd(ms[1..], ms[0].end)
  }

  /** The transform render of the slice from `offset`: gaps copied, each
      match replaced by its expansion, the rest after the last match copied. */
  function ReplacedFrom(content: Bytes, ms: seq<Range>, offset: nat, re: Regex, parts: seq<Part>): Bytes
    requires SpansFrom(ms, offset, |content|) && CapturesAvailable(re, parts, content, ms)
    decreases |ms|
  {
    if ms == [] then content[offset..]
    else
      SpansInBounds(ms, offset, |content|, 0);
      content[offset..ms[0].start]
      + Expand(parts, re.captures(content[ms[0].start..ms[0].end]).value)
      + ReplacedFrom(content, ms[1..], ms[0].end, re, parts)
  }

  /** Segments for one match in the templated pass of `print_colored`. */
  function TemplateSegments(parts: seq<Part>, caps: Captures): seq<Segment>
    requires GroupsPresent(parts, caps)
  {
    if parts == [] then []
    else
      (if parts[0].captureIx >= 0 then [Substituted(Group(caps, parts[0].captureIx).value)] else [])
      + [Substituted(parts[0].literal)] + TemplateSegments(parts[1..], caps)
  }

  /** Every group that the template names decodes as UTF-8. */
  predicate GroupsValid(parts: seq<Part>, caps: Captures, utf8: Bytes -> bool)
    requires GroupsPresent(parts, caps)
  {
    forall i :: 0 <= i < |parts| && parts[i].captureIx >= 0 ==> utf8(Group(caps, parts[i].captureIx).value)
  }

  /** What `print_colored` needs so that none of its `unwrap`s fails: for
      every match whose gap and text are valid UTF-8, with a template, its
      captures exist, hold every named group, and those groups are UTF-8. */
  predicate PrintableFrom(content: Bytes, ms: seq<Range>, offset: nat, re: Regex, replaceOpt: Option<Replace>, utf8: Bytes -> bool)
    decreases |ms|
  {
    ms == [] ||
    ((offset <= ms[0].start <= ms[0].end <= |content| ==>
        MatchPrintable(content[offset..ms[0].start], content[ms[0].start..ms[0].end], re, replaceOpt, utf8))
     && PrintableFrom(content, ms[1..], ms[0].end, re, replaceOpt, utf8))
  }

  /** The condition of `PrintableFrom` for one match `m` preceded by `gap`. */
  predicate MatchPrintable(gap: Bytes, m: Bytes, re: Regex, replaceOpt: Option<Replace>, utf8: Bytes -> bool)
  {
    replaceOpt.Some? && utf8(gap) && utf8(m) ==>
      (var caps := re.captures(m);
       caps.Some? && GroupsPresent(replaceOpt.value.parts, caps.value)
       && GroupsValid(replaceOpt.value.parts, caps.value, utf8))
  }

  /** The segments `print_colored` emits for one match whose preceding gap is `gap`. */
  function MatchPiece(gap: Bytes, m: Bytes, re: Regex, replaceOpt: Option<Replace>, utf8: Bytes -> bool): seq<Segment>
    requires MatchPrintable(gap, m, re, replaceOpt, utf8)
  {
    if utf8(gap) && utf8(m) then
      [Plain(gap)] +
      (if replaceOpt.None? then [Highlight(m)]
       else TemplateSegments(replaceOpt.value.parts, re.captures(m).value))
    else []
  }

  /** One pass of `print_colored` after the line number: per match, the gap and
      the highlighted match (no template) or its template segments, both only
      when gap and match are valid UTF-8; then the trailing text when it
      is valid UTF-8 and no template with a group marker is in use. */
  function ColoredFrom(content: Bytes, ms: seq<Range>, offset: nat, re: Regex, replaceOpt: Option<Replace>, utf8: Bytes -> bool): seq<Segment>
    requires SpansFrom(ms, offset, |content|) && PrintableFrom(content, ms, offset, re, replaceOpt, utf8)
    decreases |ms|
  {
    if ms == [] then
      if utf8(content[offset..]) && (replaceOpt.None? || replaceOpt.value.prefix.None?)
      then [Plain(content[offset..])] else []
    else
      SpansInBounds(ms, offset, |content|, 0);
      MatchPiece(content[offset..ms[0].start], content[ms[0].start..ms[0].end], re, replaceOpt, utf8)
      + ColoredFrom(content, ms[1..], ms[0].end, re, replaceOpt, utf8)
  }

  /** `print_colored_match`: the valid UTF-8 matches, highlighted, then a newline. */
  function MatchSegmentsFrom(content: Bytes, ms: seq<Range>, offset: nat, utf8: Bytes -> bool): seq<Segment>
    requires SpansFrom(ms, offset, |content|)
    decreases |ms|
  {
    if ms == [] then [Newline]
    else
      SpansInBounds(ms, offset, |content|, 0);
      var m := content[ms[0].start..ms[0].end];
      (if utf8(m) then [Highlight(m)] else []) + MatchSegmentsFrom(content, ms[1..], ms[0].end, utf8)
  }

  // ---------------------------------------------------------------------
  // Properties of the renderers
  // ---------------------------------------------------------------------

  /** The line is recovered from its gaps and matched texts. */
  lemma {:induction false} Decompose(content: Bytes, ms: seq<Range>, offset: nat)
    requires SpansFrom(ms, offset, |content|)
    ensures Interleave(GapList(content, ms, offset), MatchList(content, ms, offset)) == content[offset..]
    decreases |ms|
  {
    if ms != [] {
      SpansInBounds(ms, offset, |content|, 0);
      Decompose(content, ms[1..], ms[0].end);
      var g := GapList(content, ms, offset);
      var f := MatchList(content, ms, offset);
      assert g[1..] == GapList(content, ms[1..], ms[0].end);
      assert f[1..] == MatchList(content, ms[1..], ms[0].end);
      assert content[offset..] == content[offset..ms[0].start] + content[ms[0].start..ms[0].end] + content[ms[0].end..];
    }
  }

  /** The transform render keeps every gap and puts the expansion of each
      match in the match's place. */
  lemma {:induction false} ReplacedIsInterleave(content: Bytes, ms: seq<Range>, offset: nat, re: Regex, parts: seq<Part>)
    requires SpansFrom(ms, offset, |content|) && CapturesAvailable(re, parts, content, ms)
    ensures ReplacedFrom(content, ms, offset, re, parts)
         == Interleave(GapList(content, ms, offset), SubList(content, ms, offset, re, parts))
    decreases |ms|
  {
    if ms != [] {
      SpansInBounds(ms, offset, |content|, 0);
      ReplacedIsInterleave(content, ms[1..], ms[0].end, re, parts);
      var g := GapList(content, ms, offset);
      var s := SubList(content, ms, offset, re, parts);
      assert g[1..] == GapList(content, ms[1..], ms[0].end);
      assert s[1..] == SubList(content, ms[1..], ms[0].end, re, parts);
    }
  }

  /** A template that reproduces every match reproduces the line. */
  lemma ReplaceIdentity(content: Bytes, ms: seq<Range>, re: Regex, parts: seq<Part>)
    requires SpansFrom(ms, 0, |content|) && CapturesAvailable(re, parts, content, ms)
    requires SubList(content, ms, 0, re, parts) == MatchList(content, ms, 0)
    ensures ReplacedFrom(content, ms, 0, re, parts) == content
  {
    ReplacedIsInterleave(content, ms, 0, re, parts);
    Decompose(content, ms, 0);
  }

  lemma {:induction false} InterleaveLength(gaps: seq<Bytes>, mids: seq<Bytes>)
    requires |gaps| == |mids| + 1
    ensures |Interleave(gaps, mids)| == |Flatten(gaps)| + |Flatten(mids)|
    decreases |mids|
  {
    if mids != [] {
      InterleaveLength(gaps[1..], mids[1..]);
    } else {
      assert gaps[1..] == [];
    }
  }

  /** The gaps and the output of `only_matches` together account for every byte of the line. */
  lemma GapsAndMatchesCoverLine(content: Bytes, ms: seq<Range>)
    requires SpansFrom(ms, 0, |content|)
    ensures |Flatten(GapList(content, ms, 0))| + |Flatten(MatchList(content, ms, 0))| == |content|
  {
    Decompose(content, ms, 0);
    InterleaveLength(GapList(content, ms, 0), MatchList(content, ms, 0));
  }

  lemma {:induction false} TemplateText(parts: seq<Part>, caps: Captures)
    requires GroupsPresent(parts, caps)
    ensures TextOf(TemplateSegments(parts, caps)) == Expand(parts, caps)
  {
    if parts != [] {
      var p, tail := parts[0], parts[1..];
      assert GroupsPresent(tail, caps) by {
        forall i | 0 <= i < |tail| && tail[i].captureIx >= 0
          ensures Group(caps, tail[i].captureIx).Some?
        {
          assert tail[i] == parts[i + 1];
        }
      }
      TemplateText(tail, caps);
      var group: seq<Segment> := if p.captureIx >= 0 then [Substituted(Group(caps, p.captureIx).value)] else [];
      var groupBytes: Bytes := if p.captureIx >= 0 then Group(caps, p.captureIx).value else [];
      assert TextOf(group) == groupBytes;
      assert TextOf([Substituted(p.literal)]) == p.literal;
      TextOfAppend(group, [Substituted(p.literal)]);
      TextOfAppend(group + [Substituted(p.literal)], TemplateSegments(tail, caps));
    }
  }

  /** Every gap, every match and the trailing text are valid UTF-8. */
  predicate AllValid(content: Bytes, ms: seq<Range>, offset: nat, utf8: Bytes -> bool)
    decreases |ms|
  {
    if ms == [] then offset <= |content| && utf8(content[offset..])
    else
      (offset <= ms[0].start <= ms[0].end <= |content| ==>
         utf8(content[offset..ms[0].start]) && utf8(content[ms[0].start..ms[0].end]))
      && AllValid(content, ms[1..], ms[0].end, utf8)
  }

  /** Without a template, the highlight render alters no byte: its text is the line. */
  lemma {:induction false} HighlightLossless(content: Bytes, ms: seq<Range>, offset: nat, re: Regex, utf8: Bytes -> bool)
    requires SpansFrom(ms, offset, |content|) && AllValid(content, ms, offset, utf8)
    ensures PrintableFrom(content, ms, offset, re, None, utf8)
    ensures TextOf(ColoredFrom(content, ms, offset, re, None, utf8)) == content[offset..]
    decreases |ms|
  {
    if ms != [] {
      var r := ms[0];
      assert offset <= r.start <= r.end <= |content| && SpansFrom(ms[1..], r.end, |content|);
      assert AllValid(content, ms[1..], r.end, utf8);
      HighlightLossless(content, ms[1..], r.end, re, utf8);
      var gap := content[offset..r.start];
      var m := content[r.start..r.end];
      assert utf8(gap) && utf8(m);
      assert MatchPrintable(gap, m, re, None, utf8);
      var rest := ColoredFrom(content, ms[1..], r.end, re, None, utf8);
      assert MatchPiece(gap, m, re, None, utf8) == [Plain(gap)] + [Highlight(m)];
      assert ColoredFrom(content, ms, offset, re, None, utf8) == [Plain(gap)] + [Highlight(m)] + rest;
      TextOfAppend([Plain(gap)] + [Highlight(m)], rest);
      TextOfAppend([Plain(gap)], [Highlight(m)]);
      assert content[offset..] == gap + m + content[r.end..];
    }
  }

  lemma ColoredStep(content: Bytes, ms: seq<Range>, offset: nat, re: Regex, replace: Replace, utf8: Bytes -> bool)
    requires ms != [] && SpansFrom(ms, offset, |content|) && AllValid(content, ms, offset, utf8)
    requires PrintableFrom(content, ms, offset, re, Some(replace), utf8)
    ensures offset <= ms[0].start <= ms[0].end <= |content|
    ensures re.captures(content[ms[0].start..ms[0].end]).Some?
    ensures GroupsPresent(replace.parts, re.captures(content[ms[0].start..ms[0].end]).value)
    ensures ColoredFrom(content, ms, offset, re, Some(replace), utf8)
         == [Plain(content[offset..ms[0].start])]
            + TemplateSegments(replace.parts, re.captures(content[ms[0].start..ms[0].end]).value)
            + ColoredFrom(content, ms[1..], ms[0].end, re, Some(replace), utf8)
  {
    SpansInBounds(ms, offset, |content|, 0);
  }

  /** The templated preview shows exactly the bytes the transform render
      writes, except that it leaves out the trailing text when the template
      has a group marker. */
  lemma {:induction false} PreviewMatchesTransform(content: Bytes, ms: seq<Range>, offset: nat, re: Regex, replace: Replace, utf8: Bytes -> bool)
    requires SpansFrom(ms, offset, |content|) && AllValid(content, ms, offset, utf8)
    requires PrintableFrom(content, ms, offset, re, Some(replace), utf8)
    requires CapturesAvailable(re, replace.parts, content, ms)
    ensures LastEnd(ms, offset) <= |content|
    ensures TextOf(ColoredFrom(content, ms, offset, re, Some(replace), utf8))
            + (if replace.prefix.Some? then content[LastEnd(ms, offset)..] else [])
         == ReplacedFrom(content, ms, offset, re, replace.parts)
    decreases |ms|
  {
    if ms != [] {
      SpansInBounds(ms, offset, |content|, 0);
      PreviewMatchesTransform(content, ms[1..], ms[0].end, re, replace, utf8);
      PreviewStep(content, ms, offset, re, replace, utf8);
    }
  }

  lemma PreviewStep(content: Bytes, ms: seq<Range>, offset: nat, re: Regex, replace: Replace, utf8: Bytes -> bool)
    requires ms != [] && SpansFrom(ms, offset, |content|) && AllValid(content, ms, offset, utf8)
    requires PrintableFrom(content, ms, offset, re, Some(replace), utf8)
    requires CapturesAvailable(re, replace.parts, content, ms)
    requires LastEnd(ms[1..], ms[0].end) <= |content|
    requires TextOf(ColoredFrom(content, ms[1..], ms[0].end, re, Some(replace), utf8))
             + (if replace.prefix.Some? then content[LastEnd(ms[1..], ms[0].end)..] else [])
          == ReplacedFrom(content, ms[1..], ms[0].end, re, replace.parts)
    ensures LastEnd(ms, offset) <= |content|
    ensures TextOf(ColoredFrom(content, ms, offset, re, Some(replace), utf8))
            + (if replace.prefix.Some? then content[LastEnd(ms, offset)..] else [])
         == ReplacedFrom(content, ms, offset, re, replace.parts)
  {
    SpansInBounds(ms, offset, |content|, 0);
    var gap := content[offset..ms[0].start];
    var m := content[ms[0].start..ms[0].end];
    var caps := re.captures(m).value;
    var tpl := TemplateSegments(replace.parts, caps);
    var rest := ColoredFrom(content, ms[1..], ms[0].end, re, Some(replace), utf8);
    var tail := if replace.prefix.Some? then content[LastEnd(ms, offset)..] else [];
    ColoredStep(content, ms, offset, re, replace, utf8);
    TextOfAppend([Plain(gap)] + tpl, rest);
    TextOfAppend([Plain(gap)], tpl);
    TemplateText(replace.parts, caps);
    assert TextOf(rest) + tail == ReplacedFrom(content, ms[1..], ms[0].end, re, replace.parts);
    Assoc(gap + Expand(replace.parts, caps), TextOf(rest), tail);
  }

  /** `print_colored_match` shows the output of `only_matches`, then a newline. */
  lemma {:induction false} MatchSegmentsText(content: Bytes, ms: seq<Range>, offset: nat, utf8: Bytes -> bool)
    requires SpansFrom(ms, offset, |content|) && AllValid(content, ms, offset, utf8)
    ensures TextOf(MatchSegmentsFrom(content, ms, offset, utf8)) == Flatten(MatchList(content, ms, offset)) + [NEWLINE]
    decreases |ms|
  {
    if ms != [] {
      SpansInBounds(ms, offset, |content|, 0);
      var f := MatchList(content, ms, offset);
      assert f[1..] == MatchList(content, ms[1..], ms[0].end);
      MatchSegmentsText(content, ms[1..], ms[0].end, utf8);
      var m := content[ms[0].start..ms[0].end];
      TextOfAppend([Highlight(m)], MatchSegmentsFrom(content, ms[1..], ms[0].end, utf8));
    }
  }

  /** Without a template every line is printable. */
  lemma {:induction false} PrintableWithoutTemplate(content: Bytes, ms: seq<Range>, offset: nat, re: Regex, utf8: Bytes -> bool)
    ensures PrintableFrom(content, ms, offset, re, None, utf8)
    decreases |ms|
  {
    if ms != [] {
      PrintableWithoutTemplate(content, ms[1..], ms[0].end, re, utf8);
    }
  }

  lemma Assoc<T>(a: seq<T>, b: seq<T>, c: seq<T>)
    ensures a + b + c == a + (b + c)
  {
  }

  lemma ReplacedStep(content: Bytes, ms: seq<Range>, offset: nat, re: Regex, parts: seq<Part>)
    requires ms != [] && SpansFrom(ms, offset, |content|) && CapturesAvailable(re, parts, content, ms)
    ensures offset <= ms[0].start <= ms[0].end <= |content|
    ensures SpansFrom(ms[1..], ms[0].end, |content|) && CapturesAvailable(re, parts, content, ms[1..])
    ensures CapturesFit(re, parts, content[ms[0].start..ms[0].end])
    ensures ReplacedFrom(content, ms, offset, re, parts)
         == content[offset..ms[0].start]
            + (Expand(parts, re.captures(content[ms[0].start..ms[0].end]).value)
               + ReplacedFrom(content, ms[1..], ms[0].end, re, parts))
  {
    SpansInBounds(ms, offset, |content|, 0);
  }

  lemma MatchListStep(content: Bytes, ms: seq<Range>, offset: nat)
    requires ms != [] && SpansFrom(ms, offset, |content|)
    ensures offset <= ms[0].start <= ms[0].end <= |content|
    ensures SpansFrom(ms[1..], ms[0].end, |content|)
    ensures Flatten(MatchList(content, ms, offset))
         == content[ms[0].start..ms[0].end] + Flatten(MatchList(content, ms[1..], ms[0].end))
  {
    SpansInBounds(ms, offset, |content|, 0);
    var f := MatchList(content, ms, offset);
    assert f[1..] == MatchList(content, ms[1..], ms[0].end);
  }

  lemma ColoredPassStep(content: Bytes, ms: seq<Range>, offset: nat, re: Regex, replaceOpt: Option<Replace>, utf8: Bytes -> bool)
    requires ms != [] && SpansFrom(ms, offset, |content|) && PrintableFrom(content, ms, offset, re, replaceOpt, utf8)
    ensures offset <= ms[0].start <= ms[0].end <= |content|
    ensures SpansFrom(ms[1..], ms[0].end, |content|) && PrintableFrom(content, ms[1..], ms[0].end, re, replaceOpt, utf8)
    ensures MatchPrintable(content[offset..ms[0].start], content[ms[0].start..ms[0].end], re, replaceOpt, utf8)
    ensures ColoredFrom(content, ms, offset, re, replaceOpt, utf8)
         == MatchPiece(content[offset..ms[0].start], content[ms[0].start..ms[0].end], re, replaceOpt, utf8)
            + ColoredFrom(content, ms[1..], ms[0].end, re, replaceOpt, utf8)
  {
    SpansInBounds(ms, offset, |content|, 0);
  }

  lemma MatchSegmentsStep(content: Bytes, ms: seq<Range>, offset: nat, utf8: Bytes -> bool)
    requires ms != [] && SpansFrom(ms, offset, |content|)
    ensures offset <= ms[0].start <= ms[0].end <= |content|
    ensures SpansFrom(ms[1..], ms[0].end, |content|)
    ensures MatchSegmentsFrom(content, ms, offset, utf8)
         == (if utf8(content[ms[0].start..ms[0].end]) then [Highlight(content[ms[0].start..ms[0].end])] else [])
            + MatchSegmentsFrom(content, ms[1..], ms[0].end, utf8)
  {
    SpansInBounds(ms, offset, |content|, 0);
  }

  /** The inner loop of `replace_with`: the expansion of one match appended to `output`. */
  method ExtendWithExpansion(output: Bytes, parts: seq<Part>, caps: Captures) returns (extended: Bytes)
    requires GroupsPresent(parts, caps)
    ensures extended == output + Expand(parts, caps)
  {
    extended := output;
    var j := 0;
    while j < |parts|
      invariant 0 <= j <= |parts|
      invariant GroupsPresent(parts[j..], caps)
      invariant extended + Expand(parts[j..], caps) == output + Expand(parts, caps)
    {
      assert parts[j..][1..] == parts[j + 1..];
      if parts[j].captureIx >= 0 {
        extended := extended + Group(caps, parts[j].captureIx).value;
      }
      extended := extended + parts[j].literal;
      j := j + 1;
    }
    assert parts[|parts|..] == [];
  }

  /** The inner loop of the templated pass of `print_colored`: the segments of one match appended to `segs`. */
  method ExtendWithTemplate(segs: seq<Segment>, parts: seq<Part>, caps: Captures) returns (extended: seq<Segment>)
    requires GroupsPresent(parts, caps)
    ensures extended == segs + TemplateSegments(parts, caps)
  {
    extended := segs;
    var j := 0;
    while j < |parts|
      invariant 0 <= j <= |parts|
      invariant GroupsPresent(parts[j..], caps)
      invariant extended + TemplateSegments(parts[j..], caps) == segs + TemplateSegments(parts, caps)
    {
      assert parts[j..][1..] == parts[j + 1..];
      if parts[j].captureIx >= 0 {
        extended := extended + [Substituted(Group(caps, parts[j].captureIx).value)];
      }
      extended := extended + [Substituted(parts[j].literal)];
      j := j + 1;
    }
    assert parts[|parts|..] == [];
  }

  /** The body of the match loop of `print_colored`: the segments one
      match contributes, its gap included. */
  method RenderMatch(gap: Bytes, m: Bytes, re: Regex, replaceOpt: Option<Replace>, utf8: Bytes -> bool)
    returns (piece: seq<Segment>)
    requires MatchPrintable(gap, m, re, replaceOpt, utf8)
    ensures piece == MatchPiece(gap, m, re, replaceOpt, utf8)
  {
    if !(utf8(gap) && utf8(m)) {
      return [];
    }
    if replaceOpt.None? {
      return [Plain(gap)] + [Highlight(m)];
    }
    piece := ExtendWithTemplate([Plain(gap)], replaceOpt.value.parts, re.captures(m).value);
  }

  // ---------------------------------------------------------------------
  // The line object
  // ---------------------------------------------------------------------

  class Line {
    /** 1-based line number. */
    const nr: nat
    /** The line's bytes within the buffer it was cut from. */
    const range: Range
    /** Match spans relative to the line's slice, replaced by every search. */
    var matches: seq<Range>

    /** `Line::new(nr, start, size)`. */
    constructor (nr: nat, start: nat, size: nat)
      ensures this.nr == nr && range == Range(start, start + size) && matches == []
    {
      this.nr := nr;
      range := Range(start, start + size);
      matches := [];
    }

    predicate InBounds(content: Bytes)
    {
      range.start <= range.end <= |content|
    }

    /** `as_slice`: the line's bytes within `content`. */
    function AsSlice(content: Bytes): (s: Bytes)
      requires InBounds(content)
      ensures |s| == range.end - range.start
      ensures forall k :: 0 <= k < |s| ==> s[k] == content[range.start + k]
    {
      content[range.start..range.end]
    }

    /** `search_for`: forgets earlier matches and records those of `re` in
        the line's slice, in the order the regex yields them. */
    method SearchFor(re: Regex, content: Bytes) returns (found: bool)
      requires InBounds(content)
      modifies this
      ensures matches == re.findIter(AsSlice(content))
      ensures SpansFrom(matches, 0, range.end - range.start)
      ensures found <==> matches != []
    {
      var ms := re.findIter(AsSlice(content));
      matches := [];
      found := false;
      var k := 0;
      while k < |ms|
        invariant 0 <= k <= |ms|
        invariant matches == ms[..k]
        invariant found <==> k > 0
      {
        matches := matches + [ms[k]];
        found := true;
        k := k + 1;
      }
      assert ms[..|ms|] == ms;
    }

    /** `replace_with`: the transform render of the line slice `content`. The
        captures of every match are unwrapped, so they must exist even when
        the template names no group. */
    method ReplaceWith(content: Bytes, re: Regex, replace: Replace) returns (output: Bytes)
      requires SpansFrom(matches, 0, |content|)
      requires CapturesAvailable(re, replace.parts, content, matches)
      ensures output == ReplacedFrom(content, matches, 0, re, replace.parts)
      ensures matches == [] ==> output == content
    {
      var ms := matches;
      var parts := replace.parts;
      output := [];
      var offset: nat := 0;
      var k := 0;
      while k < |ms|
        invariant 0 <= k <= |ms|
        invariant SpansFrom(ms[k..], offset, |content|)
        invariant CapturesAvailable(re, parts, content, ms[k..])
        invariant output + ReplacedFrom(content, ms[k..], offset, re, parts) == ReplacedFrom(content, ms, 0, re, parts)
      {
        var r := ms[k];
        ReplacedStep(content, ms[k..], offset, re, parts);
        assert ms[k..][1..] == ms[k + 1..];
        ghost var prev := output;
        output := output + content[offset..r.start];
        var caps := re.captures(content[r.start..r.end]).value;
        ghost var before := output;
        output := ExtendWithExpansion(output, parts, caps);
        Assoc(prev, content[offset..r.start], Expand(parts, caps) + ReplacedFrom(content, ms[k + 1..], r.end, re, parts));
        Assoc(before, Expand(parts, caps), ReplacedFrom(content, ms[k + 1..], r.end, re, parts));
        offset := r.end;
        k := k + 1;
      }
      output := output + content[offset..];
    }

    /** `only_matches`: the matched spans of the line slice, concatenated. */
    method OnlyMatches(content: Bytes) returns (output: Bytes)
      requires SpansFrom(matches, 0, |content|)
      ensures output == Flatten(MatchList(content, matches, 0))
      ensures matches == [] ==> output == []
    {
      var ms := matches;
      output := [];
      var offset: nat := 0;
      var k := 0;
      while k < |ms|
        invariant 0 <= k <= |ms|
        invariant SpansFrom(ms[k..], offset, |content|)
        invariant output + Flatten(MatchList(content, ms[k..], offset)) == Flatten(MatchList(content, ms, 0))
      {
        var r := ms[k];
        MatchListStep(content, ms[k..], offset);
        assert ms[k..][1..] == ms[k + 1..];
        Assoc(output, content[r.start..r.end], Flatten(MatchList(content, ms[k + 1..], r.end)));
        output := output + content[r.start..r.end];
        offset := r.end;
        k := k + 1;
      }
    }

    /** The `my_print` closure of `print_colored`: the line number, then one
        pass over the matches. */
    method ColoredPass(content: Bytes, re: Regex, replaceOpt: Option<Replace>, utf8: Bytes -> bool) returns (segs: seq<Segment>)
      requires SpansFrom(matches, 0, |content|)
      requires PrintableFrom(content, matches, 0, re, replaceOpt, utf8)
      ensures segs == [LineNr(nr)] + ColoredFrom(content, matches, 0, re, replaceOpt, utf8)
    {
      var ms := matches;
      segs := [LineNr(nr)];
      var offset: nat := 0;
      var k := 0;
      while k < |ms|
        invariant 0 <= k <= |ms|
        invariant SpansFrom(ms[k..], offset, |content|)
        invariant PrintableFrom(content, ms[k..], offset, re, replaceOpt, utf8)
        invariant segs + ColoredFrom(content, ms[k..], offset, re, replaceOpt, utf8)
               == [LineNr(nr)] + ColoredFrom(content, ms, 0, re, replaceOpt, utf8)
      {
        var r := ms[k];
        ColoredPassStep(content, ms[k..], offset, re, replaceOpt, utf8);
        assert ms[k..][1..] == ms[k + 1..];
        ghost var prev := segs;
        ghost var rest := ColoredFrom(content, ms[k + 1..], r.end, re, replaceOpt, utf8);
        var gap := content[offset..r.start];
        var m := content[r.start..r.end];
        var piece := RenderMatch(gap, m, re, replaceOpt, utf8);
        Assoc(prev, piece, rest);
        segs := segs + piece;
        offset := r.end;
        k := k + 1;
      }
      assert ms[k..] == [];
      if utf8(content[offset..]) && (replaceOpt.None? || replaceOpt.value.prefix.None?) {
        segs := segs + [Plain(content[offset..])];
      }
    }

    /** `print_colored`: the highlighted line, then, when a template is
        configured, the templated preview of it. */
    method PrintColored(content: Bytes, re: Regex, replaceOpt: Option<Replace>, utf8: Bytes -> bool) returns (segs: seq<Segment>)
      requires SpansFrom(matches, 0, |content|)
      requires PrintableFrom(content, matches, 0, re, replaceOpt, utf8)
      ensures PrintableFrom(content, matches, 0, re, None, utf8)
      ensures segs == [LineNr(nr)] + ColoredFrom(content, matches, 0, re, None, utf8)
                      + (if replaceOpt.Some? then [LineNr(nr)] + ColoredFrom(content, matches, 0, re, replaceOpt, utf8) else [])
    {
      PrintableWithoutTemplate(content, matches, 0, re, utf8);
      segs := ColoredPass(content, re, None, utf8);
      if replaceOpt.Some? {
        var templated := ColoredPass(content, re, replaceOpt, utf8);
        segs := segs + templated;
      }
    }

    /** `print_colored_match`: the valid UTF-8 matches, highlighted, and a newline. */
    method PrintColoredMatch(content: Bytes, utf8: Bytes -> bool) returns (segs: seq<Segment>)
      requires SpansFrom(matches, 0, |content|)
      ensures segs == MatchSegmentsFrom(content, matches, 0, utf8)
    {
      var ms := matches;
      segs := [];
      var offset: nat := 0;
      var k := 0;
      while k < |ms|
        invariant 0 <= k <= |ms|
        invariant SpansFrom(ms[k..], offset, |content|)
        invariant segs + MatchSegmentsFrom(content, ms[k..], offset, utf8) == MatchSegmentsFrom(content, ms, 0, utf8)
      {
        var r := ms[k];
        MatchSegmentsStep(content, ms[k..], offset, utf8);
        assert ms[k..][1..] == ms[k + 1..];
        var m := content[r.start..r.end];
        var piece: seq<Segment> := if utf8(m) then [Highlight(m)] else [];
        Assoc(segs, piece, MatchSegmentsFrom(content, ms[k + 1..], r.end, utf8));
        segs := segs + piece;
        offset := r.end;
        k := k + 1;
      }
      assert ms[k..] == [];
      segs := segs + [Newline];
    }
  }
}
