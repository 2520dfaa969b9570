/** src/search.rs: building the search expression, and the replacement
    template as the renderers consume it. */
module Search {
  import opened Util
  import opened RegexEngine

  /** One template instruction `(capture_ix, literal)`: a negative index
      means "no group"; otherwise the group's bytes are emitted, then the
      literal. The literal is held as its UTF-8 bytes. */
  datatype Part = Part(captureIx: int, literal: Bytes)

  /** A compiled replacement: its instructions and the capture-group marker,
      if one was given. */
  datatype Replace = Replace(parts: seq<Part>, prefix: Option<string>)

  /** The expression text handed to the regex library. */
  function EffectivePattern(pattern: string, wordBoundary: bool): string
  {
    if wordBoundary then "\\b" + pattern + "\\b" else pattern
  }

  function InvalidPattern(pattern: string): Error
  {
    Error("Pattern \"" + pattern + "\" is not a valid regex")
  }

  /** `create_regex`: wraps the pattern in word-boundary anchors when asked and
      compiles it with `compile`, the library's `Regex::new`. */
  function CreateRegex(pattern: string, wordBoundary: bool, compile: string -> Option<Regex>): (r: Result<Regex>)
    ensures !wordBoundary ==> (r.Ok? <==> compile(pattern).Some?)
    ensures !wordBoundary && r.Ok? ==> r.value == compile(pattern).value
    ensures wordBoundary ==> (r.Ok? <==> compile("\\b" + pattern + "\\b").Some?)
    ensures wordBoundary && r.Ok? ==> r.value == compile("\\b" + pattern + "\\b").value
    ensures r.Err? ==> r.error == InvalidPattern(EffectivePattern(pattern, wordBoundary))
  {
    var effective := EffectivePattern(pattern, wordBoundary);
    match compile(effective)
    case None => Err(InvalidPattern(effective))
    case Some(re) => Ok(re)
  }

  /** A failure message quotes the wrapped pattern, anchors included. */
  lemma WrappedPatternInError(pattern: string, compile: string -> Option<Regex>)
    requires compile("\\b" + pattern + "\\b").None?
    ensures CreateRegex(pattern, true, compile) == Err(Error("Pattern \"\\b" + pattern + "\\b\" is not a valid regex"))
  {
    var open, anchor, close := "Pattern \"", "\\b", "\" is not a valid regex";
    MessageHead();
    MessageTail();
    assert open + (anchor + pattern + anchor) + close == (open + anchor) + pattern + (anchor + close);
  }

  /** The message text up to the pattern, anchor included. */
  lemma MessageHead()
    ensures "Pattern \"" + "\\b" == "Pattern \"\\b"
  {
  }

  /** The message text after the pattern, anchor included. */
  lemma MessageTail()
    ensures "\\b" + "\" is not a valid regex" == "\\b\" is not a valid regex"
  {
  }
}
