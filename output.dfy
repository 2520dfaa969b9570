/** What the tool prints, as a sequence of tagged segments: styling
    (the `colored` crate) becomes the tag, the bytes stay unchanged. */
module Output {
  import opened Util

  datatype Segment =
    | LineNr(nr: nat)                         // `{nr}:` in yellow
    | Plain(text: Bytes)                      // unstyled text
    | Highlight(text: Bytes)                  // a match, bright cyan and bold
    | Substituted(text: Bytes)                // template output, on purple
    | Raw(bytes: Bytes)                       // bytes written straight to stdout
    | Newline                                 // `println!("")`
    | FileHeader(path: string)                // the path in green and bold, then a newline
    | PathPrefix(path: string)                // `{path}:` before a rendered line
    | Ellipsis                                // `...` and a newline, between blocks
    | PathEntry(path: string, nul: bool)      // a listed path, then NUL or newline
    | SkipWarning(path: string)               // `Warning: Skipping "{path}", could not load file`

  /** The bytes a sequence of segments carries, styling and line numbers dropped. */
  function TextOf(segs: seq<Segment>): Bytes
  {
    if segs == [] then []
    else
      (match segs[0]
       case Plain(t) => t
       case Highlight(t) => t
       case Substituted(t) => t
       case Raw(b) => b
       case Newline => [NEWLINE]
       case _ => []) + TextOf(segs[1..])
  }

  lemma {:induction false} TextOfAppend(a: seq<Segment>, b: seq<Segment>)
    ensures TextOf(a + b) == TextOf(a) + TextOf(b)
  {
    if a == [] {
      assert a + b == b;
    } else {
      assert (a + b)[1..] == a[1..] + b;
      TextOfAppend(a[1..], b);
    }
  }
}
