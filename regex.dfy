/** The regular-expression library, seen from the core as an oracle.
    A compiled expression is three functions: leftmost non-overlapping match
    iteration over a byte slice, capture extraction on a byte slice, and a
    match test. The only facts the core relies on are written into the
    constraint of the subset type `Regex`. */
module RegexEngine {
  import opened Util

  /** Capture groups of one match; group 0 is the whole match. */
  type Captures = seq<Option<Bytes>>

  /** `caps.get(ix)`: absent beyond the last group. */
  function Group(caps: Captures, ix: nat): (g: Option<Bytes>)
    ensures ix >= |caps| ==> g.None?
  {
    if ix < |caps| then caps[ix] else None
  }

  /** The spans `ms` are ascending, non-overlapping, start at or after
      `offset` and end at or before `n`. */
  predicate SpansFrom(ms: seq<Range>, offset: nat, n: nat)
    ensures SpansFrom(ms, offset, n) ==> offset <= n
    decreases |ms|
  {
    if ms == [] then offset <= n
    else offset <= ms[0].start <= ms[0].end && SpansFrom(ms[1..], ms[0].end, n)
  }

  datatype Engine = Engine(findIter: Bytes -> seq<Range>,
                           captures: Bytes -> Option<Captures>,
                           isMatch: Bytes -> bool)

  ghost predicate WellBehaved(e: Engine)
  {
    forall s {:trigger e.findIter(s)} :: SpansFrom(e.findIter(s), 0, |s|) && (e.isMatch(s) <==> e.findIter(s) != [])
  }

  /** A compiled expression whose match iteration yields in-bounds,
      ascending, non-overlapping spans and whose match test agrees with it. */
  type Regex = e: Engine | WellBehaved(e)
    witness Engine(_ => [], _ => None, _ => false)

  lemma {:induction false} SpansInBounds(ms: seq<Range>, offset: nat, n: nat, k: nat)
    requires SpansFrom(ms, offset, n) && k < |ms|
    ensures offset <= ms[k].start <= ms[k].end <= n
    ensures k + 1 < |ms| ==> ms[k].end <= ms[k + 1].start
    decreases |ms|
  {
    if k == 0 {
      if |ms| > 1 {
        SpansInBounds(ms[1..], ms[0].end, n, 0);
      } else {
        assert ms[1..] == [];
      }
    } else {
      SpansInBounds(ms[1..], ms[0].end, n, k - 1);
    }
  }

  lemma {:induction false} SpansOffsetBound(ms: seq<Range>, offset: nat, n: nat)
    requires SpansFrom(ms, offset, n)
    ensures offset <= n
    decreases |ms|
  {
    if ms != [] {
      SpansOffsetBound(ms[1..], ms[0].end, n);
    }
  }
}
