/** The context window of `process_file`: a lagging cursor that trails the
    line loop by `delay` lines, and a countdown that, once a line with
    matches arms it, renders the lagged lines one per iteration. Here the
    loop is a state machine over the per-line "has matches" marks. */
module Context {
  import opened Util

  /** The loop's state: how many lines the lagging iterator has handed out,
      how far it trails the loop, and the output countdown. */
  datatype State = State(consumed: nat, delay: nat, count: Option<nat>)

  /** What one iteration produces: the lagged line `ix` rendered, or the
      separator between blocks (`...`, printed only on a console). */
  datatype Event = Show(ix: nat) | Gap

  /** A state with everything produced so far. */
  datatype Trace = Trace(state: State, events: seq<Event>)

  const Start := State(0, 0, None)

  /** One iteration for a line that has (`marked`) or has no matches. */
  function Step(s: State, marked: bool, before: nat, after: nat): Trace
  {
    var count: Option<nat> := if marked then Some(s.delay + after + 1) else s.count;
    if count.Some? then
      if count.value > 0 then Trace(State(s.consumed + 1, s.delay, Some(count.value - 1)), [Show(s.consumed)])
      else Trace(State(s.consumed + 1, s.delay, None), [Gap])
    else if s.delay < before then Trace(State(s.consumed, s.delay + 1, None), [])
    else Trace(State(s.consumed + 1, s.delay, None), [])
  }

  /** The loop over all lines, from the start state. */
  function Run(marks: seq<bool>, before: nat, after: nat): Trace
    decreases |marks|
  {
    if marks == [] then Trace(Start, [])
    else
      var t := Run(marks[..|marks| - 1], before, after);
      var u := Step(t.state, marks[|marks| - 1], before, after);
      Trace(u.state, t.events + u.events)
  }

  /** The last line with matches, or -1. */
  function LastMark(marks: seq<bool>): (m: int)
    ensures -1 <= m < |marks|
    ensures m >= 0 ==> marks[m]
    ensures forall k :: m < k < |marks| ==> !marks[k]
    decreases |marks|
  {
    if marks == [] then -1
    else if marks[|marks| - 1] then |marks| - 1
    else LastMark(marks[..|marks| - 1])
  }

  /** The indices of the rendered lines, in order. */
  function Shown(evs: seq<Event>): (ixs: seq<nat>)
    ensures |ixs| <= |evs|
    decreases |evs|
  {
    if evs == [] then []
    else (if evs[0].Show? then [evs[0].ix] else []) + Shown(evs[1..])
  }

  predicate StrictlyAscending(xs: seq<nat>)
  {
    forall i, j :: 0 <= i < j < |xs| ==> xs[i] < xs[j]
  }

  /** Line `i` lies within `before` lines ahead of or `after` lines behind a line with matches. */
  predicate NearMark(marks: seq<bool>, i: nat, before: nat, after: nat)
  {
    exists m :: 0 <= m < |marks| && marks[m] && m <= i + before && i <= m + after
  }

  // ---------------------------------------------------------------------
  // The loop invariant
  // ---------------------------------------------------------------------

  /** The invariant of the loop: the delay never exceeds `before`; the lagging
      iterator has handed out exactly the processed lines minus the delay, so
      its `unwrap` never fails; and an armed countdown stems from the last
      line with matches, with the events so far ending in a rendered line. */
  lemma {:induction false} RunInvariant(marks: seq<bool>, before: nat, after: nat)
    ensures var s := Run(marks, before, after).state;
      s.delay <= before && s.consumed + s.delay == |marks|
    ensures var t := Run(marks, before, after);
      t.state.count.Some? ==>
        LastMark(marks) >= 0
        && t.state.count.value + |marks| == t.state.delay + after + 1 + LastMark(marks)
        && t.events != [] && t.events[|t.events| - 1].Show?
    decreases |marks|
  {
    if marks != [] {
      var init := marks[..|marks| - 1];
      RunInvariant(init, before, after);
      if !marks[|marks| - 1] {
        assert LastMark(marks) == LastMark(init);
      }
    }
  }

  /** The loop over one line more is one more step. */
  lemma RunStep(marks: seq<bool>, i: nat, before: nat, after: nat)
    requires i < |marks|
    ensures var t := Run(marks[..i], before, after);
      var u := Step(t.state, marks[i], before, after);
      Run(marks[..i + 1], before, after) == Trace(u.state, t.events + u.events)
  {
    assert marks[..i + 1][..i] == marks[..i];
  }

  /** Before line `i` is handled, the lagging iterator has handed out at most
      `i` lines: the line `next().unwrap()` asks for exists. */
  lemma LaggedLineExists(marks: seq<bool>, i: nat, before: nat, after: nat)
    requires i < |marks|
    ensures Run(marks[..i], before, after).state.consumed <= i < |marks|
  {
    RunInvariant(marks[..i], before, after);
  }
  /** One iteration more, from the state `State(consumed, delay, count)`
      after line `i - 1`, by the ways it can go: a line with matches re-arms
      the countdown and renders the lagged line; an armed countdown renders
      the lagged line and counts down, or at 0 closes the block; otherwise
      the delay grows up to `before`, and after that the lagging cursor
      skips a line (which exists). */
  lemma RunCases(marks: seq<bool>, i: nat, before: nat, after: nat, consumed: nat, delay: nat, count: Option<nat>, evs: seq<Event>)
    requires i < |marks| && Run(marks[..i], before, after) == Trace(State(consumed, delay, count), evs)
    ensures consumed <= i
    ensures marks[i] ==>
      Run(marks[..i + 1], before, after) == Trace(State(consumed + 1, delay, Some(delay + after)), evs + [Show(consumed)])
    ensures !marks[i] && count.Some? && count.value > 0 ==>
      Run(marks[..i + 1], before, after) == Trace(State(consumed + 1, delay, Some(count.value - 1)), evs + [Show(consumed)])
    ensures !marks[i] && count.Some? && count.value == 0 ==>
      Run(marks[..i + 1], before, after) == Trace(State(consumed + 1, delay, None), evs + [Gap])
    ensures !marks[i] && count.None? && delay < before ==>
      Run(marks[..i + 1], before, after) == Trace(State(consumed, delay + 1, None), evs)
    ensures !marks[i] && count.None? && delay >= before ==>
      Run(marks[..i + 1], before, after) == Trace(State(consumed + 1, delay, None), evs)
  {
    RunStep(marks, i, before, after);
    LaggedLineExists(marks, i, before, after);
    assert evs + [] == evs;
  }


  // ---------------------------------------------------------------------
  // What gets rendered
  // ---------------------------------------------------------------------

  lemma {:induction false} ShownAppend(a: seq<Event>, b: seq<Event>)
    ensures Shown(a + b) == Shown(a) + Shown(b)
    decreases |a|
  {
    if a == [] {
      assert a + b == b;
    } else {
      var head: seq<nat> := if a[0].Show? then [a[0].ix] else [];
      assert (a + b)[0] == a[0];
      assert (a + b)[1..] == a[1..] + b;
      ShownAppend(a[1..], b);
      assert Shown(a + b) == head + (Shown(a[1..]) + Shown(b));
      assert head + (Shown(a[1..]) + Shown(b)) == (head + Shown(a[1..])) + Shown(b);
    }
  }

  lemma {:induction false} ShownHas(evs: seq<Event>, k: nat)
    requires k < |evs| && evs[k].Show?
    ensures evs[k].ix in Shown(evs)
    decreases k
  {
    if k > 0 {
      ShownHas(evs[1..], k - 1);
    }
  }

  /** An iteration renders at most the next lagged line, and hands it out. */
  lemma StepShown(s: State, marked: bool, before: nat, after: nat)
    ensures var u := Step(s, marked, before, after);
      u.state.consumed >= s.consumed
      && (Shown(u.events) == [] || (Shown(u.events) == [s.consumed] && u.state.consumed == s.consumed + 1))
  {
    var u := Step(s, marked, before, after);
    assert u.events == [] || u.events == [Gap] || u.events == [Show(s.consumed)];
    if u.events == [Gap] {
      assert Shown(u.events) == [] + Shown(u.events[1..]);
    }
  }

  /** All below `bound`. */
  predicate Below(xs: seq<nat>, bound: nat)
  {
    forall k :: 0 <= k < |xs| ==> xs[k] < bound
  }

  lemma AscendingSnoc(xs: seq<nat>, bound: nat, ys: seq<nat>, bound': nat)
    requires StrictlyAscending(xs) && Below(xs, bound) && bound <= bound'
    requires ys == [] || (ys == [bound] && bound' == bound + 1)
    ensures StrictlyAscending(xs + ys) && Below(xs + ys, bound')
  {
    forall i, j | 0 <= i < j < |xs + ys|
      ensures (xs + ys)[i] < (xs + ys)[j]
    {
      if j >= |xs| {
        assert (xs + ys)[j] == bound;
        assert (xs + ys)[i] == xs[i];
      } else {
        assert (xs + ys)[i] == xs[i] && (xs + ys)[j] == xs[j];
      }
    }
    forall k | 0 <= k < |xs + ys|
      ensures (xs + ys)[k] < bound'
    {
      if k < |xs| {
        assert (xs + ys)[k] == xs[k];
      }
    }
  }

  /** Rendered lines are strictly ascending, so none is rendered twice, and
      all of them have been handed out by the lagging iterator: the lines
      still in the backlog when the loop ends are never rendered. */
  lemma {:induction false} ShownAscending(marks: seq<bool>, before: nat, after: nat)
    ensures var t := Run(marks, before, after);
      StrictlyAscending(Shown(t.events)) && Below(Shown(t.events), t.state.consumed)
    decreases |marks|
  {
    if marks != [] {
      var init := marks[..|marks| - 1];
      var t := Run(init, before, after);
      var u := Step(t.state, marks[|marks| - 1], before, after);
      ShownAscending(init, before, after);
      ShownAppend(t.events, u.events);
      StepShown(t.state, marks[|marks| - 1], before, after);
      AscendingSnoc(Shown(t.events), t.state.consumed, Shown(u.events), u.state.consumed);
    }
  }

  /** Every rendered line lies within `before` lines ahead of or `after`
      lines behind some line with matches. */
  lemma {:induction false} ShownNearMark(marks: seq<bool>, before: nat, after: nat)
    ensures var evs := Run(marks, before, after).events;
      forall k :: 0 <= k < |evs| && evs[k].Show? ==> NearMark(marks, evs[k].ix, before, after)
    decreases |marks|
  {
    if marks != [] {
      var init := marks[..|marks| - 1];
      var t := Run(init, before, after);
      var u := Step(t.state, marks[|marks| - 1], before, after);
      var evs := Run(marks, before, after).events;
      ShownNearMark(init, before, after);
      RunInvariant(init, before, after);
      forall k | 0 <= k < |evs| && evs[k].Show?
        ensures NearMark(marks, evs[k].ix, before, after)
      {
        if k < |t.events| {
          assert evs[k] == t.events[k];
          var m :| 0 <= m < |init| && init[m] && m <= evs[k].ix + before && evs[k].ix <= m + after;
          assert marks[m];
        } else {
          assert evs[k] == Show(t.state.consumed);
          if marks[|marks| - 1] {
            assert NearMark(marks, evs[k].ix, before, after) by {
              var m := |marks| - 1;
              assert marks[m] && m <= evs[k].ix + before && evs[k].ix <= m + after;
            }
          } else {
            var m := LastMark(init);
            assert marks[m] && m <= evs[k].ix + before && evs[k].ix <= m + after;
          }
        }
      }
    }
  }

  /** The events of a prefix of the lines are a prefix of the events. */
  lemma {:induction false} RunPrefix(marks: seq<bool>, n: nat, before: nat, after: nat)
    requires n <= |marks|
    ensures Run(marks[..n], before, after).events <= Run(marks, before, after).events
    decreases |marks| - n
  {
    if n < |marks| {
      var init := marks[..|marks| - 1];
      assert init[..n] == marks[..n];
      RunPrefix(init, n, before, after);
    } else {
      assert marks[..n] == marks;
    }
  }

  /** The `j`-th iteration from a line `m` with matches, taken at delay `d`:
      the countdown is still running, the delay is frozen, and the
      iteration renders lagged line `m - d + j - 1`. */
  lemma {:induction false} BlockStep(marks: seq<bool>, m: nat, j: nat, before: nat, after: nat)
    requires m < |marks| && marks[m]
    requires 1 <= j && m + j <= |marks|
    requires j <= Run(marks[..m], before, after).state.delay + after + 1
    ensures var d := Run(marks[..m], before, after).state.delay;
      var t := Run(marks[..m + j], before, after);
      m >= d && t.state.consumed == m - d + j && t.state.delay == d
      && t.state.count.Some? && t.state.count.value + j >= d + after + 1
      && t.events == Run(marks[..m + j - 1], before, after).events + [Show(m - d + j - 1)]
    decreases j
  {
    var d := Run(marks[..m], before, after).state.delay;
    var pre := marks[..m + j];
    assert pre[..|pre| - 1] == marks[..m + j - 1];
    assert pre[|pre| - 1] == marks[m + j - 1];
    if j == 1 {
      RunInvariant(marks[..m], before, after);
    } else {
      BlockStep(marks, m, j - 1, before, after);
    }
  }

  /** A line with matches renders, while the input lasts, the lines of its
      backlog, itself and its `after` context: every line from `m - d` to
      `m + after` (`d` the delay when line `m` is reached) whose turn comes
      before the last line. */
  lemma BlockRendered(marks: seq<bool>, m: nat, before: nat, after: nat)
    requires m < |marks| && marks[m]
    ensures var d := Run(marks[..m], before, after).state.delay;
      m >= d
      && forall i :: m - d <= i <= m + after && i + d < |marks| ==> Show(i) in Run(marks, before, after).events
  {
    var d := Run(marks[..m], before, after).state.delay;
    RunInvariant(marks[..m], before, after);
    forall i | m - d <= i <= m + after && i + d < |marks|
      ensures Show(i) in Run(marks, before, after).events
    {
      var j := i - (m - d) + 1;
      BlockStep(marks, m, j, before, after);
      RunPrefix(marks, m + j, before, after);
      var evs := Run(marks[..m + j], before, after).events;
      assert evs[|evs| - 1] == Show(i);
    }
  }

  /** The separator only ever follows a rendered line. */
  lemma {:induction false} GapFollowsShow(marks: seq<bool>, before: nat, after: nat)
    ensures var evs := Run(marks, before, after).events;
      forall k :: 0 <= k < |evs| && evs[k] == Gap ==> k > 0 && evs[k - 1].Show?
    decreases |marks|
  {
    if marks != [] {
      var init := marks[..|marks| - 1];
      GapFollowsShow(init, before, after);
      RunInvariant(init, before, after);
    }
  }

  // ---------------------------------------------------------------------
  // Examples
  // ---------------------------------------------------------------------

  /** One line of context each side around the middle of five lines
      renders the lines 1, 2 and 3 and no separator. */
  lemma MiddleMatchExample()
    ensures Run([false, false, true, false, false], 1, 1).events == [Show(1), Show(2), Show(3)]
  {
    assert [false, false, true, false, false][..4] == [false, false, true, false];
    assert [false, false, true, false][..3] == [false, false, true];
    assert [false, false, true][..2] == [false, false];
    assert [false, false][..1] == [false];
  }

  /** A second match on the last line is part of the backlog when the loop
      ends and is not rendered. */
  lemma TrailingMatchExample()
    ensures Run([false, false, true, false, true], 1, 1).events == [Show(1), Show(2), Show(3)]
  {
    assert [false, false, true, false, true][..4] == [false, false, true, false];
    assert [false, false, true, false][..3] == [false, false, true];
    assert [false, false, true][..2] == [false, false];
    assert [false, false][..1] == [false];
  }

  /** A block that ends before the next match renders the separator. */
  lemma SeparatedBlocksExample()
    ensures Run([true, false, false, true], 0, 0).events == [Show(0), Gap, Show(3)]
  {
    assert [true, false, false, true][..3] == [true, false, false];
    assert [true, false, false][..2] == [true, false];
    assert [true, false][..1] == [true];
  }
}
