/**
 Infinite-scroll pagination (`BaseCrawler.scroll_page`): scroll by a random
 increment, wait, re-measure, and stop once the page has stopped growing
 and the viewport has reached its bottom. The source loops `while True`;
 here the page's answers are a finite list of passes, and a list that runs
 out before the stop condition holds means the source would still be
 scrolling.
 */
module Scrolling {
  import opened Dom
  import Timing

  /**
   What one pass of the loop sees: the random draw for its scroll increment,
   then `document.body.scrollHeight` and `window.scrollY + window.innerHeight`
   read after the step.
   */
  datatype Pass = Pass(draw: nat, height: int, position: int)

  /**
   The stop test: the viewport reaches the new height AND the height did not
   grow since the previous measurement. Neither alone stops the loop.
   */
  predicate Stalled(previous: int, p: Pass) {
    p.position >= p.height && p.height == previous
  }

  /**
   The height pass `j` compares against: the height measured once before
   the first step for `j == 0`, otherwise the height the previous pass read.
   */
  function PreviousHeight(initial: int, passes: seq<Pass>, j: nat): int
    requires j < |passes|
  {
    if j == 0 then initial else passes[j - 1].height
  }

  /** The loop stops after exactly `k` passes: pass `k - 1` stalls and none before it does. */
  predicate StopsAfter(initial: int, passes: seq<Pass>, k: nat) {
    && 1 <= k <= |passes|
    && Stalled(PreviousHeight(initial, passes, k - 1), passes[k - 1])
    && forall j :: 0 <= j < k - 1 ==> !Stalled(PreviousHeight(initial, passes, j), passes[j])
  }

  /** No pass stalls: the source's loop would still be running when the list ends. */
  predicate NeverStalls(initial: int, passes: seq<Pass>) {
    forall j :: 0 <= j < |passes| ==> !Stalled(PreviousHeight(initial, passes, j), passes[j])
  }

  /**
   The number of scroll steps taken, as a recursive reference definition:
   `None` when no pass stalls.
   */
  function Settle(previous: int, passes: seq<Pass>): (k: Option<nat>)
    ensures k.Some? <==> !NeverStalls(previous, passes)
    ensures k.Some? ==> StopsAfter(previous, passes, k.value)
    decreases |passes|
  {
    if passes == [] then None
    else if Stalled(previous, passes[0]) then Some(1)
    else
      var rest := Settle(passes[0].height, passes[1..]);
      ShiftPasses(previous, passes);
      if rest.None? then None else Some(rest.value + 1)
  }

  /** Dropping the first pass makes its height the baseline of the remaining passes. */
  lemma ShiftPasses(previous: int, passes: seq<Pass>)
    requires passes != []
    ensures forall j :: 1 <= j < |passes| ==>
      PreviousHeight(previous, passes, j) == PreviousHeight(passes[0].height, passes[1..], j - 1)
  {
  }

  /** At most one stopping point exists: the loop's exit is the first stall. */
  lemma StopIsUnique(initial: int, passes: seq<Pass>, k: nat, k': nat)
    requires StopsAfter(initial, passes, k) && StopsAfter(initial, passes, k')
    ensures k == k'
  {
  }

  /**
   The loop of base.py as written: measure once, then step, wait and
   measure until the stop test holds. Returns how many steps were taken,
   whether the loop stopped, and the increments it scrolled by.
   */
  method ScrollPage(initial: int, passes: seq<Pass>) returns (stopped: bool, steps: nat, increments: seq<int>)
    ensures stopped ==> StopsAfter(initial, passes, steps)
    ensures !stopped ==> NeverStalls(initial, passes) && steps == |passes|
    ensures |increments| == steps
    ensures forall j :: 0 <= j < steps ==> increments[j] == Timing.ScrollAmount(passes[j].draw)
    ensures forall j :: 0 <= j < steps ==> Timing.ScrollMin <= increments[j] <= Timing.ScrollMax
  {
    var lastHeight := initial;
    steps := 0;
    increments := [];
    stopped := false;
    while steps < |passes|
      invariant steps <= |passes|
      invariant |increments| == steps
      invariant forall j :: 0 <= j < steps ==> increments[j] == Timing.ScrollAmount(passes[j].draw)
      invariant lastHeight == (if steps == 0 then initial else passes[steps - 1].height)
      invariant forall j :: 0 <= j < steps ==> !Stalled(PreviousHeight(initial, passes, j), passes[j])
      decreases |passes| - steps
    {
      var p := passes[steps];
      increments := increments + [Timing.ScrollAmount(p.draw)];
      steps := steps + 1;
      if p.position >= p.height && p.height == lastHeight {
        stopped := true;
        return;
      }
      lastHeight := p.height;
    }
  }

  /** The recursive definition returns exactly the stopping point the loop reaches. */
  lemma SettleIsTheStop(initial: int, passes: seq<Pass>, k: nat)
    requires StopsAfter(initial, passes, k)
    ensures Settle(initial, passes) == Some(k)
  {
    StopIsUnique(initial, passes, k, Settle(initial, passes).value);
  }

  /**
   An unchanged height alone never stops the loop while the viewport is
   still above the bottom of the page.
   */
  lemma NoStopAboveBottom(initial: int, passes: seq<Pass>, j: nat)
    requires j < |passes|
    requires passes[j].height == PreviousHeight(initial, passes, j)
    requires passes[j].position < passes[j].height
    ensures forall k :: StopsAfter(initial, passes, k) ==> k != j + 1
  {
  }

  /**
   A page that is already fully rendered and scrolled to its bottom stops
   after one step.
   */
  lemma AlreadyRenderedStopsAtOnce(initial: int, passes: seq<Pass>)
    requires passes != []
    requires passes[0].height == initial && passes[0].position >= initial
    ensures Settle(initial, passes) == Some(1)
  {
  }

  /**
   Heights 1000 (before), then 1600, 1600: the first pass grows the page,
   the second finds it unchanged with the viewport at the bottom, so the
   loop takes two steps.
   */
  lemma GrowThenStall()
    ensures Settle(1000, [Pass(0, 1600, 1080), Pass(0, 1600, 1600), Pass(0, 1600, 1600)]) == Some(2)
  {
  }
}
