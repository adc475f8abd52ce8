/**
 * The tour state machine: the current step index, the direction of the last
 * move, and the transitions next, previous, go-to-step, go-to-step-number and
 * exit. The window width is an input; the callbacks a transition fires (before
 * change, complete, hide) and the rendering of a step appear in an event trace.
 *
 * JavaScript's `undefined` and `NaN` step indexes are kept as cursor values,
 * and a transition that would throw a TypeError (reading a property of a
 * missing item) ends with status Fault, keeping the state changes made before
 * the throw.
 */
module Navigation {
  import opened Common

  /** `_currentStep`: undefined before the first move, an integer, or NaN. */
  datatype Cursor = Unset | At(i: int) | NotANumber

  datatype Direction = Undecided | Forward | Backward

  /** What navigation reads of an item. */
  datatype NavItem = NavItem(step: int, skipOnMobile: bool, position: string)

  /** The options navigation reads: `checkpoints` and `mobileTresholdWidth` (None: false). */
  datatype Config = Config(checkpoints: seq<int>, threshold: Option<int>)

  /** `overlay` says whether the overlay layer is on the page. */
  datatype Tour = Tour(cursor: Cursor, direction: Direction, items: seq<NavItem>, overlay: bool)

  datatype Event =
    | BeforeChange(index: int)  // the before-change callback, with items[index]'s element
    | Render(index: int)        // _showElement(items[index]): change, show/hide and after-change callbacks, DOM update
    | Complete(nextStep: int)   // the complete callback, with { nextStep }
    | Hide(index: int)          // items[index].onHide, when the tour exits
    | Teardown                  // overlay, helper layers and listeners removed

  /** Done: returned normally; Refused: returned false; Fault: threw a TypeError. */
  datatype Status = Done | Refused | Fault

  datatype Outcome = Outcome(tour: Tour, events: seq<Event>, status: Status)

  /** A step bypassed on a narrow window: flagged, a threshold is set, the width is below it. */
  predicate Skipped(item: NavItem, cfg: Config, width: nat) {
    item.skipOnMobile && cfg.threshold.Some? && width < cfg.threshold.value
  }

  /** No step is bypassed at this width. */
  ghost predicate NoSkipping(items: seq<NavItem>, cfg: Config, width: nat) {
    forall k :: 0 <= k < |items| ==> !Skipped(items[k], cfg, width)
  }

  /** The forward skip loop of _nextStep: past every bypassed step from index t on. */
  function SkipForward(items: seq<NavItem>, t: nat, cfg: Config, width: nat): (j: nat)
    ensures t <= j
    ensures j <= |items| || j == t
    ensures j < |items| ==> !Skipped(items[j], cfg, width)
    ensures forall k :: t <= k < j ==> Skipped(items[k], cfg, width)
    decreases |items| - t
  {
    if t < |items| && Skipped(items[t], cfg, width) then SkipForward(items, t + 1, cfg, width) else t
  }

  /** The backward skip loop of _previousStep from index p; -1 when it runs off the front. */
  function SkipBackward(items: seq<NavItem>, p: int, cfg: Config, width: nat): (j: int)
    requires 0 <= p < |items|
    ensures -1 <= j <= p
    ensures j >= 0 ==> !Skipped(items[j], cfg, width)
    ensures forall k :: j < k <= p ==> Skipped(items[k], cfg, width)
    decreases p
  {
    if !Skipped(items[p], cfg, width) then p
    else if p - 1 == -1 then -1
    else SkipBackward(items, p - 1, cfg, width)
  }

  /** The number of completion events in a trace. */
  function Completions(events: seq<Event>): nat {
    if |events| == 0 then 0
    else (if events[0].Complete? then 1 else 0) + Completions(events[1..])
  }

  lemma {:induction false} CompletionsAppend(a: seq<Event>, b: seq<Event>)
    ensures Completions(a + b) == Completions(a) + Completions(b)
  {
    if |a| > 0 {
      assert (a + b)[1..] == a[1..] + b;
      CompletionsAppend(a[1..], b);
    } else {
      assert a + b == b;
    }
  }

  lemma {:induction false} NoCompletions(events: seq<Event>)
    requires forall e :: e in events ==> !e.Complete?
    ensures Completions(events) == 0
  {
    if |events| > 0 {
      assert events[0] in events;
      NoCompletions(events[1..]);
    }
  }

  /** An outcome in which every rendered step exists and is not bypassed at this width. */
  ghost predicate RendersShowable(r: Outcome, items: seq<NavItem>, cfg: Config, width: nat) {
    forall e :: e in r.events && e.Render? ==> 0 <= e.index < |items| && !Skipped(items[e.index], cfg, width)
  }

  // ---------------------------------------------------------------------------
  // _exitIntro (state reset)
  // ---------------------------------------------------------------------------

  /**
   * _exitIntro with the hide callback looked up only for an index that names
   * an item. Without an overlay nothing happens; otherwise the shown item's
   * hide callback runs, the page is torn down and the index is parked at 0.
   */
  function ExitIntro(tour: Tour): (r: Outcome)
    ensures r.status == Done
    ensures !r.tour.overlay && r.tour.items == tour.items && r.tour.direction == tour.direction
    ensures tour.overlay ==> r.tour.cursor == At(0) && |r.events| > 0 && r.events[|r.events| - 1] == Teardown
    ensures !tour.overlay ==> r == Outcome(tour, [], Done)
    ensures forall e :: e in r.events ==> e.Hide? || e.Teardown?
  {
    if !tour.overlay then Outcome(tour, [], Done)
    else
      var onHide := if tour.cursor.At? && 0 <= tour.cursor.i < |tour.items| then [Hide(tour.cursor.i)] else [];
      Outcome(tour.(cursor := At(0), overlay := false), onHide + [Teardown], Done)
  }

  /**
   * _exitIntro as written: it reads the hide callback of items[currentStep]
   * before anything else, which throws when the index names no item.
   */
  function ExitIntroAsWritten(tour: Tour): (r: Outcome)
    ensures r.status == Fault <==>
      tour.overlay && !(tour.cursor.At? && 0 <= tour.cursor.i < |tour.items|)
    ensures r.status == Fault ==> r.tour == tour && r.events == []
    ensures r.status != Fault ==> r == ExitIntro(tour)
  {
    if !tour.overlay then Outcome(tour, [], Done)
    else if tour.cursor.At? && 0 <= tour.cursor.i < |tour.items| then
      Outcome(tour.(cursor := At(0), overlay := false), [Hide(tour.cursor.i), Teardown], Done)
    else Outcome(tour, [], Fault)
  }

  /**
   * Exiting twice is exiting once, given that the overlay is gone from the
   * page when the second exit looks for it: that exit then does nothing.
   */
  lemma ExitIdempotent(tour: Tour)
    ensures ExitIntro(ExitIntro(tour).tour) == Outcome(ExitIntro(tour).tour, [], Done)
  {
  }

  // ---------------------------------------------------------------------------
  // _nextStep
  // ---------------------------------------------------------------------------

  /** The index _nextStep starts from: 0 from undefined, else one past the current index. */
  function ForwardTarget(c: Cursor): int
    requires !c.NotANumber?
  {
    if c.Unset? then 0 else c.i + 1
  }

  /** Index j is where a forward move from t stops: every index in [t, j) is bypassed and j is not. */
  ghost predicate StopsAt(items: seq<NavItem>, t: int, j: int, cfg: Config, width: nat) {
    0 <= t <= j
    && (forall k :: t <= k < j ==> k < |items| && Skipped(items[k], cfg, width))
    && (j < |items| ==> !Skipped(items[j], cfg, width))
  }

  /** A forward move's stop is unique. */
  lemma StopIsUnique(items: seq<NavItem>, t: int, j1: int, j2: int, cfg: Config, width: nat)
    requires StopsAt(items, t, j1, cfg, width) && StopsAt(items, t, j2, cfg, width)
    requires j1 <= |items| && j2 <= |items|
    ensures j1 == j2
  {
  }

  /**
   * The body of _nextStep once the target index t is known; `asWritten`
   * selects the exit that completion goes through.
   */
  function Advance(fwd: Tour, t: int, cfg: Config, width: nat, asWritten: bool): (r: Outcome)
    ensures t >= 0 && SkipForward(fwd.items, t, cfg, width) >= |fwd.items| ==> Completions(r.events) == 1
  {
    if t < 0 then Outcome(fwd.(cursor := At(t)), [], Fault)
    else
      var j := SkipForward(fwd.items, t, cfg, width);
      if j >= |fwd.items| then
        var ex := if asWritten then ExitIntroAsWritten(fwd.(cursor := At(j))) else ExitIntro(fwd.(cursor := At(j)));
        CompletionsAppend([Complete(j)], ex.events);
        NoCompletions(ex.events);
        Outcome(ex.tour, [Complete(j)] + ex.events, ex.status)
      else Outcome(fwd.(cursor := At(j)), [BeforeChange(j), Render(j)], Done)
  }

  /**
   * _nextStep. From undefined it targets index 0, else the current index + 1;
   * it moves past bypassed steps; past the last item the complete callback
   * fires once and the tour exits through the corrected exit (ExitIntro);
   * otherwise the step it stops at is shown.
   * A negative target (after _goToStep with n < 1) throws when the loop reads
   * items[-1], and so does a NaN index when the step is shown.
   */
  function NextStep(tour: Tour, cfg: Config, width: nat): (r: Outcome)
    ensures r.tour.items == tour.items && r.tour.direction == Forward
    ensures r.status == Fault <==> tour.cursor.NotANumber? || ForwardTarget(tour.cursor) < 0
    ensures RendersShowable(r, tour.items, cfg, width)
  {
    var fwd := tour.(direction := Forward);
    if tour.cursor.NotANumber? then Outcome(fwd, [], Fault)
    else Advance(fwd, ForwardTarget(tour.cursor), cfg, width, false)
  }

  /**
   * Where a forward move that does not throw ends: at the first index from
   * the target on that is not bypassed, showing it; or, past the last item,
   * with one completion event and the tour exited by the corrected exit.
   */
  lemma NextStepSpec(tour: Tour, cfg: Config, width: nat)
    requires !tour.cursor.NotANumber? && ForwardTarget(tour.cursor) >= 0
    ensures var r := NextStep(tour, cfg, width);
      var t := ForwardTarget(tour.cursor);
      var j := SkipForward(tour.items, t, cfg, width);
        StopsAt(tour.items, t, j, cfg, width) &&
        (j < |tour.items| ==>
           r == Outcome(tour.(cursor := At(j), direction := Forward), [BeforeChange(j), Render(j)], Done)) &&
        (j >= |tour.items| ==>
           r.status == Done && |r.events| > 0 && r.events[0] == Complete(j) && Completions(r.events) == 1 && !r.tour.overlay &&
           (tour.overlay ==> r.tour.cursor == At(0) && r.events[|r.events| - 1] == Teardown) &&
           (!tour.overlay ==> r.tour.cursor == At(j) && r.events == [Complete(j)]))
  {
  }

  /**
   * _nextStep as written: completion exits through the as-written _exitIntro.
   * It agrees with NextStep except when a move with the overlay up runs past
   * the last item: then the complete callback fires and the exit throws,
   * leaving the overlay up and the index past the end.
   */
  function NextStepAsWritten(tour: Tour, cfg: Config, width: nat): (r: Outcome)
    ensures r.tour.items == tour.items
    ensures (!tour.overlay || tour.cursor.NotANumber? || ForwardTarget(tour.cursor) < 0 ||
             SkipForward(tour.items, ForwardTarget(tour.cursor), cfg, width) < |tour.items|) ==>
      r == NextStep(tour, cfg, width)
    ensures (tour.overlay && !tour.cursor.NotANumber? && ForwardTarget(tour.cursor) >= 0 &&
             SkipForward(tour.items, ForwardTarget(tour.cursor), cfg, width) >= |tour.items|) ==>
      var j := SkipForward(tour.items, ForwardTarget(tour.cursor), cfg, width);
      r == Outcome(tour.(cursor := At(j), direction := Forward), [Complete(j)], Fault)
  {
    var fwd := tour.(direction := Forward);
    if tour.cursor.NotANumber? then Outcome(fwd, [], Fault)
    else Advance(fwd, ForwardTarget(tour.cursor), cfg, width, true)
  }

  /**
   * Completing a tour through _nextStep as written throws: the index has run
   * past the last item when _exitIntro reads that item's hide callback, so the
   * overlay stays on the page.
   */
  lemma CompletionFaultsAsWritten()
    ensures var tour := Tour(At(0), Forward, [NavItem(1, false, "bottom")], true);
      var r := NextStepAsWritten(tour, Config([], None), 1024);
      r.status == Fault && r.events == [Complete(1)] && r.tour.overlay && r.tour.cursor == At(1)
  {
    var tour := Tour(At(0), Forward, [NavItem(1, false, "bottom")], true);
    assert SkipForward(tour.items, 1, Config([], None), 1024) == 1;
  }

  /**
   * With the corrected exit, completing from the last step tears the tour
   * down and parks the index at 0. The exit sees the index already past the
   * last item, so no hide callback runs.
   */
  lemma CompletionExitsCleanly(tour: Tour, cfg: Config, width: nat)
    requires tour.overlay && tour.cursor == At(|tour.items| - 1) && |tour.items| > 0
    ensures NextStep(tour, cfg, width) ==
      Outcome(tour.(cursor := At(0), direction := Forward, overlay := false),
              [Complete(|tour.items|), Teardown], Done)
  {
    var n := |tour.items|;
    NextStepSpec(tour, cfg, width);
    assert SkipForward(tour.items, n, cfg, width) == n;
  }

  /** With the corrected exit, a forward move from the last item completes the tour once and exits it. */
  lemma LastMoveCompletes(tour: Tour, cfg: Config, width: nat)
    requires tour.overlay && tour.cursor == At(|tour.items| - 1) && |tour.items| > 0
    ensures var r := NextStep(tour, cfg, width);
      Completions(r.events) == 1 && !r.tour.overlay && r.tour.cursor == At(0) && r.status == Done
  {
    NextStepSpec(tour, cfg, width);
    assert SkipForward(tour.items, |tour.items|, cfg, width) == |tour.items|;
  }

  // ---------------------------------------------------------------------------
  // _previousStep
  // ---------------------------------------------------------------------------

  /**
   * _previousStep. Refused with the index unchanged at index 0 or at a
   * checkpoint; otherwise one back and further back past bypassed steps,
   * refused with the index left at -1 when that runs off the front. An index
   * naming no item throws when the loop reads it, and so does undefined
   * (decremented to NaN) or NaN.
   */
  function PreviousStep(tour: Tour, cfg: Config, width: nat): (r: Outcome)
    ensures r.tour.items == tour.items && r.tour.direction == Backward && r.tour.overlay == tour.overlay
    ensures forall e :: e in r.events ==> !e.Complete?
    ensures r.status == Refused && r.tour.cursor == tour.cursor <==>
      tour.cursor.At? && (tour.cursor.i == 0 || tour.cursor.i in cfg.checkpoints)
    ensures r.status == Fault <==>
      !tour.cursor.At? ||
      (tour.cursor.i != 0 && tour.cursor.i !in cfg.checkpoints && !(0 <= tour.cursor.i - 1 < |tour.items|))
    ensures r.status == Done ==>
      tour.cursor.At? && r.tour.cursor.At? &&
      var c := tour.cursor.i;
      var j := r.tour.cursor.i;
      0 <= j < c && c !in cfg.checkpoints && !Skipped(tour.items[j], cfg, width) &&
      (forall k :: j < k < c ==> Skipped(tour.items[k], cfg, width)) &&
      r.events == [BeforeChange(j), Render(j)]
    ensures r.status == Refused && r.tour.cursor != tour.cursor ==>
      r.tour.cursor == At(-1) && r.events == [] &&
      forall k :: 0 <= k < tour.cursor.i ==> Skipped(tour.items[k], cfg, width)
    ensures r.status != Done ==> r.events == []
    ensures RendersShowable(r, tour.items, cfg, width)
  {
    var back := tour.(direction := Backward);
    match tour.cursor
    case Unset => Outcome(back.(cursor := NotANumber), [], Fault)
    case NotANumber => Outcome(back, [], Fault)
    case At(c) =>
      if c == 0 || c in cfg.checkpoints then Outcome(back, [], Refused)
      else if !(0 <= c - 1 < |tour.items|) then Outcome(back.(cursor := At(c - 1)), [], Fault)
      else
        var j := SkipBackward(tour.items, c - 1, cfg, width);
        if j == -1 then Outcome(back.(cursor := At(-1)), [], Refused)
        else Outcome(back.(cursor := At(j)), [BeforeChange(j), Render(j)], Done)
  }

  // ---------------------------------------------------------------------------
  // _goToStep and _goToStepNumber
  // ---------------------------------------------------------------------------

  /** _goToStep(n): the index becomes n - 2, then one forward move, completing through the corrected exit. */
  function GoToStep(tour: Tour, n: int, cfg: Config, width: nat): (r: Outcome)
    ensures r.tour.items == tour.items
    ensures n <= 0 <==> r.status == Fault
    ensures NoSkipping(tour.items, cfg, width) && 1 <= n <= |tour.items| ==>
      r == Outcome(tour.(cursor := At(n - 1), direction := Forward), [BeforeChange(n - 1), Render(n - 1)], Done)
    ensures n > |tour.items| ==> Completions(r.events) == 1 && !r.tour.overlay
    ensures RendersShowable(r, tour.items, cfg, width)
  {
    var moved := tour.(cursor := At(n - 2));
    if n < 1 then NextStep(moved, cfg, width)
    else
      NextStepSpec(moved, cfg, width);
      assert n > |tour.items| ==> SkipForward(tour.items, n - 1, cfg, width) == n - 1;
      NextStep(moved, cfg, width)
  }

  /** The first index whose item carries step number n. */
  function FirstWithStep(items: seq<NavItem>, n: int): (r: Option<nat>)
    ensures r.Some? ==> r.value < |items| && items[r.value].step == n
    ensures r.Some? ==> forall k :: 0 <= k < r.value ==> items[k].step != n
    ensures r.None? ==> forall k :: 0 <= k < |items| ==> items[k].step != n
  {
    if |items| == 0 then None
    else if items[0].step == n then Some(0)
    else
      var rest := FirstWithStep(items[1..], n);
      if rest.Some? then Some(rest.value + 1) else None
  }

  /**
   * _goToStepNumber(n): a forward move from just before the first item
   * numbered n, completing through the corrected exit; nothing at all when
   * no item carries that number.
   */
  function GoToStepNumber(tour: Tour, n: int, cfg: Config, width: nat): (r: Outcome)
    ensures (forall k :: 0 <= k < |tour.items| ==> tour.items[k].step != n) ==> r == Outcome(tour, [], Done)
    ensures forall i ::
      (0 <= i < |tour.items| && tour.items[i].step == n &&
       (forall k :: 0 <= k < i ==> tour.items[k].step != n) &&
       !Skipped(tour.items[i], cfg, width)) ==>
      r == Outcome(tour.(cursor := At(i), direction := Forward), [BeforeChange(i), Render(i)], Done)
    ensures r.status != Fault
    ensures RendersShowable(r, tour.items, cfg, width)
  {
    FirstWithStepIsFirst(tour.items, n);
    match FirstWithStep(tour.items, n)
    case None => Outcome(tour, [], Done)
    case Some(i) =>
      var from := tour.(cursor := At(i - 1));
      NextStepSpec(from, cfg, width);
      assert !Skipped(tour.items[i], cfg, width) ==> SkipForward(tour.items, i, cfg, width) == i;
      NextStep(from, cfg, width)
  }

  /** The index FirstWithStep finds is the only one with the number and none before it. */
  lemma FirstWithStepIsFirst(items: seq<NavItem>, n: int)
    ensures forall i ::
      (0 <= i < |items| && items[i].step == n && (forall k :: 0 <= k < i ==> items[k].step != n))
      ==> FirstWithStep(items, n) == Some(i)
  {
    forall i | 0 <= i < |items| && items[i].step == n && (forall k :: 0 <= k < i ==> items[k].step != n)
      ensures FirstWithStep(items, n) == Some(i)
    {
      var r := FirstWithStep(items, n);
      assert r.Some?;
      assert !(r.value < i) && !(i < r.value);
    }
  }

  /**
   * The tail of _introForElement as intended: with the overlay added, one
   * forward move from undefined, so every start opens on the first step that
   * is not bypassed; completion goes through the corrected exit.
   */
  function Start(items: seq<NavItem>, cfg: Config, width: nat): (r: Outcome)
    ensures NoSkipping(items, cfg, width) && |items| > 0 ==>
      r == Outcome(Tour(At(0), Forward, items, true), [BeforeChange(0), Render(0)], Done)
    ensures |items| == 0 ==> Completions(r.events) == 1 && !r.tour.overlay && r.tour.cursor == At(0)
  {
    NextStepSpec(Tour(Unset, Undecided, items, true), cfg, width);
    NextStep(Tour(Unset, Undecided, items, true), cfg, width)
  }

  /**
   * start() as written: the forward move begins from whatever index the
   * instance holds (undefined only on a fresh instance; _exitIntro leaves 0)
   * and completes through the as-written exit.
   */
  function StartAsWritten(prior: Cursor, items: seq<NavItem>, cfg: Config, width: nat): (r: Outcome)
    ensures r.tour.items == items
    ensures prior.Unset? && SkipForward(items, 0, cfg, width) < |items| ==> r == Start(items, cfg, width)
    ensures prior == At(0) && NoSkipping(items, cfg, width) && |items| >= 2 ==>
      r == Outcome(Tour(At(1), Forward, items, true), [BeforeChange(1), Render(1)], Done)
    ensures |items| == 0 ==> r.status == Fault && r.tour.overlay
  {
    var entry := Tour(prior, Undecided, items, true);
    assert prior == At(0) && NoSkipping(items, cfg, width) && |items| >= 2 ==>
      SkipForward(items, 1, cfg, width) == 1;
    NextStepAsWritten(entry, cfg, width)
  }

  /**
   * Starting the same instance again after an exit opens on the second step:
   * the exit parked the index at 0 and the forward move adds one to it.
   */
  lemma RestartSkipsFirstStep(tour: Tour, items: seq<NavItem>, cfg: Config, width: nat)
    requires tour.overlay && NoSkipping(items, cfg, width) && |items| >= 2
    ensures var r := StartAsWritten(ExitIntro(tour).tour.cursor, items, cfg, width);
      r.tour.cursor == At(1) && r.events == [BeforeChange(1), Render(1)]
  {
  }

  /** A one-step tour started again after an exit throws: the move runs past its only item. */
  lemma RestartOfSingleStepFaults(tour: Tour, item: NavItem, cfg: Config, width: nat)
    requires tour.overlay
    ensures var r := StartAsWritten(ExitIntro(tour).tour.cursor, [item], cfg, width);
      r.status == Fault && r.events == [Complete(1)] && r.tour.overlay
  {
    assert SkipForward([item], 1, cfg, width) == 1;
  }

  // ---------------------------------------------------------------------------
  // Properties relating several transitions
  // ---------------------------------------------------------------------------

  /** previous then next from a middle step with no checkpoint and no bypassing returns to it. */
  lemma PreviousThenNext(tour: Tour, cfg: Config, width: nat)
    requires tour.cursor.At? && 0 < tour.cursor.i < |tour.items|
    requires tour.cursor.i !in cfg.checkpoints
    requires NoSkipping(tour.items, cfg, width)
    ensures var back := PreviousStep(tour, cfg, width);
      back.status == Done && back.tour.cursor == At(tour.cursor.i - 1) &&
      NextStep(back.tour, cfg, width).tour.cursor == tour.cursor &&
      NextStep(back.tour, cfg, width).status == Done
  {
    var i := tour.cursor.i;
    assert SkipBackward(tour.items, i - 1, cfg, width) == i - 1;
    NextStepSpec(PreviousStep(tour, cfg, width).tour, cfg, width);
    assert SkipForward(tour.items, i, cfg, width) == i;
  }

  /** next then previous from a step before the last returns to it, when the next step is no checkpoint. */
  lemma NextThenPrevious(tour: Tour, cfg: Config, width: nat)
    requires tour.cursor.At? && 0 <= tour.cursor.i && tour.cursor.i + 1 < |tour.items|
    requires tour.cursor.i + 1 !in cfg.checkpoints
    requires NoSkipping(tour.items, cfg, width)
    ensures var fwd := NextStep(tour, cfg, width);
      fwd.status == Done && fwd.tour.cursor == At(tour.cursor.i + 1) &&
      PreviousStep(fwd.tour, cfg, width).tour.cursor == tour.cursor &&
      PreviousStep(fwd.tour, cfg, width).status == Done
  {
    var i := tour.cursor.i;
    NextStepSpec(tour, cfg, width);
    assert SkipForward(tour.items, i + 1, cfg, width) == i + 1;
    assert SkipBackward(tour.items, i, cfg, width) == i;
  }

  /** k forward moves in a row, their traces concatenated; the status is the last move's. */
  function RunNext(tour: Tour, k: nat, cfg: Config, width: nat): (r: Outcome)
    ensures r.tour.items == tour.items
    decreases k
  {
    if k == 0 then Outcome(tour, [], Done)
    else
      var mid := RunNext(tour, k - 1, cfg, width);
      var last := NextStep(mid.tour, cfg, width);
      Outcome(last.tour, mid.events + last.events, last.status)
  }

  /** The last of k forward moves starts where the first k - 1 left the tour. */
  lemma RunNextLast(tour: Tour, k: nat, cfg: Config, width: nat)
    requires k > 0
    ensures var mid := RunNext(tour, k - 1, cfg, width);
      var last := NextStep(mid.tour, cfg, width);
      RunNext(tour, k, cfg, width) == Outcome(last.tour, mid.events + last.events, last.status)
  {
  }

  /** A forward move onto a step that is not bypassed shows it and changes nothing but the index and direction. */
  lemma StepWithin(tour: Tour, cfg: Config, width: nat)
    requires tour.cursor.At? && 0 <= tour.cursor.i && tour.cursor.i + 1 < |tour.items|
    requires !Skipped(tour.items[tour.cursor.i + 1], cfg, width)
    ensures var r := NextStep(tour, cfg, width);
      r.tour == tour.(cursor := At(tour.cursor.i + 1), direction := Forward) &&
      r.status == Done && Completions(r.events) == 0
  {
    var j := tour.cursor.i + 1;
    assert SkipForward(tour.items, j, cfg, width) == j;
    NextStepSpec(tour, cfg, width);
    NoCompletions([BeforeChange(j), Render(j)]);
  }

  /** k moves that stay within the items advance the index by k and complete nothing. */
  lemma {:induction false} RunNextWithin(tour: Tour, k: nat, cfg: Config, width: nat)
    requires tour.cursor.At? && 0 <= tour.cursor.i && tour.cursor.i + k < |tour.items|
    requires NoSkipping(tour.items, cfg, width)
    ensures var r := RunNext(tour, k, cfg, width);
      r.tour.cursor == At(tour.cursor.i + k) && r.tour.overlay == tour.overlay &&
      Completions(r.events) == 0 && r.status == Done
    decreases k
  {
    if k > 0 {
      var i := tour.cursor.i;
      var mid := RunNext(tour, k - 1, cfg, width);
      assert mid.tour.cursor == At(i + k - 1) && mid.tour.overlay == tour.overlay
        && Completions(mid.events) == 0 && mid.tour.items == tour.items by {
        RunNextWithin(tour, k - 1, cfg, width);
      }
      var last := NextStep(mid.tour, cfg, width);
      assert last.tour.cursor == At(i + k) && last.tour.overlay == tour.overlay
        && Completions(last.events) == 0 && last.status == Done by {
        StepWithin(mid.tour, cfg, width);
      }
      CompletionsAppend(mid.events, last.events);
      RunNextLast(tour, k, cfg, width);
    } else {
      assert Completions([]) == 0;
    }
  }

  /**
   * With the corrected exit, calling next as many times as there are items,
   * starting at the first, reaches completion exactly once and leaves the
   * tour exited at index 0.
   */
  lemma NextRunsToCompletionOnce(tour: Tour, cfg: Config, width: nat)
    requires tour.cursor == At(0) && tour.overlay && |tour.items| > 0
    requires NoSkipping(tour.items, cfg, width)
    ensures var r := RunNext(tour, |tour.items|, cfg, width);
      Completions(r.events) == 1 && !r.tour.overlay && r.tour.cursor == At(0) && r.status == Done
  {
    var n := |tour.items|;
    var mid := RunNext(tour, n - 1, cfg, width);
    assert Completions(mid.events) == 0 && mid.tour.cursor == At(n - 1) && mid.tour.overlay
      && mid.tour.items == tour.items by {
      RunNextWithin(tour, n - 1, cfg, width);
    }
    var last := NextStep(mid.tour, cfg, width);
    assert Completions(last.events) == 1 && !last.tour.overlay && last.tour.cursor == At(0) && last.status == Done by {
      LastMoveCompletes(mid.tour, cfg, width);
    }
    RunNextLast(tour, n, cfg, width);
    CompletionsAppend(mid.events, last.events);
  }

  /** With a threshold set and the window narrower, a flagged step is passed over in both directions. */
  lemma MobileSkipBothWays(tour: Tour, cfg: Config, width: nat)
    requires tour.cursor.At? && 0 <= tour.cursor.i && tour.cursor.i + 2 < |tour.items|
    requires Skipped(tour.items[tour.cursor.i + 1], cfg, width)
    requires !Skipped(tour.items[tour.cursor.i], cfg, width) && !Skipped(tour.items[tour.cursor.i + 2], cfg, width)
    requires tour.cursor.i + 2 !in cfg.checkpoints
    ensures var fwd := NextStep(tour, cfg, width);
      fwd.tour.cursor == At(tour.cursor.i + 2) &&
      PreviousStep(fwd.tour, cfg, width).tour.cursor == tour.cursor
  {
    var i := tour.cursor.i;
    NextStepSpec(tour, cfg, width);
    assert SkipForward(tour.items, i + 2, cfg, width) == i + 2;
    assert SkipForward(tour.items, i + 1, cfg, width) == i + 2;
    assert SkipBackward(tour.items, i, cfg, width) == i;
    assert SkipBackward(tour.items, i + 1, cfg, width) == i;
  }
}
