/**
 * The popover's open/close state machine. A close with motion keeps the
 * content on screen while `closing` is set. A timer then clears `closing`,
 * but only if no later open or close has happened: each of those advances
 * `closing_id`, and the timer compares it with the id it captured.
 */
module Popover {
  import opened Wrappers

  /** `POPOVER_OPEN_DURATION` and `POPOVER_CLOSE_DURATION`, in milliseconds. */
  const OpenDurationMs: nat := 180
  const CloseDurationMs: nat := 140

  /** The fields of `PopoverState` that opening and closing change. */
  datatype Phase = Phase(open: bool, closing: bool, closingId: nat)

  predicate ValidPhase(p: Phase)
  {
    p.closingId < U64
  }

  /**
   * The outcome of `set_open`: the new phase, whether the call had any
   * effect (and so called `on_open_change`), and the `closing_id` captured
   * by the close timer it started, if it started one.
   */
  datatype Transition = Transition(phase: Phase, effective: bool, timer: Option<nat>)

  function SetOpenOutcome(p: Phase, open: bool, reducedMotion: bool): (t: Transition)
    requires ValidPhase(p)
    ensures ValidPhase(t.phase)
    ensures t.effective <==> if open then !p.open || p.closing else p.open || p.closing
    ensures !t.effective ==> t.phase == p && t.timer == None
    ensures t.effective ==> t.phase.open == open && !(t.phase.open && t.phase.closing)
    ensures t.effective && (open || !reducedMotion) ==> t.phase.closingId == WrappingInc(p.closingId)
    ensures t.effective && !open && reducedMotion ==> !t.phase.closing && t.phase.closingId == p.closingId
    ensures t.timer.Some? <==> t.effective && !open && !reducedMotion
    ensures t.timer.Some? ==> t.phase.closing && t.timer.value == t.phase.closingId
  {
    if open then
      if p.open && !p.closing then Transition(p, false, None)
      else Transition(Phase(true, false, WrappingInc(p.closingId)), true, None)
    else if !p.open && !p.closing then Transition(p, false, None)
    else if reducedMotion then Transition(Phase(false, false, p.closingId), true, None)
    else
      var id := WrappingInc(p.closingId);
      Transition(Phase(false, true, id), true, Some(id))
  }

  /** The close timer that captured `id` has fired. */
  function FireTimer(p: Phase, id: nat): (q: Phase)
    ensures q.open == p.open && q.closingId == p.closingId
    ensures q.closing <==> p.closing && p.closingId != id
  {
    if p.closing && p.closingId == id then p.(closing := false) else p
  }

  /** Whether a `set_open` call advances `closing_id`. */
  predicate Advances(p: Phase, open: bool, reducedMotion: bool)
    requires ValidPhase(p)
  {
    SetOpenOutcome(p, open, reducedMotion).effective && (open || !reducedMotion)
  }

  /** A call of `set_open(open)` made while the global reduced-motion flag was `reducedMotion`. */
  datatype Request = Request(open: bool, reducedMotion: bool)

  /** The phase after a sequence of `set_open` calls. */
  function Run(p: Phase, reqs: seq<Request>): (q: Phase)
    requires ValidPhase(p)
    ensures ValidPhase(q)
    decreases |reqs|
  {
    if reqs == [] then p
    else
      var last := reqs[|reqs| - 1];
      SetOpenOutcome(Run(p, reqs[..|reqs| - 1]), last.open, last.reducedMotion).phase
  }

  /** How many calls of a sequence advanced `closing_id`. */
  function Advanced(p: Phase, reqs: seq<Request>): (n: nat)
    requires ValidPhase(p)
    ensures n <= |reqs|
    decreases |reqs|
  {
    if reqs == [] then 0
    else
      var last := reqs[|reqs| - 1];
      Advanced(p, reqs[..|reqs| - 1])
        + if Advances(Run(p, reqs[..|reqs| - 1]), last.open, last.reducedMotion) then 1 else 0
  }

  /** One call moves `closing_id` on by one exactly when it advances it, and only an advancing call can start a close. */
  lemma StepCounts(q: Phase, r: Request, k: nat, j: nat)
    requires ValidPhase(q) && k < U64 && j + 1 < U64 && q.closingId == (k + j) % U64
    ensures SetOpenOutcome(q, r.open, r.reducedMotion).phase.closingId
      == (k + j + if Advances(q, r.open, r.reducedMotion) then 1 else 0) % U64
    ensures !Advances(q, r.open, r.reducedMotion) && SetOpenOutcome(q, r.open, r.reducedMotion).phase.closing ==>
      SetOpenOutcome(q, r.open, r.reducedMotion).phase == q
  {
    WrappingIncAfter(k, j);
  }

  /**
   * After a sequence of calls, `closing_id` has moved on by the number of
   * advancing calls, and if none advanced it the popover is either
   * untouched or no longer closing.
   */
  lemma {:induction false} RunCounts(p: Phase, reqs: seq<Request>)
    requires ValidPhase(p) && |reqs| + 1 < U64
    ensures Run(p, reqs).closingId == (p.closingId + Advanced(p, reqs)) % U64
    ensures Advanced(p, reqs) == 0 ==> Run(p, reqs) == p || !Run(p, reqs).closing
    decreases |reqs|
  {
    if reqs != [] {
      var init := reqs[..|reqs| - 1];
      RunCounts(p, init);
      StepCounts(Run(p, init), reqs[|reqs| - 1], p.closingId, Advanced(p, init));
    }
  }

  /**
   * A close timer only acts if nothing has changed since it was started:
   * once the phase differs from the one the timer captured, firing it
   * changes nothing. The bound keeps the `u64` counter from wrapping all
   * the way round.
   */
  lemma StaleTimerIsIgnored(p: Phase, reqs: seq<Request>)
    requires ValidPhase(p) && |reqs| + 1 < U64
    ensures Run(p, reqs) != p ==> FireTimer(Run(p, reqs), p.closingId) == Run(p, reqs)
  {
    RunCounts(p, reqs);
    var j := Advanced(p, reqs);
    if j > 0 {
      WrappingIncAfter(p.closingId, j - 1);
    }
  }

  /** The timer of the latest close does end the exit animation. */
  lemma LatestTimerEndsClosing(p: Phase)
    requires ValidPhase(p) && (p.open || p.closing)
    ensures var t := SetOpenOutcome(p, false, false);
      t.timer.Some? && FireTimer(t.phase, t.timer.value) == Phase(false, false, t.phase.closingId)
  {
  }

  /**
   * The trigger's mouse-up handler first resets `open` to the value it had
   * when the trigger was rendered and then toggles: the toggle always takes
   * effect and lands on the opposite of what was rendered.
   */
  lemma MouseUpAlwaysTakesEffect(p: Phase, renderedOpen: bool, reducedMotion: bool)
    requires ValidPhase(p)
    ensures var t := SetOpenOutcome(p.(open := renderedOpen), !renderedOpen, reducedMotion);
      t.effective && t.phase.open == !renderedOpen
  {
  }

  /** Opening an open popover, or closing a closed one, twice in a row: the second call does nothing. */
  lemma SetOpenIdempotent(p: Phase, open: bool, reducedMotion: bool)
    requires ValidPhase(p)
    ensures var q := SetOpenOutcome(p, open, reducedMotion).phase;
      !SetOpenOutcome(q, open, reducedMotion).effective || (!open && q.closing)
  {
  }

  /** What rendering the popover's content looks like. */
  datatype Content = Content(closing: bool, animationMs: Option<nat>, dismissOnMouseUpOutside: bool)

  /** What `Popover::render` produces: nothing without a trigger, else the trigger and maybe the content. */
  datatype Rendered =
    | Empty
    | WithTrigger(triggerOpen: bool, mouseUpOpen: bool, content: Option<Content>)

  function RenderPlan(p: Phase, hasTrigger: bool, reducedMotion: bool, overlayClosable: bool): (r: Rendered)
    ensures r.Empty? <==> !hasTrigger
    ensures r.WithTrigger? ==> r.triggerOpen == (p.open || p.closing) && r.mouseUpOpen == p.open
    ensures r.WithTrigger? ==> (r.content.Some? <==> p.open || p.closing)
    ensures r.WithTrigger? && r.content.Some? ==>
      && r.content.value.closing == p.closing
      && (r.content.value.animationMs.Some? <==> !reducedMotion)
      && r.content.value.dismissOnMouseUpOutside == overlayClosable
    ensures r.WithTrigger? && r.content.Some? && r.content.value.animationMs.Some? ==>
      r.content.value.animationMs.value == if p.closing then CloseDurationMs else OpenDurationMs
  {
    if !hasTrigger then Empty
    else
      var isOpen := p.open || p.closing;
      var content :=
        if !isOpen then None
        else
          var anim := if reducedMotion then None
            else Some(if p.closing then CloseDurationMs else OpenDurationMs);
          Some(Content(p.closing, anim, overlayClosable));
      WithTrigger(isOpen, p.open, content)
  }

  class PopoverState {
    var open: bool
    var closing: bool
    var closingId: nat
    /** Whether the popover was built with an `on_open_change` callback. */
    var hasOpenChangeHandler: bool
    /** The values passed to `on_open_change`, in order. */
    var openChanges: seq<bool>

    ghost predicate Valid()
      reads this`closingId
    {
      closingId < U64
    }

    function Current(): (p: Phase)
      reads this`open, this`closing, this`closingId
      ensures p.open == open && p.closing == closing && p.closingId == closingId
    {
      Phase(open, closing, closingId)
    }

    constructor (defaultOpen: bool)
      ensures Valid()
      ensures open == defaultOpen && !closing && closingId == 0
      ensures !hasOpenChangeHandler && openChanges == []
    {
      open := defaultOpen;
      closing := false;
      closingId := 0;
      hasOpenChangeHandler := false;
      openChanges := [];
    }

    function IsOpen(): (b: bool)
      reads this`open
      ensures b <==> Current().open
    {
      open
    }

    method SetOpen(o: bool, reducedMotion: bool) returns (timer: Option<nat>)
      requires Valid()
      modifies this`open, this`closing, this`closingId, this`openChanges
      ensures Valid()
      ensures Current() == SetOpenOutcome(old(Current()), o, reducedMotion).phase
      ensures timer == SetOpenOutcome(old(Current()), o, reducedMotion).timer
      ensures openChanges == if SetOpenOutcome(old(Current()), o, reducedMotion).effective && hasOpenChangeHandler
        then old(openChanges) + [open] else old(openChanges)
    {
      timer := None;
      if o {
        if open && !closing {
          return;
        }
        open := true;
        closing := false;
        closingId := WrappingInc(closingId);
      } else {
        if !open && !closing {
          return;
        }
        open := false;
        if reducedMotion {
          closing := false;
        } else {
          closing := true;
          closingId := WrappingInc(closingId);
          timer := Some(closingId);
        }
      }
      if hasOpenChangeHandler {
        openChanges := openChanges + [open];
      }
    }

    /** Close the popover if it is open; the escape key's cancel action does the same. */
    method Dismiss(reducedMotion: bool) returns (timer: Option<nat>)
      requires Valid()
      modifies this`open, this`closing, this`closingId, this`openChanges
      ensures Valid()
      ensures !old(open) ==> Current() == old(Current()) && timer == None && openChanges == old(openChanges)
      ensures old(open) ==> Current() == SetOpenOutcome(old(Current()), false, reducedMotion).phase
      ensures old(open) ==> timer == SetOpenOutcome(old(Current()), false, reducedMotion).timer
      ensures old(open) ==> openChanges == if hasOpenChangeHandler then old(openChanges) + [false] else old(openChanges)
    {
      timer := None;
      if open {
        timer := SetOpen(false, reducedMotion);
      }
    }

    /** Open the popover if it is closed. */
    method Show(reducedMotion: bool) returns (timer: Option<nat>)
      requires Valid()
      modifies this`open, this`closing, this`closingId, this`openChanges
      ensures Valid()
      ensures old(open) ==> Current() == old(Current()) && timer == None && openChanges == old(openChanges)
      ensures !old(open) ==> Current() == SetOpenOutcome(old(Current()), true, reducedMotion).phase
      ensures !old(open) ==> Current().open && !Current().closing && timer == None
      ensures !old(open) ==> openChanges == if hasOpenChangeHandler then old(openChanges) + [true] else old(openChanges)
    {
      timer := None;
      if !open {
        timer := SetOpen(true, reducedMotion);
      }
    }

    method ToggleOpen(reducedMotion: bool) returns (timer: Option<nat>)
      requires Valid()
      modifies this`open, this`closing, this`closingId, this`openChanges
      ensures Valid()
      ensures Current() == SetOpenOutcome(old(Current()), !old(open), reducedMotion).phase
      ensures timer == SetOpenOutcome(old(Current()), !old(open), reducedMotion).timer
      ensures openChanges == if SetOpenOutcome(old(Current()), !old(open), reducedMotion).effective && hasOpenChangeHandler
        then old(openChanges) + [open] else old(openChanges)
    {
      timer := SetOpen(!open, reducedMotion);
    }

    /** The close timer that captured `id` has fired. */
    method CloseTimerFired(id: nat)
      modifies this`closing
      ensures Current() == FireTimer(old(Current()), id)
    {
      if closing && closingId == id {
        closing := false;
      }
    }
  }

  /**
   * Rendering a `Popover`: the element's `open` setting, if any, overrides
   * the state's `open` without going through `set_open`, the element's
   * callback replaces the state's, and then the trigger and content are
   * laid out from the state.
   */
  method Render(state: PopoverState, forceOpen: Option<bool>, handler: bool, hasTrigger: bool,
                reducedMotion: bool, overlayClosable: bool) returns (r: Rendered)
    modifies state`open, state`hasOpenChangeHandler
    ensures state.hasOpenChangeHandler == handler
    ensures state.open == if forceOpen.Some? then forceOpen.value else old(state.open)
    ensures r == RenderPlan(state.Current(), hasTrigger, reducedMotion, overlayClosable)
  {
    state.hasOpenChangeHandler := handler;
    if forceOpen.Some? {
      state.open := forceOpen.value;
    }
    r := RenderPlan(state.Current(), hasTrigger, reducedMotion, overlayClosable);
  }

  /** The trigger's mouse-up handler: reset `open` to its rendered value, then toggle. */
  method OnTriggerMouseUp(state: PopoverState, renderedOpen: bool, reducedMotion: bool) returns (timer: Option<nat>)
    requires state.Valid()
    modifies state`open, state`closing, state`closingId, state`openChanges
    ensures state.Valid()
    ensures state.open == !renderedOpen
    ensures state.Current() == SetOpenOutcome(old(state.Current()).(open := renderedOpen), !renderedOpen, reducedMotion).phase
    ensures timer == SetOpenOutcome(old(state.Current()).(open := renderedOpen), !renderedOpen, reducedMotion).timer
    ensures state.openChanges == if state.hasOpenChangeHandler then old(state.openChanges) + [!renderedOpen]
      else old(state.openChanges)
  {
    state.open := renderedOpen;
    MouseUpAlwaysTakesEffect(old(state.Current()), renderedOpen, reducedMotion);
    timer := state.ToggleOpen(reducedMotion);
  }
}
