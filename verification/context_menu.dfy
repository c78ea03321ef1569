/**
 * The state a context menu shares between its mouse handler, its deferred
 * menu builder, its dismiss subscription and its close timer. A right
 * click opens the menu at the pointer and builds it on the next frame; a
 * dismiss either removes it at once (reduced motion) or lets it play an
 * exit animation that a timer ends, unless the menu was reopened or
 * dismissed again in the meantime.
 */
module ContextMenu {
  import opened Wrappers

  /** `CONTEXT_MENU_OPEN_DURATION` and `CONTEXT_MENU_CLOSE_DURATION`, in milliseconds. */
  const OpenDurationMs: nat := 180
  const CloseDurationMs: nat := 140

  /** A position in window coordinates. */
  datatype Point = Point(x: real, y: real)

  const Origin: Point := Point(0.0, 0.0)

  /** A built popup menu: its entity and the number of items the builder gave it. */
  datatype Menu = Menu(entity: nat, itemCount: nat)

  datatype MouseButton = Left | Right | Middle

  /**
   * The fields of `ContextMenuSharedState`. `subscription` is the menu
   * entity whose dismiss events the state currently listens to.
   */
  datatype Shared = Shared(
    menuView: Option<Menu>,
    open: bool,
    closing: bool,
    closingId: nat,
    position: Point,
    subscription: Option<nat>)

  predicate ValidShared(s: Shared)
  {
    s.closingId < U64
  }

  /** The shared state a fresh element starts with. */
  const Initial: Shared := Shared(None, false, false, 0, Origin, None)

  /** A right-button mouse-down in the bubble phase over the element's hitbox. */
  predicate OpensMenu(bubble: bool, button: MouseButton, hovered: bool)
  {
    bubble && button == Right && hovered
  }

  /** The synchronous part of a right click: drop the old menu, move to the pointer, open, and advance the id. */
  function RightClick(s: Shared, pos: Point): (r: Shared)
    requires ValidShared(s)
    ensures ValidShared(r)
    ensures r.menuView == None && r.subscription == None && r.position == pos
    ensures r.open && !r.closing && r.closingId == WrappingInc(s.closingId)
  {
    Shared(None, true, false, WrappingInc(s.closingId), pos, None)
  }

  /** The deferred build after a right click: store the menu and listen to its dismiss events. */
  function Built(s: Shared, menu: Menu): (r: Shared)
    ensures r.menuView == Some(menu) && r.subscription == Some(menu.entity)
    ensures r.open == s.open && r.closing == s.closing && r.closingId == s.closingId && r.position == s.position
  {
    s.(menuView := Some(menu), subscription := Some(menu.entity))
  }

  /**
   * The menu `entity` emitted a dismiss event. Only the subscribed menu is
   * heard. With reduced motion the menu goes at once; otherwise it stays
   * for the exit animation and a timer is started with the new id.
   */
  function Dismissed(s: Shared, entity: nat, reducedMotion: bool): (r: (Shared, Option<nat>))
    requires ValidShared(s)
    ensures ValidShared(r.0)
    ensures s.subscription != Some(entity) ==> r.0 == s && r.1 == None
    ensures s.subscription == Some(entity) ==>
      && !r.0.open
      && r.0.closing == !reducedMotion
      && r.0.closingId == WrappingInc(s.closingId)
      && r.0.menuView == (if reducedMotion then None else s.menuView)
      && r.0.position == s.position && r.0.subscription == s.subscription
    ensures r.1.Some? <==> s.subscription == Some(entity) && !reducedMotion
    ensures r.1.Some? ==> r.1.value == r.0.closingId
  {
    if s.subscription != Some(entity) then (s, None)
    else if reducedMotion then
      (s.(open := false, closing := false, menuView := None, closingId := WrappingInc(s.closingId)), None)
    else
      var id := WrappingInc(s.closingId);
      (s.(open := false, closing := true, closingId := id), Some(id))
  }

  /** The close timer that captured `id` has fired: it ends the exit animation only if nothing has happened since. */
  function TimerFired(s: Shared, id: nat): (r: Shared)
    ensures r.open == s.open && r.closingId == s.closingId && r.position == s.position
    ensures r.subscription == s.subscription
    ensures s.closing && s.closingId == id ==> !r.closing && r.menuView == None
    ensures !(s.closing && s.closingId == id) ==> r == s
  {
    if s.closing && s.closingId == id then s.(closing := false, menuView := None) else s
  }

  /** The menu as laid out: its position and, unless motion is reduced, its animation. */
  datatype MenuElement = MenuElement(menu: Menu, position: Point, animation: Option<Animation>)

  /** An enter or exit animation; its element id is `context-menu-motion` numbered by `closing`. */
  datatype Animation = Animation(closing: bool, durationMs: nat, idNumber: nat)

  /** The menu element `request_layout` adds to the wrapped element, if any. */
  function MenuElementOf(s: Shared, reducedMotion: bool): (e: Option<MenuElement>)
    ensures e.Some? <==> (s.open || s.closing) && s.menuView.Some? && s.menuView.value.itemCount > 0
    ensures e.Some? ==> e.value.menu == s.menuView.value && e.value.position == s.position
    ensures e.Some? ==> (e.value.animation.None? <==> reducedMotion)
    ensures e.Some? && e.value.animation.Some? ==>
      && e.value.animation.value.closing == s.closing
      && e.value.animation.value.durationMs == (if s.closing then CloseDurationMs else OpenDurationMs)
      && e.value.animation.value.idNumber == (if s.closing then 1 else 0)
  {
    if !(s.open || s.closing) then None
    else if s.menuView.None? || s.menuView.value.itemCount == 0 then None
    else
      var anim := if reducedMotion then None
        else Some(Animation(s.closing, if s.closing then CloseDurationMs else OpenDurationMs, if s.closing then 1 else 0));
      Some(MenuElement(s.menuView.value, s.position, anim))
  }

  /** Anything that reaches the shared state. */
  datatype Event =
    | RightClickAt(pos: Point)
    | MenuBuilt(menu: Menu)
    | DismissFrom(entity: nat, reducedMotion: bool)
    | TimerDone(id: nat)

  function Step(s: Shared, e: Event): (r: Shared)
    requires ValidShared(s)
    ensures ValidShared(r)
  {
    match e
    case RightClickAt(pos) => RightClick(s, pos)
    case MenuBuilt(menu) => Built(s, menu)
    case DismissFrom(entity, rm) => Dismissed(s, entity, rm).0
    case TimerDone(id) => TimerFired(s, id)
  }

  /** Whether an event advances `closing_id`. */
  predicate Advances(s: Shared, e: Event)
  {
    e.RightClickAt? || (e.DismissFrom? && s.subscription == Some(e.entity))
  }

  function Run(s: Shared, events: seq<Event>): (r: Shared)
    requires ValidShared(s)
    ensures ValidShared(r)
    decreases |events|
  {
    if events == [] then s else Step(Run(s, events[..|events| - 1]), events[|events| - 1])
  }

  function Advanced(s: Shared, events: seq<Event>): (n: nat)
    requires ValidShared(s)
    ensures n <= |events|
    decreases |events|
  {
    if events == [] then 0
    else
      var init := events[..|events| - 1];
      Advanced(s, init) + if Advances(Run(s, init), events[|events| - 1]) then 1 else 0
  }

  /** One event moves `closing_id` on by one exactly when it advances it. */
  lemma StepCounts(s: Shared, e: Event, k: nat, j: nat)
    requires ValidShared(s) && k < U64 && j + 1 < U64 && s.closingId == (k + j) % U64
    ensures Step(s, e).closingId == (k + j + if Advances(s, e) then 1 else 0) % U64
    ensures !Advances(s, e) && Step(s, e).closing ==> s.closing
  {
    WrappingIncAfter(k, j);
  }

  /** After any events, the id has moved on by the number of advancing events; without one, closing was not restarted. */
  lemma {:induction false} RunCounts(s: Shared, events: seq<Event>)
    requires ValidShared(s) && |events| + 1 < U64
    ensures Run(s, events).closingId == (s.closingId + Advanced(s, events)) % U64
    ensures Advanced(s, events) == 0 && Run(s, events).closing ==> s.closing
    decreases |events|
  {
    if events != [] {
      var init := events[..|events| - 1];
      RunCounts(s, init);
      StepCounts(Run(s, init), events[|events| - 1], s.closingId, Advanced(s, init));
    }
  }

  /**
   * A close timer is ignored once the menu has been reopened or dismissed
   * again after it started, whatever else happened; the bound keeps the
   * `u64` id from wrapping all the way round.
   */
  lemma StaleTimerIsIgnored(s: Shared, events: seq<Event>)
    requires ValidShared(s) && |events| + 1 < U64
    ensures Advanced(s, events) > 0 ==> TimerFired(Run(s, events), s.closingId) == Run(s, events)
  {
    RunCounts(s, events);
    var j := Advanced(s, events);
    if j > 0 {
      WrappingIncAfter(s.closingId, j - 1);
    }
  }

  /**
   * Right after a right click the menu is open but not laid out until the
   * deferred build completes; from then on it is shown at the pointer if
   * it has items.
   */
  lemma RightClickThenBuild(s: Shared, pos: Point, menu: Menu, reducedMotion: bool)
    requires ValidShared(s)
    ensures MenuElementOf(RightClick(s, pos), reducedMotion) == None
    ensures var e := MenuElementOf(Built(RightClick(s, pos), menu), reducedMotion);
      (e.Some? <==> menu.itemCount > 0) && (e.Some? ==> e.value.position == pos && e.value.menu == menu)
  {
  }

  /**
   * A dismiss with motion keeps the menu on screen, animating out, until its
   * own timer fires; with reduced motion it disappears at once.
   */
  lemma DismissLifecycle(s: Shared, menu: Menu, reducedMotion: bool)
    requires ValidShared(s) && s.open && s.menuView == Some(menu) && menu.itemCount > 0
    requires s.subscription == Some(menu.entity)
    ensures var (d, timer) := Dismissed(s, menu.entity, reducedMotion);
      reducedMotion ==> MenuElementOf(d, reducedMotion) == None && timer == None
    ensures var (d, timer) := Dismissed(s, menu.entity, reducedMotion);
      !reducedMotion ==>
        && timer.Some?
        && MenuElementOf(d, reducedMotion).Some?
        && MenuElementOf(d, reducedMotion).value.animation == Some(Animation(true, CloseDurationMs, 1))
        && MenuElementOf(TimerFired(d, timer.value), reducedMotion) == None
  {
  }

  class ContextMenuSharedState {
    var menuView: Option<Menu>
    var open: bool
    var closing: bool
    var closingId: nat
    var position: Point
    var subscription: Option<nat>

    ghost predicate Valid()
      reads this`closingId
    {
      closingId < U64
    }

    function Current(): (s: Shared)
      reads this
      ensures s.menuView == menuView && s.open == open && s.closing == closing
      ensures s.closingId == closingId && s.position == position && s.subscription == subscription
    {
      Shared(menuView, open, closing, closingId, position, subscription)
    }

    /** The state of a fresh `ContextMenuState`. */
    constructor ()
      ensures Valid() && Current() == Initial
    {
      menuView := None;
      open := false;
      closing := false;
      closingId := 0;
      position := Origin;
      subscription := None;
    }

    /** The mouse-down handler; `scheduled` says whether a deferred build was queued. */
    method OnMouseDown(bubble: bool, button: MouseButton, hovered: bool, pos: Point) returns (scheduled: bool)
      requires Valid()
      modifies this
      ensures Valid()
      ensures scheduled <==> OpensMenu(bubble, button, hovered)
      ensures scheduled ==> Current() == RightClick(old(Current()), pos)
      ensures !scheduled ==> Current() == old(Current())
    {
      scheduled := false;
      if bubble && button == Right && hovered {
        menuView := None;
        subscription := None;
        position := pos;
        open := true;
        closing := false;
        closingId := WrappingInc(closingId);
        scheduled := true;
      }
    }

    /** The deferred build has produced `menu`. */
    method OnMenuBuilt(menu: Menu)
      modifies this`menuView, this`subscription
      ensures Current() == Built(old(Current()), menu)
    {
      subscription := Some(menu.entity);
      menuView := Some(menu);
    }

    /** A dismiss event from the menu `entity`; `timer` is the id captured by the close timer it started. */
    method OnDismiss(entity: nat, reducedMotion: bool) returns (timer: Option<nat>)
      requires Valid()
      modifies this`open, this`closing, this`closingId, this`menuView
      ensures Valid()
      ensures (Current(), timer) == Dismissed(old(Current()), entity, reducedMotion)
    {
      timer := None;
      if subscription != Some(entity) {
        return;
      }
      if reducedMotion {
        open := false;
        closing := false;
        menuView := None;
        closingId := WrappingInc(closingId);
        return;
      }
      open := false;
      closing := true;
      closingId := WrappingInc(closingId);
      timer := Some(closingId);
    }

    method OnCloseTimer(id: nat)
      modifies this`closing, this`menuView
      ensures Current() == TimerFired(old(Current()), id)
    {
      if closing && closingId == id {
        closing := false;
        menuView := None;
      }
    }
  }
}
