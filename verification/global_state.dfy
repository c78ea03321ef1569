/**
 * The application-wide context stacks: blur, reduced motion and floating
 * inset. The scope elements push a value before painting their child and
 * pop it afterwards. The bottom element of each stack is the base value,
 * and `pop` never removes it.
 */
module ContextStacks {
  import opened Wrappers

  /** The value on top of `s`, or `default` when `s` is empty. */
  function Top<T>(s: seq<T>, default: T): (t: T)
    ensures |s| > 0 ==> t == s[|s| - 1]
  {
    if |s| > 0 then s[|s| - 1] else default
  }

  /** Drop the top element, unless it is the only one. */
  function Pop<T>(s: seq<T>): (r: seq<T>)
    ensures |s| <= 1 ==> r == s
    ensures |s| > 1 ==> |r| == |s| - 1 && r == s[..|s| - 1]
  {
    if |s| > 1 then s[..|s| - 1] else s
  }

  /** Replace the bottom element, if there is one. */
  function SetBase<T>(s: seq<T>, x: T): (r: seq<T>)
    ensures |r| == |s|
    ensures |s| > 0 ==> r[0] == x && r[1..] == s[1..]
    ensures |s| == 0 ==> r == []
  {
    if |s| > 0 then s[0 := x] else s
  }

  /** After a push, the read returns the pushed value. */
  lemma TopAfterPush<T>(s: seq<T>, x: T, default: T)
    ensures Top(s + [x], default) == x
  {
  }

  /** A push followed by a pop restores the stack exactly. */
  lemma PopAfterPush<T>(s: seq<T>, x: T)
    requires |s| >= 1
    ensures Pop(s + [x]) == s
  {
    assert (s + [x])[..|s|] == s;
  }

  /** A pop never empties a non-empty stack. */
  lemma PopKeepsBase<T>(s: seq<T>)
    requires |s| >= 1
    ensures |Pop(s)| >= 1 && Pop(s)[0] == s[0]
  {
  }

  /** Any number of pops leaves a non-empty stack non-empty, with its base intact. */
  lemma {:induction false} PopsKeepBase<T>(s: seq<T>, n: nat)
    requires |s| >= 1
    ensures |Pops(s, n)| >= 1 && Pops(s, n)[0] == s[0]
    decreases n
  {
    if n > 0 {
      PopsKeepBase(s, n - 1);
      PopKeepsBase(Pops(s, n - 1));
    }
  }

  /** The stack after `n` pops. */
  function Pops<T>(s: seq<T>, n: nat): (r: seq<T>)
    ensures |r| <= |s|
    decreases n
  {
    if n == 0 then s else Pop(Pops(s, n - 1))
  }

  /** Setting the base leaves the values pushed above it, and the top of a stack with pushed values, unchanged. */
  lemma SetBaseKeepsPushed<T>(s: seq<T>, x: T, default: T)
    requires |s| > 1
    ensures Top(SetBase(s, x), default) == Top(s, default)
    ensures SetBase(s, x)[1..] == s[1..]
  {
  }

  /** With only the base on the stack, setting the base changes what the read returns. */
  lemma SetBaseOnBaseOnly<T>(s: seq<T>, x: T, default: T)
    requires |s| == 1
    ensures Top(SetBase(s, x), default) == x
  {
  }

  /** Pixels, kept as an exact value: the stacks only store and return it. */
  type Pixels = real

  const DEFAULT_INSET: Pixels := 4.0

  /** A handle to a text view's state entity. */
  type EntityId = nat

  class GlobalState {
    var textViewStates: seq<EntityId>
    var blurStack: seq<bool>
    var reducedMotionStack: seq<bool>
    var insetStack: seq<Pixels>

    /** No stack loses its base element. */
    ghost predicate Valid()
      reads this
    {
      |blurStack| >= 1 && |reducedMotionStack| >= 1 && |insetStack| >= 1
    }

    /** Blur on, reduced motion off, inset 4, and no text view state. */
    constructor ()
      ensures Valid()
      ensures textViewStates == [] && blurStack == [true]
      ensures reducedMotionStack == [false] && insetStack == [DEFAULT_INSET]
    {
      textViewStates := [];
      blurStack := [true];
      reducedMotionStack := [false];
      insetStack := [DEFAULT_INSET];
    }

    /** The innermost text view state, if any. */
    function TextViewState(): (r: Option<EntityId>)
      reads this`textViewStates
      ensures r.None? <==> textViewStates == []
      ensures r.Some? ==> r.value == textViewStates[|textViewStates| - 1]
    {
      if textViewStates == [] then None else Some(textViewStates[|textViewStates| - 1])
    }

    /** Whether blur is enabled; `true` if the stack were ever empty. */
    function BlurEnabled(): (b: bool)
      reads this`blurStack
      ensures |blurStack| > 0 ==> b == blurStack[|blurStack| - 1]
      ensures |blurStack| == 0 ==> b
    {
      Top(blurStack, true)
    }

    /** Whether motion is reduced; `false` if the stack were ever empty. */
    function ReducedMotion(): (b: bool)
      reads this`reducedMotionStack
      ensures |reducedMotionStack| > 0 ==> b == reducedMotionStack[|reducedMotionStack| - 1]
      ensures |reducedMotionStack| == 0 ==> !b
    {
      Top(reducedMotionStack, false)
    }

    /** The floating inset; 4 pixels if the stack were ever empty. */
    function FloatingInset(): (p: Pixels)
      reads this`insetStack
      ensures |insetStack| > 0 ==> p == insetStack[|insetStack| - 1]
      ensures |insetStack| == 0 ==> p == DEFAULT_INSET
    {
      Top(insetStack, DEFAULT_INSET)
    }

    method PushBlurEnabled(enabled: bool)
      requires Valid()
      modifies this`blurStack
      ensures Valid() && blurStack == old(blurStack) + [enabled]
      ensures BlurEnabled() == enabled
    {
      blurStack := blurStack + [enabled];
    }

    method PopBlurEnabled()
      requires Valid()
      modifies this`blurStack
      ensures Valid() && blurStack == Pop(old(blurStack))
      ensures blurStack[0] == old(blurStack)[0]
    {
      if |blurStack| > 1 {
        blurStack := blurStack[..|blurStack| - 1];
      }
    }

    method SetBlurEnabled(enabled: bool)
      requires Valid()
      modifies this`blurStack
      ensures Valid() && blurStack == SetBase(old(blurStack), enabled)
      ensures |old(blurStack)| > 1 ==> BlurEnabled() == old(BlurEnabled())
    {
      if |blurStack| > 0 {
        blurStack := blurStack[0 := enabled];
      }
    }

    method PushReducedMotion(reduced: bool)
      requires Valid()
      modifies this`reducedMotionStack
      ensures Valid() && reducedMotionStack == old(reducedMotionStack) + [reduced]
      ensures ReducedMotion() == reduced
    {
      reducedMotionStack := reducedMotionStack + [reduced];
    }

    method PopReducedMotion()
      requires Valid()
      modifies this`reducedMotionStack
      ensures Valid() && reducedMotionStack == Pop(old(reducedMotionStack))
      ensures reducedMotionStack[0] == old(reducedMotionStack)[0]
    {
      if |reducedMotionStack| > 1 {
        reducedMotionStack := reducedMotionStack[..|reducedMotionStack| - 1];
      }
    }

    method SetReducedMotion(reduced: bool)
      requires Valid()
      modifies this`reducedMotionStack
      ensures Valid() && reducedMotionStack == SetBase(old(reducedMotionStack), reduced)
      ensures |old(reducedMotionStack)| > 1 ==> ReducedMotion() == old(ReducedMotion())
    {
      if |reducedMotionStack| > 0 {
        reducedMotionStack := reducedMotionStack[0 := reduced];
      }
    }

    method PushFloatingInset(inset: Pixels)
      requires Valid()
      modifies this`insetStack
      ensures Valid() && insetStack == old(insetStack) + [inset]
      ensures FloatingInset() == inset
    {
      insetStack := insetStack + [inset];
    }

    method PopFloatingInset()
      requires Valid()
      modifies this`insetStack
      ensures Valid() && insetStack == Pop(old(insetStack))
      ensures insetStack[0] == old(insetStack)[0]
    {
      if |insetStack| > 1 {
        insetStack := insetStack[..|insetStack| - 1];
      }
    }
  }

  /**
   * A blur scope paints its child between a push and a pop: whatever the
   * child reads in between is the scope's value, and afterwards every
   * stack is as it was.
   */
  method BlurScope(g: GlobalState, enabled: bool) returns (seenByChild: bool)
    requires g.Valid()
    modifies g`blurStack
    ensures g.Valid() && seenByChild == enabled
    ensures g.blurStack == old(g.blurStack)
  {
    g.PushBlurEnabled(enabled);
    seenByChild := g.BlurEnabled();
    g.PopBlurEnabled();
    PopAfterPush(old(g.blurStack), enabled);
  }

  /** The same bracket for the reduced-motion scope. */
  method ReducedMotionScope(g: GlobalState, reduced: bool) returns (seenByChild: bool)
    requires g.Valid()
    modifies g`reducedMotionStack
    ensures g.Valid() && seenByChild == reduced
    ensures g.reducedMotionStack == old(g.reducedMotionStack)
  {
    g.PushReducedMotion(reduced);
    seenByChild := g.ReducedMotion();
    g.PopReducedMotion();
    PopAfterPush(old(g.reducedMotionStack), reduced);
  }

  /** The same bracket for the floating-inset scope. */
  method FloatingInsetScope(g: GlobalState, inset: Pixels) returns (seenByChild: Pixels)
    requires g.Valid()
    modifies g`insetStack
    ensures g.Valid() && seenByChild == inset
    ensures g.insetStack == old(g.insetStack)
  {
    g.PushFloatingInset(inset);
    seenByChild := g.FloatingInset();
    g.PopFloatingInset();
    PopAfterPush(old(g.insetStack), inset);
  }
}
