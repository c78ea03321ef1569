/**
 * The command palette's view: the highlighted rendering of a title, and the
 * handlers that forward input, key and mouse events to the state.
 *
 * `render_highlighted_text` slices the title's UTF-8 bytes, so the text here
 * is a `seq<byte>` and a rendered element is a plain or a highlighted run of
 * those bytes. Layout, theme colours and scrolling are not modelled.
 */
module PaletteView {
  import opened Wrappers
  import opened Utf8
  import opened PaletteTypes
  import opened Matcher
  import opened PaletteState

  // ---------------------------------------------------------------------------
  // Highlight segmentation
  // ---------------------------------------------------------------------------

  /** One child element: a plain or a highlighted slice of the text. */
  datatype Segment = Plain(bytes: seq<byte>) | Highlight(bytes: seq<byte>)

  /** The loop's variables: the elements pushed so far and `last_end`. */
  datatype RenderState = RenderState(elements: seq<Segment>, lastEnd: nat)

  /**
   * Slicing `text[last_end..start]` panics past the end of the text, and
   * every start past the end is also past `last_end`: so no range may start
   * past the end.
   */
  predicate StartsInBounds(ranges: seq<ByteRange>, len: nat)
  {
    forall k :: 0 <= k < |ranges| ==> ranges[k].start <= len
  }

  /** What one range adds: the gap before it, when there is one, and its clamped, non-empty highlight. */
  function StepSegments(text: seq<byte>, r: ByteRange, lastEnd: nat): seq<Segment>
    requires r.start <= |text| && lastEnd <= |text|
  {
    var end := Min(r.end, |text|);
    (if r.start > lastEnd then [Plain(text[lastEnd..r.start])] else [])
      + (if r.start < end then [Highlight(text[r.start..end])] else [])
  }

  /** The loop's variables after the first `k` ranges. */
  function RenderAfter(text: seq<byte>, ranges: seq<ByteRange>, k: nat): (s: RenderState)
    requires k <= |ranges| && StartsInBounds(ranges, |text|)
    ensures s.lastEnd <= |text|
    decreases k
  {
    if k == 0 then RenderState([], 0)
    else
      var s := RenderAfter(text, ranges, k - 1);
      var r := ranges[k - 1];
      RenderState(s.elements + StepSegments(text, r, s.lastEnd), Min(r.end, |text|))
  }

  /** The text after the last highlight, when there is any. */
  function Remainder(text: seq<byte>, lastEnd: nat): seq<Segment>
    requires lastEnd <= |text|
  {
    if lastEnd < |text| then [Plain(text[lastEnd..])] else []
  }

  /** The children `render_highlighted_text` produces. */
  function HighlightedText(text: seq<byte>, ranges: seq<ByteRange>): seq<Segment>
    requires StartsInBounds(ranges, |text|)
  {
    if ranges == [] then [Plain(text)]
    else
      var s := RenderAfter(text, ranges, |ranges|);
      s.elements + Remainder(text, s.lastEnd)
  }

  /** `last_end` before range `k` is handled: 0, or the previous range's end clamped to the text. */
  function LastEndBefore(text: seq<byte>, ranges: seq<ByteRange>, k: nat): (e: nat)
    requires k <= |ranges|
    ensures e <= |text|
  {
    if k == 0 then 0 else Min(ranges[k - 1].end, |text|)
  }

  /**
   * Slicing a `str` panics unless both ends lie on char boundaries (and so
   * within the text). One range slices the gap `text[last_end..start]` when
   * it starts after `last_end`, and `text[start..end]` when its clamped end
   * lies after its start.
   */
  predicate StepSlicesOk(text: seq<byte>, r: ByteRange, lastEnd: nat)
  {
    && (r.start > lastEnd ==> r.start <= |text| && IsCharBoundary(text, lastEnd) && IsCharBoundary(text, r.start))
    && (r.start < Min(r.end, |text|) ==> IsCharBoundary(text, r.start) && IsCharBoundary(text, Min(r.end, |text|)))
  }

  /** Range `k` slices only on char boundaries, given the `last_end` the loop has reached. */
  predicate StepOkAt(text: seq<byte>, ranges: seq<ByteRange>, k: nat)
    requires k < |ranges|
  {
    StepSlicesOk(text, ranges[k], LastEndBefore(text, ranges, k))
  }

  /** The first `k` ranges slice only on char boundaries. */
  predicate StepsOk(text: seq<byte>, ranges: seq<ByteRange>, k: nat)
    requires k <= |ranges|
    decreases k
  {
    k == 0 || (StepsOk(text, ranges, k - 1) && StepOkAt(text, ranges, k - 1))
  }

  /**
   * `render_highlighted_text` returns without panicking: no ranges slice
   * nothing; otherwise every range's slices and the final `text[last_end..]`
   * lie on char boundaries.
   */
  predicate RendersWithoutPanic(text: seq<byte>, ranges: seq<ByteRange>)
  {
    || ranges == []
    || (&& StepsOk(text, ranges, |ranges|)
        && (LastEndBefore(text, ranges, |ranges|) < |text| ==> IsCharBoundary(text, LastEndBefore(text, ranges, |ranges|))))
  }

  /**
   * `render_highlighted_text`: the loop over the ranges with its running
   * `last_end`. A slice that would panic ends the call with `None`;
   * otherwise the elements are `HighlightedText`.
   */
  method RenderHighlightedText(text: seq<byte>, ranges: seq<ByteRange>) returns (r: Option<seq<Segment>>)
    ensures r.None? <==> !RendersWithoutPanic(text, ranges)
    ensures r.Some? ==> StartsInBounds(ranges, |text|) && r.value == HighlightedText(text, ranges)
    ensures |ranges| == 0 ==> r == Some([Plain(text)])
  {
    if |ranges| == 0 {
      return Some([Plain(text)]);
    }
    var elements := [];
    var lastEnd: nat := 0;
    for k := 0 to |ranges|
      invariant lastEnd == LastEndBefore(text, ranges, k)
      invariant StepsOk(text, ranges, k)
      invariant forall j :: 0 <= j < k ==> ranges[j].start <= |text|
      invariant StartsInBounds(ranges, |text|) ==> RenderState(elements, lastEnd) == RenderAfter(text, ranges, k)
    {
      if !StepSlicesOk(text, ranges[k], lastEnd) {
        PanicAt(text, ranges, k, |ranges|);
        return None;
      }
      ghost var before := elements;
      var start, end := ranges[k].start, ranges[k].end;
      if start > lastEnd {
        elements := elements + [Plain(text[lastEnd..start])];
      }
      var clamped := Min(end, |text|);
      if start < clamped {
        elements := elements + [Highlight(text[start..clamped])];
      }
      assert elements == before + StepSegments(text, ranges[k], lastEnd);
      lastEnd := clamped;
    }
    if lastEnd < |text| {
      if !IsCharBoundary(text, lastEnd) {
        return None;
      }
      elements := elements + [Plain(text[lastEnd..])];
    }
    return Some(elements);
  }

  /** A panic at range `k` is a panic of the whole call. */
  lemma {:induction false} PanicAt(text: seq<byte>, ranges: seq<ByteRange>, k: nat, n: nat)
    requires k < n <= |ranges| && !StepOkAt(text, ranges, k)
    ensures !StepsOk(text, ranges, n)
    ensures n == |ranges| ==> !RendersWithoutPanic(text, ranges)
    decreases n
  {
    if k < n - 1 {
      PanicAt(text, ranges, k, n - 1);
    }
  }

  /** A range that starts inside a multi-byte character panics: "é" is [0xC3, 0xA9], and byte 1 is no boundary. */
  lemma MidCharRangePanics()
    ensures !RendersWithoutPanic([0xC3, 0xA9], [ByteRange(1, 2)])
  {
    var text: seq<byte> := [0xC3, 0xA9];
    assert !IsCharBoundary(text, 1);
    assert !StepOkAt(text, [ByteRange(1, 2)], 0);
  }

  /**
   * Ranges inside the text whose starts and ends are char boundaries never
   * panic, whatever their order: every `last_end` is 0 or such an end.
   */
  lemma {:induction false} BoundaryRangesRenderWithoutPanic(text: seq<byte>, ranges: seq<ByteRange>)
    requires forall k :: 0 <= k < |ranges| ==> ranges[k].start <= ranges[k].end <= |text|
    requires forall k :: 0 <= k < |ranges| ==> IsCharBoundary(text, ranges[k].start) && IsCharBoundary(text, ranges[k].end)
    ensures RendersWithoutPanic(text, ranges)
  {
    for n := 0 to |ranges|
      invariant StepsOk(text, ranges, n)
    {
      if n > 0 {
        assert LastEndBefore(text, ranges, n) == ranges[n - 1].end;
      }
      assert StepOkAt(text, ranges, n);
    }
    if ranges != [] {
      assert LastEndBefore(text, ranges, |ranges|) == ranges[|ranges| - 1].end;
    }
  }

  /** A range that starts past the end of the text panics too. */
  lemma StartPastEndPanics(text: seq<byte>, r: ByteRange)
    requires r.start > |text|
    ensures !RendersWithoutPanic(text, [r])
  {
    assert !StepOkAt(text, [r], 0);
  }

  /** The bytes of the elements, one after the other: what the row shows. */
  function Flatten(segs: seq<Segment>): seq<byte>
  {
    if segs == [] then [] else Flatten(segs[..|segs| - 1]) + segs[|segs| - 1].bytes
  }

  /** The contents of the highlighted elements, in order. */
  function Highlights(segs: seq<Segment>): seq<seq<byte>>
  {
    if segs == [] then []
    else Highlights(segs[..|segs| - 1]) + (if segs[|segs| - 1].Highlight? then [segs[|segs| - 1].bytes] else [])
  }

  /** Each range's slice, its end clamped to the text, for the ranges whose slice is not empty. */
  function ClampedSlices(text: seq<byte>, ranges: seq<ByteRange>): seq<seq<byte>>
    requires StartsInBounds(ranges, |text|)
  {
    if ranges == [] then []
    else
      var r := ranges[|ranges| - 1];
      var end := Min(r.end, |text|);
      ClampedSlices(text, ranges[..|ranges| - 1]) + (if r.start < end then [text[r.start..end]] else [])
  }

  /** Ranges in order, each within the text, none overlapping the next (they may touch). */
  predicate Ordered(ranges: seq<ByteRange>, len: nat)
  {
    && (forall k :: 0 <= k < |ranges| ==> ranges[k].start <= ranges[k].end <= len)
    && (forall k :: 0 <= k < |ranges| - 1 ==> ranges[k].end <= ranges[k + 1].start)
  }

  lemma {:induction false} FlattenAppend(a: seq<Segment>, b: seq<Segment>)
    ensures Flatten(a + b) == Flatten(a) + Flatten(b)
    decreases |b|
  {
    if b == [] {
      assert a + b == a;
    } else {
      var init := b[..|b| - 1];
      var ab := a + b;
      assert ab[..|ab| - 1] == a + init && ab[|ab| - 1] == b[|b| - 1];
      FlattenAppend(a, init);
    }
  }

  lemma {:induction false} HighlightsAppend(a: seq<Segment>, b: seq<Segment>)
    ensures Highlights(a + b) == Highlights(a) + Highlights(b)
    decreases |b|
  {
    if b == [] {
      assert a + b == a;
    } else {
      var init := b[..|b| - 1];
      var ab := a + b;
      assert ab[..|ab| - 1] == a + init && ab[|ab| - 1] == b[|b| - 1];
      HighlightsAppend(a, init);
    }
  }

  lemma OrderedStartsInBounds(ranges: seq<ByteRange>, len: nat)
    requires Ordered(ranges, len)
    ensures StartsInBounds(ranges, len)
  {
  }

  lemma FlattenSingle(x: Segment)
    ensures Flatten([x]) == x.bytes
  {
    assert [x][..0] == [];
  }

  /** One ordered range renders the text from `last_end` to its end. */
  lemma StepFlatten(text: seq<byte>, r: ByteRange, lastEnd: nat)
    requires lastEnd <= r.start <= r.end <= |text|
    ensures Flatten(StepSegments(text, r, lastEnd)) == text[lastEnd..r.end]
  {
    var gap := if r.start > lastEnd then [Plain(text[lastEnd..r.start])] else [];
    var hl := if r.start < r.end then [Highlight(text[r.start..r.end])] else [];
    assert StepSegments(text, r, lastEnd) == gap + hl;
    FlattenAppend(gap, hl);
    assert Flatten(gap) == text[lastEnd..r.start] by {
      if gap != [] { FlattenSingle(gap[0]); } else { assert |text[lastEnd..r.start]| == 0; }
    }
    assert Flatten(hl) == text[r.start..r.end] by {
      if hl != [] { FlattenSingle(hl[0]); } else { assert |text[r.start..r.end]| == 0; }
    }
    assert text[lastEnd..r.start] + text[r.start..r.end] == text[lastEnd..r.end];
  }

  /** Rendering one more ordered range extends the rendered prefix of the text to that range's end. */
  lemma PrefixStep(text: seq<byte>, elements: seq<Segment>, lastEnd: nat, r: ByteRange)
    requires lastEnd <= r.start <= r.end <= |text|
    requires Flatten(elements) == text[..lastEnd]
    ensures Flatten(elements + StepSegments(text, r, lastEnd)) == text[..r.end]
  {
    FlattenAppend(elements, StepSegments(text, r, lastEnd));
    StepFlatten(text, r, lastEnd);
    assert text[..lastEnd] + text[lastEnd..r.end] == text[..r.end];
  }

  /** For ordered ranges, the first `k` ranges render exactly the text up to the end of range `k - 1`. */
  lemma {:induction false} RenderAfterPrefix(text: seq<byte>, ranges: seq<ByteRange>, k: nat)
    requires k <= |ranges| && Ordered(ranges, |text|) && StartsInBounds(ranges, |text|)
    ensures RenderAfter(text, ranges, k).lastEnd == if k == 0 then 0 else ranges[k - 1].end
    ensures Flatten(RenderAfter(text, ranges, k).elements) == text[..RenderAfter(text, ranges, k).lastEnd]
    decreases k
  {
    if k > 0 {
      RenderAfterPrefix(text, ranges, k - 1);
      var s := RenderAfter(text, ranges, k - 1);
      var r := ranges[k - 1];
      assert s.lastEnd <= r.start by {
        if k > 1 { assert ranges[k - 2].end <= ranges[k - 1].start; }
      }
      PrefixStep(text, s.elements, s.lastEnd, r);
    }
  }

  /**
   * For ordered ranges inside the text, the elements put back together are
   * the text itself: nothing is lost, repeated or reordered.
   */
  lemma SegmentsReassemble(text: seq<byte>, ranges: seq<ByteRange>)
    requires Ordered(ranges, |text|)
    ensures StartsInBounds(ranges, |text|)
    ensures Flatten(HighlightedText(text, ranges)) == text
  {
    OrderedStartsInBounds(ranges, |text|);
    if ranges != [] {
      RenderAfterPrefix(text, ranges, |ranges|);
      var s := RenderAfter(text, ranges, |ranges|);
      FlattenAppend(s.elements, Remainder(text, s.lastEnd));
      assert text[..s.lastEnd] + text[s.lastEnd..] == text;
    } else {
      assert Flatten([Plain(text)]) == Flatten([]) + text;
    }
  }

  /** One range highlights its clamped slice, if that is not empty; the gap is plain. */
  lemma StepHighlights(text: seq<byte>, r: ByteRange, lastEnd: nat)
    requires r.start <= |text| && lastEnd <= |text|
    ensures var end := Min(r.end, |text|);
      Highlights(StepSegments(text, r, lastEnd)) == if r.start < end then [text[r.start..end]] else []
  {
    var end := Min(r.end, |text|);
    var gap := if r.start > lastEnd then [Plain(text[lastEnd..r.start])] else [];
    var hl := if r.start < end then [Highlight(text[r.start..end])] else [];
    assert StepSegments(text, r, lastEnd) == gap + hl;
    HighlightsAppend(gap, hl);
    assert Highlights(gap) == [] by {
      if gap != [] { assert Highlights(gap) == Highlights([]) + []; }
    }
    assert Highlights(hl) == if r.start < end then [text[r.start..end]] else [] by {
      if hl != [] { assert Highlights(hl) == Highlights([]) + [hl[0].bytes]; }
    }
  }

  lemma {:induction false} RenderAfterHighlights(text: seq<byte>, ranges: seq<ByteRange>, k: nat)
    requires k <= |ranges| && StartsInBounds(ranges, |text|)
    ensures Highlights(RenderAfter(text, ranges, k).elements) == ClampedSlices(text, ranges[..k])
    decreases k
  {
    if k > 0 {
      RenderAfterHighlights(text, ranges, k - 1);
      var s := RenderAfter(text, ranges, k - 1);
      var r := ranges[k - 1];
      HighlightsAppend(s.elements, StepSegments(text, r, s.lastEnd));
      StepHighlights(text, r, s.lastEnd);
      var pre := ranges[..k];
      assert pre[..k - 1] == ranges[..k - 1] && pre[k - 1] == r;
    }
  }

  /**
   * The highlighted elements are exactly the ranges' slices of the text, in
   * order, each end clamped to the text's length; a range whose clamped slice
   * is empty highlights nothing.
   */
  lemma HighlightsAreClampedSlices(text: seq<byte>, ranges: seq<ByteRange>)
    requires StartsInBounds(ranges, |text|)
    ensures Highlights(HighlightedText(text, ranges)) == ClampedSlices(text, ranges)
  {
    if ranges != [] {
      RenderAfterHighlights(text, ranges, |ranges|);
      var s := RenderAfter(text, ranges, |ranges|);
      HighlightsAppend(s.elements, Remainder(text, s.lastEnd));
      assert ranges[..|ranges|] == ranges;
    }
  }

  lemma {:induction false} RenderAfterNonEmpty(text: seq<byte>, ranges: seq<ByteRange>, k: nat)
    requires k <= |ranges| && StartsInBounds(ranges, |text|)
    ensures forall i :: 0 <= i < |RenderAfter(text, ranges, k).elements| ==>
      |RenderAfter(text, ranges, k).elements[i].bytes| > 0
    decreases k
  {
    if k > 0 {
      RenderAfterNonEmpty(text, ranges, k - 1);
    }
  }

  /**
   * Once there are ranges, no element is empty: a gap is pushed only when the
   * range starts after `last_end`, a highlight only when its clamped slice is
   * not empty, the remainder only when `last_end` is short of the end.
   */
  lemma NoEmptySegments(text: seq<byte>, ranges: seq<ByteRange>)
    requires StartsInBounds(ranges, |text|) && ranges != []
    ensures forall i :: 0 <= i < |HighlightedText(text, ranges)| ==> |HighlightedText(text, ranges)[i].bytes| > 0
  {
    RenderAfterNonEmpty(text, ranges, |ranges|);
  }

  /** When every range is non-empty and inside the text, nothing is clamped or skipped: one slice per range. */
  lemma {:induction false} SlicesOfInBoundsRanges(text: seq<byte>, ranges: seq<ByteRange>)
    requires forall k :: 0 <= k < |ranges| ==> ranges[k].start < ranges[k].end <= |text|
    ensures StartsInBounds(ranges, |text|)
    ensures |ClampedSlices(text, ranges)| == |ranges|
    ensures forall k :: 0 <= k < |ranges| ==> ClampedSlices(text, ranges)[k] == text[ranges[k].start..ranges[k].end]
    decreases |ranges|
  {
    if ranges != [] {
      SlicesOfInBoundsRanges(text, ranges[..|ranges| - 1]);
    }
  }

  /**
   * A title as the palette shows it: for valid match indices, rendering the
   * title's bytes with the matcher's ranges gives back the title, and the
   * highlighted parts are exactly the ranges' slices, each a whole number of
   * characters.
   */
  lemma MatchedTitleRenders(title: string, indices: seq<nat>)
    requires ValidIndices(indices, title)
    ensures var bytes, rs := Encode(title), ByteRanges(indices, title);
      && StartsInBounds(rs, |bytes|)
      && SortedDisjoint(rs, |bytes|)
      && Flatten(HighlightedText(bytes, rs)) == bytes
      && |Highlights(HighlightedText(bytes, rs))| == |rs|
      && (forall k :: 0 <= k < |rs| ==> Highlights(HighlightedText(bytes, rs))[k] == bytes[rs[k].start..rs[k].end])
      && (forall k :: 0 <= k < |rs| ==> IsCharBoundary(bytes, rs[k].start) && IsCharBoundary(bytes, rs[k].end))
      && RendersWithoutPanic(bytes, rs)
  {
    var bytes, rs := Encode(title), ByteRanges(indices, title);
    ByteRangesShape(indices, title);
    assert Ordered(rs, |bytes|);
    SegmentsReassemble(bytes, rs);
    HighlightsAreClampedSlices(bytes, rs);
    SlicesOfInBoundsRanges(bytes, rs);
    BoundaryRangesRenderWithoutPanic(bytes, rs);
  }

  // ---------------------------------------------------------------------------
  // Event forwarding
  // ---------------------------------------------------------------------------

  /**
   * `CommandPaletteView`: the palette's state, whether the dialog is open,
   * and the events forwarded to the view's own subscribers.
   */
  class CommandPaletteView {
    const state: CommandPaletteState
    var dialogOpen: bool
    var forwarded: seq<PaletteEvent>

    ghost predicate Valid()
      reads this, state
    {
      state.Valid()
    }

    constructor (state: CommandPaletteState)
      requires state.Valid()
      ensures Valid() && this.state == state && dialogOpen && forwarded == []
    {
      this.state := state;
      dialogOpen := true;
      forwarded := [];
    }

    /** `on_state_event`: either event closes the dialog and is forwarded. */
    method OnStateEvent(event: PaletteEvent)
      modifies this`dialogOpen, this`forwarded
      ensures !dialogOpen && forwarded == old(forwarded) + [event]
    {
      dialogOpen := false;
      forwarded := forwarded + [event];
    }

    /** An input `Change` event: the input's value becomes the query. */
    method OnInputChange(value: string, now: nat) returns (ticket: Option<QueryTicket>)
      requires Valid()
      modifies state`query, state`queryId, state`asyncItems
      modifies state`matchedItems, state`matchedStaticLen, state`selectedIndex, state`asyncOrder
      ensures Valid()
      ensures value == old(state.query) ==> ticket.None? && unchanged(state)
      ensures value != old(state.query) ==> state.query == value && state.asyncItems == map[]
      ensures value != old(state.query) ==> state.queryId == WrappingInc(old(state.queryId))
      ensures value != old(state.query) ==>
        state.selectedIndex == if |state.matchedItems| == 0 then None else Some(0)
      ensures ticket.Some? <==> value != old(state.query) && ByteLen(value) >= 2
      ensures ticket.Some? ==> ticket.value == QueryTicket(state.queryId, RemainingDelay(state.revealDeadline, now))
    {
      ticket := state.SetQuery(value, now);
    }

    /** Enter in the input and the `Confirm` action: confirm, closing the dialog when an item is chosen. */
    method OnConfirm() returns (event: Option<PaletteEvent>)
      requires Valid()
      modifies this`dialogOpen, this`forwarded
      ensures Valid()
      ensures event.Some? <==> state.SelectedItem().Some? && !state.SelectedItem().value.item.disabled
      ensures event.Some? ==> event.value == Selected(state.SelectedItem().value.item)
      ensures event.Some? ==> !dialogOpen && forwarded == old(forwarded) + [event.value]
      ensures event.None? ==> dialogOpen == old(dialogOpen) && forwarded == old(forwarded)
    {
      event := state.Confirm();
      if event.Some? {
        OnStateEvent(event.value);
      }
    }

    /** The `Cancel` action (escape): dismiss, which always closes the dialog. */
    method OnCancel()
      requires Valid()
      modifies this`dialogOpen, this`forwarded
      ensures Valid()
      ensures !dialogOpen && forwarded == old(forwarded) + [Dismissed]
    {
      var event := state.Dismiss();
      OnStateEvent(event);
    }

    /** The `SelectUp` action. */
    method OnSelectUp()
      requires Valid()
      modifies state`selectedIndex
      ensures Valid()
      ensures |state.matchedItems| > 0 ==> state.selectedIndex == Some(PrevIndex(old(state.selectedIndex), |state.matchedItems|))
    {
      state.SelectPrev();
    }

    /** The `SelectDown` action. */
    method OnSelectDown()
      requires Valid()
      modifies state`selectedIndex
      ensures Valid()
      ensures |state.matchedItems| > 0 ==> state.selectedIndex == Some(NextIndex(old(state.selectedIndex), |state.matchedItems|))
    {
      state.SelectNext();
    }

    /**
     * A left mouse press on row `ix`. The handler is attached when the row is
     * rendered, so `renderedDisabled` and `ix` are what that render saw: a
     * row rendered disabled has no handler. Otherwise the press selects `ix`
     * (ignored when a later provider result shortened the list) and confirms
     * whatever is selected then.
     */
    method OnRowMouseDown(ix: nat, renderedDisabled: bool)
      requires Valid()
      modifies state`selectedIndex, this`dialogOpen, this`forwarded
      ensures Valid()
      ensures renderedDisabled ==>
        state.selectedIndex == old(state.selectedIndex) && dialogOpen == old(dialogOpen) && forwarded == old(forwarded)
      ensures !renderedDisabled ==>
        state.selectedIndex == if ix < |state.matchedItems| then Some(ix) else old(state.selectedIndex)
      ensures !renderedDisabled && state.SelectedItem().Some? && !state.SelectedItem().value.item.disabled ==>
        !dialogOpen && forwarded == old(forwarded) + [Selected(state.SelectedItem().value.item)]
      ensures !renderedDisabled && (state.SelectedItem().None? || state.SelectedItem().value.item.disabled) ==>
        dialogOpen == old(dialogOpen) && forwarded == old(forwarded)
      ensures !renderedDisabled && ix < |state.matchedItems| && !state.matchedItems[ix].item.disabled ==>
        !dialogOpen && forwarded == old(forwarded) + [Selected(state.matchedItems[ix].item)]
    {
      if renderedDisabled {
        return;
      }
      state.SelectIndex(ix);
      var event := state.Confirm();
      if event.Some? {
        OnStateEvent(event.value);
      }
    }
  }
}
