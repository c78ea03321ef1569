/**
 * The accordion's open-item bookkeeping. Each render starts a fresh set of
 * open indices from the items' `open` flags. An item's toggle click
 * reports the negation of its rendered flag. The group closure then opens
 * the item (alone in single mode, alongside the others in multiple mode)
 * or closes it. A click on the group reports the set to the group's
 * callback.
 */
module Accordion {
  import opened Wrappers

  /** An item as the caller built it. */
  datatype ItemSpec = ItemSpec(open: bool, disabled: bool)

  /**
   * An item as the accordion renders it: `index` and `disabled` come from
   * the accordion, not from the item's builder. `chevron` is whether the
   * chevron and hover style are drawn, and `click` is the value the toggle
   * click passes on, if the row is clickable.
   */
  datatype RenderedItem = RenderedItem(index: nat, open: bool, disabled: bool, chevron: bool, click: Option<bool>)

  /** The indices of the items built with `open = true`. */
  function OpenIndices(items: seq<ItemSpec>): (ixs: set<nat>)
    ensures forall ix: nat :: ix in ixs <==> ix < |items| && items[ix].open
  {
    set ix: nat | ix < |items| && items[ix].open
  }

  /** The group closure's update of the open set when item `ix` asks to become `open`. */
  function Toggled(ixs: set<nat>, ix: nat, open: bool, multiple: bool): (r: set<nat>)
    ensures ix in r <==> open
    ensures !open || multiple ==> forall j :: j != ix ==> (j in r <==> j in ixs)
    ensures open && !multiple ==> forall j :: j in r ==> j == ix
  {
    if open then (if multiple then ixs else {}) + {ix}
    else ixs - {ix}
  }

  /** In single mode, opening an item leaves exactly that item open. */
  lemma SingleModeOpensOne(ixs: set<nat>, ix: nat)
    ensures Toggled(ixs, ix, true, false) == {ix}
  {
    var r := Toggled(ixs, ix, true, false);
    assert forall j :: j in r <==> j in {ix};
  }

  /** In single mode, once at most one item is open, toggles keep it so. */
  lemma SingleModeKeepsAtMostOne(ixs: set<nat>, ix: nat, open: bool)
    requires |ixs| <= 1
    ensures |Toggled(ixs, ix, open, false)| <= 1
  {
    if open {
      SingleModeOpensOne(ixs, ix);
    } else {
      assert Toggled(ixs, ix, open, false) <= ixs;
      SubsetCard(Toggled(ixs, ix, open, false), ixs);
    }
  }

  lemma SubsetCard(a: set<nat>, b: set<nat>)
    requires a <= b
    ensures |a| <= |b|
  {
    assert b == a + (b - a);
  }

  /** In multiple mode, opening an item that was closed and closing it again restores the set. */
  lemma OpenThenCloseRestores(ixs: set<nat>, ix: nat)
    requires ix !in ixs
    ensures Toggled(Toggled(ixs, ix, true, true), ix, false, true) == ixs
  {
    var r := Toggled(Toggled(ixs, ix, true, true), ix, false, true);
    assert forall j :: j in r <==> j in ixs;
  }

  /** Closing is idempotent, and opening in multiple mode is too. */
  lemma ToggleIdempotent(ixs: set<nat>, ix: nat, open: bool, multiple: bool)
    requires !open || multiple
    ensures Toggled(Toggled(ixs, ix, open, multiple), ix, open, multiple) == Toggled(ixs, ix, open, multiple)
  {
    var once := Toggled(ixs, ix, open, multiple);
    var twice := Toggled(once, ix, open, multiple);
    assert forall j :: j in twice <==> j in once;
  }

  /** The row of item `ix`: the chevron, hover and toggle click exist only when the accordion is enabled. */
  function RenderItem(items: seq<ItemSpec>, ix: nat, disabled: bool): (r: RenderedItem)
    requires ix < |items|
    ensures r.index == ix && r.open == items[ix].open && r.disabled == disabled
    ensures r.chevron <==> !disabled
    ensures r.click.Some? <==> !disabled
    ensures r.click.Some? ==> r.click.value == !items[ix].open
  {
    RenderedItem(ix, items[ix].open, disabled, !disabled, if disabled then None else Some(!items[ix].open))
  }

  class AccordionGroup {
    const items: seq<ItemSpec>
    const multiple: bool
    const disabled: bool
    /** Whether the accordion was built with `on_toggle_click`. */
    const hasGroupCallback: bool
    var openIxs: set<nat>

    /** `Accordion::render`: the open set starts as the items built open. */
    constructor (items: seq<ItemSpec>, multiple: bool, disabled: bool, hasGroupCallback: bool)
      ensures this.items == items && this.multiple == multiple && this.disabled == disabled
      ensures this.hasGroupCallback == hasGroupCallback
      ensures openIxs == OpenIndices(items)
    {
      this.items := items;
      this.multiple := multiple;
      this.disabled := disabled;
      this.hasGroupCallback := hasGroupCallback;
      var ixs: set<nat> := {};
      for ix := 0 to |items|
        invariant forall j: nat :: j in ixs <==> j < ix && items[j].open
      {
        if items[ix].open {
          ixs := ixs + {ix};
        }
      }
      assert forall j: nat :: j in ixs <==> j in OpenIndices(items);
      openIxs := ixs;
    }

    /** The group closure, called by item `ix` with the state it asks for. */
    method OnToggle(ix: nat, open: bool)
      modifies this`openIxs
      ensures openIxs == Toggled(old(openIxs), ix, open, multiple)
    {
      if open {
        if !multiple {
          openIxs := {};
        }
        openIxs := openIxs + {ix};
      } else {
        openIxs := openIxs - {ix};
      }
    }

    /**
     * A click on row `ix`. The row's handler runs first and, on an enabled
     * accordion, toggles the item to the negation of its rendered flag.
     * The click then reaches the group, whose callback, if attached,
     * receives the open set.
     */
    method OnRowClick(ix: nat) returns (reported: Option<set<nat>>)
      requires ix < |items|
      modifies this`openIxs
      ensures disabled ==> openIxs == old(openIxs)
      ensures !disabled ==> openIxs == Toggled(old(openIxs), ix, !items[ix].open, multiple)
      ensures reported.Some? <==> hasGroupCallback && !disabled
      ensures reported.Some? ==> reported.value == openIxs
    {
      var row := RenderItem(items, ix, disabled);
      if row.click.Some? {
        OnToggle(ix, row.click.value);
      }
      reported := OnGroupClick();
    }

    /** The group's own click handler, attached only when the accordion is enabled. */
    method OnGroupClick() returns (reported: Option<set<nat>>)
      ensures reported.Some? <==> hasGroupCallback && !disabled
      ensures reported.Some? ==> reported.value == openIxs
    {
      if hasGroupCallback && !disabled {
        reported := Some(openIxs);
      } else {
        reported := None;
      }
    }
  }

  /**
   * The numeric part of the chevron and expand animation ids: the item
   * index as a `u64`, shifted left by one, with the low bit set while the
   * item is entering.
   */
  function AnimationId(index: bv64, entering: bool): (id: bv64)
    ensures id & 1 == (if entering then 1 else 0)
  {
    (index << 1) | (if entering then 1 else 0)
  }

  /** Below 2^63 the index survives the shift: the id decodes back to the index and the phase. */
  lemma AnimationIdDecodes(index: bv64, entering: bool)
    requires index < 0x8000_0000_0000_0000
    ensures AnimationId(index, entering) >> 1 == index
    ensures (AnimationId(index, entering) & 1 == 1) <==> entering
  {
  }

  /** So distinct (index, phase) pairs get distinct ids. */
  lemma AnimationIdInjective(i: bv64, e: bool, j: bv64, f: bool)
    requires i < 0x8000_0000_0000_0000 && j < 0x8000_0000_0000_0000
    ensures AnimationId(i, e) == AnimationId(j, f) <==> i == j && e == f
  {
    AnimationIdDecodes(i, e);
    AnimationIdDecodes(j, f);
  }
}
