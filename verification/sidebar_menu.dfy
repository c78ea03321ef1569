/**
 * Sidebar menus: a list of items, each possibly a submenu with children of
 * its own. The model covers the builders, the recursive suffix search that
 * decides how a collapsed submenu is shown, the flags a row is rendered
 * with, and the per-item open state that the caret and the row click
 * update.
 */
module SidebarMenu {
  import opened Wrappers

  /** A `SidebarMenuItem`; the icon, label element, handler and suffix builder are reduced to what decides behaviour. */
  datatype MenuItem = MenuItem(
    text: string,
    active: bool,
    defaultOpen: bool,
    clickToOpen: bool,
    collapsed: bool,
    children: seq<MenuItem>,
    hasSuffix: bool,
    disabled: bool,
    hasContextMenu: bool)

  /** `SidebarMenuItem::new`: no children, no suffix, nothing set. */
  function NewItem(text: string): (item: MenuItem)
    ensures item.text == text && item.children == [] && !item.hasSuffix
    ensures !item.active && !item.defaultOpen && !item.clickToOpen && !item.collapsed
    ensures !item.disabled && !item.hasContextMenu
  {
    MenuItem(text, false, false, false, false, [], false, false, false)
  }

  /** `SidebarMenuItem::children`: replaces the whole list of children. */
  function WithChildren(item: MenuItem, children: seq<MenuItem>): (r: MenuItem)
    ensures r.children == children && r.(children := item.children) == item
  {
    item.(children := children)
  }

  /** `is_submenu`: the item has at least one child. */
  predicate IsSubmenu(item: MenuItem)
  {
    |item.children| > 0
  }

  /** A new item is a plain row; giving it children makes it a submenu exactly when the list is non-empty. */
  lemma SubmenuIffChildren(text: string, children: seq<MenuItem>)
    ensures !IsSubmenu(NewItem(text))
    ensures IsSubmenu(WithChildren(NewItem(text), children)) <==> children != []
  {
  }

  /** `SidebarMenu`: its items and whether the sidebar is collapsed. */
  datatype Menu = Menu(collapsed: bool, items: seq<MenuItem>)

  const EmptyMenu: Menu := Menu(false, [])

  /** `SidebarMenu::child`: appends one item. */
  function Child(m: Menu, item: MenuItem): (r: Menu)
    ensures r.items == m.items + [item] && r.collapsed == m.collapsed
  {
    m.(items := m.items + [item])
  }

  /** `SidebarMenu::children`: replaces the whole list. */
  function Children(m: Menu, items: seq<MenuItem>): (r: Menu)
    ensures r.items == items && r.collapsed == m.collapsed
  {
    m.(items := items)
  }

  /** Whatever was added before, `children` discards it, and `child` then appends after the new list. */
  lemma ChildrenReplacesChildAppends(m: Menu, xs: seq<MenuItem>, x: MenuItem)
    ensures Children(Child(m, x), xs) == Children(m, xs)
    ensures Child(Children(m, xs), x).items == xs + [x]
  {
  }

  /** Adding items one at a time with `child` gives the same menu as `children` with the whole list. */
  lemma {:induction false} ChildOneByOne(m: Menu, xs: seq<MenuItem>)
    ensures ChildAll(Children(m, []), xs) == Children(m, xs)
    decreases |xs|
  {
    if xs != [] {
      ChildOneByOne(m, xs[..|xs| - 1]);
      assert xs[..|xs| - 1] + [xs[|xs| - 1]] == xs;
    }
  }

  /** `child` applied to each item in turn. */
  function ChildAll(m: Menu, xs: seq<MenuItem>): (r: Menu)
    ensures r.collapsed == m.collapsed && |r.items| == |m.items| + |xs|
    decreases |xs|
  {
    if xs == [] then m else Child(ChildAll(m, xs[..|xs| - 1]), xs[|xs| - 1])
  }

  /** `collapsed_submenu_has_suffix`: whether any item, or any item below it, has a suffix. */
  function HasSuffix(items: seq<MenuItem>): (b: bool)
    decreases items
  {
    if items == [] then false
    else items[0].hasSuffix || HasSuffix(items[0].children) || HasSuffix(items[1..])
  }

  /** Every item of a forest, each followed by its descendants, in order. */
  function Descendants(items: seq<MenuItem>): (all: seq<MenuItem>)
    ensures forall x :: x in items ==> x in all
    decreases items
  {
    if items == [] then []
    else [items[0]] + Descendants(items[0].children) + Descendants(items[1..])
  }

  /** The suffix search finds a suffix exactly when some item at some depth has one. */
  lemma {:induction false} HasSuffixIffSomeDescendant(items: seq<MenuItem>)
    ensures HasSuffix(items) <==> exists x :: x in Descendants(items) && x.hasSuffix
    decreases items
  {
    if items != [] {
      HasSuffixIffSomeDescendant(items[0].children);
      HasSuffixIffSomeDescendant(items[1..]);
      var d := Descendants(items);
      assert d == [items[0]] + Descendants(items[0].children) + Descendants(items[1..]);
      if HasSuffix(items) {
        if items[0].hasSuffix {
          assert items[0] in d;
        } else if HasSuffix(items[0].children) {
          var x :| x in Descendants(items[0].children) && x.hasSuffix;
          assert x in d;
        } else {
          var x :| x in Descendants(items[1..]) && x.hasSuffix;
          assert x in d;
        }
      } else {
        forall x | x in d
          ensures !x.hasSuffix
        {
          assert x == items[0] || x in Descendants(items[0].children) || x in Descendants(items[1..]);
        }
      }
    }
  }

  /** `SidebarMenu::render` passes the menu's `collapsed` flag down to each of its items. */
  function RenderedItems(m: Menu): (items: seq<MenuItem>)
    ensures |items| == |m.items|
    ensures forall i :: 0 <= i < |items| ==> items[i] == m.items[i].(collapsed := m.collapsed)
  {
    seq(|m.items|, i requires 0 <= i < |m.items| => m.items[i].(collapsed := m.collapsed))
  }

  /** How the collapsed submenu's popover is set up: a list of the children when any has a suffix, else a popup menu. */
  datatype CollapsedPopover = CollapsedPopover(overlayClosable: bool, listsChildren: bool)

  /** The flags a row is rendered with, given the item's open state. */
  datatype RowFlags = RowFlags(
    hoverable: bool,
    open: bool,
    showCollapsedSubmenu: bool,
    caret: bool,
    rowClick: bool,
    popover: Option<CollapsedPopover>)

  function Flags(item: MenuItem, openState: bool): (f: RowFlags)
    ensures f.hoverable <==> !item.active && !item.disabled
    ensures f.open <==> IsSubmenu(item) && !item.collapsed && openState
    ensures f.showCollapsedSubmenu <==> IsSubmenu(item) && item.collapsed
    ensures f.caret <==> IsSubmenu(item) && !item.collapsed
    ensures f.rowClick <==> !item.disabled && !f.showCollapsedSubmenu
    ensures f.popover.Some? <==> f.showCollapsedSubmenu && !item.disabled
    ensures f.popover.Some? ==> f.popover.value.overlayClosable == HasSuffix(item.children)
    ensures f.popover.Some? ==> f.popover.value.listsChildren == HasSuffix(item.children)
  {
    var isSubmenu := IsSubmenu(item);
    var showCollapsed := isSubmenu && item.collapsed;
    var hasSuffix := HasSuffix(item.children);
    RowFlags(
      !item.active && !item.disabled,
      isSubmenu && !item.collapsed && openState,
      showCollapsed,
      isSubmenu && !item.collapsed,
      !item.disabled && !showCollapsed,
      if showCollapsed && !item.disabled then Some(CollapsedPopover(hasSuffix, hasSuffix)) else None)
  }

  /** An expanded submenu and a collapsed-submenu popover never appear together, and a row is never both. */
  lemma InlineAndPopoverExclusive(item: MenuItem, openState: bool)
    ensures var f := Flags(item, openState);
      !(f.open && f.showCollapsedSubmenu) && !(f.rowClick && f.popover.Some?) && !(f.caret && f.showCollapsedSubmenu)
  {
  }

  /**
   * The open state of one item, kept across renders under the item's id
   * and first set to its `default_open`.
   */
  class ItemOpenState {
    var open: bool

    constructor (item: MenuItem)
      ensures open == item.defaultOpen
    {
      open := item.defaultOpen;
    }

    /** The caret button flips the open state, without reaching the row's click handler. */
    method OnCaretClick()
      modifies this`open
      ensures open == !old(open)
    {
      open := !open;
    }

    /**
     * A click on the row. There is no handler on a disabled row or on a
     * collapsed submenu's row. Otherwise `click_to_open` opens the submenu
     * (it never closes it) and then the item's handler runs.
     */
    method OnRowClick(item: MenuItem) returns (handlerRan: bool)
      modifies this`open
      ensures handlerRan <==> Flags(item, old(open)).rowClick
      ensures open == if handlerRan && item.clickToOpen then true else old(open)
    {
      handlerRan := false;
      if !item.disabled && !(IsSubmenu(item) && item.collapsed) {
        if item.clickToOpen {
          open := true;
        }
        handlerRan := true;
      }
    }
  }
}
