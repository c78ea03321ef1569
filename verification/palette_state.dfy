/**
 * `CommandPaletteState`: the query, the matched and ranked items, the
 * selection, and the bookkeeping that keeps late results of an asynchronous
 * provider query from overwriting a newer query.
 *
 * The async task is modelled as a ticket: `SetQuery` hands one out when it
 * would spawn the task, `StartProviderQuery` is the task's first check after
 * its delay, and `FinishProviderQuery` is its second check and merge once the
 * provider's results arrive. The clock is a parameter (`now`, in milliseconds).
 */
module PaletteState {
  import opened Wrappers
  import opened Utf8
  import opened PaletteTypes
  import opened Matcher
  import opened Ranking

  /** `REVEAL_QUERY_DELAY`: the reveal delay (100 ms) plus the reveal animation (180 ms). */
  const RevealQueryDelayMs: nat := 100 + 180

  datatype PaletteEvent = Selected(item: Item) | Dismissed

  /** The matcher the state was built with: query and item to an optional match. */
  type ItemMatcher = (string, Item) -> Option<Match>

  function MatcherOf(kind: MatcherKind, engines: Engines): ItemMatcher
  {
    (query: string, item: Item) => MatchItem(kind, engines, query, item)
  }

  // ---------------------------------------------------------------------------
  // What update_matches computes
  // ---------------------------------------------------------------------------

  /** `Iterator::position`: the index of the first item with this id. */
  function Position(items: seq<Item>, id: string): (r: Option<nat>)
    ensures r.Some? ==> r.value < |items| && items[r.value].id == id
    ensures r.Some? ==> forall j :: 0 <= j < r.value ==> items[j].id != id
    ensures r.None? <==> forall j :: 0 <= j < |items| ==> items[j].id != id
  {
    if items == [] then None
    else if items[0].id == id then Some(0)
    else match Position(items[1..], id)
      case None => None
      case Some(p) => Some(p + 1)
  }

  function IdsOf(items: seq<Item>): (ids: set<string>)
    ensures forall id :: id in ids <==> Position(items, id).Some?
  {
    set i | 0 <= i < |items| :: items[i].id
  }

  /** Every async item is stored under its own id. */
  predicate KeysMatchIds(asyncItems: map<string, Item>)
  {
    forall k :: k in asyncItems ==> asyncItems[k].id == k
  }

  /** `order` lists the keys of the map, each once: a HashMap iteration order. */
  ghost predicate IsEnumeration(order: seq<string>, keys: set<string>)
  {
    && (forall k :: k in order <==> k in keys)
    && (forall i, j :: 0 <= i < j < |order| ==> order[i] != order[j])
  }

  /** Every finite set of keys has an iteration order. */
  lemma {:induction false} EnumerationOf(keys: set<string>) returns (order: seq<string>)
    ensures IsEnumeration(order, keys)
    decreases keys
  {
    if keys == {} {
      order := [];
    } else {
      var k :| k in keys;
      var rest := EnumerationOf(keys - {k});
      order := [k] + rest;
      forall i, j | 0 <= i < j < |order| ensures order[i] != order[j] {
        if i > 0 { assert order[i] == rest[i - 1]; }
        assert order[j] == rest[j - 1];
      }
    }
  }

  /** The static items with the first item of each id that has an async item replaced by it. */
  function Overlay(statics: seq<Item>, asyncItems: map<string, Item>): (r: seq<Item>)
    ensures |r| == |statics|
  {
    if statics == [] then []
    else
      var init, last := statics[..|statics| - 1], statics[|statics| - 1];
      Overlay(init, asyncItems)
        + [if last.id in asyncItems && Position(init, last.id).None? then asyncItems[last.id] else last]
  }

  /** The async items whose ids no static item has, in the order their keys are visited. */
  function AsyncOnly(order: seq<string>, asyncItems: map<string, Item>, staticIds: set<string>): seq<Item>
  {
    if order == [] then []
    else
      var k := order[|order| - 1];
      AsyncOnly(order[..|order| - 1], asyncItems, staticIds)
        + (if k in asyncItems && k !in staticIds then [asyncItems[k]] else [])
  }

  /** The `filter_map` over items: the ones the matcher accepts, with their matches, in order. */
  function MatchAll(m: ItemMatcher, query: string, items: seq<Item>): (r: seq<MatchedItem>)
    ensures |r| <= |items|
  {
    if items == [] then []
    else
      var last := items[|items| - 1];
      assert items == items[..|items| - 1] + [last];
      MatchAll(m, query, items[..|items| - 1])
        + (match m(query, last) case None => [] case Some(mi) => [MatchedItem(last, mi)])
  }

  /** Matches are sorted by rank only when the query is not empty. */
  function Ranked(query: string, ms: seq<MatchedItem>): seq<MatchedItem>
  {
    if query == [] then ms else SortByRank(ms)
  }

  /** What update_matches leaves in the state. */
  datatype Outcome = Outcome(items: seq<MatchedItem>, staticLen: nat, selected: Option<nat>)

  /**
   * The truncation: at most `maxResults` items in total, the static matches
   * taking the slots first, async matches filling what is left; the selection
   * goes to the first item, if any.
   */
  function Truncate(ms: seq<MatchedItem>, ma: seq<MatchedItem>, maxResults: nat): (o: Outcome)
    ensures o.staticLen == Min(|ms|, maxResults)
    ensures |o.items| == Min(|ms| + |ma|, maxResults)
    ensures o.staticLen <= |o.items| && |o.items| - o.staticLen <= |ma|
    ensures o.selected == if |o.items| == 0 then None else Some(0)
  {
    var totalLimit := Min(|ms| + |ma|, maxResults);
    var staticLimit := Min(|ms|, totalLimit);
    var asyncLimit := if totalLimit >= staticLimit then totalLimit - staticLimit else 0;
    var items := ms[..staticLimit] + ma[..asyncLimit];
    Outcome(items, staticLimit, if |items| == 0 then None else Some(0))
  }

  /** The static candidates: provider items with async overrides. */
  function StaticCandidates(statics: seq<Item>, asyncItems: map<string, Item>): seq<Item>
  {
    Overlay(statics, asyncItems)
  }

  /** The async candidates: async items not sharing an id with a static item. */
  function AsyncCandidates(statics: seq<Item>, asyncItems: map<string, Item>, order: seq<string>): seq<Item>
  {
    AsyncOnly(order, asyncItems, IdsOf(statics))
  }

  /** The outcome of update_matches for the given state, visiting async keys in `order`. */
  function Displayed(query: string, statics: seq<Item>, asyncItems: map<string, Item>, order: seq<string>,
                     m: ItemMatcher, maxResults: nat): (o: Outcome)
    ensures ByteLen(query) == 1 ==> o == Outcome([], 0, None)
    ensures o.staticLen <= |o.items| <= maxResults
    ensures o.selected == if |o.items| == 0 then None else Some(0)
  {
    if ByteLen(query) == 1 then Outcome([], 0, None)
    else
      Truncate(Ranked(query, MatchAll(m, query, StaticCandidates(statics, asyncItems))),
               Ranked(query, MatchAll(m, query, AsyncCandidates(statics, asyncItems, order))),
               maxResults)
  }

  /** `items` and `staticLen` are what update_matches leaves for this state. */
  ghost predicate Shows(items: seq<MatchedItem>, staticLen: nat, query: string, statics: seq<Item>,
                        asyncItems: map<string, Item>, order: seq<string>, m: ItemMatcher, maxResults: nat)
  {
    var o := Displayed(query, statics, asyncItems, order, m, maxResults);
    items == o.items && staticLen == o.staticLen
  }

  /** Results of a provider query keyed by id; a later item with the same id replaces an earlier one. */
  function ItemsById(items: seq<Item>): map<string, Item>
  {
    if items == [] then map[]
    else ItemsById(items[..|items| - 1])[items[|items| - 1].id := items[|items| - 1]]
  }

  /** How long the spawned task sleeps: until the reveal deadline, or not at all once it has passed. */
  function RemainingDelay(deadline: Option<nat>, now: nat): (d: nat)
    ensures d > 0 <==> deadline.Some? && now < deadline.value
    ensures d > 0 ==> now + d == deadline.value
  {
    if deadline.Some? && deadline.value > now then deadline.value - now else 0
  }

  /** `select_next` on a non-empty list: forward, wrapping from the last item to the first. */
  function NextIndex(selected: Option<nat>, n: nat): (r: nat)
    requires n > 0
    ensures r < n
  {
    match selected
    case None => 0
    case Some(i) => if i >= n - 1 then 0 else i + 1
  }

  /** `select_prev` on a non-empty list: backward, wrapping from the first item (or none) to the last. */
  function PrevIndex(selected: Option<nat>, n: nat): (r: nat)
    requires n > 0
    ensures selected.None? || selected.value < n + 1 ==> r < n
  {
    match selected
    case None => n - 1
    case Some(i) => if i == 0 then n - 1 else i - 1
  }

  /**
   * The merge loop of update_matches: each async item replaces the first
   * static item with its id, or, when no static item has that id, is appended
   * to the async-only list. `order` is the (unspecified) map iteration order.
   */
  method MergeAsyncItems(staticItems: seq<Item>, asyncItems: map<string, Item>)
    returns (statics: seq<Item>, asyncOnly: seq<Item>, ghost order: seq<string>)
    requires KeysMatchIds(asyncItems)
    ensures IsEnumeration(order, asyncItems.Keys)
    ensures statics == Overlay(staticItems, asyncItems)
    ensures asyncOnly == AsyncOnly(order, asyncItems, IdsOf(staticItems))
  {
    statics := staticItems;
    asyncOnly := [];
    var staticIds := IdsOf(staticItems);
    var remaining := asyncItems.Keys;
    order := [];
    ghost var done: set<string> := {};
    while remaining != {}
      invariant remaining <= asyncItems.Keys && done <= asyncItems.Keys
      invariant forall k :: k in asyncItems ==> (k in done <==> k !in remaining)
      invariant IsEnumeration(order, done)
      invariant OverlaidBy(statics, staticItems, asyncItems, done)
      invariant asyncOnly == AsyncOnly(order, asyncItems, staticIds)
      decreases |remaining|
    {
      var id :| id in remaining;
      OverlayStep(statics, staticItems, asyncItems, done, id);
      if id in staticIds {
        var pos := Position(statics, id);
        if pos.Some? {
          statics := statics[pos.value := asyncItems[id]];
        }
      } else {
        asyncOnly := asyncOnly + [asyncItems[id]];
      }
      EnumerationStep(order, done, id);
      AsyncOnlySnoc(order, asyncItems, staticIds, id);
      remaining := remaining - {id};
      order := order + [id];
      done := done + {id};
    }
    assert done == asyncItems.Keys;
    OverlayDone(statics, staticItems, asyncItems);
  }

  /**
   * Loop invariant of the merge: each static item whose id is among the
   * visited keys, and is the first with that id, has been replaced.
   */
  ghost predicate OverlaidBy(statics: seq<Item>, staticItems: seq<Item>, asyncItems: map<string, Item>,
                             done: set<string>)
  {
    && |statics| == |staticItems|
    && forall i :: 0 <= i < |statics| ==>
         statics[i] == if staticItems[i].id in done && staticItems[i].id in asyncItems
                          && Position(staticItems, staticItems[i].id) == Some(i)
                       then asyncItems[staticItems[i].id] else staticItems[i]
  }

  lemma OverlayStep(statics: seq<Item>, staticItems: seq<Item>, asyncItems: map<string, Item>,
                    done: set<string>, id: string)
    requires KeysMatchIds(asyncItems) && id in asyncItems && id !in done
    requires OverlaidBy(statics, staticItems, asyncItems, done)
    ensures id !in IdsOf(staticItems) ==> Position(statics, id).None?
    ensures var pos := Position(statics, id);
      OverlaidBy(if pos.Some? then statics[pos.value := asyncItems[id]] else statics,
                 staticItems, asyncItems, done + {id})
  {
    SamePosition(statics, staticItems, id);
    var pos := Position(statics, id);
    var next := if pos.Some? then statics[pos.value := asyncItems[id]] else statics;
    forall i | 0 <= i < |next|
      ensures next[i] == if staticItems[i].id in done + {id} && staticItems[i].id in asyncItems
                           && Position(staticItems, staticItems[i].id) == Some(i)
                        then asyncItems[staticItems[i].id] else staticItems[i]
    {
      if staticItems[i].id != id {
        assert next[i] == statics[i];
      }
    }
  }

  lemma OverlayDone(statics: seq<Item>, staticItems: seq<Item>, asyncItems: map<string, Item>)
    requires OverlaidBy(statics, staticItems, asyncItems, asyncItems.Keys)
    ensures statics == Overlay(staticItems, asyncItems)
  {
    forall i | 0 <= i < |statics| ensures statics[i] == Overlay(staticItems, asyncItems)[i] {
      OverlayAt(staticItems, asyncItems, i);
    }
  }

  /** Item `i` of the overlay: replaced exactly when it is the first static item with an async id. */
  lemma {:induction false} OverlayAt(statics: seq<Item>, asyncItems: map<string, Item>, i: nat)
    requires i < |statics|
    ensures Overlay(statics, asyncItems)[i]
      == if statics[i].id in asyncItems && Position(statics, statics[i].id) == Some(i)
         then asyncItems[statics[i].id] else statics[i]
    decreases |statics|
  {
    var init, last := statics[..|statics| - 1], statics[|statics| - 1];
    assert statics == init + [last];
    var front := Overlay(init, asyncItems);
    var tail := if last.id in asyncItems && Position(init, last.id).None? then asyncItems[last.id] else last;
    assert Overlay(statics, asyncItems) == front + [tail];
    PositionSnoc(init, last, statics[i].id);
    if i < |init| {
      OverlayAt(init, asyncItems, i);
      assert statics[i] == init[i];
      assert Overlay(statics, asyncItems)[i] == front[i];
    } else {
      assert Overlay(statics, asyncItems)[i] == tail;
    }
  }

  /** The first position of an id in a list extended by one item. */
  lemma {:induction false} PositionSnoc(items: seq<Item>, x: Item, id: string)
    ensures Position(items + [x], id)
      == if Position(items, id).Some? then Position(items, id) else if x.id == id then Some(|items|) else None
    decreases |items|
  {
    if items != [] {
      assert (items + [x])[1..] == items[1..] + [x];
      PositionSnoc(items[1..], x, id);
    }
  }

  lemma AsyncOnlySnoc(order: seq<string>, asyncItems: map<string, Item>, staticIds: set<string>, id: string)
    ensures AsyncOnly(order + [id], asyncItems, staticIds)
      == AsyncOnly(order, asyncItems, staticIds) + (if id in asyncItems && id !in staticIds then [asyncItems[id]] else [])
  {
    assert (order + [id])[..|order|] == order;
  }

  lemma EnumerationStep(order: seq<string>, done: set<string>, id: string)
    requires IsEnumeration(order, done) && id !in done
    ensures IsEnumeration(order + [id], done + {id})
  {
    assert (order + [id])[..|order|] == order;
  }

  /** The `filter_map` over candidates followed, for a non-empty query, by `sort_by` on rank. */
  method RankMatches(query: string, matcher: ItemMatcher, candidates: seq<Item>) returns (ranked: seq<MatchedItem>)
    ensures ranked == Ranked(query, MatchAll(matcher, query, candidates))
  {
    ranked := MatchAll(matcher, query, candidates);
    if query != [] {
      ranked := SortByRank(ranked);
    }
  }

  /** The truncation step of update_matches. */
  method TruncateMatches(matchedStatic: seq<MatchedItem>, matchedAsync: seq<MatchedItem>, maxResults: nat)
    returns (items: seq<MatchedItem>, staticLen: nat)
    ensures items == Truncate(matchedStatic, matchedAsync, maxResults).items
    ensures staticLen == Truncate(matchedStatic, matchedAsync, maxResults).staticLen
  {
    var totalLen := |matchedStatic| + |matchedAsync|;
    var totalLimit := Min(totalLen, maxResults);
    var staticLimit := Min(|matchedStatic|, totalLimit);
    var asyncLimit := if totalLimit >= staticLimit then totalLimit - staticLimit else 0;
    var shownStatic := matchedStatic[..staticLimit];
    var shownAsync := matchedAsync[..asyncLimit];
    staticLen := |shownStatic|;
    items := shownStatic + shownAsync;
  }

  /**
   * The computing part of update_matches: nothing for a one-byte query;
   * otherwise merge, match, rank (for a non-empty query) and truncate.
   */
  method ComputeMatches(query: string, staticItems: seq<Item>, asyncItems: map<string, Item>,
                        matcher: ItemMatcher, maxResults: nat)
    returns (items: seq<MatchedItem>, staticLen: nat, ghost order: seq<string>)
    requires KeysMatchIds(asyncItems)
    ensures IsEnumeration(order, asyncItems.Keys)
    ensures Shows(items, staticLen, query, staticItems, asyncItems, order, matcher, maxResults)
    ensures staticLen <= |items| <= maxResults
  {
    if ByteLen(query) == 1 {
      order := EnumerationOf(asyncItems.Keys);
      return [], 0, order;
    }
    var statics, asyncOnly, ord := MergeAsyncItems(staticItems, asyncItems);
    order := ord;
    var matchedStatic := RankMatches(query, matcher, statics);
    var matchedAsync := RankMatches(query, matcher, asyncOnly);
    items, staticLen := TruncateMatches(matchedStatic, matchedAsync, maxResults);
  }

  /** The merge loop of the async task: each result inserted under its id, later ones replacing earlier ones. */
  method CollectById(results: seq<Item>) returns (byId: map<string, Item>)
    ensures byId == ItemsById(results)
    ensures KeysMatchIds(byId)
  {
    byId := map[];
    for i := 0 to |results|
      invariant byId == ItemsById(results[..i])
    {
      assert results[..i + 1][..i] == results[..i];
      byId := byId[results[i].id := results[i]];
    }
    assert results[..|results|] == results;
    ItemsByIdKeys(results);
  }

  /** A ticket for the async provider task: the query id it was spawned for, and its delay. */
  datatype QueryTicket = QueryTicket(queryId: nat, delay: nat)

  // ---------------------------------------------------------------------------
  // The state
  // ---------------------------------------------------------------------------

  class CommandPaletteState {
    const config: Config
    const matcher: ItemMatcher
    const staticItems: seq<Item>
    var query: string
    var matchedItems: seq<MatchedItem>
    var matchedStaticLen: nat
    var selectedIndex: Option<nat>
    var queryId: nat
    var revealDeadline: Option<nat>
    var asyncItems: map<string, Item>
    /** The order in which update_matches last visited the async items. */
    ghost var asyncOrder: seq<string>

    /** The matched items and static count are what update_matches computes from the current state. */
    ghost predicate UpToDate()
      reads this`asyncItems, this`asyncOrder, this`matchedItems, this`matchedStaticLen, this`query
    {
      && KeysMatchIds(asyncItems)
      && IsEnumeration(asyncOrder, asyncItems.Keys)
      && Shows(matchedItems, matchedStaticLen, query, staticItems, asyncItems, asyncOrder, matcher, config.maxResults)
    }

    ghost predicate Valid()
      reads this
    {
      && queryId < U64
      && UpToDate()
      && (selectedIndex.None? <==> |matchedItems| == 0)
      && (selectedIndex.Some? ==> selectedIndex.value < |matchedItems|)
    }

    /** `CommandPaletteState::new`: the provider's static items, an empty query, and matches for it. */
    constructor (config: Config, providerItems: seq<Item>, engines: Engines, reducedMotion: bool, now: nat)
      ensures Valid()
      ensures this.config == config && matcher == MatcherOf(config.matcher, engines)
      ensures staticItems == providerItems && query == [] && asyncItems == map[] && queryId == 0
      ensures revealDeadline == if reducedMotion then None else Some(now + RevealQueryDelayMs)
      ensures selectedIndex == if |matchedItems| == 0 then None else Some(0)
    {
      this.config := config;
      matcher := MatcherOf(config.matcher, engines);
      staticItems := providerItems;
      query := [];
      matchedItems := [];
      matchedStaticLen := 0;
      selectedIndex := None;
      queryId := 0;
      revealDeadline := if reducedMotion then None else Some(now + RevealQueryDelayMs);
      asyncItems := map[];
      asyncOrder := [];
      new;
      UpdateMatches();
    }

    /** `update_matches`: recompute matches, ranking and truncation; select the first item. */
    method UpdateMatches()
      requires queryId < U64 && KeysMatchIds(asyncItems)
      modifies this`matchedItems, this`matchedStaticLen, this`selectedIndex, this`asyncOrder
      ensures Valid()
      ensures selectedIndex == if |matchedItems| == 0 then None else Some(0)
    {
      var items, staticLen, order := ComputeMatches(query, staticItems, asyncItems, matcher, config.maxResults);
      asyncOrder := order;
      matchedStaticLen := staticLen;
      matchedItems := items;
      selectedIndex := if |matchedItems| == 0 then None else Some(0);
    }

    /**
     * `set_query`: an unchanged query does nothing. Otherwise the query id
     * advances (wrapping), async results are cleared, matches are recomputed,
     * and a provider task is spawned only for queries of two bytes or more.
     */
    method SetQuery(q: string, now: nat) returns (ticket: Option<QueryTicket>)
      requires Valid()
      modifies this`query, this`queryId, this`asyncItems
      modifies this`matchedItems, this`matchedStaticLen, this`selectedIndex, this`asyncOrder
      ensures Valid()
      ensures q == old(query) ==> ticket.None? && unchanged(this)
      ensures q != old(query) ==> query == q && queryId == WrappingInc(old(queryId)) && asyncItems == map[]
      ensures q != old(query) ==> selectedIndex == if |matchedItems| == 0 then None else Some(0)
      ensures ticket.Some? <==> q != old(query) && ByteLen(q) >= 2
      ensures ticket.Some? ==> ticket.value == QueryTicket(queryId, RemainingDelay(revealDeadline, now))
    {
      if query == q {
        return None;
      }
      query := q;
      queryId := WrappingInc(queryId);
      var current := queryId;
      asyncItems := map[];
      UpdateMatches();
      if ByteLen(query) < 2 {
        return None;
      }
      var delay := RemainingDelay(revealDeadline, now);
      ticket := Some(QueryTicket(current, delay));
    }

    /** The task's first check, after its delay: the provider is asked only if no newer query was set. */
    method StartProviderQuery(ticket: QueryTicket) returns (request: Option<string>)
      ensures request.Some? <==> ticket.queryId == queryId
      ensures request.Some? ==> request.value == query
    {
      if queryId != ticket.queryId {
        return None;
      }
      request := Some(query);
    }

    /**
     * The task's second check, when the provider's results arrive: results
     * for a superseded query are dropped; otherwise they replace the async
     * items (keyed by id) and matches are recomputed.
     */
    method FinishProviderQuery(ticket: QueryTicket, results: seq<Item>)
      requires Valid()
      modifies this`asyncItems, this`matchedItems, this`matchedStaticLen, this`selectedIndex, this`asyncOrder
      ensures Valid()
      ensures ticket.queryId != queryId ==> unchanged(this)
      ensures ticket.queryId == queryId ==> asyncItems == ItemsById(results)
      ensures ticket.queryId == queryId ==> selectedIndex == if |matchedItems| == 0 then None else Some(0)
    {
      if queryId != ticket.queryId {
        return;
      }
      var byId := CollectById(results);
      asyncItems := byId;
      UpdateMatches();
    }

    /** `select_prev`: nothing on an empty list, else backward with wrap-around. */
    method SelectPrev()
      requires Valid()
      modifies this`selectedIndex
      ensures Valid()
      ensures |matchedItems| == 0 ==> selectedIndex == old(selectedIndex)
      ensures |matchedItems| > 0 ==> selectedIndex == Some(PrevIndex(old(selectedIndex), |matchedItems|))
    {
      if |matchedItems| == 0 {
        return;
      }
      selectedIndex := Some(PrevIndex(selectedIndex, |matchedItems|));
    }

    /** `select_next`: nothing on an empty list, else forward with wrap-around. */
    method SelectNext()
      requires Valid()
      modifies this`selectedIndex
      ensures Valid()
      ensures |matchedItems| == 0 ==> selectedIndex == old(selectedIndex)
      ensures |matchedItems| > 0 ==> selectedIndex == Some(NextIndex(old(selectedIndex), |matchedItems|))
    {
      if |matchedItems| == 0 {
        return;
      }
      selectedIndex := Some(NextIndex(selectedIndex, |matchedItems|));
    }

    /** `select_index`: an index inside the list becomes the selection; others are ignored. */
    method SelectIndex(index: nat)
      requires Valid()
      modifies this`selectedIndex
      ensures Valid()
      ensures selectedIndex == if index < |matchedItems| then Some(index) else old(selectedIndex)
    {
      if index < |matchedItems| {
        selectedIndex := Some(index);
      }
    }

    /** `confirm`: emits `Selected` for the selected item when it exists and is enabled. */
    method Confirm() returns (event: Option<PaletteEvent>)
      ensures event.Some? <==>
        selectedIndex.Some? && selectedIndex.value < |matchedItems| && !matchedItems[selectedIndex.value].item.disabled
      ensures event.Some? ==> event.value == Selected(matchedItems[selectedIndex.value].item)
    {
      event := None;
      if selectedIndex.Some? {
        var index := selectedIndex.value;
        if index < |matchedItems| {
          var matched := matchedItems[index];
          if !matched.item.disabled {
            event := Some(Selected(matched.item));
          }
        }
      }
    }

    /** `dismiss`: always emits `Dismissed`. */
    method Dismiss() returns (event: PaletteEvent)
      ensures event.Dismissed?
    {
      event := Dismissed;
    }

    /** `selected_item`: the item at the selection, if the selection is inside the list. */
    function SelectedItem(): (r: Option<MatchedItem>)
      reads this
      ensures r.Some? <==> selectedIndex.Some? && selectedIndex.value < |matchedItems|
      ensures r.Some? ==> r.value == matchedItems[selectedIndex.value]
    {
      if selectedIndex.Some? && selectedIndex.value < |matchedItems| then Some(matchedItems[selectedIndex.value])
      else None
    }
  }

  // ---------------------------------------------------------------------------
  // Helper lemmas for the method proofs
  // ---------------------------------------------------------------------------

  /** Two lists with the same ids have the same first position for every id. */
  lemma {:induction false} SamePosition(a: seq<Item>, b: seq<Item>, id: string)
    requires |a| == |b| && forall i :: 0 <= i < |a| ==> a[i].id == b[i].id
    ensures Position(a, id) == Position(b, id)
    decreases |a|
  {
    if a != [] {
      SamePosition(a[1..], b[1..], id);
    }
  }

  /** Every key of `ItemsById` is the id of its item, and comes from some item. */
  lemma {:induction false} ItemsByIdKeys(items: seq<Item>)
    ensures KeysMatchIds(ItemsById(items))
    ensures forall k :: k in ItemsById(items) <==> exists i :: 0 <= i < |items| && items[i].id == k
    decreases |items|
  {
    if items != [] {
      var init := items[..|items| - 1];
      ItemsByIdKeys(init);
      forall k ensures k in ItemsById(items) <==> exists i :: 0 <= i < |items| && items[i].id == k {
        if exists i :: 0 <= i < |init| && init[i].id == k {
          var i :| 0 <= i < |init| && init[i].id == k;
          assert items[i].id == k;
        }
        if exists i :: 0 <= i < |items| && items[i].id == k {
          var i :| 0 <= i < |items| && items[i].id == k;
          if i < |items| - 1 { assert init[i].id == k; }
        }
      }
    }
  }

  // ---------------------------------------------------------------------------
  // What the palette shows
  // ---------------------------------------------------------------------------

  lemma RankedLength(query: string, ms: seq<MatchedItem>)
    ensures |Ranked(query, ms)| == |ms|
  {
  }

  lemma RankedFacts(query: string, ms: seq<MatchedItem>)
    ensures |Ranked(query, ms)| == |ms| && multiset(Ranked(query, ms)) == multiset(ms)
    ensures query == [] ==> Ranked(query, ms) == ms
    ensures query != [] ==> Sorted(Ranked(query, ms))
  {
    if query != [] {
      SortByRankSorted(ms);
    }
  }

  /** Past the one-byte early exit, the list is the truncation of the two ranked parts. */
  lemma DisplayedParts(query: string, statics: seq<Item>, asyncItems: map<string, Item>, order: seq<string>,
                       m: ItemMatcher, maxResults: nat, all: seq<MatchedItem>, allAsync: seq<MatchedItem>)
    requires ByteLen(query) != 1
    requires all == MatchAll(m, query, StaticCandidates(statics, asyncItems))
    requires allAsync == MatchAll(m, query, AsyncCandidates(statics, asyncItems, order))
    ensures Displayed(query, statics, asyncItems, order, m, maxResults).staticLen
      == Min(|Ranked(query, all)|, maxResults)
    ensures |Displayed(query, statics, asyncItems, order, m, maxResults).items|
      == Min(|Ranked(query, all)| + |Ranked(query, allAsync)|, maxResults)
    ensures Displayed(query, statics, asyncItems, order, m, maxResults).items
      == Truncate(Ranked(query, all), Ranked(query, allAsync), maxResults).items
  {
  }

  lemma TruncateItems(ms: seq<MatchedItem>, ma: seq<MatchedItem>, maxResults: nat)
    ensures var o := Truncate(ms, ma, maxResults);
      o.items == ms[..o.staticLen] + ma[..|o.items| - o.staticLen]
  {
  }

  lemma TruncatePositions(ms: seq<MatchedItem>, ma: seq<MatchedItem>, maxResults: nat, k: nat)
    requires k < |Truncate(ms, ma, maxResults).items|
    ensures var o := Truncate(ms, ma, maxResults);
      (k < o.staticLen ==> o.items[k] == ms[k]) && (k >= o.staticLen ==> o.items[k] == ma[k - o.staticLen])
  {
  }

  lemma RankedMember(query: string, ms: seq<MatchedItem>, k: nat)
    requires k < |Ranked(query, ms)|
    ensures Ranked(query, ms)[k] in ms
  {
    RankedFacts(query, ms);
    assert Ranked(query, ms)[k] in multiset(Ranked(query, ms));
  }

  /**
   * Static matches are never crowded out by async ones: the palette shows
   * `min(static matches, max results)` static items and fills only the
   * remaining slots with async items, `min(all matches, max results)` in all.
   */
  lemma StaticMatchesComeFirst(query: string, statics: seq<Item>, asyncItems: map<string, Item>,
                               order: seq<string>, m: ItemMatcher, maxResults: nat)
    requires ByteLen(query) != 1
    ensures var o := Displayed(query, statics, asyncItems, order, m, maxResults);
      var ns := |MatchAll(m, query, StaticCandidates(statics, asyncItems))|;
      var na := |MatchAll(m, query, AsyncCandidates(statics, asyncItems, order))|;
      o.staticLen == Min(ns, maxResults) && |o.items| == Min(ns + na, maxResults)
  {
    var all := MatchAll(m, query, StaticCandidates(statics, asyncItems));
    var allAsync := MatchAll(m, query, AsyncCandidates(statics, asyncItems, order));
    RankedLength(query, all);
    RankedLength(query, allAsync);
    DisplayedParts(query, statics, asyncItems, order, m, maxResults, all, allAsync);
  }

  /**
   * For a non-empty query (not one byte long) each part of the list is the
   * best-ranked prefix of a sorted permutation of that part's matches: sorted,
   * and nothing left out of the static part ranks above anything shown in it.
   */
  lemma ShownStaticIsTopRanked(query: string, statics: seq<Item>, asyncItems: map<string, Item>,
                               order: seq<string>, m: ItemMatcher, maxResults: nat)
    requires query != [] && ByteLen(query) != 1
    ensures var o := Displayed(query, statics, asyncItems, order, m, maxResults);
      var all := MatchAll(m, query, StaticCandidates(statics, asyncItems));
      var ranked := SortByRank(all);
      && multiset(ranked) == multiset(all)
      && o.items[..o.staticLen] == ranked[..o.staticLen]
      && Sorted(o.items[..o.staticLen])
      && Sorted(o.items[o.staticLen..])
      && forall i, j :: 0 <= i < o.staticLen <= j < |ranked| ==> RankLe(ranked[i], ranked[j])
  {
    var all := MatchAll(m, query, StaticCandidates(statics, asyncItems));
    var allAsync := MatchAll(m, query, AsyncCandidates(statics, asyncItems, order));
    var ranked := SortByRank(all);
    var rankedAsync := SortByRank(allAsync);
    RankedFacts(query, all);
    RankedFacts(query, allAsync);
    DisplayedParts(query, statics, asyncItems, order, m, maxResults, all, allAsync);
    TruncateSortedParts(ranked, rankedAsync, maxResults);
  }

  /** Each part of a truncation of two sorted lists is a sorted prefix of its list. */
  lemma TruncateSortedParts(ms: seq<MatchedItem>, ma: seq<MatchedItem>, maxResults: nat)
    requires Sorted(ms) && Sorted(ma)
    ensures var o := Truncate(ms, ma, maxResults);
      && o.items[..o.staticLen] == ms[..o.staticLen]
      && Sorted(o.items[..o.staticLen])
      && Sorted(o.items[o.staticLen..])
      && forall i, j :: 0 <= i < o.staticLen <= j < |ms| ==> RankLe(ms[i], ms[j])
  {
    var o := Truncate(ms, ma, maxResults);
    TruncateItems(ms, ma, maxResults);
    assert o.items[..o.staticLen] == ms[..o.staticLen];
    assert o.items[o.staticLen..] == ma[..|o.items| - o.staticLen];
  }

  /** Every item shown is a candidate the matcher accepted, shown with the match it returned. */
  lemma ShownItemsMatch(query: string, statics: seq<Item>, asyncItems: map<string, Item>,
                        order: seq<string>, m: ItemMatcher, maxResults: nat, k: nat)
    requires k < |Displayed(query, statics, asyncItems, order, m, maxResults).items|
    ensures var x := Displayed(query, statics, asyncItems, order, m, maxResults).items[k];
      && m(query, x.item) == Some(x.matchInfo)
      && (x.item in StaticCandidates(statics, asyncItems) || x.item in AsyncCandidates(statics, asyncItems, order))
  {
    if ByteLen(query) != 1 {
      var all := MatchAll(m, query, StaticCandidates(statics, asyncItems));
      var allAsync := MatchAll(m, query, AsyncCandidates(statics, asyncItems, order));
      DisplayedParts(query, statics, asyncItems, order, m, maxResults, all, allAsync);
      TruncatedRankedMember(query, all, allAsync, maxResults, k);
      MatchAllSpec(m, query, StaticCandidates(statics, asyncItems));
      MatchAllSpec(m, query, AsyncCandidates(statics, asyncItems, order));
    }
  }

  lemma TruncatedRankedMember(query: string, all: seq<MatchedItem>, allAsync: seq<MatchedItem>, maxResults: nat, k: nat)
    requires k < |Truncate(Ranked(query, all), Ranked(query, allAsync), maxResults).items|
    ensures var x := Truncate(Ranked(query, all), Ranked(query, allAsync), maxResults).items[k];
      x in all || x in allAsync
  {
    var ms, ma := Ranked(query, all), Ranked(query, allAsync);
    TruncatePositions(ms, ma, maxResults, k);
    if k < Truncate(ms, ma, maxResults).staticLen {
      RankedMember(query, all, k);
    } else {
      RankedMember(query, allAsync, k - Truncate(ms, ma, maxResults).staticLen);
    }
  }

  /**
   * The `filter_map` keeps exactly what the matcher accepts: every match comes
   * from an item the matcher accepted, with the match it returned, and every
   * accepted item is there.
   */
  lemma {:induction false} MatchAllSpec(m: ItemMatcher, query: string, items: seq<Item>)
    ensures forall x :: x in MatchAll(m, query, items) ==> x.item in items && m(query, x.item) == Some(x.matchInfo)
    ensures forall it :: it in items && m(query, it).Some? ==> MatchedItem(it, m(query, it).value) in MatchAll(m, query, items)
    decreases |items|
  {
    if items != [] {
      var init := items[..|items| - 1];
      MatchAllSpec(m, query, init);
      assert items == init + [items[|items| - 1]];
    }
  }

  /** A matcher that accepts every item with the same match keeps the items, in order. */
  lemma {:induction false} MatchAllAcceptingAll(m: ItemMatcher, query: string, items: seq<Item>, mi: Match)
    requires forall it :: m(query, it) == Some(mi)
    ensures MatchAll(m, query, items) == seq(|items|, i requires 0 <= i < |items| => MatchedItem(items[i], mi))
    decreases |items|
  {
    if items != [] {
      MatchAllAcceptingAll(m, query, items[..|items| - 1], mi);
    }
  }

  /**
   * With the empty query the built-in matchers accept everything with score 0
   * and no sorting happens: the static part lists the provider's items (with
   * async overrides) in the provider's order, cut to max results.
   */
  lemma EmptyQueryKeepsProviderOrder(statics: seq<Item>, asyncItems: map<string, Item>, order: seq<string>,
                                     kind: MatcherKind, engines: Engines, maxResults: nat)
    requires kind.Nucleo? || kind.FuzzyMatcher?
    ensures var o := Displayed([], statics, asyncItems, order, MatcherOf(kind, engines), maxResults);
      && o.staticLen == Min(|statics|, maxResults)
      && forall i :: 0 <= i < o.staticLen ==>
           o.items[i] == MatchedItem(StaticCandidates(statics, asyncItems)[i], Match(0, [], []))
  {
    var m := MatcherOf(kind, engines);
    var sc := StaticCandidates(statics, asyncItems);
    assert forall it :: m([], it) == Some(Match(0, [], []));
    MatchAllAcceptingAll(m, [], sc, Match(0, [], []));
    var all := MatchAll(m, [], sc);
    var allAsync := MatchAll(m, [], AsyncCandidates(statics, asyncItems, order));
    assert |all| == |statics|;
    DisplayedParts([], statics, asyncItems, order, m, maxResults, all, allAsync);
    var o := Displayed([], statics, asyncItems, order, m, maxResults);
    forall i | 0 <= i < o.staticLen
      ensures o.items[i] == MatchedItem(sc[i], Match(0, [], []))
    {
      TruncatePositions(all, allAsync, maxResults, i);
    }
  }

  /**
   * The merge: an async item takes the place of the first static item with its
   * id; the async-only list holds exactly the async items whose id no static
   * item has, each once.
   */
  lemma {:induction false} AsyncOnlySpec(order: seq<string>, asyncItems: map<string, Item>, staticIds: set<string>)
    requires KeysMatchIds(asyncItems)
    requires forall i, j :: 0 <= i < j < |order| ==> order[i] != order[j]
    ensures forall x :: x in AsyncOnly(order, asyncItems, staticIds) ==>
      x.id in asyncItems && asyncItems[x.id] == x && x.id !in staticIds && x.id in order
    ensures forall k :: k in order && k in asyncItems && k !in staticIds ==>
      asyncItems[k] in AsyncOnly(order, asyncItems, staticIds)
    ensures |AsyncOnly(order, asyncItems, staticIds)| <= |order|
    decreases |order|
  {
    if order != [] {
      var init := order[..|order| - 1];
      AsyncOnlySpec(init, asyncItems, staticIds);
      forall k | k in order ensures k in init || k == order[|order| - 1] {
        var i :| 0 <= i < |order| && order[i] == k;
        if i < |order| - 1 { assert init[i] == k; }
      }
    }
  }

  lemma OverlaySpec(statics: seq<Item>, asyncItems: map<string, Item>, i: nat)
    requires KeysMatchIds(asyncItems) && i < |statics|
    ensures Overlay(statics, asyncItems)[i].id == statics[i].id
    ensures statics[i].id in asyncItems && (forall j :: 0 <= j < i ==> statics[j].id != statics[i].id)
      ==> Overlay(statics, asyncItems)[i] == asyncItems[statics[i].id]
    ensures statics[i].id !in asyncItems ==> Overlay(statics, asyncItems)[i] == statics[i]
  {
    OverlayAt(statics, asyncItems, i);
    var id := statics[i].id;
    var p := Position(statics, id);
    assert p.Some?;
    if forall j :: 0 <= j < i ==> statics[j].id != id {
      assert statics[p.value].id == id;
      assert !(p.value < i) && !(p.value > i);
    }
  }

  // ---------------------------------------------------------------------------
  // Results keyed by id, selection movement
  // ---------------------------------------------------------------------------

  /** When several results share an id, the last one is kept. */
  lemma {:induction false} ItemsByIdLastWins(items: seq<Item>, i: nat)
    requires i < |items|
    requires forall j :: i < j < |items| ==> items[j].id != items[i].id
    ensures items[i].id in ItemsById(items) && ItemsById(items)[items[i].id] == items[i]
    decreases |items|
  {
    if i < |items| - 1 {
      ItemsByIdLastWins(items[..|items| - 1], i);
    }
  }

  /** Moving down then up, or up then down, returns to the same item. */
  lemma NextPrevInverse(i: nat, n: nat)
    requires i < n
    ensures PrevIndex(Some(NextIndex(Some(i), n)), n) == i
    ensures NextIndex(Some(PrevIndex(Some(i), n)), n) == i
  {
  }

  /** `k` moves down from item `i`. */
  function NextTimes(i: nat, n: nat, k: nat): (r: nat)
    requires n > 0
  {
    if k == 0 then i else NextIndex(Some(NextTimes(i, n, k - 1)), n)
  }

  lemma {:induction false} NextTimesAdd(i: nat, n: nat, a: nat, b: nat)
    requires n > 0
    ensures NextTimes(i, n, a + b) == NextTimes(NextTimes(i, n, a), n, b)
    decreases b
  {
    if b > 0 {
      NextTimesAdd(i, n, a, b - 1);
    }
  }

  /** Before reaching the last item, `k` moves down from item `i` land on item `i + k`. */
  lemma {:induction false} NextTimesNoWrap(i: nat, n: nat, k: nat)
    requires i + k < n
    ensures NextTimes(i, n, k) == i + k
  {
    if k > 0 {
      NextTimesNoWrap(i, n, k - 1);
    }
  }

  /** Moving down wraps around: after `n` moves the selection is back where it started. */
  lemma NextTimesCycle(i: nat, n: nat)
    requires i < n
    ensures NextTimes(i, n, n) == i
  {
    NextTimesNoWrap(i, n, n - 1 - i);
    NextTimesAdd(i, n, n - 1 - i, 1);
    assert NextTimes(i, n, n - i) == 0;
    NextTimesNoWrap(0, n, i);
    NextTimesAdd(i, n, n - i, i);
  }

  /**
   * A provider response for a superseded query is ignored: after a second,
   * different query, finishing the first query's task leaves the state
   * exactly as the second query left it, with no async items.
   */
  method SupersededResultsAreDropped(p: CommandPaletteState, q1: string, q2: string, now: nat, results: seq<Item>)
    requires p.Valid() && q1 != p.query && q2 != q1 && ByteLen(q1) >= 2
    modifies p
    ensures p.Valid()
    ensures p.query == q2 && p.asyncItems == map[] && p.queryId == WrappingInc(WrappingInc(old(p.queryId)))
    ensures p.selectedIndex == if |p.matchedItems| == 0 then None else Some(0)
  {
    var t1 := p.SetQuery(q1, now);
    WrappingIncMoves(t1.value.queryId);
    var t2 := p.SetQuery(q2, now);
    ghost var items, staticLen, selected, id, order := p.matchedItems, p.matchedStaticLen, p.selectedIndex, p.queryId, p.asyncOrder;
    p.FinishProviderQuery(t1.value, results);
    assert p.matchedItems == items && p.matchedStaticLen == staticLen && p.selectedIndex == selected;
    assert p.queryId == id && p.asyncOrder == order;
  }
}
