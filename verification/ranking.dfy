/**
 * The order in which the palette lists matches when the query is not empty:
 * higher score first, ties broken by title in ascending order, equal keys
 * keeping their relative order (a stable sort).
 */
module Ranking {
  import opened PaletteTypes

  /**
   * `str::cmp` on titles, strictly less: lexicographic by code point, which is
   * the same order as comparing the UTF-8 bytes.
   */
  predicate LexLt(a: string, b: string)
  {
    if a == [] then b != []
    else if b == [] then false
    else if a[0] != b[0] then a[0] < b[0]
    else LexLt(a[1..], b[1..])
  }

  lemma {:induction false} LexLtIrreflexive(a: string)
    ensures !LexLt(a, a)
    decreases |a|
  {
    if a != [] {
      LexLtIrreflexive(a[1..]);
    }
  }

  lemma {:induction false} LexLtTransitive(a: string, b: string, c: string)
    requires LexLt(a, b) && LexLt(b, c)
    ensures LexLt(a, c)
    decreases |a|
  {
    if a != [] && b != [] && c != [] && a[0] == b[0] && b[0] == c[0] {
      LexLtTransitive(a[1..], b[1..], c[1..]);
    }
  }

  lemma {:induction false} LexLtTotal(a: string, b: string)
    ensures a == b || LexLt(a, b) || LexLt(b, a)
    ensures !(LexLt(a, b) && LexLt(b, a))
    decreases |a|
  {
    if a != [] && b != [] && a[0] == b[0] {
      LexLtTotal(a[1..], b[1..]);
      if a[1..] == b[1..] {
        assert a == [a[0]] + a[1..] && b == [b[0]] + b[1..];
      }
    }
  }

  /** `a` is listed strictly before `b`: a higher score, or the same score and a smaller title. */
  predicate Before(a: MatchedItem, b: MatchedItem)
  {
    a.matchInfo.score > b.matchInfo.score
    || (a.matchInfo.score == b.matchInfo.score && LexLt(a.item.title, b.item.title))
  }

  /** `a` may be listed before `b`: `b` does not strictly precede it. */
  predicate RankLe(a: MatchedItem, b: MatchedItem)
  {
    !Before(b, a)
  }

  lemma RankLeTransitive(a: MatchedItem, b: MatchedItem, c: MatchedItem)
    requires RankLe(a, b) && RankLe(b, c)
    ensures RankLe(a, c)
  {
    LexLtTotal(a.item.title, b.item.title);
    LexLtTotal(b.item.title, c.item.title);
    LexLtTotal(a.item.title, c.item.title);
    if LexLt(c.item.title, a.item.title) && a.matchInfo.score == c.matchInfo.score {
      if a.item.title != b.item.title && b.item.title != c.item.title {
        LexLtTransitive(a.item.title, b.item.title, c.item.title);
      }
    }
  }

  lemma BeforeAsymmetric(a: MatchedItem, b: MatchedItem)
    requires Before(a, b)
    ensures RankLe(a, b)
  {
    LexLtTotal(a.item.title, b.item.title);
  }

  predicate Sorted(xs: seq<MatchedItem>)
  {
    forall i, j :: 0 <= i < j < |xs| ==> RankLe(xs[i], xs[j])
  }

  /** Insertion of `x` after every element it does not strictly precede. */
  function Insert(x: MatchedItem, s: seq<MatchedItem>): (r: seq<MatchedItem>)
    ensures multiset(r) == multiset(s) + multiset{x}
    ensures |r| == |s| + 1
  {
    if s == [] || !Before(x, s[|s| - 1]) then s + [x]
    else
      assert s == s[..|s| - 1] + [s[|s| - 1]];
      Insert(x, s[..|s| - 1]) + [s[|s| - 1]]
  }

  /** `sort_by` with the ranking comparator: a stable insertion sort. */
  function SortByRank(xs: seq<MatchedItem>): (r: seq<MatchedItem>)
    ensures multiset(r) == multiset(xs)
    ensures |r| == |xs|
  {
    if xs == [] then []
    else
      assert xs == xs[..|xs| - 1] + [xs[|xs| - 1]];
      Insert(xs[|xs| - 1], SortByRank(xs[..|xs| - 1]))
  }

  lemma {:induction false} InsertSorted(x: MatchedItem, s: seq<MatchedItem>)
    requires Sorted(s)
    ensures Sorted(Insert(x, s))
    decreases |s|
  {
    if s == [] {
    } else if !Before(x, s[|s| - 1]) {
      var r := s + [x];
      forall i, j | 0 <= i < j < |r| ensures RankLe(r[i], r[j]) {
        if j == |s| && i < |s| - 1 {
          RankLeTransitive(s[i], s[|s| - 1], x);
        }
      }
    } else {
      var init := s[..|s| - 1];
      var last := s[|s| - 1];
      assert Sorted(init);
      InsertSorted(x, init);
      var front := Insert(x, init);
      var r := front + [last];
      BeforeAsymmetric(x, last);
      forall y | y in front ensures RankLe(y, last) {
        assert y in multiset(front);
        if y != x {
          assert y in multiset(init);
          var i :| 0 <= i < |init| && init[i] == y;
        }
      }
      forall i, j | 0 <= i < j < |r| ensures RankLe(r[i], r[j]) {
        if j == |front| {
          assert r[i] in front;
        }
      }
    }
  }

  lemma {:induction false} SortByRankSorted(xs: seq<MatchedItem>)
    ensures Sorted(SortByRank(xs))
    decreases |xs|
  {
    if xs != [] {
      SortByRankSorted(xs[..|xs| - 1]);
      InsertSorted(xs[|xs| - 1], SortByRank(xs[..|xs| - 1]));
    }
  }

  /** `y` has the given score and title: it belongs to the class the comparator cannot tell apart from that key. */
  predicate HasKey(y: MatchedItem, score: int, title: string)
  {
    y.matchInfo.score == score && y.item.title == title
  }

  /** The elements with the given score and title, in their order. */
  function WithKey(xs: seq<MatchedItem>, score: int, title: string): seq<MatchedItem>
  {
    if xs == [] then []
    else WithKey(xs[..|xs| - 1], score, title) + (if HasKey(xs[|xs| - 1], score, title) then [xs[|xs| - 1]] else [])
  }

  lemma WithKeySnoc(xs: seq<MatchedItem>, y: MatchedItem, score: int, title: string)
    ensures WithKey(xs + [y], score, title) == WithKey(xs, score, title) + (if HasKey(y, score, title) then [y] else [])
  {
    assert (xs + [y])[..|xs|] == xs;
  }

  /** An item strictly before another never shares its key. */
  lemma BeforeKeysDiffer(x: MatchedItem, y: MatchedItem, score: int, title: string)
    requires Before(x, y)
    ensures !(HasKey(x, score, title) && HasKey(y, score, title))
  {
    LexLtIrreflexive(x.item.title);
  }

  /** Inserting `x` keeps the order within every class and puts `x` at the end of its own. */
  lemma {:induction false} InsertWithKey(x: MatchedItem, s: seq<MatchedItem>, score: int, title: string)
    ensures WithKey(Insert(x, s), score, title)
      == WithKey(s, score, title) + (if HasKey(x, score, title) then [x] else [])
    decreases |s|
  {
    if s == [] || !Before(x, s[|s| - 1]) {
      assert Insert(x, s) == s + [x];
      WithKeySnoc(s, x, score, title);
    } else {
      var init, last := s[..|s| - 1], s[|s| - 1];
      var front := Insert(x, init);
      assert Insert(x, s) == front + [last];
      assert s == init + [last];
      WithKeySnoc(front, last, score, title);
      WithKeySnoc(init, last, score, title);
      InsertWithKey(x, init, score, title);
      BeforeKeysDiffer(x, last, score, title);
    }
  }

  /**
   * `sort_by` is stable: items with the same score and title, which the
   * comparator finds equal, come out in the order they went in.
   */
  lemma {:induction false} SortByRankStable(xs: seq<MatchedItem>, score: int, title: string)
    ensures WithKey(SortByRank(xs), score, title) == WithKey(xs, score, title)
    decreases |xs|
  {
    if xs != [] {
      var init := xs[..|xs| - 1];
      SortByRankStable(init, score, title);
      InsertWithKey(xs[|xs| - 1], SortByRank(init), score, title);
    }
  }

  /** Two items share a key exactly when neither is listed before the other. */
  lemma SameKeyIffUnordered(a: MatchedItem, b: MatchedItem)
    ensures HasKey(b, a.matchInfo.score, a.item.title) <==> (!Before(a, b) && !Before(b, a))
  {
    LexLtTotal(a.item.title, b.item.title);
  }
}
