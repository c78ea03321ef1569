/**
 * The two built-in matchers of the command palette and the conversion of the
 * fuzzy engines' character indices into byte ranges.
 *
 * The fuzzy engines themselves (nucleo's `Pattern::indices` and skim's
 * `fuzzy_indices`) are foreign: they are function-typed parameters here, and
 * only the composition rule around them and the index conversion are modelled.
 */
module Matcher {
  import opened Wrappers
  import opened Utf8
  import opened PaletteTypes

  newtype u32 = x: int | 0 <= x < 0x1_0000_0000

  /** What a fuzzy engine reports on a match: a score and the matched character indices. */
  datatype EngineHit = EngineHit(score: int, indices: seq<nat>)

  /** nucleo's result: a `u32` score and `u32` character indices. */
  datatype NucleoHit = NucleoHit(score: u32, indices: seq<u32>)

  /** nucleo, applied as `(query, haystack)`. */
  type NucleoEngine = (string, string) -> Option<NucleoHit>

  /** skim's `fuzzy_indices(text, query)`: an `i64` score and `usize` character indices. */
  type SkimEngine = (string, string) -> Option<EngineHit>

  /** A fuzzy engine as both matchers use it: `(query, text)` to an optional hit. */
  type Engine = (string, string) -> Option<EngineHit>

  /** The foreign engines the built-in matchers wrap. */
  datatype Engines = Engines(nucleo: NucleoEngine, skim: SkimEngine)

  predicate StrictlyIncreasing(xs: seq<nat>)
  {
    forall i, j :: 0 <= i < j < |xs| ==> xs[i] < xs[j]
  }

  // ---------------------------------------------------------------------------
  // Character indices to byte ranges
  // ---------------------------------------------------------------------------

  /** A range `[start, end)` of character indices. */
  datatype CharRange = CharRange(start: nat, end: nat)

  /** The run-merging loop from the run `[start, end)` on, over the indices still to visit. */
  function RunsFrom(rest: seq<nat>, start: nat, end: nat): seq<CharRange>
    decreases |rest|
  {
    if rest == [] then [CharRange(start, end)]
    else if rest[0] == end then RunsFrom(rest[1..], start, rest[0] + 1)
    else [CharRange(start, end)] + RunsFrom(rest[1..], rest[0], rest[0] + 1)
  }

  /** Consecutive character indices merged into runs; no indices, no runs. */
  function CharRuns(indices: seq<nat>): seq<CharRange>
  {
    if indices == [] then [] else RunsFrom(indices[1..], indices[0], indices[0] + 1)
  }

  /**
   * One step of the `filter_map`: a run that starts past the last character is
   * dropped; otherwise its start becomes that character's byte offset and its
   * end the offset of character `end`, or the byte length when `end` is past
   * the last character.
   */
  function ByteRangeOf(r: CharRange, text: string): Option<ByteRange>
  {
    if r.start < |text| then
      Some(ByteRange(ByteOffset(text, r.start), if r.end < |text| then ByteOffset(text, r.end) else ByteLen(text)))
    else None
  }

  function ByteRangesOf(runs: seq<CharRange>, text: string): seq<ByteRange>
  {
    if runs == [] then []
    else
      var o := ByteRangeOf(runs[|runs| - 1], text);
      ByteRangesOf(runs[..|runs| - 1], text) + (if o.Some? then [o.value] else [])
  }

  /** What `indices_to_ranges` returns for `indices` over `text`. */
  function ByteRanges(indices: seq<nat>, text: string): seq<ByteRange>
  {
    ByteRangesOf(CharRuns(indices), text)
  }

  /** `indices_to_ranges_usize`: the offset table, the loop that merges runs, then the byte conversion. */
  method IndicesToRangesUsize(indices: seq<nat>, text: string) returns (ranges: seq<ByteRange>)
    ensures ranges == ByteRanges(indices, text)
    ensures indices == [] ==> ranges == []
  {
    if |indices| == 0 {
      return [];
    }
    var charToByte := CharOffsets(text);
    var textLen := ByteLen(text);
    var charRanges := MergeRuns(indices);
    ranges := RunsToByteRanges(charRanges, charToByte, textLen, text);
  }

  /** The table from character index to byte offset, built by summing UTF-8 widths. */
  method CharOffsets(text: string) returns (charToByte: seq<nat>)
    ensures |charToByte| == |text|
    ensures forall k :: 0 <= k < |text| ==> charToByte[k] == ByteOffset(text, k)
  {
    charToByte := [];
    var offset := 0;
    for i := 0 to |text|
      invariant |charToByte| == i && offset == ByteOffset(text, i)
      invariant forall k :: 0 <= k < i ==> charToByte[k] == ByteOffset(text, k)
    {
      ByteOffsetStrictlyMonotone(text, i, i + 1);
      charToByte := charToByte + [offset];
      offset := offset + Width(text[i]);
    }
  }

  /** The run-merging loop: consecutive indices extend the current run, a gap starts a new one. */
  method MergeRuns(indices: seq<nat>) returns (charRanges: seq<CharRange>)
    requires indices != []
    ensures charRanges == CharRuns(indices)
  {
    charRanges := [];
    var start := indices[0];
    var end := start + 1;
    for k := 1 to |indices|
      invariant MergeState(charRanges, start, end) == MergeAfter(indices, k)
    {
      var idx := indices[k];
      if idx == end {
        end := idx + 1;
      } else {
        charRanges := charRanges + [CharRange(start, end)];
        start := idx;
        end := idx + 1;
      }
    }
    MergeAfterRuns(indices, |indices|);
    assert indices[|indices|..] == [];
    charRanges := charRanges + [CharRange(start, end)];
  }

  /** The variables of the run-merging loop: the finished runs and the current one. */
  datatype MergeState = MergeState(done: seq<CharRange>, start: nat, end: nat)

  /** The loop's variables after visiting the first `k` indices. */
  function MergeAfter(indices: seq<nat>, k: nat): MergeState
    requires 1 <= k <= |indices|
    decreases k
  {
    if k == 1 then MergeState([], indices[0], indices[0] + 1)
    else
      var s := MergeAfter(indices, k - 1);
      var idx := indices[k - 1];
      if idx == s.end then MergeState(s.done, s.start, idx + 1)
      else MergeState(s.done + [CharRange(s.start, s.end)], idx, idx + 1)
  }

  /** After `k` indices, the finished runs followed by the runs still to come are all the runs. */
  lemma {:induction false} MergeAfterRuns(indices: seq<nat>, k: nat)
    requires 1 <= k <= |indices|
    ensures var s := MergeAfter(indices, k);
      s.done + RunsFrom(indices[k..], s.start, s.end) == CharRuns(indices)
    decreases k
  {
    if k == 1 {
      assert [] + RunsFrom(indices[1..], indices[0], indices[0] + 1) == CharRuns(indices);
    } else {
      MergeAfterRuns(indices, k - 1);
      var s := MergeAfter(indices, k - 1);
      var rest := indices[k - 1..];
      assert rest[0] == indices[k - 1] && rest[1..] == indices[k..];
      RunsStep(s.done, rest, s.start, s.end, CharRuns(indices));
      var idx := indices[k - 1];
      if idx == s.end {
        assert MergeAfter(indices, k) == MergeState(s.done, s.start, idx + 1);
      } else {
        assert MergeAfter(indices, k) == MergeState(s.done + [CharRange(s.start, s.end)], idx, idx + 1);
      }
    }
  }

  /** The `filter_map` over the runs, through the offset table. */
  method RunsToByteRanges(charRanges: seq<CharRange>, charToByte: seq<nat>, textLen: nat, text: string)
    returns (ranges: seq<ByteRange>)
    requires |charToByte| == |text| && textLen == ByteLen(text)
    requires forall k :: 0 <= k < |text| ==> charToByte[k] == ByteOffset(text, k)
    ensures ranges == ByteRangesOf(charRanges, text)
  {
    ranges := [];
    for k := 0 to |charRanges|
      invariant ranges == ByteRangesOf(charRanges[..k], text)
    {
      ByteRangesOfSnoc(charRanges, k, text);
      var r := charRanges[k];
      if r.start < |charToByte| {
        var byteEnd := if r.end < |charToByte| then charToByte[r.end] else textLen;
        ranges := ranges + [ByteRange(charToByte[r.start], byteEnd)];
      }
    }
    assert charRanges[..|charRanges|] == charRanges;
  }

  /** One turn of the run-merging loop: the next index extends the current run or closes it. */
  lemma RunsStep(done: seq<CharRange>, rest: seq<nat>, start: nat, end: nat, total: seq<CharRange>)
    requires rest != []
    requires done + RunsFrom(rest, start, end) == total
    ensures rest[0] == end ==> done + RunsFrom(rest[1..], start, rest[0] + 1) == total
    ensures rest[0] != end ==>
      (done + [CharRange(start, end)]) + RunsFrom(rest[1..], rest[0], rest[0] + 1) == total
  {
    if rest[0] != end {
      var x := CharRange(start, end);
      var tail := RunsFrom(rest[1..], rest[0], rest[0] + 1);
      assert done + ([x] + tail) == (done + [x]) + tail;
    }
  }

  /** One turn of the `filter_map` loop. */
  lemma ByteRangesOfSnoc(runs: seq<CharRange>, k: nat, text: string)
    requires k < |runs|
    ensures ByteRangesOf(runs[..k + 1], text)
      == ByteRangesOf(runs[..k], text) + (var o := ByteRangeOf(runs[k], text); if o.Some? then [o.value] else [])
  {
    assert runs[..k + 1][..k] == runs[..k];
  }

  /** `indices_to_ranges`: nucleo's `u32` indices, each widened to `usize`, then the same conversion. */
  method IndicesToRanges(indices: seq<u32>, text: string) returns (ranges: seq<ByteRange>)
    ensures ranges == ByteRanges(Widen(indices), text)
    ensures indices == [] ==> ranges == []
  {
    var wide: seq<nat> := [];
    for i := 0 to |indices|
      invariant wide == Widen(indices[..i])
    {
      assert indices[..i + 1][..i] == indices[..i];
      wide := wide + [indices[i] as nat];
    }
    assert indices[..|indices|] == indices;
    ranges := IndicesToRangesUsize(wide, text);
  }

  function Widen(xs: seq<u32>): (ys: seq<nat>)
    ensures |ys| == |xs| && forall i :: 0 <= i < |xs| ==> ys[i] == xs[i] as nat
  {
    if xs == [] then [] else Widen(xs[..|xs| - 1]) + [xs[|xs| - 1] as nat]
  }

  // ---------------------------------------------------------------------------
  // Properties of the conversion
  // ---------------------------------------------------------------------------

  /** Character `c` lies in one of the runs. */
  ghost predicate InRuns(runs: seq<CharRange>, c: nat)
  {
    exists k :: 0 <= k < |runs| && runs[k].start <= c < runs[k].end
  }

  /** Every run is non-empty and lies within `[lo, hi)`. */
  predicate RunsWithin(runs: seq<CharRange>, lo: nat, hi: nat)
  {
    forall k :: 0 <= k < |runs| ==> lo <= runs[k].start < runs[k].end <= hi
  }

  /** Each run ends strictly before the next one starts. */
  predicate Separated(runs: seq<CharRange>)
  {
    forall k :: 0 <= k < |runs| - 1 ==> runs[k].end < runs[k + 1].start
  }

  /** Every visited index is at least `end`, and they strictly increase. */
  predicate AllFrom(rest: seq<nat>, end: nat)
  {
    StrictlyIncreasing(rest) && forall i :: 0 <= i < |rest| ==> end <= rest[i]
  }

  function LastEnd(rest: seq<nat>, end: nat): nat
  {
    if rest == [] then end else rest[|rest| - 1] + 1
  }

  lemma AllFromTail(rest: seq<nat>, end: nat)
    requires rest != [] && AllFrom(rest, end)
    ensures AllFrom(rest[1..], rest[0] + 1)
    ensures LastEnd(rest[1..], rest[0] + 1) == LastEnd(rest, end)
  {
    var rest' := rest[1..];
    forall i | 0 <= i < |rest'| ensures rest[0] + 1 <= rest'[i] {
      assert rest'[i] == rest[i + 1];
    }
  }

  lemma InRunsCons(x: CharRange, runs: seq<CharRange>, c: nat)
    ensures InRuns([x] + runs, c) <==> (x.start <= c < x.end || InRuns(runs, c))
  {
    var rs := [x] + runs;
    if InRuns(runs, c) {
      var k :| 0 <= k < |runs| && runs[k].start <= c < runs[k].end;
      assert rs[k + 1] == runs[k];
    }
    if InRuns(rs, c) {
      var k :| 0 <= k < |rs| && rs[k].start <= c < rs[k].end;
      if k > 0 {
        assert runs[k - 1] == rs[k];
      }
    }
    assert rs[0] == x;
  }

  /** Putting a run before separated runs that start after it keeps them separated. */
  lemma ConsRuns(x: CharRange, tail: seq<CharRange>, lo: nat, hi: nat)
    requires tail != [] && lo <= x.start < x.end < tail[0].start
    requires RunsWithin(tail, tail[0].start, hi) && Separated(tail)
    ensures RunsWithin([x] + tail, lo, hi) && Separated([x] + tail)
  {
    var runs := [x] + tail;
    forall k | 0 <= k < |runs| - 1 ensures runs[k].end < runs[k + 1].start {
      if k > 0 { assert runs[k] == tail[k - 1] && runs[k + 1] == tail[k]; }
    }
    forall k | 0 <= k < |runs| ensures lo <= runs[k].start < runs[k].end <= hi {
      if k > 0 { assert runs[k] == tail[k - 1]; }
    }
  }

  /** Runs start at `start`, stay within `[start, LastEnd)`, and are separated by gaps. */
  lemma {:induction false} RunsFromShape(rest: seq<nat>, start: nat, end: nat)
    requires start < end && AllFrom(rest, end)
    ensures |RunsFrom(rest, start, end)| >= 1
    ensures RunsFrom(rest, start, end)[0].start == start
    ensures RunsWithin(RunsFrom(rest, start, end), start, LastEnd(rest, end))
    ensures Separated(RunsFrom(rest, start, end))
    decreases |rest|
  {
    if rest != [] {
      AllFromTail(rest, end);
      var rest' := rest[1..];
      var hi := LastEnd(rest, end);
      assert hi == LastEnd(rest', rest[0] + 1);
      if rest[0] == end {
        RunsFromShape(rest', start, rest[0] + 1);
        assert RunsFrom(rest, start, end) == RunsFrom(rest', start, rest[0] + 1);
      } else {
        var tail := RunsFrom(rest', rest[0], rest[0] + 1);
        RunsFromShape(rest', rest[0], rest[0] + 1);
        assert end < rest[0] == tail[0].start;
        ConsRuns(CharRange(start, end), tail, start, hi);
        assert RunsFrom(rest, start, end) == [CharRange(start, end)] + tail;
      }
    }
  }

  /** The runs cover exactly the first run and the visited indices. */
  lemma {:induction false} RunsFromCover(rest: seq<nat>, start: nat, end: nat, c: nat)
    requires start < end && AllFrom(rest, end)
    ensures (start <= c < end || c in rest) <==> InRuns(RunsFrom(rest, start, end), c)
    decreases |rest|
  {
    var runs := RunsFrom(rest, start, end);
    if rest == [] {
      if start <= c < end { assert runs[0].start <= c < runs[0].end; }
    } else {
      AllFromTail(rest, end);
      var rest' := rest[1..];
      assert c in rest <==> c == rest[0] || c in rest';
      if rest[0] == end {
        RunsFromCover(rest', start, rest[0] + 1, c);
      } else {
        RunsFromCover(rest', rest[0], rest[0] + 1, c);
        InRunsCons(CharRange(start, end), RunsFrom(rest', rest[0], rest[0] + 1), c);
      }
    }
  }

  /** For strictly increasing indices: runs are non-empty, ordered with gaps, and end by the last index. */
  lemma CharRunsShape(indices: seq<nat>)
    requires StrictlyIncreasing(indices)
    ensures indices == [] <==> CharRuns(indices) == []
    ensures indices != [] ==> RunsWithin(CharRuns(indices), indices[0], indices[|indices| - 1] + 1)
    ensures Separated(CharRuns(indices))
  {
    if indices != [] {
      var rest := indices[1..];
      AllFromTail(indices, indices[0]);
      RunsFromShape(rest, indices[0], indices[0] + 1);
      assert CharRuns(indices) == RunsFrom(rest, indices[0], indices[0] + 1);
      assert LastEnd(rest, indices[0] + 1) == indices[|indices| - 1] + 1;
    }
  }

  /** A character lies in some run exactly when its index is one of the indices. */
  lemma CharRunsCover(indices: seq<nat>, c: nat)
    requires StrictlyIncreasing(indices)
    ensures c in indices <==> InRuns(CharRuns(indices), c)
  {
    if indices != [] {
      AllFromTail(indices, indices[0]);
      RunsFromCover(indices[1..], indices[0], indices[0] + 1, c);
      assert c in indices <==> c == indices[0] || c in indices[1..];
    }
  }

  /** With every run inside the text, no run is dropped and each end is a character offset. */
  lemma {:induction false} ByteRangesOfInBounds(runs: seq<CharRange>, text: string)
    requires RunsWithin(runs, 0, |text|)
    ensures var rs := ByteRangesOf(runs, text);
      |rs| == |runs|
      && forall k :: 0 <= k < |runs| ==> rs[k] == ByteRange(ByteOffset(text, runs[k].start), ByteOffset(text, runs[k].end))
    decreases |runs|
  {
    if runs != [] {
      var init, last := runs[..|runs| - 1], runs[|runs| - 1];
      assert RunsWithin(init, 0, |text|) by {
        forall k | 0 <= k < |init| ensures 0 <= init[k].start < init[k].end <= |text| {
          assert init[k] == runs[k];
        }
      }
      ByteRangesOfInBounds(init, text);
      ByteOffsetAtEnd(text);
      var r := ByteRange(ByteOffset(text, last.start), ByteOffset(text, last.end));
      assert ByteRangeOf(last, text) == Some(r);
      var rs, rs0 := ByteRangesOf(runs, text), ByteRangesOf(init, text);
      assert rs == rs0 + [r];
      forall k | 0 <= k < |runs|
        ensures rs[k] == ByteRange(ByteOffset(text, runs[k].start), ByteOffset(text, runs[k].end))
      {
        if k < |init| { assert rs[k] == rs0[k] && runs[k] == init[k]; }
      }
    }
  }

  /** All indices are strictly increasing and name characters of `text`. */
  predicate ValidIndices(indices: seq<nat>, text: string)
  {
    StrictlyIncreasing(indices) && forall i :: 0 <= i < |indices| ==> indices[i] < |text|
  }

  /** Ranges are non-empty, within `[0, len]`, and each ends strictly before the next starts. */
  predicate SortedDisjoint(rs: seq<ByteRange>, len: nat)
  {
    && (forall k :: 0 <= k < |rs| ==> rs[k].start < rs[k].end <= len)
    && (forall k :: 0 <= k < |rs| - 1 ==> rs[k].end < rs[k + 1].start)
  }

  lemma RunsOfValidIndices(indices: seq<nat>, text: string)
    requires ValidIndices(indices, text)
    ensures indices == [] <==> CharRuns(indices) == []
    ensures Separated(CharRuns(indices))
    ensures RunsWithin(CharRuns(indices), 0, |text|)
    ensures |ByteRanges(indices, text)| == |CharRuns(indices)|
    ensures forall k :: 0 <= k < |CharRuns(indices)| ==>
      ByteRanges(indices, text)[k]
        == ByteRange(ByteOffset(text, CharRuns(indices)[k].start), ByteOffset(text, CharRuns(indices)[k].end))
  {
    CharRunsShape(indices);
    if indices != [] {
      assert indices[|indices| - 1] < |text|;
    }
    ByteRangesOfInBounds(CharRuns(indices), text);
  }

  /**
   * For valid indices the byte ranges are non-empty, strictly increasing with
   * gaps, within the text, start and end on character boundaries, and there
   * are none exactly when there are no indices.
   */
  lemma ByteRangesShape(indices: seq<nat>, text: string)
    requires ValidIndices(indices, text)
    ensures indices == [] <==> ByteRanges(indices, text) == []
    ensures SortedDisjoint(ByteRanges(indices, text), ByteLen(text))
    ensures forall k :: 0 <= k < |ByteRanges(indices, text)| ==>
      IsCharBoundary(Encode(text), ByteRanges(indices, text)[k].start)
      && IsCharBoundary(Encode(text), ByteRanges(indices, text)[k].end)
  {
    var runs := CharRuns(indices);
    RunsOfValidIndices(indices, text);
    var rs := ByteRanges(indices, text);
    forall k | 0 <= k < |rs|
      ensures rs[k].start < rs[k].end <= ByteLen(text)
      ensures IsCharBoundary(Encode(text), rs[k].start) && IsCharBoundary(Encode(text), rs[k].end)
    {
      ByteOffsetStrictlyMonotone(text, runs[k].start, runs[k].end);
      ByteOffsetIsCharBoundary(text, runs[k].start);
      ByteOffsetIsCharBoundary(text, runs[k].end);
    }
    forall k | 0 <= k < |rs| - 1 ensures rs[k].end < rs[k + 1].start {
      ByteOffsetStrictlyMonotone(text, runs[k].end, runs[k + 1].start);
    }
  }

  /** The bytes of character `c` lie inside range `r`. */
  predicate CoversChar(r: ByteRange, text: string, c: nat)
    requires c < |text|
  {
    r.start <= ByteOffset(text, c) && ByteOffset(text, c + 1) <= r.end
  }

  /** A character is highlighted (its bytes lie in some range) exactly when its index was matched. */
  lemma ByteRangesCover(indices: seq<nat>, text: string, c: nat)
    requires ValidIndices(indices, text) && c < |text|
    ensures c in indices <==>
      exists k :: 0 <= k < |ByteRanges(indices, text)| && CoversChar(ByteRanges(indices, text)[k], text, c)
  {
    var runs := CharRuns(indices);
    RunsOfValidIndices(indices, text);
    CharRunsCover(indices, c);
    var rs := ByteRanges(indices, text);
    if c in indices {
      var k :| 0 <= k < |runs| && runs[k].start <= c < runs[k].end;
      RunCoversChar(text, runs[k], c);
      assert CoversChar(rs[k], text, c);
    }
    if exists k :: 0 <= k < |rs| && CoversChar(rs[k], text, c) {
      var k :| 0 <= k < |rs| && CoversChar(rs[k], text, c);
      CoveredCharInRun(text, runs[k], c);
      assert InRuns(runs, c);
    }
  }

  /** The byte range of a run covers each character of the run... */
  lemma RunCoversChar(text: string, r: CharRange, c: nat)
    requires r.start <= c < r.end <= |text|
    ensures CoversChar(ByteRange(ByteOffset(text, r.start), ByteOffset(text, r.end)), text, c)
  {
    if r.start < c { ByteOffsetStrictlyMonotone(text, r.start, c); }
    if c + 1 < r.end { ByteOffsetStrictlyMonotone(text, c + 1, r.end); }
  }

  /** ...and no other character. */
  lemma CoveredCharInRun(text: string, r: CharRange, c: nat)
    requires r.start < r.end <= |text| && c < |text|
    requires CoversChar(ByteRange(ByteOffset(text, r.start), ByteOffset(text, r.end)), text, c)
    ensures r.start <= c < r.end
  {
    if c < r.start { ByteOffsetStrictlyMonotone(text, c, r.start); }
    if r.end < c + 1 { ByteOffsetStrictlyMonotone(text, r.end, c + 1); }
  }

  // ---------------------------------------------------------------------------
  // Matching one text and one item
  // ---------------------------------------------------------------------------

  /** A text matched by an engine: its score and highlighted byte ranges. */
  datatype TextMatch = TextMatch(score: int, ranges: seq<ByteRange>)

  /** nucleo as an `Engine`: the `u32` score and indices widened. */
  function NucleoEngineOf(nucleo: NucleoEngine): Engine
  {
    (query: string, text: string) =>
      match nucleo(query, text)
      case None => None
      case Some(hit) => Some(EngineHit(hit.score as int, Widen(hit.indices)))
  }

  /** skim as an `Engine`: it takes the text first and the query second. */
  function SkimEngineOf(skim: SkimEngine): Engine
  {
    (query: string, text: string) => skim(text, query)
  }

  /**
   * `match_text` of either matcher: the empty query matches with score 0 and
   * no ranges; otherwise the engine decides, and its indices become byte ranges.
   */
  function MatchText(engine: Engine, query: string, text: string): (r: Option<TextMatch>)
    ensures query == [] ==> r == Some(TextMatch(0, []))
    ensures query != [] ==> (r.None? <==> engine(query, text).None?)
    ensures query != [] && r.Some? ==>
      r.value.score == engine(query, text).value.score
      && r.value.ranges == ByteRanges(engine(query, text).value.indices, text)
  {
    if query == [] then Some(TextMatch(0, []))
    else
      match engine(query, text)
      case None => None
      case Some(hit) => Some(TextMatch(hit.score, ByteRanges(hit.indices, text)))
  }

  /** The best score among the matched texts (`max_by_key`), or none if nothing matched. */
  function BestScore(ms: seq<Option<TextMatch>>): (r: Option<int>)
    ensures r.None? <==> forall i :: 0 <= i < |ms| ==> ms[i].None?
    ensures r.Some? ==> exists i :: 0 <= i < |ms| && ms[i].Some? && ms[i].value.score == r.value
    ensures forall i :: 0 <= i < |ms| && ms[i].Some? ==> r.Some? && ms[i].value.score <= r.value
  {
    if ms == [] then None
    else
      var rest := BestScore(ms[..|ms| - 1]);
      var last := ms[|ms| - 1];
      assert forall i :: 0 <= i < |ms| - 1 ==> ms[..|ms| - 1][i] == ms[i];
      if last.None? then rest
      else if rest.None? || last.value.score >= rest.value then Some(last.value.score)
      else rest
  }

  /** Every keyword matched against the query, in order. */
  function KeywordMatches(engine: Engine, query: string, keywords: seq<string>): (ms: seq<Option<TextMatch>>)
    ensures |ms| == |keywords|
    ensures forall i :: 0 <= i < |keywords| ==> ms[i] == MatchText(engine, query, keywords[i])
  {
    seq(|keywords|, i requires 0 <= i < |keywords| => MatchText(engine, query, keywords[i]))
  }

  /** Rust's `i64` division, which truncates toward zero. */
  function TruncDiv10(x: int): (q: int)
    ensures x >= 0 ==> q == x / 10
    ensures -q == (-x) / 10 || x >= 0
  {
    if x >= 0 then x / 10 else -((-x) / 10)
  }

  /** The boosted sub-scores that compete for an item's score. */
  function Candidates(title: Option<TextMatch>, subtitle: Option<TextMatch>, keyword: Option<int>): set<int>
  {
    (if title.Some? then {title.value.score + 1000} else {})
    + (if subtitle.Some? then {subtitle.value.score + 500} else {})
    + (if keyword.Some? then {keyword.value + 200} else {})
  }

  /** The subtitle's ranges are kept only when the subtitle strictly beats the title. */
  predicate SubtitleWins(title: Option<TextMatch>, subtitle: Option<TextMatch>)
  {
    subtitle.Some? && (title.None? || subtitle.value.score + 500 > title.value.score + 1000)
  }

  /**
   * The scoring rule shared by both matchers: title +1000, subtitle +500 when
   * strictly better, best keyword +200 when strictly better, then the
   * category's score divided by ten added on top when something matched.
   */
  function Combine(title: Option<TextMatch>, subtitle: Option<TextMatch>, keyword: Option<int>,
                   category: Option<TextMatch>): (r: Option<Match>)
    ensures r.None? <==> title.None? && subtitle.None? && keyword.None?
    ensures r.Some? ==>
      var bonus := if category.Some? then TruncDiv10(category.value.score) else 0;
      && r.value.score - bonus in Candidates(title, subtitle, keyword)
      && (forall x :: x in Candidates(title, subtitle, keyword) ==> x <= r.value.score - bonus)
    ensures r.Some? ==> r.value.titleRanges == (if title.Some? then title.value.ranges else [])
    ensures r.Some? ==> r.value.subtitleRanges == (if SubtitleWins(title, subtitle) then subtitle.value.ranges else [])
  {
    var titleRanges := if title.Some? then title.value.ranges else [];
    var subtitleRanges := if SubtitleWins(title, subtitle) then subtitle.value.ranges else [];
    var best3 := BestBoosted(title, subtitle, keyword);
    var best := if category.Some? && best3.Some? then Some(best3.value + TruncDiv10(category.value.score)) else best3;
    if best.None? then None
    else Some(NewMatch(best.value).WithTitleRanges(titleRanges).WithSubtitleRanges(subtitleRanges))
  }

  /**
   * The running best of the boosted sub-scores: the title's, replaced by the
   * subtitle's when strictly greater, replaced by the keywords' when strictly
   * greater.
   */
  function BestBoosted(title: Option<TextMatch>, subtitle: Option<TextMatch>, keyword: Option<int>): (best: Option<int>)
    ensures best.None? <==> title.None? && subtitle.None? && keyword.None?
    ensures best.Some? ==> best.value in Candidates(title, subtitle, keyword)
    ensures best.Some? ==> forall x :: x in Candidates(title, subtitle, keyword) ==> x <= best.value
  {
    var best1: Option<int> := if title.Some? then Some(title.value.score + 1000) else None;
    var best2 := if SubtitleWins(title, subtitle) then Some(subtitle.value.score + 500) else best1;
    if keyword.Some? && (best2.None? || keyword.value + 200 > best2.value) then Some(keyword.value + 200) else best2
  }

  /** `match_item` of either matcher; only nucleo consults the category. */
  function MatchItemWith(engine: Engine, query: string, item: Item, useCategory: bool): (r: Option<Match>)
    ensures query == [] ==> r == Some(Match(0, [], []))
  {
    if query == [] then Some(NewMatch(0))
    else
      Combine(
        MatchText(engine, query, item.title),
        if item.subtitle.Some? then MatchText(engine, query, item.subtitle.value) else None,
        BestScore(KeywordMatches(engine, query, item.keywords)),
        if useCategory then MatchText(engine, query, item.category) else None)
  }

  /** `NucleoMatcher::match_item`. */
  function NucleoMatchItem(nucleo: NucleoEngine, query: string, item: Item): (r: Option<Match>)
    ensures query == [] ==> r == Some(Match(0, [], []))
  {
    MatchItemWith(NucleoEngineOf(nucleo), query, item, true)
  }

  /** `FuzzyMatcher::match_item`: skim, and no category step. */
  function FuzzyMatchItem(skim: SkimEngine, query: string, item: Item): (r: Option<Match>)
    ensures query == [] ==> r == Some(Match(0, [], []))
  {
    MatchItemWith(SkimEngineOf(skim), query, item, false)
  }

  /** The matcher the configuration selects; a custom matcher is called as is. */
  function MatchItem(kind: MatcherKind, engines: Engines, query: string, item: Item): (r: Option<Match>)
    ensures kind.Nucleo? ==> r == NucleoMatchItem(engines.nucleo, query, item)
    ensures kind.FuzzyMatcher? ==> r == FuzzyMatchItem(engines.skim, query, item)
    ensures kind.Custom? ==> r == kind.matcher(query, item)
  {
    match kind
    case Nucleo => NucleoMatchItem(engines.nucleo, query, item)
    case FuzzyMatcher => FuzzyMatchItem(engines.skim, query, item)
    case Custom(m) => m(query, item)
  }

  // ---------------------------------------------------------------------------
  // Properties of matching
  // ---------------------------------------------------------------------------

  /** For a non-empty query, an item matches exactly when its title, subtitle or a keyword does. */
  lemma MatchesIffSomeFieldMatches(engine: Engine, query: string, item: Item, useCategory: bool)
    requires query != []
    ensures MatchItemWith(engine, query, item, useCategory).Some? <==>
      || engine(query, item.title).Some?
      || (item.subtitle.Some? && engine(query, item.subtitle.value).Some?)
      || exists i :: 0 <= i < |item.keywords| && engine(query, item.keywords[i]).Some?
  {
    var ms := KeywordMatches(engine, query, item.keywords);
    assert forall i :: 0 <= i < |ms| ==> (ms[i].Some? <==> engine(query, item.keywords[i]).Some?);
  }

  /** A category match alone never makes an item match (nucleo). */
  lemma CategoryAloneDoesNotMatch(nucleo: NucleoEngine, query: string, item: Item)
    requires query != []
    requires nucleo(query, item.title).None?
    requires item.subtitle.None? || nucleo(query, item.subtitle.value).None?
    requires forall i :: 0 <= i < |item.keywords| ==> nucleo(query, item.keywords[i]).None?
    ensures NucleoMatchItem(nucleo, query, item).None?
  {
    MatchesIffSomeFieldMatches(NucleoEngineOf(nucleo), query, item, true);
  }

  /** The fuzzy matcher gives the same result whatever the item's category. */
  lemma FuzzyIgnoresCategory(skim: SkimEngine, query: string, item: Item, category: string)
    ensures FuzzyMatchItem(skim, query, item.WithCategory(category)) == FuzzyMatchItem(skim, query, item)
  {
    var item' := item.WithCategory(category);
    assert item'.title == item.title && item'.subtitle == item.subtitle && item'.keywords == item.keywords;
  }

  /**
   * A title match outranks a subtitle-only match that scores no better in the
   * engine (fuzzy matcher, so no category bonus on either).
   */
  lemma TitleOutranksSubtitleOnly(skim: SkimEngine, query: string, a: Item, b: Item)
    requires query != []
    requires skim(a.title, query).Some?
    requires skim(b.title, query).None?
    requires b.subtitle.Some? && skim(b.subtitle.value, query).Some?
    requires forall i :: 0 <= i < |b.keywords| ==> skim(b.keywords[i], query).None?
    requires skim(b.subtitle.value, query).value.score <= skim(a.title, query).value.score
    ensures FuzzyMatchItem(skim, query, a).Some? && FuzzyMatchItem(skim, query, b).Some?
    ensures FuzzyMatchItem(skim, query, a).value.score > FuzzyMatchItem(skim, query, b).value.score
  {
    var engine := SkimEngineOf(skim);
    var kb := KeywordMatches(engine, query, b.keywords);
    assert BestScore(kb).None? by {
      assert forall i :: 0 <= i < |kb| ==> kb[i].None?;
    }
    var ta := MatchText(engine, query, a.title);
    assert ta.value.score + 1000 in Candidates(ta,
      if a.subtitle.Some? then MatchText(engine, query, a.subtitle.value) else None,
      BestScore(KeywordMatches(engine, query, a.keywords)));
  }

  /**
   * When the engine reports valid indices for the title, the item's title
   * ranges are sorted, disjoint, on character boundaries of the title's bytes,
   * and highlight exactly the matched characters.
   */
  lemma TitleRangesWellFormed(engine: Engine, query: string, item: Item, useCategory: bool)
    requires query != []
    requires engine(query, item.title).Some?
    requires ValidIndices(engine(query, item.title).value.indices, item.title)
    ensures var r := MatchItemWith(engine, query, item, useCategory);
      && r.Some?
      && r.value.titleRanges == ByteRanges(engine(query, item.title).value.indices, item.title)
      && SortedDisjoint(r.value.titleRanges, ByteLen(item.title))
  {
    ByteRangesShape(engine(query, item.title).value.indices, item.title);
  }
}
