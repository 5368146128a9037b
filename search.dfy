/**
 * Wrap-around search in the widget's buffer: look for the query at or after
 * a start offset; on a miss look again from offset 0; otherwise report that
 * nothing matches. Offsets are positions in the flat buffer text.
 */
module Search {
  import opened Wrappers

  /** The selection [from, to) of the widget. */
  datatype Selection = Selection(from: nat, to: nat)

  datatype Outcome = Skipped | Found | WrappedFound | NotFound

  datatype SearchResult = SearchResult(outcome: Outcome, selection: Selection)

  /** `query` occurs in `text` starting at offset `k`. */
  predicate OccursAt(text: string, query: string, k: nat)
  {
    k + |query| <= |text| && text[k..k + |query|] == query
  }

  /** The first occurrence of `query` at or after `start`, as the search cursor finds it. */
  function FindFrom(text: string, query: string, start: nat): (r: Option<nat>)
    decreases |text| - start
    ensures r.Some? ==> start <= r.value && OccursAt(text, query, r.value)
    ensures r.Some? ==> forall k: nat :: start <= k < r.value ==> !OccursAt(text, query, k)
    ensures r.None? ==> forall k: nat :: start <= k ==> !OccursAt(text, query, k)
  {
    if start + |query| > |text| then None
    else if OccursAt(text, query, start) then Some(start)
    else FindFrom(text, query, start + 1)
  }

  /** The selection that covers an occurrence at `k`. */
  function Covering(query: string, k: nat): Selection
  {
    Selection(k, k + |query|)
  }

  /**
   * One search request. An empty query does nothing; a hit selects the
   * occurrence; a miss everywhere leaves the selection as it was. The buffer
   * is an input only: searching never changes it.
   */
  function Find(buffer: string, query: string, start: nat, selection: Selection): (r: SearchResult)
    ensures query == [] ==> r == SearchResult(Skipped, selection)
    ensures r.outcome == Skipped <==> query == []
    ensures r.outcome == Found ==>
      && OccursAt(buffer, query, r.selection.from) && r.selection == Covering(query, r.selection.from)
      && start <= r.selection.from
      && forall k: nat :: start <= k < r.selection.from ==> !OccursAt(buffer, query, k)
    ensures r.outcome == WrappedFound ==>
      && OccursAt(buffer, query, r.selection.from) && r.selection == Covering(query, r.selection.from)
      && (forall k: nat :: k < r.selection.from ==> !OccursAt(buffer, query, k))
      && (forall k: nat :: start <= k ==> !OccursAt(buffer, query, k))
    ensures r.outcome == NotFound <==> query != [] && forall k: nat :: !OccursAt(buffer, query, k)
    ensures r.outcome == NotFound ==> r.selection == selection
  {
    if query == [] then SearchResult(Skipped, selection)
    else match FindFrom(buffer, query, start)
      case Some(k) => SearchResult(Found, Covering(query, k))
      case None =>
        match FindFrom(buffer, query, 0)
        case Some(k) => SearchResult(WrappedFound, Covering(query, k))
        case None => SearchResult(NotFound, selection)
  }

  /**
   * A buffer with a single occurrence, searched from after it, wraps around
   * and selects that occurrence.
   */
  lemma WrapFindsOnlyOccurrence(buffer: string, query: string, p: nat, start: nat, selection: Selection)
    requires query != [] && OccursAt(buffer, query, p)
    requires forall k: nat :: OccursAt(buffer, query, k) ==> k == p
    requires p < start
    ensures Find(buffer, query, start, selection) == SearchResult(WrappedFound, Covering(query, p))
  {
    assert FindFrom(buffer, query, start).None?;
    var w := FindFrom(buffer, query, 0);
    assert w.Some? && w.value == p;
  }

  /**
   * When every occurrence lies before the start, the search wraps around and
   * selects the first occurrence in the buffer.
   */
  lemma WrapFindsFirstOccurrence(buffer: string, query: string, p: nat, start: nat, selection: Selection)
    requires query != [] && OccursAt(buffer, query, p)
    requires forall k: nat :: start <= k ==> !OccursAt(buffer, query, k)
    ensures var r := Find(buffer, query, start, selection);
      && r.outcome == WrappedFound && r.selection == Covering(query, r.selection.from)
      && r.selection.from <= p && OccursAt(buffer, query, r.selection.from)
      && forall k: nat :: k < r.selection.from ==> !OccursAt(buffer, query, k)
  {
  }

  /** Searching from offset 0 never wraps: a single pass already covers the buffer. */
  lemma SearchFromStartNeverWraps(buffer: string, query: string, selection: Selection)
    ensures Find(buffer, query, 0, selection).outcome != WrappedFound
  {
  }

  /**
   * A search that starts where the current match ends moves on to the next
   * occurrence, if there is one.
   */
  lemma {:induction false} SearchAdvancesPastSelection(buffer: string, query: string, selection: Selection, q: nat)
    requires query != [] && OccursAt(buffer, query, q) && selection.to <= q
    ensures var r := Find(buffer, query, selection.to, selection);
      r.outcome == Found && selection.to <= r.selection.from <= q
  {
  }

  /**
   * Searching from offset 0 ignores the selection, so repeating a search
   * that found something selects the same occurrence again.
   */
  lemma SearchFromStartRepeats(buffer: string, query: string, selection: Selection)
    ensures var r := Find(buffer, query, 0, selection);
      r.outcome == Found ==> Find(buffer, query, 0, r.selection) == r
  {
  }

  /**
   * In "abab" with the first "ab" selected, a search from offset 0 selects
   * [0, 2) again although "ab" occurs at 2; a search from the selection's end
   * moves to [2, 4).
   */
  lemma RepeatedSearchExample()
    ensures OccursAt("abab", "ab", 2)
    ensures Find("abab", "ab", 0, Selection(0, 2)) == SearchResult(Found, Selection(0, 2))
    ensures Find("abab", "ab", 2, Selection(0, 2)) == SearchResult(Found, Selection(2, 4))
  {
    assert OccursAt("abab", "ab", 0);
    assert FindFrom("abab", "ab", 0) == Some(0);
    assert OccursAt("abab", "ab", 2);
    assert FindFrom("abab", "ab", 2) == Some(2);
  }
}
