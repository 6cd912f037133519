/**
 * The widget's module-level state (`abortController`, `lastSearchedValue`,
 * app.js:2-3) and the operations that change it: `fetchData`,
 * `getFilteredProducts` (app.js:48-55) and the `onSearch` handler (app.js:80-86).
 */
module Searching {
  import opened Wrappers
  import opened Text
  import opened Products
  import opened Rendering
  import opened Fetching

  /** What `getFilteredProducts` resolves to, or the TypeError it rejects with. */
  datatype SearchOutcome =
    | Undefined                         // the term equals the last one: bare `return`
    | Filtered(items: seq<Product>)     // `data.filter(...)`
    | NullDataError                     // `data` is null, so `data.filter` throws

  /** The two globals: the last term searched (`null` at first) and the abort flags of the controllers. */
  datatype WidgetState = WidgetState(lastSearched: Option<string>, aborted: seq<bool>)

  const Initial: WidgetState := WidgetState(None, [])

  /** One call of `getFilteredProducts(term)` whose request, if made, goes as `e` says. */
  function Search(s: WidgetState, term: string, e: Exchange): (r: (WidgetState, SearchOutcome))
    ensures r.0.lastSearched == Some(term)
    ensures r.1.Undefined? <==> s.lastSearched == Some(term)
    ensures r.1.Undefined? ==> r.0 == s
    ensures !r.1.Undefined? ==> r.0.aborted == ReplaceController(s.aborted)
    ensures r.1.NullDataError? <==> s.lastSearched != Some(term) && FetchResult(e).None?
    ensures r.1.Filtered? ==> FetchResult(e).Some? && r.1.items == FilterByTerm(FetchResult(e).value, term)
    ensures AtMostOneLive(s.aborted) ==> AtMostOneLive(r.0.aborted)
  {
    if s.lastSearched == Some(term) then (s, Undefined)
    else
      var s' := WidgetState(Some(term), ReplaceController(s.aborted));
      match FetchResult(e)
      case None => (s', NullDataError)
      case Some(data) => (s', Filtered(FilterByTerm(data, term)))
  }

  /** Whatever the first call did, an immediate repeat of its term is suppressed and changes nothing. */
  lemma RepeatIsSuppressed(s: WidgetState, term: string, e1: Exchange, e2: Exchange)
    ensures var s1 := Search(s, term, e1).0; Search(s1, term, e2) == (s1, Undefined)
  {
  }

  /** A term is recorded even when its request failed, so retrying it at once does nothing. */
  lemma FailedTermIsRecorded(s: WidgetState, term: string, e: Exchange)
    requires s.lastSearched != Some(term) && FetchResult(e).None?
    ensures Search(s, term, e).1 == NullDataError
    ensures Search(s, term, e).0 == WidgetState(Some(term), ReplaceController(s.aborted))
  {
  }

  datatype Call = Call(term: string, exchange: Exchange)

  /** A sequence of calls: the final state and, in order, the terms that reached the network. */
  function RunSearches(s: WidgetState, calls: seq<Call>): (r: (WidgetState, seq<string>))
    decreases |calls|
  {
    if calls == [] then (s, [])
    else
      var (s1, outcome) := Search(s, calls[0].term, calls[0].exchange);
      var (s2, fetched) := RunSearches(s1, calls[1..]);
      (s2, (if outcome.Undefined? then [] else [calls[0].term]) + fetched)
  }

  /**
   * Over any run: no two consecutive requests are for the same term, the first
   * differs from the term recorded before, one controller is created per
   * request and only the newest is live, and the last term is recorded.
   */
  lemma {:induction false} RunSearchesProperties(s: WidgetState, calls: seq<Call>)
    requires AtMostOneLive(s.aborted)
    ensures var (final, fetched) := RunSearches(s, calls);
      && (forall i :: 0 <= i < |fetched| - 1 ==> fetched[i] != fetched[i + 1])
      && (fetched != [] ==> s.lastSearched != Some(fetched[0]))
      && |final.aborted| == |s.aborted| + |fetched|
      && AtMostOneLive(final.aborted)
      && (calls != [] ==> final.lastSearched == Some(calls[|calls| - 1].term))
      && (calls == [] ==> final == s)
    decreases |calls|
  {
    if calls != [] {
      var (s1, outcome) := Search(s, calls[0].term, calls[0].exchange);
      RunSearchesProperties(s1, calls[1..]);
      var (s2, rest) := RunSearches(s1, calls[1..]);
      var fetched := (if outcome.Undefined? then [] else [calls[0].term]) + rest;
      assert RunSearches(s, calls) == (s2, fetched);
      if calls[1..] != [] {
        assert calls[1..][|calls[1..]| - 1] == calls[|calls| - 1];
      }
      if !outcome.Undefined? {
        assert forall i :: 1 <= i < |fetched| ==> fetched[i] == rest[i - 1];
      }
    }
  }

  /** What the user sees after one input event: the list markup, or the TypeError that ended the handler. */
  datatype View =
    | Shown(html: string)
    | FilterOnNull          // thrown at app.js:52 and not caught
    | LengthOfUndefined     // `displaySearchResults(undefined)` throws at app.js:63

  /** The `onSearch` callback for an input whose value is `raw`. */
  function HandleInput(s: WidgetState, raw: string, e: Exchange): (r: (WidgetState, View))
  {
    var (s', outcome) := Search(s, Trim(raw), e);
    match outcome
    case Undefined => (s', LengthOfUndefined)
    case NullDataError => (s', FilterOnNull)
    case Filtered(items) => (s', Shown(RenderResults(items)))
  }

  /** The list is shown exactly when the trimmed term is new and the request produced data. */
  lemma HandleInputShows(s: WidgetState, raw: string, e: Exchange)
    ensures HandleInput(s, raw, e).1.Shown? <==> s.lastSearched != Some(Trim(raw)) && FetchResult(e).Some?
    ensures HandleInput(s, raw, e).1 == LengthOfUndefined <==> s.lastSearched == Some(Trim(raw))
  {
  }

  /** A blank input, when new, lists the whole dataset sorted by name. */
  lemma BlankInputShowsAll(s: WidgetState, raw: string, e: Exchange, data: seq<Product>)
    requires Trim(raw) == "" && s.lastSearched != Some("") && FetchResult(e) == Some(data)
    ensures HandleInput(s, raw, e).1 == Shown(RenderResults(data))
  {
    EmptyTermKeepsAll(data);
  }

  /** A new term whose request produced data shows that data filtered by the term. */
  lemma FreshInputShown(s: WidgetState, raw: string, e: Exchange, data: seq<Product>)
    requires s.lastSearched != Some(Trim(raw)) && FetchResult(e) == Some(data)
    ensures HandleInput(s, raw, e) ==
      (WidgetState(Some(Trim(raw)), ReplaceController(s.aborted)), Shown(RenderResults(FilterByTerm(data, Trim(raw)))))
  {
  }

  /** The module-level state of app.js, updated in place by the three operations. */
  class Widget {
    var lastSearchedValue: Option<string>
    var aborted: seq<bool>

    ghost predicate Valid()
      reads this
    {
      AtMostOneLive(aborted)
    }

    function State(): WidgetState
      reads this
    {
      WidgetState(lastSearchedValue, aborted)
    }

    /** Both globals start out `null`. */
    constructor ()
      ensures Valid() && State() == Initial
    {
      lastSearchedValue := None;
      aborted := [];
    }

    /** `fetchData(endpointUrl)`, with `e` standing for the network round trip. */
    method FetchData(e: Exchange) returns (data: Option<seq<Product>>)
      requires Valid()
      modifies this
      ensures Valid()
      ensures aborted == ReplaceController(old(aborted)) && lastSearchedValue == old(lastSearchedValue)
      ensures data == FetchResult(e)
    {
      if |aborted| > 0 {
        aborted := aborted[..|aborted| - 1] + [true];
      }
      aborted := aborted + [false];
      if e.Rejected? {
        return None;
      }
      if !IsOk(e.status) {
        return None;
      }
      match e.body
      case Json(items) => data := Some(items);
      case Malformed => data := None;
    }

    /** `getFilteredProducts(term)`. */
    method GetFilteredProducts(term: string, e: Exchange) returns (outcome: SearchOutcome)
      requires Valid()
      modifies this
      ensures Valid()
      ensures (State(), outcome) == Search(old(State()), term, e)
    {
      if lastSearchedValue == Some(term) {
        return Undefined;
      }
      var data := FetchData(e);
      lastSearchedValue := Some(term);
      if data.None? {
        return NullDataError;
      }
      outcome := Filtered(FilterByTerm(data.value, term));
    }

    /** The debounced `onSearch` callback, for an input event whose value is `raw`. */
    method OnSearch(raw: string, e: Exchange) returns (view: View)
      requires Valid()
      modifies this
      ensures Valid()
      ensures (State(), view) == HandleInput(old(State()), raw, e)
    {
      var term := Trim(raw);
      var data := GetFilteredProducts(term, e);
      match data
      case Undefined => view := LengthOfUndefined;
      case NullDataError => view := FilterOnNull;
      case Filtered(items) => view := Shown(RenderResults(items));
    }
  }
}
