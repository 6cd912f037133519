# Live product search, modelled in Dafny

This project models `app.js`, a browser live-search widget. The user types in a text
input. A debounced handler (500 ms) trims the value. It fetches the product list from a
fixed endpoint, keeps the products whose lower-cased name contains the lower-cased term,
sorts them by name ignoring case, and writes them into a `<ul>` as one `<li>` per product.
If nothing matches it writes "No results found".

The script keeps two globals, `abortController` and `lastSearchedValue`. A search for the
same term as the previous one is skipped. Each new request aborts the controller of the
previous one first.

Modules, one per concern of the script:

- `Text`: the string primitives the script relies on: `trim`, `toLowerCase`, `includes`,
  and the collation `localeCompare(…, { sensitivity: "base" })` used for sorting.
- `Sequences`: a generic filter with its characterisation. The kept elements form a
  subsequence, and every element satisfying the predicate is kept, with its multiplicity.
- `Products`: the product record and the filter of `getFilteredProducts`.
- `Sorting`: `sortAlphabetically`. It is a stable insertion sort by a total preorder.
  The result is proved a permutation of the input, ordered, and stable.
- `Rendering`: the `innerHTML` string built by `displaySearchResults`, and a reader for it.
  The reader shows the markup determines the sorted list when the markup is unambiguous.
- `Fetching`: `fetchData`. This covers the replacement of the abort controller, with the
  invariant that only the newest controller is live. It also covers turning the request's
  outcome into the parsed body or `null`.
- `Searching`: `getFilteredProducts` and the `onSearch` handler.
  - They appear as functions on a `WidgetState` value.
  - They also appear as the class `Widget`, whose fields are the two globals and whose
    methods update them in place. Each method is proved equal to the function.
- `Debouncing`: `debounce`, on a discrete clock. The closure's `timerId` becomes a single
  pending slot. The closure itself becomes the class `Debouncer`.
- `Examples`: concrete runs. Typing `" ap "` against `apricot`, `Banana` and `Apple`
  lists `Apple` and then `apricot`. Five keystrokes 100 ms apart run the 500 ms handler
  once, while two calls further apart than the delay run it twice.

Behaviour as the code has it. A common policy would only record a term once its search succeeds, so that a
failed search can be retried at once; the code does not do that:

- `lastSearchedValue` is set after the request settles, whatever its outcome. It is set
  before `data.filter` is reached. So a term whose request failed is still recorded, and
  retrying the same term at once does nothing (`Searching.FailedTermIsRecorded`).
- When the term repeats, `getFilteredProducts` resolves to `undefined`. `onSearch` then
  passes it to `displaySearchResults`, where reading `.length` throws a TypeError. The
  model keeps this as the view `LengthOfUndefined`, not as a silent no-op.
- A `null` result from `fetchData` makes `data.filter` throw. This is `NullDataError`,
  shown as `FilterOnNull`.

## Model

| member | source | states |
|---|---|---|
| `Text.Trim` | app.js:81 | the result is a slice of the input with only whitespace cut off at each end, and neither end of the result is whitespace |
| `Text.TrimIdempotent` | app.js:81 | trimming twice is trimming once |
| `Text.Lower` | app.js:53 | same length, every character lower-cased (A-Z shifted by 32, everything else unchanged) |
| `Text.LowerUnchanged` | app.js:53 | a string without capital letters is its own lower case |
| `Text.Contains` | app.js:53 | `includes` is true exactly when the term occurs at some index; the empty term occurs everywhere |
| `Text.LexLeqTotal` | app.js:59 | any two names compare one way or the other |
| `Text.LexLeqTransitive` | app.js:59 | the comparison is transitive |
| `Text.LexLeqAntisymmetric` | app.js:59 | names comparing both ways are equal |
| `Sequences.Filter` | app.js:52-54 | `Array.prototype.filter` keeps only elements satisfying the predicate, never more than the input |
| `Sequences.FilterIsSubsequence` | app.js:52-54 | the filtered array keeps the input's order |
| `Sequences.FilterCount` | app.js:52-54 | each element satisfying the predicate is kept as often as it occurs; no other element is kept |
| `Sequences.FilterUnique` | app.js:52-54 | any order-preserving selection with those counts is the filter's result |
| `Sequences.FilterKeepsAll` | app.js:52-54 | a predicate true of every element keeps the whole array |
| `Products.FilterByTerm` | app.js:52-54 | the result is the in-order selection of exactly the products whose lower-cased name contains the lower-cased term |
| `Products.Matches` | app.js:53 | no contract; the filter callback, true when the lower-cased name includes the lower-cased term; characterised by `Products.FilterByTerm` and `Products.EmptyTermKeepsAll` |
| `Products.FilterByTermUnique` | app.js:52-54 | the filter's result is the only such selection |
| `Products.EmptyTermKeepsAll` | app.js:53 | a blank term keeps every product |
| `Sorting.Insert` | app.js:58 | inserting adds exactly that element to the multiset |
| `Sorting.InsertSorted` | app.js:58 | inserting into a sorted list keeps it sorted |
| `Sorting.SortBy` | app.js:57-60 | for a total preorder, the result is a permutation of the input and ordered |
| `Sorting.SortByStable` | app.js:58-59 | elements that compare equal keep their input order |
| `Sorting.NameLeqTotalPreorder` | app.js:59 | case-insensitive name order is total and transitive |
| `Sorting.NameLeq` | app.js:59 | no contract; the sort's comparator on lower-cased names; characterised by `Sorting.NameLeqTotalPreorder` and `Sorting.EquivalentMeansSameLower` |
| `Sorting.SortAlphabetically` | app.js:57-60 | a copy of the products, permuted and ordered by case-insensitive name |
| `Sorting.EquivalentMeansSameLower` | app.js:59 | the name order ties two products exactly when their lower-cased names are equal |
| `Sorting.SortAlphabeticallyStable` | app.js:58-59 | products whose names differ only in case keep their input order |
| `Rendering.JoinItems` | app.js:64-66 | the joined markup is empty exactly when there are no items |
| `Rendering.ItemHtml` | app.js:65 | no contract; one `<li>` with the id as attribute and the name as text, unescaped; characterised by `Rendering.ParseItemHtml` and `Rendering.MarkupInNameIsAmbiguous` |
| `Rendering.ParseItemHtml` | app.js:65 | the markup of a readable product, followed by anything, reads back as that product and exactly what followed |
| `Rendering.RenderResults` | app.js:62-69 | the message exactly when the data is empty; otherwise the markup of a sorted permutation of the data |
| `Rendering.ParseItem` | app.js:65 | reading one `<li>` consumes a non-empty prefix of the markup: what is left is a shorter suffix of it |
| `Rendering.ParseJoinItems` | app.js:64-66 | for readable items, reading the joined markup gives back the items |
| `Rendering.RenderResultsRoundTrip` | app.js:62-69 | for readable products the markup determines the sorted list; the message reads as no list |
| `Rendering.MarkupInNameIsAmbiguous` | app.js:65 | a name holding `</li><li id="2">` renders exactly like two products |
| `Fetching.FetchResult` | app.js:32-45 | `null` exactly when fetch rejected, the status is outside 200-299, or the body is not JSON; otherwise the parsed array |
| `Fetching.IsOk` | app.js:34 | no contract; `response.ok`, a status in 200-299; characterised by `Fetching.FetchResult` |
| `Fetching.ReplaceController` | app.js:26-30 | one controller more, the new one live, the previous current one aborted, older ones untouched, and at most one live controller afterwards |
| `Searching.Search` | app.js:48-55 | the term is recorded; a repeated term gives `undefined` and changes nothing; otherwise the controller is replaced, and the outcome is the TypeError exactly when the fetch gave `null`, else the filtered data |
| `Searching.RepeatIsSuppressed` | app.js:49 | a second search for the same term is suppressed, however the first went |
| `Searching.FailedTermIsRecorded` | app.js:50-52 | a failed request still records its term and throws on the filter |
| `Searching.RunSearchesProperties` | app.js:48-51 | over any run: no two consecutive requests are for the same term, one controller per request, at most one live, and the last term recorded |
| `Searching.HandleInput` | app.js:80-86 | no contract; trim, search, then render or the TypeError; characterised by `Searching.HandleInputShows`, `Searching.FreshInputShown`, `Searching.BlankInputShowsAll` and `Searching.Widget.OnSearch` |
| `Searching.HandleInputShows` | app.js:80-86 | the list is shown exactly when the trimmed term is new and the request produced data; a repeated term ends in the TypeError from `.length` |
| `Searching.BlankInputShowsAll` | app.js:81-85 | a new blank input lists the whole dataset |
| `Searching.FreshInputShown` | app.js:80-86 | a new term with data shows that data filtered by the term, rendered, and replaces the controller |
| `Searching.Widget.constructor` | app.js:2-3 | both globals start out `null`, with no controller |
| `Searching.Widget.FetchData` | app.js:25-46 | replaces the controller in place and returns the classified result |
| `Searching.Widget.GetFilteredProducts` | app.js:48-55 | updates the globals and returns exactly what `Search` prescribes, keeping at most one controller live |
| `Searching.Widget.OnSearch` | app.js:80-86 | trims, searches and renders, as `HandleInput` prescribes |
| `Examples.TypingApShowsTwoProducts` | app.js:80-86 | `" ap "` against apricot, Banana, Apple shows Apple then apricot, and records "ap" with one live controller |
| `Debouncing.Invoke` | app.js:19-22 | a call replaces any pending timer by one holding its arguments, due `delay` later |
| `Debouncing.Advance` | app.js:21 | the callback runs exactly when the pending timer is due, with its arguments, and the timer is gone; otherwise nothing changes |
| `Debouncing.RunConcat` | app.js:17-23 | running two event sequences one after the other is running their concatenation |
| `Debouncing.LastCall` | app.js:19-22 | the last call of a sequence of events is one of its calls, or the earlier one when it has none |
| `Debouncing.LastCallIsLast` | app.js:19-22 | when there are calls, the result is a call that no later call follows; with no calls it is the earlier one |
| `Debouncing.WindowKeepsPending` | app.js:19-22 | while every event comes before the pending timer is due, calls push the timer back to the latest call and ticks leave it alone; nothing runs |
| `Debouncing.BurstKeepsLastCall` | app.js:19-22 | after a burst (calls less than `delay` apart, ticks in between that find the timer not yet due) only the last call's timer is pending, and nothing has run |
| `Debouncing.TicksFireOnce` | app.js:21 | a pending callback runs once if some later tick reaches its deadline, and never twice |
| `Debouncing.BurstThenTicks` | app.js:17-23 | after such a burst, the callback runs once with the last call's arguments if a tick comes `delay` after that call, else not at all |
| `Debouncing.FiresAtMostOncePerCall` | app.js:17-23 | the callback never runs more often than the debounced function was called |
| `Examples.FiveKeystrokesRunOnce` | app.js:80-86 | five inputs 100 ms apart, with the clock ticking between them, run the 500 ms handler once, with the last value |
| `Examples.SpacedCallsRunTwice` | app.js:17-23 | two calls further apart than the delay each run the callback |
| `Debouncing.Debouncer.constructor` | app.js:17-18 | a fresh closure has the given delay and no timer |
| `Debouncing.Debouncer.Call` | app.js:19-22 | the pending timer becomes the one `Invoke` prescribes |
| `Debouncing.Debouncer.Tick` | app.js:21 | the timer and the arguments run are as `Advance` prescribes |

## Left out

- The DOM: `querySelector`, `classList`, the loading indicator, `toggleSearchResults` and
  the click listeners (app.js:5-15, 70, 73-78, 82, 84, 88-91). They only change how the
  list is displayed. The `input` listener (app.js:88) is the `onSearch` call itself.
- The network: `fetch`, `response.json()` and `await` are replaced by an `Exchange` input.
  It says whether the request was rejected (aborted or otherwise) or what status and body
  came back. The endpoint URL (app.js:1) is therefore not modelled.
- Concurrency: each search runs to completion before the next starts. So the race between
  overlapping requests, in which an aborted request rejects with `AbortError`, appears only
  as an `Exchange` value chosen by the caller.
- The `setTimeout` clock: time is an integer and timers fire only on explicit ticks, so a run of events without a tick at or after a deadline runs no callback for it.
- The console messages at app.js:39-43: they have no effect on state or result.
- The body of `response.json()` is modelled as an array of `{id, name}` records or as a
  failed parse. Other JSON values (a non-array, missing or non-string names) and extra
  fields are not modelled. With those the script would throw in `filter` or `toLowerCase`.
- Strings: a Dafny string is a sequence of Unicode scalar values, not of UTF-16 code units as in
  JavaScript, and the model's name order compares code points. On well-formed strings `trim` and `includes` agree either way.
- Text.Lower: maps only A-Z. `toLowerCase` also lower-cases non-ASCII letters, according
  to Unicode.
- Sorting.NameLeq: lexicographic order on the ASCII-lower-cased names. It stands for
  `localeCompare` with base sensitivity. That ordering also ignores accents and follows the
  locale's collation; only the case-insensitivity is modelled.
- Rendering.RenderResultsRoundTrip: holds only for products whose id has no `"` and
  whose name has no `<`. The template does not escape, so other inputs are ambiguous
  (`Rendering.MarkupInNameIsAmbiguous`).
- Arrays are values: the array returned by `fetchData` and the copy made by `sortAlphabetically`
  are values here. So the model says nothing about aliasing, and the input array is left
  unchanged by construction.
