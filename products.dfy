/** The product records fetched from the endpoint, and the search filter of app.js:52-54. */
module Products {
  import opened Text
  import opened Sequences

  /** One element of the fetched JSON array; only `id` and `name` are ever read. */
  datatype Product = Product(id: string, name: string)

  /** The filter callback: the lower-cased name includes the lower-cased term. */
  predicate Matches(item: Product, term: string) {
    Contains(Lower(item.name), Lower(term))
  }

  function MatchesTerm(term: string): Product -> bool {
    (item: Product) => Matches(item, term)
  }

  /**
   * The filter of `getFilteredProducts`, whose callback asks whether the lower-cased
   * name includes the lower-cased term: the matching items, in dataset order, each as often as it occurs in the data.
   */
  function FilterByTerm(data: seq<Product>, term: string): (r: seq<Product>)
    ensures IsSubsequence(r, data)
    ensures forall x :: multiset(r)[x] == if Matches(x, term) then multiset(data)[x] else 0
  {
    FilterIsSubsequence(data, MatchesTerm(term));
    FilterCountAll(data, MatchesTerm(term));
    Filter(data, MatchesTerm(term))
  }

  /** Any list meeting the two promises above is the filter's result: they pin it down. */
  lemma FilterByTermUnique(data: seq<Product>, term: string, r: seq<Product>)
    requires IsSubsequence(r, data)
    requires forall x :: multiset(r)[x] == if Matches(x, term) then multiset(data)[x] else 0
    ensures r == FilterByTerm(data, term)
  {
    FilterUnique(data, MatchesTerm(term), r);
  }

  /** The empty term matches every item, so the whole dataset comes back. */
  lemma EmptyTermKeepsAll(data: seq<Product>)
    ensures FilterByTerm(data, "") == data
  {
    forall i | 0 <= i < |data| ensures MatchesTerm("")(data[i]) {
      assert OccursAt(Lower(data[i].name), Lower(""), 0);
    }
    FilterKeepsAll(data, MatchesTerm(""));
  }
}
