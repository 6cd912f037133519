/**
 * One worked search: the dataset [apricot, Banana, Apple] and the input " ap ",
 * traced through trim, the filter, the sort and the markup; and two runs of
 * the debounced handler on a 500 ms delay.
 */
module Examples {
  import opened Wrappers
  import opened Text
  import opened Sequences
  import opened Products
  import opened Sorting
  import opened Rendering
  import opened Fetching
  import opened Searching
  import opened Debouncing

  /** A capital first letter is the only one lower-casing changes. */
  lemma LowerCapitalised(s: string, w: string)
    requires s != [] && w != [] && 'A' <= s[0] <= 'Z' && s[1..] == w[1..] && w[0] as int == s[0] as int + 32
    requires forall i :: 0 <= i < |w| ==> !('A' <= w[i] <= 'Z')
    ensures Lower(s) == w
  {
    LowerUnchanged(w[1..]);
    assert w == [w[0]] + w[1..];
  }

  lemma LowerApple()
    ensures Lower("Apple") == "apple"
  {
    LowerCapitalised("Apple", "apple");
  }

  lemma LowerBanana()
    ensures Lower("Banana") == "banana"
  {
    LowerCapitalised("Banana", "banana");
  }

  lemma LowerApricot()
    ensures Lower("ap") == "ap" && Lower("apricot") == "apricot"
  {
    LowerUnchanged("ap");
    LowerUnchanged("apricot");
  }

  /** The lower-cased names of the three products in the scenario below. */
  lemma ScenarioLowerCase()
    ensures Lower("ap") == "ap" && Lower("apricot") == "apricot" && Lower("Apple") == "apple" && Lower("Banana") == "banana"
  {
    LowerApricot();
    LowerApple();
    LowerBanana();
  }

  /** Which of the three products the term "ap" matches. */
  lemma ScenarioMatches()
    ensures Matches(Product("3", "apricot"), "ap") && Matches(Product("1", "Apple"), "ap")
    ensures !Matches(Product("2", "Banana"), "ap")
  {
    ScenarioLowerCase();
    assert OccursAt("apricot", "ap", 0);
    assert OccursAt("apple", "ap", 0);
    assert forall i :: !OccursAt("banana", "ap", i);
  }

  lemma FilterKeepsOuter(a: Product, b: Product, c: Product, term: string)
    requires Matches(a, term) && !Matches(b, term) && Matches(c, term)
    ensures FilterByTerm([a, b, c], term) == [a, c]
  {
    var p := MatchesTerm(term);
    assert p(a) && !p(b) && p(c);
    calc {
      Filter([a, b, c], p);
      { assert [a, b, c] == [a] + [b, c]; FilterCons(a, [b, c], p); }
      [a] + Filter([b, c], p);
      { assert [b, c] == [b] + [c]; FilterCons(b, [c], p); }
      [a] + Filter([c], p);
      { assert [c] == [c] + []; FilterCons(c, [], p); }
      [a, c];
    }
  }

  /** Filtering the scenario's dataset by "ap" keeps the first and the last product. */
  lemma ScenarioFilter()
    ensures FilterByTerm([Product("3", "apricot"), Product("2", "Banana"), Product("1", "Apple")], "ap")
      == [Product("3", "apricot"), Product("1", "Apple")]
  {
    ScenarioMatches();
    FilterKeepsOuter(Product("3", "apricot"), Product("2", "Banana"), Product("1", "Apple"), "ap");
  }

  /** "apricot" sorts after "apple": they first differ at "r" against "l". */
  lemma ScenarioNameOrder()
    ensures !LexLeq("apricot", "apple")
  {
    assert "apricot"[1..] == "pricot" && "apple"[1..] == "pple";
    assert "pricot"[1..] == "ricot" && "pple"[1..] == "ple";
  }

  /** Sorting puts "Apple" before "apricot", case being ignored. */
  lemma ScenarioSort()
    ensures SortAlphabetically([Product("3", "apricot"), Product("1", "Apple")])
      == [Product("1", "Apple"), Product("3", "apricot")]
  {
    var apricot, apple := Product("3", "apricot"), Product("1", "Apple");
    NameLeqTotalPreorder();
    calc {
      SortAlphabetically([apricot, apple]);
      SortBy([apricot, apple], NameLeq);
      { assert [apricot, apple][1..] == [apple]; }
      Insert(apricot, SortBy([apple], NameLeq), NameLeq);
      { assert [apple][1..] == []; }
      Insert(apricot, [apple], NameLeq);
      { ScenarioLowerCase(); ScenarioNameOrder(); }
      [apple, apricot];
    }
  }

  /** " ap " trims to "ap". */
  lemma ScenarioTrim()
    ensures Trim(" ap ") == "ap"
  {
    assert IsWhitespace(" ap "[0]) && " ap "[1..] == "ap ";
    assert !IsWhitespace("ap "[0]);
    assert TrimStart(" ap ") == "ap ";
    assert IsWhitespace("ap "[2]) && "ap "[..2] == "ap";
    assert !IsWhitespace("ap"[1]);
    assert TrimEnd("ap ") == "ap";
  }

  lemma JoinTwo(a: Product, b: Product)
    ensures JoinItems([a, b]) == ItemHtml(a) + ItemHtml(b)
  {
    assert [a, b][1..] == [b];
    assert [b][1..] == [];
    assert ItemHtml(b) + [] == ItemHtml(b);
  }

  /** The first search for a term whose filtered data sorts to two items shows those two items. */
  lemma FirstSearchShowsPair(raw: string, data: seq<Product>, filtered: seq<Product>, a: Product, b: Product)
    requires FilterByTerm(data, Trim(raw)) == filtered && SortAlphabetically(filtered) == [a, b]
    ensures HandleInput(Initial, raw, Responded(200, Json(data)))
      == (WidgetState(Some(Trim(raw)), [false]), Shown(ItemHtml(a) + ItemHtml(b)))
  {
    FreshInputShown(Initial, raw, Responded(200, Json(data)), data);
    assert ReplaceController([]) == [false];
    assert multiset(filtered) == multiset{a, b};
    JoinTwo(a, b);
  }

  /** Typing " ap " first, against a three-product dataset, lists the two names containing "ap", sorted. */
  lemma TypingApShowsTwoProducts()
    ensures HandleInput(Initial, " ap ", Responded(200, Json([Product("3", "apricot"), Product("2", "Banana"), Product("1", "Apple")])))
      == (WidgetState(Some("ap"), [false]), Shown(ItemHtml(Product("1", "Apple")) + ItemHtml(Product("3", "apricot"))))
  {
    var apricot, apple := Product("3", "apricot"), Product("1", "Apple");
    var data := [apricot, Product("2", "Banana"), apple];
    ScenarioTrim();
    ScenarioFilter();
    ScenarioSort();
    FirstSearchShowsPair(" ap ", data, [apricot, apple], apple, apricot);
  }

  lemma WindowCall(a: int, t: int, e: seq<Event<int>>, last: int, prev: (int, int))
    requires last <= t < last + 500 && WithinWindow(e, 500, t)
    ensures WithinWindow([CallAt(a, t)] + e, 500, last)
    ensures LastCall([CallAt(a, t)] + e, prev) == LastCall(e, (a, t))
  {
    assert ([CallAt(a, t)] + e)[1..] == e;
  }

  lemma WindowTick(t: int, e: seq<Event<int>>, last: int, prev: (int, int))
    requires last <= t < last + 500 && WithinWindow(e, 500, last)
    ensures WithinWindow([TickAt(t)] + e, 500, last)
    ensures LastCall([TickAt(t)] + e, prev) == LastCall(e, prev)
  {
    assert ([TickAt(t)] + e)[1..] == e;
  }

  /** The last three keystrokes, 100 ms apart after a keystroke at `t`, stay within the window and end with the fifth. */
  lemma KeystrokesTail(t: int, e3: seq<Event<int>>)
    requires e3 == [CallAt(3, t + 200)] + ([CallAt(4, t + 300)] + [CallAt(5, t + 400)])
    ensures WithinWindow(e3, 500, t + 100) && LastCall(e3, (2, t + 100)) == (5, t + 400)
  {
    var e5: seq<Event<int>> := [CallAt(5, t + 400)];
    assert e5 == [CallAt(5, t + 400)] + [];
    WindowCall(5, t + 400, [], t + 300, (4, t + 300));
    WindowCall(4, t + 300, e5, t + 200, (3, t + 200));
    WindowCall(3, t + 200, [CallAt(4, t + 300)] + e5, t + 100, (2, t + 100));
  }

  /** After a first keystroke at `t`, the other events stay within its window, and the last is the fifth keystroke. */
  lemma KeystrokesWindow(t: int, e3: seq<Event<int>>)
    requires e3 == [CallAt(3, t + 200)] + ([CallAt(4, t + 300)] + [CallAt(5, t + 400)])
    ensures var e := [TickAt(t + 50)] + ([CallAt(2, t + 100)] + ([TickAt(t + 150)] + e3));
      WithinWindow(e, 500, t) && LastCall(e, (1, t)) == (5, t + 400)
  {
    KeystrokesTail(t, e3);
    WindowTick(t + 150, e3, t + 100, (2, t + 100));
    var e2 := [TickAt(t + 150)] + e3;
    WindowCall(2, t + 100, e2, t, (1, t));
    WindowTick(t + 50, [CallAt(2, t + 100)] + e2, t, (1, t));
  }

  lemma KeystrokesSpelledOut(t: int, e3: seq<Event<int>>)
    requires e3 == [CallAt(3, t + 200)] + ([CallAt(4, t + 300)] + [CallAt(5, t + 400)])
    ensures [CallAt(1, t)] + ([TickAt(t + 50)] + ([CallAt(2, t + 100)] + ([TickAt(t + 150)] + e3)))
      == [CallAt(1, t), TickAt(t + 50), CallAt(2, t + 100), TickAt(t + 150), CallAt(3, t + 200), CallAt(4, t + 300), CallAt(5, t + 400)]
  {
    assert e3 == [CallAt(3, t + 200), CallAt(4, t + 300), CallAt(5, t + 400)];
    assert [TickAt(t + 150)] + e3 == [TickAt(t + 150), CallAt(3, t + 200), CallAt(4, t + 300), CallAt(5, t + 400)];
  }

  lemma BurstRunsOnce(burst: seq<Event<int>>, times: seq<int>, a: int, t: int, i: int)
    requires Burst(burst, 500) && LastCall(burst[1..], (burst[0].args, burst[0].at)) == (a, t)
    requires 0 <= i < |times| && t + 500 <= times[i]
    ensures Run(None, 500, burst + Ticks(times)).1 == [a]
  {
    BurstThenTicks(None, 500, burst, times);
  }

  /**
   * Five keystrokes 100 ms apart, starting at any time `t`, with the clock ticking
   * between them, run the 500 ms callback once, with the last value.
   */
  lemma FiveKeystrokesRunOnce(t: int)
    ensures Run<int>(None, 500, [CallAt(1, t), TickAt(t + 50), CallAt(2, t + 100), TickAt(t + 150), CallAt(3, t + 200), CallAt(4, t + 300), CallAt(5, t + 400)]
      + Ticks([t + 600, t + 900, t + 1000])).1 == [5]
  {
    var e3: seq<Event<int>> := [CallAt(3, t + 200)] + ([CallAt(4, t + 300)] + [CallAt(5, t + 400)]);
    var rest := [TickAt(t + 50)] + ([CallAt(2, t + 100)] + ([TickAt(t + 150)] + e3));
    var burst := [CallAt(1, t)] + rest;
    KeystrokesWindow(t, e3);
    assert burst[1..] == rest;
    BurstRunsOnce(burst, [t + 600, t + 900, t + 1000], 5, t + 400, 1);
    KeystrokesSpelledOut(t, e3);
  }

  /** Calls further apart than the delay, with the clock running, each run the callback. */
  lemma SpacedCallsRunTwice()
    ensures Run<int>(None, 500, [CallAt(1, 0), TickAt(500), CallAt(2, 10000), TickAt(10500)]).1 == [1, 2]
  {
    var events: seq<Event<int>> := [CallAt(1, 0), TickAt(500), CallAt(2, 10000), TickAt(10500)];
    assert events[1..][1..][1..] == [TickAt(10500)];
    assert Run(Some(Pending(2, 10500)), 500, [TickAt(10500)]).1 == [2];
    assert Run(None, 500, events[1..][1..]).1 == [2];
    assert Run(None, 500, events).1 == [1] + [2];
  }
}
