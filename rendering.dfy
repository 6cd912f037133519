/**
 * The string `displaySearchResults` (app.js:62-69) assigns to the list's
 * `innerHTML`, and a reader for it that shows the string determines the
 * sorted list when no id holds `"` and no name holds `<`.
 */
module Rendering {
  import opened Wrappers
  import opened Products
  import opened Sorting

  const NoResults: string := "No results found"
  const ItemOpen: string := "<li id=\""
  const ItemMid: string := "\">"
  const ItemClose: string := "</li>"

  /** One `<li>` per product, its id in the `id` attribute and its name as its text; nothing is escaped. */
  function ItemHtml(item: Product): string {
    ItemOpen + item.id + ItemMid + item.name + ItemClose
  }

  /** `.map(ItemHtml).join("")`. */
  function JoinItems(items: seq<Product>): (r: string)
    ensures items == [] <==> r == []
  {
    if items == [] then [] else ItemHtml(items[0]) + JoinItems(items[1..])
  }

  /** The markup for a result list: a message when it is empty, else its items sorted by name. */
  function RenderResults(data: seq<Product>): (r: string)
    ensures data == [] <==> r == NoResults
    ensures data != [] ==> exists items :: r == JoinItems(items) && multiset(items) == multiset(data) && Sorted(items, NameLeq)
  {
    if |data| > 0 then
      var r := JoinItems(SortAlphabetically(data));
      assert r != [] && r[0] == '<';
      r
    else
      NoResults
  }

  /** An item can be read back from its markup: the id has no quote and the name no `<`. */
  predicate Readable(item: Product) {
    '"' !in item.id && '<' !in item.name
  }

  /** The longest prefix of `s` without `c`. */
  function TakeUntil(s: string, c: char): (r: string)
    ensures r <= s && c !in r
    ensures |r| < |s| ==> s[|r|] == c
  {
    if s == [] || s[0] == c then [] else [s[0]] + TakeUntil(s[1..], c)
  }

  lemma {:induction false} TakeUntilDelimited(a: string, c: char, b: string)
    requires c !in a
    ensures TakeUntil(a + [c] + b, c) == a
  {
    if a != [] {
      assert (a + [c] + b)[1..] == a[1..] + [c] + b;
      TakeUntilDelimited(a[1..], c, b);
    }
  }

  /** The rest of `s` after `p`, when `s` starts with `p`. */
  function Expect(p: string, s: string): (r: Option<string>)
    ensures r.Some? <==> p <= s
    ensures r.Some? ==> r.value == s[|p|..]
  {
    if p <= s then Some(s[|p|..]) else None
  }

  /** Reads one `<li id="...">...</li>` item off the front of `s`. */
  function ParseItem(s: string): (r: Option<(Product, string)>)
    ensures r.Some? ==> |r.value.1| < |s| && r.value.1 == s[|s| - |r.value.1|..]
  {
    match Expect(ItemOpen, s)
    case None => None
    case Some(afterOpen) =>
      var id := TakeUntil(afterOpen, '"');
      match Expect(ItemMid, afterOpen[|id|..])
      case None => None
      case Some(afterMid) =>
        var name := TakeUntil(afterMid, '<');
        match Expect(ItemClose, afterMid[|name|..])
        case None => None
        case Some(rest) => Some((Product(id, name), rest))
  }

  /** Reads a string of items back into products. */
  function ParseItems(s: string): (r: Option<seq<Product>>)
    decreases |s|
  {
    if s == [] then Some([])
    else
      match ParseItem(s)
      case None => None
      case Some((item, rest)) =>
        match ParseItems(rest)
        case None => None
        case Some(items) => Some([item] + items)
  }

  lemma ExpectPrefix(p: string, b: string)
    ensures Expect(p, p + b) == Some(b)
  {
    assert (p + b)[|p|..] == b;
  }

  /** Reading up to `c` stops at a marker `m` that starts with `c`. */
  lemma ReadDelimited(a: string, m: string, rest: string, c: char)
    requires c !in a && m != [] && m[0] == c
    ensures TakeUntil(a + m + rest, c) == a && (a + m + rest)[|a|..] == m + rest
  {
    assert m == [c] + m[1..];
    assert a + m + rest == a + [c] + (m[1..] + rest);
    TakeUntilDelimited(a, c, m[1..] + rest);
  }

  /** The steps of `ParseItem`, each taken as given. */
  lemma ParseItemSteps(s: string, id: string, name: string, afterOpen: string, afterMid: string, tail: string)
    requires Expect(ItemOpen, s) == Some(afterOpen) && TakeUntil(afterOpen, '"') == id
    requires |id| <= |afterOpen| && Expect(ItemMid, afterOpen[|id|..]) == Some(afterMid)
    requires TakeUntil(afterMid, '<') == name
    requires |name| <= |afterMid| && Expect(ItemClose, afterMid[|name|..]) == Some(tail)
    ensures ParseItem(s) == Some((Product(id, name), tail))
  {
  }

  lemma ParseItemHtml(item: Product, tail: string)
    requires Readable(item)
    ensures ParseItem(ItemHtml(item) + tail) == Some((item, tail))
  {
    var afterMid := item.name + ItemClose + tail;
    var afterOpen := item.id + ItemMid + afterMid;
    assert ItemHtml(item) + tail == ItemOpen + afterOpen;
    ExpectPrefix(ItemOpen, afterOpen);
    ReadDelimited(item.id, ItemMid, afterMid, '"');
    ExpectPrefix(ItemMid, afterMid);
    ReadDelimited(item.name, ItemClose, tail, '<');
    ExpectPrefix(ItemClose, tail);
    ParseItemSteps(ItemHtml(item) + tail, item.id, item.name, afterOpen, afterMid, tail);
  }

  /** Reading the joined markup gives back the list it was built from. */
  lemma {:induction false} ParseJoinItems(items: seq<Product>)
    requires forall i :: 0 <= i < |items| ==> Readable(items[i])
    ensures ParseItems(JoinItems(items)) == Some(items)
  {
    if items != [] {
      var tail := JoinItems(items[1..]);
      assert forall i :: 0 <= i < |items[1..]| ==> Readable(items[1..][i]) by {
        forall i | 0 <= i < |items[1..]| ensures Readable(items[1..][i]) {
          assert items[1..][i] == items[i + 1];
        }
      }
      ParseJoinItems(items[1..]);
      ParseItemHtml(items[0], tail);
      ParseItemsStep(ItemHtml(items[0]) + tail, items[0], tail);
      assert items == [items[0]] + items[1..];
    }
  }

  lemma ParseItemsStep(s: string, item: Product, tail: string)
    requires s != [] && ParseItem(s) == Some((item, tail))
    ensures ParseItems(s) == match ParseItems(tail) case None => None case Some(rest) => Some([item] + rest)
  {
  }

  /** For readable products the markup determines the sorted list; the message reads as no list at all. */
  lemma RenderResultsRoundTrip(data: seq<Product>)
    requires forall i :: 0 <= i < |data| ==> Readable(data[i])
    ensures ParseItems(RenderResults(data)) == if data == [] then None else Some(SortAlphabetically(data))
  {
    if data == [] {
      assert !(ItemOpen <= NoResults) by {
        assert NoResults[0] != ItemOpen[0];
      }
    } else {
      var sorted := SortAlphabetically(data);
      forall i | 0 <= i < |sorted| ensures Readable(sorted[i]) {
        assert sorted[i] in multiset(data);
      }
      ParseJoinItems(sorted);
    }
  }

  /** Without escaping, a name holding markup renders exactly like two separate products. */
  lemma MarkupInNameIsAmbiguous()
    ensures RenderResults([Product("1", "a</li><li id=\"2\">b")]) == JoinItems([Product("1", "a"), Product("2", "b")])
  {
  }
}
