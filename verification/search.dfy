/** The catalog search (`searchProducts`, `displayProducts`,
    `displayFilteredProducts` in assets/js/main.js) and the description
    truncation of the product cards (`truncateText`). */
module Search {
  import opened Wrappers
  import opened Text
  import opened Catalog

  /** The search box value, lower-cased and then trimmed: it holds no
      upper-case ASCII letter and neither starts nor ends with whitespace. */
  function Query(input: string): (q: string)
    ensures |q| <= |input|
    ensures forall k :: 0 <= k < |q| ==> !('A' <= q[k] <= 'Z')
    ensures q != [] ==> !IsSpace(q[0]) && !IsSpace(q[|q| - 1])
  {
    TrimmedLowerCase(LowerStr(input));
    Trim(LowerStr(input))
  }

  /** Helper: trimming a text without upper-case ASCII letters yields one
      without them either, and without whitespace at its ends. */
  lemma TrimmedLowerCase(l: string)
    requires forall k :: 0 <= k < |l| ==> !('A' <= l[k] <= 'Z')
    ensures forall k :: 0 <= k < |Trim(l)| ==> !('A' <= Trim(l)[k] <= 'Z')
    ensures Trim(l) != [] ==> !IsSpace(Trim(l)[0]) && !IsSpace(Trim(l)[|Trim(l)| - 1])
  {
    var i := TrimIsTrimmedAt(l);
    forall k | 0 <= k < |Trim(l)|
      ensures !('A' <= Trim(l)[k] <= 'Z')
    {
      assert Trim(l)[k] == l[i + k];
    }
  }

  /** The query is what `trim` leaves of the lower-cased search box value:
      a stretch of it with only whitespace around it and none at its ends. */
  lemma QueryIsTrimmedLowerCase(input: string)
    ensures exists i: nat :: TrimmedAt(LowerStr(input), i, |Query(input)|) && Query(input) == LowerStr(input)[i..i + |Query(input)|]
  {
    var l := LowerStr(input);
    var i := TrimIsTrimmedAt(l);
    assert Query(input) == Trim(l);
  }

  /** A product matches a query when its lower-cased name, category or
      non-empty description contains the query. */
  predicate Matches(p: Product, q: string) {
    || Includes(LowerStr(p.name), q)
    || Includes(LowerStr(p.category), q)
    || (p.description != [] && Includes(LowerStr(p.description), q))
  }

  /** A product matches exactly when the query occurs at some position of its
      lower-cased name, of its lower-cased category, or of its lower-cased
      description when that is not empty. */
  lemma MatchesIffOccurs(p: Product, q: string)
    ensures Matches(p, q) <==>
              || (exists k: nat :: OccursAt(LowerStr(p.name), q, k))
              || (exists k: nat :: OccursAt(LowerStr(p.category), q, k))
              || (p.description != [] && exists k: nat :: OccursAt(LowerStr(p.description), q, k))
  {
    IncludesIffOccurs(LowerStr(p.name), q);
    IncludesIffOccurs(LowerStr(p.category), q);
    IncludesIffOccurs(LowerStr(p.description), q);
  }

  // ---- order-preserving selection of products, for any keep-predicate ----

  /** The elements `keep` admits, in their order. */
  function FilterBy(xs: seq<Product>, keep: Product -> bool): (r: seq<Product>)
    ensures |r| <= |xs|
    ensures forall k :: 0 <= k < |r| ==> keep(r[k])
  {
    if xs == [] then []
    else (if keep(xs[0]) then [xs[0]] else []) + FilterBy(xs[1..], keep)
  }

  /** Filtering keeps every admitted element as often as it occurs and drops
      every other one. */
  lemma {:induction false} FilterByCounts(xs: seq<Product>, keep: Product -> bool, x: Product)
    ensures multiset(FilterBy(xs, keep))[x] == if keep(x) then multiset(xs)[x] else 0
  {
    if xs != [] {
      FilterByCounts(xs[1..], keep, x);
      var head := if keep(xs[0]) then [xs[0]] else [];
      assert multiset(FilterBy(xs, keep)) == multiset(head) + multiset(FilterBy(xs[1..], keep));
      assert xs == [xs[0]] + xs[1..];
      assert multiset(xs) == multiset([xs[0]]) + multiset(xs[1..]);
    }
  }

  /** The positions, from `start` on, of the elements `keep` admits, in
      increasing order. */
  function IndicesFrom(xs: seq<Product>, keep: Product -> bool, start: nat): (idx: seq<nat>)
    requires start <= |xs|
    ensures forall k :: 0 <= k < |idx| ==> start <= idx[k] < |xs| && keep(xs[idx[k]])
    ensures forall k, l :: 0 <= k < l < |idx| ==> idx[k] < idx[l]
    ensures forall j :: start <= j < |xs| && keep(xs[j]) ==> j in idx
    decreases |xs| - start
  {
    if start == |xs| then []
    else (if keep(xs[start]) then [start] else []) + IndicesFrom(xs, keep, start + 1)
  }

  /** The elements at the given positions. */
  function Select(xs: seq<Product>, idx: seq<nat>): (r: seq<Product>)
    requires forall k :: 0 <= k < |idx| ==> idx[k] < |xs|
    ensures |r| == |idx| && forall k :: 0 <= k < |idx| ==> r[k] == xs[idx[k]]
  {
    seq(|idx|, k requires 0 <= k < |idx| => xs[idx[k]])
  }

  /** Helper: selecting a first position and then more. */
  lemma SelectCons(xs: seq<Product>, i: nat, rest: seq<nat>)
    requires i < |xs| && forall k :: 0 <= k < |rest| ==> rest[k] < |xs|
    ensures Select(xs, [i] + rest) == [xs[i]] + Select(xs, rest)
  {
    var idx := [i] + rest;
    var lhs := Select(xs, idx);
    var rhs := [xs[i]] + Select(xs, rest);
    forall k | 0 <= k < |lhs|
      ensures lhs[k] == rhs[k]
    {
      if k > 0 {
        assert idx[k] == rest[k - 1];
      }
    }
  }

  /** Filtering keeps exactly the admitted elements, in order: its result is
      the elements at the increasing positions `keep` admits. */
  lemma {:induction false} FilterSelectsIndices(xs: seq<Product>, keep: Product -> bool, start: nat)
    requires start <= |xs|
    ensures FilterBy(xs[start..], keep) == Select(xs, IndicesFrom(xs, keep, start))
    decreases |xs| - start
  {
    if start < |xs| {
      var rest := IndicesFrom(xs, keep, start + 1);
      assert FilterBy(xs[start + 1..], keep) == Select(xs, rest) by {
        FilterSelectsIndices(xs, keep, start + 1);
      }
      assert FilterBy(xs[start..], keep) == (if keep(xs[start]) then [xs[start]] else []) + FilterBy(xs[start + 1..], keep) by {
        assert xs[start..][0] == xs[start] && xs[start..][1..] == xs[start + 1..];
      }
      if keep(xs[start]) {
        SelectCons(xs, start, rest);
      } else {
        assert [] + FilterBy(xs[start + 1..], keep) == FilterBy(xs[start + 1..], keep);
      }
    } else {
      assert xs[start..] == [];
    }
  }

  // ---- the search ----

  /** `products.filter(...)`: the matching products, in their order. */
  function Filter(ps: seq<Product>, q: string): (r: seq<Product>)
    ensures forall k :: 0 <= k < |r| ==> Matches(r[k], q)
  {
    FilterBy(ps, (p: Product) => Matches(p, q))
  }

  /** The search result holds every matching product exactly as often as the
      catalog does, and no other product. */
  lemma FilterCounts(ps: seq<Product>, q: string, x: Product)
    ensures multiset(Filter(ps, q))[x] == if Matches(x, q) then multiset(ps)[x] else 0
  {
    FilterByCounts(ps, (p: Product) => Matches(p, q), x);
  }

  /** The store positions of the matching products, in increasing order. */
  function MatchIndices(ps: seq<Product>, q: string): (idx: seq<nat>)
    ensures forall k :: 0 <= k < |idx| ==> idx[k] < |ps| && Matches(ps[idx[k]], q)
    ensures forall k, l :: 0 <= k < l < |idx| ==> idx[k] < idx[l]
    ensures forall j :: 0 <= j < |ps| && Matches(ps[j], q) ==> j in idx
  {
    IndicesFrom(ps, (p: Product) => Matches(p, q), 0)
  }

  /** The filter is the selection of the matching positions. */
  lemma FilterIsMatchSelection(ps: seq<Product>, q: string)
    ensures Filter(ps, q) == Select(ps, MatchIndices(ps, q))
  {
    FilterSelectsIndices(ps, (p: Product) => Matches(p, q), 0);
    assert ps[0..] == ps;
  }

  /** What the search shows for the query in the box, as the code renders
      it. */
  datatype Card = Card(index: nat, product: Product)

  datatype View =
    | NoProducts
    | NoMatches(query: string)
    | Cards(cards: seq<Card>)

  /** Cards numbered by their position in the rendered list. */
  function Numbered(xs: seq<Product>): (cs: seq<Card>)
    ensures |cs| == |xs| && forall k :: 0 <= k < |xs| ==> cs[k] == Card(k, xs[k])
  {
    seq(|xs|, k requires 0 <= k < |xs| => Card(k, xs[k]))
  }

  /** `displayProducts`: the whole catalog, each card carrying its store
      position. */
  function ListView(ps: seq<Product>): (v: View)
    ensures v.NoProducts? <==> ps == []
    ensures !v.NoMatches?
    ensures v.Cards? ==> |v.cards| == |ps| && forall k :: 0 <= k < |ps| ==> v.cards[k] == Card(k, ps[k])
  {
    if ps == [] then NoProducts else Cards(Numbered(ps))
  }

  /** `searchProducts` as written: an empty query lists the whole catalog;
      otherwise the matching products are numbered by their position in the
      filtered list, and an empty result names the query. */
  function SearchViewAsWritten(ps: seq<Product>, input: string): (v: View)
    ensures Query(input) == [] ==> v == ListView(ps)
    ensures Query(input) != [] ==>
              if Filter(ps, Query(input)) == [] then v == NoMatches(Query(input))
              else
                && v.Cards?
                && |v.cards| == |Filter(ps, Query(input))|
                && forall k :: 0 <= k < |v.cards| ==> v.cards[k] == Card(k, Filter(ps, Query(input))[k])
  {
    var q := Query(input);
    if q == [] then ListView(ps)
    else
      var m := Filter(ps, q);
      if m == [] then NoMatches(q) else Cards(Numbered(m))
  }

  /** The search with every card carrying the store position of its product,
      so that Edit and Delete on a search result address that product. */
  function SearchView(ps: seq<Product>, input: string): (v: View)
    ensures v.Cards? ==> forall c :: c in v.cards ==> c.index < |ps| && ps[c.index] == c.product
    ensures v.NoProducts? <==> ps == [] && Query(input) == []
    ensures v.NoMatches? <==> Query(input) != [] && Filter(ps, Query(input)) == []
    ensures v.NoMatches? ==> v.query == Query(input)
    ensures Query(input) == [] && ps != [] ==> v == Cards(Numbered(ps))
    ensures Query(input) != [] && v.Cards? ==>
              var idx := MatchIndices(ps, Query(input));
              && |v.cards| == |idx|
              && forall k :: 0 <= k < |idx| ==> v.cards[k] == Card(idx[k], ps[idx[k]])
  {
    var q := Query(input);
    if q == [] then ListView(ps)
    else
      var idx := MatchIndices(ps, q);
      FilterIsMatchSelection(ps, q);
      if idx == [] then NoMatches(q)
      else Cards(seq(|idx|, k requires 0 <= k < |idx| => Card(idx[k], ps[idx[k]])))
  }

  /** An empty query (after lower-casing and trimming) shows every product
      with its store position. */
  lemma EmptyQueryShowsAll(ps: seq<Product>, input: string)
    requires Query(input) == [] && ps != []
    ensures SearchView(ps, input) == SearchViewAsWritten(ps, input) == Cards(Numbered(ps))
  {
  }

  /** Both searches show the same products in the same order; only the
      positions on the cards differ. */
  lemma SearchViewsShowSameProducts(ps: seq<Product>, input: string)
    ensures SearchView(ps, input).Cards? <==> SearchViewAsWritten(ps, input).Cards?
    ensures SearchView(ps, input).Cards? ==>
              && |SearchView(ps, input).cards| == |SearchViewAsWritten(ps, input).cards|
              && forall k :: 0 <= k < |SearchView(ps, input).cards| ==>
                   SearchView(ps, input).cards[k].product == SearchViewAsWritten(ps, input).cards[k].product
  {
    var q := Query(input);
    if q != [] {
      FilterIsMatchSelection(ps, q);
    }
  }

  // ---- the code as written: filtered cards carry filtered positions ----

  /** Searching a two-record catalog for the second record's category shows
      one card whose position, 0, designates the first record: Edit or Delete
      on that card acts on the wrong product. */
  lemma FilteredCardAddressesWrongRecord(burger: Product, pizza: Product)
    requires burger.name == "Burger" && burger.category == "Fast Food" && burger.description == ""
    requires pizza.category == "Pizza"
    ensures SearchViewAsWritten([burger, pizza], "pizza") == Cards([Card(0, pizza)])
    ensures [burger, pizza][0] != pizza
    ensures SearchView([burger, pizza], "pizza") == Cards([Card(1, pizza)])
  {
    PlainQuery("pizza");
    PizzaMatches(pizza);
    BurgerMisses(burger);
    var ps := [burger, pizza];
    var keep := (p: Product) => Matches(p, "pizza");
    assert FilterBy(ps, keep) == [pizza] by {
      assert ps[1..] == [pizza];
      assert [pizza][1..] == [];
    }
    assert IndicesFrom(ps, keep, 0) == [1] by {
      assert IndicesFrom(ps, keep, 2) == [];
    }
    assert SearchViewAsWritten(ps, "pizza") == Cards([Card(0, pizza)]);
    assert SearchView(ps, "pizza") == Cards([Card(1, pizza)]);
  }

  /** Helper: a query of lower-case letters is searched as typed. */
  lemma PlainQuery(input: string)
    requires forall k :: 0 <= k < |input| ==> 'a' <= input[k] <= 'z'
    ensures Query(input) == input
  {
    assert LowerStr(input) == input;
    TrimFromStretch(input, 0, |input|);
  }

  /** Helper: a product of category "Pizza" matches "pizza". */
  lemma PizzaMatches(pizza: Product)
    requires pizza.category == "Pizza"
    ensures Matches(pizza, "pizza")
  {
    assert LowerStr(pizza.category) == "pizza";
    OccursImpliesIncludes("pizza", "pizza", 0);
  }

  /** Helper: "Burger" in "Fast Food" without description does not match
      "pizza", which holds a 'z'. */
  lemma BurgerMisses(burger: Product)
    requires burger.name == "Burger" && burger.category == "Fast Food" && burger.description == ""
    ensures !Matches(burger, "pizza")
  {
    assert 'z' !in LowerStr(burger.name) && 'z' !in LowerStr(burger.category);
    IncludesKeepsCharacters(LowerStr(burger.name), "pizza");
    IncludesKeepsCharacters(LowerStr(burger.category), "pizza");
    assert "pizza"[2] == 'z';
  }

  /** A one-record catalog holding "Burger" in "Fast Food": searching
      "food" shows that record. */
  lemma BurgerFoundByFood(burger: Product)
    requires burger.name == "Burger" && burger.category == "Fast Food" && burger.description == ""
    ensures SearchViewAsWritten([burger], "food") == Cards([Card(0, burger)])
    ensures SearchView([burger], "food") == Cards([Card(0, burger)])
  {
    PlainQuery("food");
    assert Matches(burger, "food") by {
      assert LowerStr(burger.category) == "fast food";
      assert "fast food"[5..9] == "food";
      OccursImpliesIncludes("fast food", "food", 5);
    }
    var keep := (p: Product) => Matches(p, "food");
    assert IndicesFrom([burger], keep, 1) == [];
    assert [burger][1..] == [];
    assert FilterBy([burger], keep) == [burger];
  }

  /** The same catalog searched for "sushi" shows the empty result naming
      "sushi". */
  lemma BurgerMissedBySushi(burger: Product)
    requires burger.name == "Burger" && burger.category == "Fast Food" && burger.description == ""
    ensures SearchViewAsWritten([burger], "sushi") == NoMatches("sushi")
    ensures SearchView([burger], "sushi") == NoMatches("sushi")
  {
    PlainQuery("sushi");
    assert !Matches(burger, "sushi") by {
      assert 'h' !in LowerStr(burger.name) && 'h' !in LowerStr(burger.category);
      IncludesKeepsCharacters(LowerStr(burger.name), "sushi");
      IncludesKeepsCharacters(LowerStr(burger.category), "sushi");
      assert "sushi"[3] == 'h';
    }
    var keep := (p: Product) => Matches(p, "sushi");
    assert [burger][1..] == [];
    assert FilterBy([burger], keep) == [];
  }

  // ---- truncateText ----

  /** The number of description characters a product card shows. */
  const CardDescriptionLength: nat := 16

  /** `truncateText`: a text longer than `maxLength` is cut to its first
      `maxLength` characters followed by an ellipsis; a shorter one is kept. */
  function Truncate(text: string, maxLength: nat): (r: string)
    ensures |r| == if |text| <= maxLength then |text| else maxLength + 3
    ensures |text| <= maxLength ==> r == text
    ensures |text| > maxLength ==> r[..maxLength] == text[..maxLength] && r[maxLength..] == "..."
  {
    if |text| > maxLength then text[..maxLength] + "..." else text
  }

  /** The description line of a product card: absent for an empty
      description, otherwise the description cut to the card's length. */
  function CardDescription(p: Product): (d: Option<string>)
    ensures d.None? <==> p.description == []
    ensures d.Some? ==> |d.value| <= CardDescriptionLength + 3
    ensures d.Some? && |p.description| <= CardDescriptionLength ==> d.value == p.description
    ensures d.Some? && |p.description| > CardDescriptionLength ==>
              && |d.value| == CardDescriptionLength + 3
              && d.value[..CardDescriptionLength] == p.description[..CardDescriptionLength]
              && d.value[CardDescriptionLength..] == "..."
  {
    if p.description == [] then None else Some(Truncate(p.description, CardDescriptionLength))
  }
}
