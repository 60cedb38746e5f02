/** The stateless search module (`SearchCriteria` and `SearchEngine` in
    src/SearchEngine.h and src/SearchEngine.cpp): filters and sorts over a
    snapshot of listings. The unused `SearchType` enum is not modelled. */
module SearchEngine {
  import opened Seqs
  import opened Items

  /** A bundle of filters. `sortBy` is free text; only "price_asc" and
      "price_desc" have an effect. */
  datatype Criteria = Criteria(
    keyword: string,
    category: string,
    minPrice: real,
    maxPrice: real,
    sortBy: string)

  /** The `SearchCriteria` constructor: no keyword, no category, the price
      window [0, 1000000] and no sorting. */
  function DefaultCriteria(): (c: Criteria)
    ensures c.keyword == "" && c.category == "" && c.sortBy == ""
    ensures c.minPrice == 0.0 && c.maxPrice == 1000000.0
  {
    Criteria("", "", 0.0, 1000000.0, "")
  }

  /* ------------------------------------------------------------- ordering */

  /** Price `a` may precede price `b`, ascending or descending. */
  predicate RealsInOrder(a: real, b: real, ascending: bool) {
    if ascending then a <= b else a >= b
  }

  /** `a` may precede `b` in a list sorted by price, ascending or descending. */
  predicate InPriceOrder(a: Item, b: Item, ascending: bool) {
    RealsInOrder(a.price, b.price, ascending)
  }

  ghost predicate SortedByPrice(s: seq<Item>, ascending: bool) {
    forall i, j :: 0 <= i < j < |s| ==> InPriceOrder(s[i], s[j], ascending)
  }

  /** `y` may precede every element of `s`. */
  ghost predicate PrecedesAll(y: Item, s: seq<Item>, ascending: bool) {
    forall k :: 0 <= k < |s| ==> InPriceOrder(y, s[k], ascending)
  }

  /** A bound on every element carries over to any rearrangement that adds
      one more element meeting the bound. */
  lemma PrecedesRearrangement(y: Item, s: seq<Item>, x: Item, t: seq<Item>, ascending: bool)
    requires multiset(t) == multiset(s) + multiset{x}
    requires InPriceOrder(y, x, ascending) && PrecedesAll(y, s, ascending)
    ensures PrecedesAll(y, t, ascending)
  {
    forall j | 0 <= j < |t|
      ensures InPriceOrder(y, t[j], ascending)
    {
      assert t[j] in multiset(t);
      if t[j] != x {
        assert t[j] in multiset(s);
        var k :| 0 <= k < |s| && s[k] == t[j];
      }
    }
  }

  lemma SortedParts(s: seq<Item>, ascending: bool)
    requires |s| > 0 && SortedByPrice(s, ascending)
    ensures SortedByPrice(s[1..], ascending) && PrecedesAll(s[0], s[1..], ascending)
  {
  }

  lemma ConsSorted(y: Item, t: seq<Item>, ascending: bool)
    requires PrecedesAll(y, t, ascending) && SortedByPrice(t, ascending)
    ensures SortedByPrice([y] + t, ascending)
  {
  }

  /** What may precede the head of a sorted sequence may precede all of it. */
  lemma PrecedesHead(x: Item, s: seq<Item>, ascending: bool)
    requires |s| > 0 && SortedByPrice(s, ascending) && InPriceOrder(x, s[0], ascending)
    ensures PrecedesAll(x, s, ascending)
  {
  }

  /** Inserts `x` in front of the first element it may precede. */
  function InsertByPrice(x: Item, s: seq<Item>, ascending: bool): (r: seq<Item>)
    requires SortedByPrice(s, ascending)
    ensures SortedByPrice(r, ascending)
    ensures multiset(r) == multiset(s) + multiset{x}
  {
    if |s| == 0 then [x]
    else if InPriceOrder(x, s[0], ascending) then
      PrecedesHead(x, s, ascending);
      ConsSorted(x, s, ascending);
      [x] + s
    else
      SortedParts(s, ascending);
      var t := InsertByPrice(x, s[1..], ascending);
      assert s == [s[0]] + s[1..];
      PrecedesRearrangement(s[0], s[1..], x, t, ascending);
      ConsSorted(s[0], t, ascending);
      [s[0]] + t
  }

  /** `SearchEngine::sortByPrice`: a permutation of the input, including
      listings that are not AVAILABLE, ordered by price. Among equal prices
      no particular order is promised (`std::sort` is not stable). */
  function SortByPrice(items: seq<Item>, ascending: bool := true): (r: seq<Item>)
    ensures multiset(r) == multiset(items)
    ensures SortedByPrice(r, ascending)
  {
    if |items| == 0 then []
    else
      assert items == [items[0]] + items[1..];
      InsertByPrice(items[0], SortByPrice(items[1..], ascending), ascending)
  }

  /* ------------------------------------------------- price sequences */

  /** The prices of a sequence of listings, position by position. */
  function Prices(s: seq<Item>): (r: seq<real>)
    ensures |r| == |s|
  {
    if |s| == 0 then [] else [s[0].price] + Prices(s[1..])
  }

  lemma {:induction false} PricesPointwise(s: seq<Item>)
    ensures forall i :: 0 <= i < |s| ==> Prices(s)[i] == s[i].price
  {
    if |s| > 0 {
      PricesPointwise(s[1..]);
    }
  }

  ghost predicate SortedReals(s: seq<real>, ascending: bool) {
    forall i, j :: 0 <= i < j < |s| ==> RealsInOrder(s[i], s[j], ascending)
  }

  /** Erasing one listing erases one copy of its price. */
  lemma {:induction false} PricesRemoveFirst(b: seq<Item>, x: Item)
    requires x in b
    ensures multiset(Prices(b)) == multiset(Prices(RemoveFirst(b, x))) + multiset{x.price}
  {
    assert Prices(b) == [b[0].price] + Prices(b[1..]);
    if b[0] != x {
      var t := RemoveFirst(b[1..], x);
      PricesRemoveFirst(b[1..], x);
      assert Prices(RemoveFirst(b, x)) == [b[0].price] + Prices(t);
    }
  }

  /** The same listings carry the same multiset of prices. */
  lemma {:induction false} PermutationKeepsPrices(a: seq<Item>, b: seq<Item>)
    requires multiset(a) == multiset(b)
    ensures multiset(Prices(a)) == multiset(Prices(b))
    decreases |a|
  {
    if |a| > 0 {
      var x := a[0];
      assert a == [x] + a[1..];
      assert x in multiset(b);
      var b' := RemoveFirst(b, x);
      RemoveFirstMultiset(b, x);
      PermutationKeepsPrices(a[1..], b');
      PricesRemoveFirst(b, x);
      assert Prices(a) == [x.price] + Prices(a[1..]);
    } else {
      assert |b| == |multiset(b)| == 0;
    }
  }

  /** The head of a sorted sequence may precede every one of its elements. */
  lemma SortedHeadIsExtreme(u: seq<real>, y: real, ascending: bool)
    requires SortedReals(u, ascending) && y in multiset(u)
    ensures RealsInOrder(u[0], y, ascending)
  {
    var i :| 0 <= i < |u| && u[i] == y;
  }

  lemma SortedRealsTail(u: seq<real>, ascending: bool)
    requires |u| > 0 && SortedReals(u, ascending)
    ensures SortedReals(u[1..], ascending)
  {
  }

  lemma TailMultiset(u: seq<real>)
    requires |u| > 0
    ensures multiset(u[1..]) == multiset(u) - multiset{u[0]}
  {
    assert u == [u[0]] + u[1..];
  }

  /** Sorted sequences with the same elements start alike, and what follows
      the heads again has the same elements. */
  lemma SortedHeadsAgree(u: seq<real>, v: seq<real>, ascending: bool)
    requires |u| > 0 && |v| > 0 && multiset(u) == multiset(v)
    requires SortedReals(u, ascending) && SortedReals(v, ascending)
    ensures u[0] == v[0]
    ensures multiset(u[1..]) == multiset(v[1..])
  {
    SortedHeadIsExtreme(u, v[0], ascending);
    SortedHeadIsExtreme(v, u[0], ascending);
    TailMultiset(u);
    TailMultiset(v);
  }

  /** Two sorted sequences of reals with the same elements are equal. */
  lemma {:induction false} SortedRealsUnique(u: seq<real>, v: seq<real>, ascending: bool)
    requires multiset(u) == multiset(v)
    requires SortedReals(u, ascending) && SortedReals(v, ascending)
    ensures u == v
    decreases |u|
  {
    assert |u| == |v| by {
      assert |multiset(u)| == |u| && |multiset(v)| == |v|;
    }
    if |u| > 0 {
      SortedHeadsAgree(u, v, ascending);
      SortedRealsTail(u, ascending);
      SortedRealsTail(v, ascending);
      SortedRealsUnique(u[1..], v[1..], ascending);
      assert u == [u[0]] + u[1..];
      assert v == [v[0]] + v[1..];
    }
  }

  /** Any two price-sorted arrangements of the same listings list the same
      prices in the same order: sorting may only reorder listings of equal
      price, so the insertion sort used here and an unstable `std::sort`
      agree up to the order of equally priced listings. */
  lemma SortedPermutationsAgreeOnPrices(a: seq<Item>, b: seq<Item>, ascending: bool)
    requires multiset(a) == multiset(b)
    requires SortedByPrice(a, ascending) && SortedByPrice(b, ascending)
    ensures Prices(a) == Prices(b)
  {
    PermutationKeepsPrices(a, b);
    PricesPointwise(a);
    PricesPointwise(b);
    SortedRealsUnique(Prices(a), Prices(b), ascending);
  }

  /* ------------------------------------------------------------ filtering */

  /** The test `SearchCriteria::apply` puts each listing through. */
  predicate Matches(c: Criteria, it: Item) {
    && IsAvailable(it)
    && !(it.price < c.minPrice || it.price > c.maxPrice)
    && (c.keyword == "" || Contains(it.name, c.keyword) || Contains(it.description, c.keyword))
    && (c.category == "" || it.category == c.category)
  }

  function Qualifies(c: Criteria): Item -> bool {
    it => Matches(c, it)
  }

  /** What a rearrangement of the filtered listings contains. */
  lemma ApplyContents(c: Criteria, items: seq<Item>, r: seq<Item>)
    requires multiset(r) == multiset(Filter(items, Qualifies(c)))
    ensures forall it :: multiset(r)[it] == if Matches(c, it) then multiset(items)[it] else 0
    ensures forall it :: it in r <==> it in items && Matches(c, it)
  {
    FilterMultiplicityAll(items, Qualifies(c));
    forall it
      ensures it in r <==> it in items && Matches(c, it)
    {
      assert it in r <==> it in multiset(r);
      assert it in items <==> it in multiset(items);
    }
  }

  /** The individual guarantees of the test each kept listing passed. */
  lemma MatchesMeans(c: Criteria, r: seq<Item>)
    requires forall it :: it in r ==> Matches(c, it)
    ensures forall it :: it in r ==> IsAvailable(it) && c.minPrice <= it.price <= c.maxPrice
    ensures forall it :: it in r && c.keyword != "" ==>
      HasSubstring(it.name, c.keyword) || HasSubstring(it.description, c.keyword)
    ensures forall it :: it in r && c.category != "" ==> it.category == c.category
  {
    forall it | it in r && c.keyword != ""
      ensures HasSubstring(it.name, c.keyword) || HasSubstring(it.description, c.keyword)
    {
      assert Matches(c, it);
    }
  }

  /** The sorting step of `apply`: by price for "price_asc" and
      "price_desc", none for any other request. */
  function SortAsRequested(kept: seq<Item>, sortBy: string): (r: seq<Item>)
    ensures multiset(r) == multiset(kept)
    ensures sortBy == "price_asc" ==> SortedByPrice(r, true)
    ensures sortBy == "price_desc" ==> SortedByPrice(r, false)
    ensures sortBy != "price_asc" && sortBy != "price_desc" ==> r == kept
  {
    if sortBy == "price_asc" then SortByPrice(kept, true)
    else if sortBy == "price_desc" then SortByPrice(kept, false)
    else kept
  }

  /** `SearchCriteria::apply`. */
  function Apply(c: Criteria, items: seq<Item>): (r: seq<Item>)
    ensures forall it :: it in r ==> IsAvailable(it) && c.minPrice <= it.price <= c.maxPrice
    ensures forall it :: it in r && c.keyword != "" ==>
      HasSubstring(it.name, c.keyword) || HasSubstring(it.description, c.keyword)
    ensures forall it :: it in r && c.category != "" ==> it.category == c.category
    ensures forall it :: it in items && Matches(c, it) ==> it in r
    ensures forall it :: multiset(r)[it] == if Matches(c, it) then multiset(items)[it] else 0
    ensures c.sortBy == "price_asc" ==> SortedByPrice(r, true)
    ensures c.sortBy == "price_desc" ==> SortedByPrice(r, false)
    ensures c.sortBy != "price_asc" && c.sortBy != "price_desc" ==>
      IsOrderedSelection(r, items, Qualifies(c))
  {
    var kept := Filter(items, Qualifies(c));
    FilterIsOrderedSelection(items, Qualifies(c));
    var r := SortAsRequested(kept, c.sortBy);
    ApplyContents(c, items, r);
    MatchesMeans(c, r);
    r
  }

  function TextHit(keyword: string): Item -> bool {
    it => IsAvailable(it) && (Contains(it.name, keyword) || Contains(it.description, keyword))
  }

  /** `SearchEngine::textSearch`: the AVAILABLE listings whose name or
      description contains the keyword, in input order. */
  function TextSearch(items: seq<Item>, keyword: string): (r: seq<Item>)
    ensures IsOrderedSelection(r, items, TextHit(keyword))
    ensures forall it :: it in r <==>
      it in items && IsAvailable(it) && (HasSubstring(it.name, keyword) || HasSubstring(it.description, keyword))
  {
    FilterIsOrderedSelection(items, TextHit(keyword));
    FilterMembershipAll(items, TextHit(keyword));
    Filter(items, TextHit(keyword))
  }

  function CategoryHit(category: string): Item -> bool {
    it => IsAvailable(it) && it.category == category
  }

  /** `SearchEngine::categorySearch`: the AVAILABLE listings of exactly that
      category, in input order. */
  function CategorySearch(items: seq<Item>, category: string): (r: seq<Item>)
    ensures IsOrderedSelection(r, items, CategoryHit(category))
    ensures forall it :: it in r <==> it in items && IsAvailable(it) && it.category == category
  {
    FilterIsOrderedSelection(items, CategoryHit(category));
    FilterMembershipAll(items, CategoryHit(category));
    Filter(items, CategoryHit(category))
  }

  /** With the default criteria, `apply` keeps, in order, exactly the
      AVAILABLE listings priced within [0, 1000000]. */
  lemma DefaultCriteriaKeepAffordable(items: seq<Item>)
    ensures forall it :: it in Apply(DefaultCriteria(), items) <==>
      it in items && IsAvailable(it) && 0.0 <= it.price <= 1000000.0
    ensures IsOrderedSelection(Apply(DefaultCriteria(), items), items, Qualifies(DefaultCriteria()))
  {
    var c := DefaultCriteria();
    forall it
      ensures it in Apply(c, items) <==> it in items && IsAvailable(it) && 0.0 <= it.price <= 1000000.0
    {
      assert it in Apply(c, items) <==> it in multiset(Apply(c, items));
      assert it in items <==> it in multiset(items);
    }
  }
}
