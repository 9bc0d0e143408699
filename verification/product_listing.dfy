/** `getAllProducts` (backend/src/controllers/productController.js): the
    search filter, the choice of ordering, and the preference-biased sort. */
module ProductListing {
  import opened Wrappers
  import Strings
  import Catalog
  import Preferences

  /** The query string of `GET /products`. Absent text parameters are "";
      `userId` is None when absent. */
  datatype ProductQuery = ProductQuery(
    search: string,
    sortBy: string,
    sortOrder: string,
    userId: Option<nat>,
    sessionId: string)

  /** The search's `OR` of three `contains` conditions; a null description
      or category matches nothing. */
  predicate Matches(p: Catalog.Product, term: string)
  {
    Strings.Contains(p.name, term)
    || (p.description.Some? && Strings.Contains(p.description.value, term))
    || (p.category.Some? && Strings.Contains(p.category.value, term))
  }

  function FilterMatching(ps: seq<Catalog.Product>, term: string): (r: seq<Catalog.Product>)
    ensures forall x :: x in r <==> x in ps && Matches(x, term)
    ensures multiset(r) <= multiset(ps)
  {
    if |ps| == 0 then []
    else
      assert ps == [ps[0]] + ps[1..];
      if Matches(ps[0], term) then [ps[0]] + FilterMatching(ps[1..], term)
      else FilterMatching(ps[1..], term)
  }

  /** The `where` clause: with a non-blank search term, the products whose
      name, description or category contains the trimmed term; otherwise all. */
  function SearchFilter(ps: seq<Catalog.Product>, search: string): (r: seq<Catalog.Product>)
    ensures Strings.Trim(search) == "" ==> r == ps
    ensures Strings.Trim(search) != "" ==>
              forall x :: x in r <==> x in ps && Matches(x, Strings.Trim(search))
    ensures multiset(r) <= multiset(ps)
  {
    var t := Strings.Trim(search);
    if t == "" then ps else FilterMatching(ps, t)
  }

  /** A search term made only of whitespace filters nothing out. */
  lemma BlankSearchKeepsAll(ps: seq<Catalog.Product>, search: string)
    requires forall i | 0 <= i < |search| :: Strings.IsJsWhitespace(search[i])
    ensures SearchFilter(ps, search) == ps
  {
    Strings.TrimProperties(search);
  }

  /** The `orderBy` chosen when the preference path does not apply. */
  function SelectOrder(sortBy: string, sortOrder: string): (o: Catalog.OrderBy)
    ensures sortBy == "name" || sortBy == "price" ==>
              o.dir == (if sortOrder == "desc" then Catalog.Desc else Catalog.Asc)
    ensures sortBy == "name" <==> o.field == Catalog.Name
    ensures sortBy == "price" <==> o.field == Catalog.Price
    ensures sortBy != "name" && sortBy != "price" ==> o == Catalog.OrderBy(Catalog.CreatedAt, Catalog.Desc)
  {
    var dir := if sortOrder == "desc" then Catalog.Desc else Catalog.Asc;
    if sortBy == "name" then Catalog.OrderBy(Catalog.Name, dir)
    else if sortBy == "price" then Catalog.OrderBy(Catalog.Price, dir)
    else Catalog.OrderBy(Catalog.CreatedAt, Catalog.Desc)
  }

  /** `preferredCategories.includes(p.category)`. */
  predicate InCategory(p: Catalog.Product, cats: set<string>)
  {
    p.category.Some? && p.category.value in cats
  }

  /** The comparator passed to `products.sort`, as written. */
  function Compare(a: Catalog.Product, b: Catalog.Product, viewed: set<nat>, cats: set<string>): (c: int)
    ensures c == -1 || c == 0 || c == 1
    ensures c == -1 <==> (a.id in viewed && b.id !in viewed)
                         || ((a.id in viewed) == (b.id in viewed) && InCategory(a, cats) && !InCategory(b, cats))
  {
    var aViewed := a.id in viewed;
    var bViewed := b.id in viewed;
    var aIn := InCategory(a, cats);
    var bIn := InCategory(b, cats);
    if aViewed && !bViewed then -1
    else if !aViewed && bViewed then 1
    else if aIn && !bIn then -1
    else if !aIn && bIn then 1
    else 0
  }

  /** A product's place in the preference order: viewed products first,
      then products of a preferred category. */
  function Rank(p: Catalog.Product, viewed: set<nat>, cats: set<string>): (k: nat)
    ensures k < 4
  {
    (if p.id in viewed then 0 else 2) + (if InCategory(p, cats) then 0 else 1)
  }

  /** The comparator is exactly the comparison of ranks, so it is a
      consistent total preorder and equal-rank products compare equal. */
  lemma CompareIsRankOrder(a: Catalog.Product, b: Catalog.Product, viewed: set<nat>, cats: set<string>)
    ensures Compare(a, b, viewed, cats) < 0 <==> Rank(a, viewed, cats) < Rank(b, viewed, cats)
    ensures Compare(a, b, viewed, cats) == 0 <==> Rank(a, viewed, cats) == Rank(b, viewed, cats)
    ensures Compare(a, b, viewed, cats) > 0 <==> Rank(a, viewed, cats) > Rank(b, viewed, cats)
    ensures Compare(a, b, viewed, cats) == -Compare(b, a, viewed, cats)
  {
  }

  /** The products of rank `k`, in input order. */
  function Bucket(ps: seq<Catalog.Product>, k: nat, viewed: set<nat>, cats: set<string>): (r: seq<Catalog.Product>)
    ensures forall x | x in r :: x in ps && Rank(x, viewed, cats) == k
  {
    if |ps| == 0 then []
    else if Rank(ps[0], viewed, cats) == k then [ps[0]] + Bucket(ps[1..], k, viewed, cats)
    else Bucket(ps[1..], k, viewed, cats)
  }

  /** The stable sort of `ps` under `Compare` (the engine's `Array.prototype.sort`
      is stable): the rank classes concatenated in rank order. */
  function PreferenceSort(ps: seq<Catalog.Product>, viewed: set<nat>, cats: set<string>): (r: seq<Catalog.Product>)
    ensures forall x | x in r :: x in ps
  {
    Bucket(ps, 0, viewed, cats) + Bucket(ps, 1, viewed, cats)
    + Bucket(ps, 2, viewed, cats) + Bucket(ps, 3, viewed, cats)
  }

  ghost predicate RankSorted(r: seq<Catalog.Product>, viewed: set<nat>, cats: set<string>)
  {
    forall i, j | 0 <= i < j < |r| :: Rank(r[i], viewed, cats) <= Rank(r[j], viewed, cats)
  }

  lemma {:induction false} BucketsPermute(ps: seq<Catalog.Product>, viewed: set<nat>, cats: set<string>)
    ensures multiset(PreferenceSort(ps, viewed, cats)) == multiset(ps)
  {
    if |ps| > 0 {
      var x := ps[0];
      var rest := ps[1..];
      BucketsPermute(rest, viewed, cats);
      assert ps == [x] + rest;
      BucketStep(ps, 0, viewed, cats);
      BucketStep(ps, 1, viewed, cats);
      BucketStep(ps, 2, viewed, cats);
      BucketStep(ps, 3, viewed, cats);
      SortBuckets(ps, viewed, cats);
      SortBuckets(rest, viewed, cats);
    }
  }

  lemma SortBuckets(ps: seq<Catalog.Product>, viewed: set<nat>, cats: set<string>)
    ensures multiset(PreferenceSort(ps, viewed, cats))
            == multiset(Bucket(ps, 0, viewed, cats)) + multiset(Bucket(ps, 1, viewed, cats))
               + multiset(Bucket(ps, 2, viewed, cats)) + multiset(Bucket(ps, 3, viewed, cats))
  {
  }

  lemma BucketStep(ps: seq<Catalog.Product>, k: nat, viewed: set<nat>, cats: set<string>)
    requires |ps| > 0
    ensures multiset(Bucket(ps, k, viewed, cats))
            == multiset(Bucket(ps[1..], k, viewed, cats))
               + (if Rank(ps[0], viewed, cats) == k then multiset{ps[0]} else multiset{})
  {
  }

  lemma RankSortedConcat(a: seq<Catalog.Product>, b: seq<Catalog.Product>, viewed: set<nat>, cats: set<string>)
    requires RankSorted(a, viewed, cats) && RankSorted(b, viewed, cats)
    requires forall x, y | x in a && y in b :: Rank(x, viewed, cats) <= Rank(y, viewed, cats)
    ensures RankSorted(a + b, viewed, cats)
  {
    var r := a + b;
    forall i, j | 0 <= i < j < |r|
      ensures Rank(r[i], viewed, cats) <= Rank(r[j], viewed, cats)
    {
      if i < |a| && j >= |a| {
        assert r[i] in a && r[j] == b[j - |a|];
      } else if i >= |a| {
        assert r[i] == b[i - |a|] && r[j] == b[j - |a|];
      }
    }
  }

  lemma {:induction false} BucketAppend(a: seq<Catalog.Product>, b: seq<Catalog.Product>, k: nat, viewed: set<nat>, cats: set<string>)
    ensures Bucket(a + b, k, viewed, cats) == Bucket(a, k, viewed, cats) + Bucket(b, k, viewed, cats)
  {
    if |a| > 0 {
      assert (a + b)[1..] == a[1..] + b;
      BucketAppend(a[1..], b, k, viewed, cats);
    } else {
      assert a + b == b;
    }
  }

  lemma {:induction false} BucketOfBucket(ps: seq<Catalog.Product>, j: nat, k: nat, viewed: set<nat>, cats: set<string>)
    ensures Bucket(Bucket(ps, j, viewed, cats), k, viewed, cats) == (if j == k then Bucket(ps, k, viewed, cats) else [])
  {
    if |ps| > 0 {
      BucketOfBucket(ps[1..], j, k, viewed, cats);
      if Rank(ps[0], viewed, cats) == j {
        assert ([ps[0]] + Bucket(ps[1..], j, viewed, cats))[1..] == Bucket(ps[1..], j, viewed, cats);
      }
    }
  }

  /** The preference sort is a permutation of its input, ordered by rank. */
  lemma PreferenceSortSorted(ps: seq<Catalog.Product>, viewed: set<nat>, cats: set<string>)
    ensures multiset(PreferenceSort(ps, viewed, cats)) == multiset(ps)
    ensures RankSorted(PreferenceSort(ps, viewed, cats), viewed, cats)
  {
    var b0 := Bucket(ps, 0, viewed, cats);
    var b1 := Bucket(ps, 1, viewed, cats);
    var b2 := Bucket(ps, 2, viewed, cats);
    var b3 := Bucket(ps, 3, viewed, cats);
    BucketsPermute(ps, viewed, cats);
    RankSortedConcat(b0, b1, viewed, cats);
    RankSortedConcat(b0 + b1, b2, viewed, cats);
    RankSortedConcat(b0 + b1 + b2, b3, viewed, cats);
  }

  /** Only products of rank below 4 exist, so higher buckets are empty. */
  lemma BucketBeyondRanks(ps: seq<Catalog.Product>, k: nat, viewed: set<nat>, cats: set<string>)
    requires k >= 4
    ensures Bucket(ps, k, viewed, cats) == []
  {
    if Bucket(ps, k, viewed, cats) != [] {
      assert Bucket(ps, k, viewed, cats)[0] in Bucket(ps, k, viewed, cats);
    }
  }

  /** The preference sort is stable: the products of each rank appear in
      the output in the order they had in the input. */
  lemma PreferenceSortStable(ps: seq<Catalog.Product>, k: nat, viewed: set<nat>, cats: set<string>)
    ensures Bucket(PreferenceSort(ps, viewed, cats), k, viewed, cats) == Bucket(ps, k, viewed, cats)
  {
    var b0 := Bucket(ps, 0, viewed, cats);
    var b1 := Bucket(ps, 1, viewed, cats);
    var b2 := Bucket(ps, 2, viewed, cats);
    var b3 := Bucket(ps, 3, viewed, cats);
    BucketAppend(b0 + b1 + b2, b3, k, viewed, cats);
    BucketAppend(b0 + b1, b2, k, viewed, cats);
    BucketAppend(b0, b1, k, viewed, cats);
    BucketOfBucket(ps, 0, k, viewed, cats);
    BucketOfBucket(ps, 1, k, viewed, cats);
    BucketOfBucket(ps, 2, k, viewed, cats);
    BucketOfBucket(ps, 3, k, viewed, cats);
    if k >= 4 {
      BucketBeyondRanks(ps, k, viewed, cats);
    }
  }

  /** In a rank-sorted list the comparator never puts a later product first:
      every viewed product precedes every unviewed one, and among products of
      equal viewed-status preferred-category products come first. */
  lemma RankSortedMeansPreferenceOrder(r: seq<Catalog.Product>, viewed: set<nat>, cats: set<string>)
    requires RankSorted(r, viewed, cats)
    ensures forall i, j | 0 <= i < j < |r| :: Compare(r[i], r[j], viewed, cats) <= 0
    ensures forall i, j | 0 <= i < j < |r| && r[j].id in viewed :: r[i].id in viewed
    ensures forall i, j | 0 <= i < j < |r| && (r[i].id in viewed <==> r[j].id in viewed) && InCategory(r[j], cats)
              :: InCategory(r[i], cats)
  {
    forall i, j | 0 <= i < j < |r|
      ensures Compare(r[i], r[j], viewed, cats) <= 0
    {
      CompareIsRankOrder(r[i], r[j], viewed, cats);
    }
  }

  /** The worked example: A (category X, viewed), B (category Y), C (category X)
      are listed A, C, B. */
  lemma PreferenceSortExample(a: Catalog.Product, b: Catalog.Product, c: Catalog.Product)
    requires a.id == 1 && b.id == 2 && c.id == 3
    requires a.category == Some("X") && b.category == Some("Y") && c.category == Some("X")
    ensures PreferenceSort([a, b, c], {1}, {"X"}) == [a, c, b]
  {
    var v: set<nat> := {1};
    var cs := {"X"};
    assert Rank(a, v, cs) == 0 && Rank(b, v, cs) == 3 && Rank(c, v, cs) == 2;
    assert [a, b, c][1..] == [b, c] && [b, c][1..] == [c] && [c][1..] == [];
    var e: seq<Catalog.Product> := [];
    assert [c][1..] == e;
    forall k: nat | k < 4
      ensures Bucket([c], k, v, cs) == (if k == 2 then [c] else [])
      ensures Bucket([b, c], k, v, cs) == (if k == 3 then [b] else []) + Bucket([c], k, v, cs)
      ensures Bucket([a, b, c], k, v, cs) == (if k == 0 then [a] else []) + Bucket([b, c], k, v, cs)
    {
      assert Bucket(e, k, v, cs) == [];
    }
  }

  /** The preference path applies: sort requested, an identity given, and
      that identity has recent rows. */
  predicate PreferencePath(log: Preferences.Log, q: ProductQuery)
  {
    q.sortBy == "preferences"
    && Preferences.ResolveIdentity(q.userId, q.sessionId).Some?
    && |Preferences.RecentRows(log.rows, Preferences.ResolveIdentity(q.userId, q.sessionId).value)| > 0
  }

  /** `getAllProducts`. No status filter is applied on either path. */
  function GetAllProducts(catalog: seq<Catalog.Product>, log: Preferences.Log, q: ProductQuery): (r: seq<Catalog.Product>)
    ensures multiset(r) == multiset(SearchFilter(catalog, q.search))
  {
    var found := SearchFilter(catalog, q.search);
    if PreferencePath(log, q) then
      var rows := Preferences.RecentRows(log.rows, Preferences.ResolveIdentity(q.userId, q.sessionId).value);
      BucketsPermute(found, Preferences.ViewedIds(rows), Preferences.Categories(rows));
      PreferenceSort(found, Preferences.ViewedIds(rows), Preferences.Categories(rows))
    else
      Catalog.Sort(SelectOrder(q.sortBy, q.sortOrder), found)
  }

  /** On the preference path the listing is ordered by preference rank with
      respect to the identity's recent rows; otherwise it is ordered by the
      selected field and direction (newest first by default). */
  lemma GetAllProductsOrder(catalog: seq<Catalog.Product>, log: Preferences.Log, q: ProductQuery)
    ensures PreferencePath(log, q) ==>
              var rows := Preferences.RecentRows(log.rows, Preferences.ResolveIdentity(q.userId, q.sessionId).value);
              RankSorted(GetAllProducts(catalog, log, q), Preferences.ViewedIds(rows), Preferences.Categories(rows))
    ensures !PreferencePath(log, q) ==>
              Catalog.SortedBy(SelectOrder(q.sortBy, q.sortOrder), GetAllProducts(catalog, log, q))
    ensures q.sortBy == "preferences" && Preferences.ResolveIdentity(q.userId, q.sessionId).None? ==>
              Catalog.SortedBy(Catalog.OrderBy(Catalog.CreatedAt, Catalog.Desc), GetAllProducts(catalog, log, q))
  {
    if PreferencePath(log, q) {
      var rows := Preferences.RecentRows(log.rows, Preferences.ResolveIdentity(q.userId, q.sessionId).value);
      PreferenceSortSorted(SearchFilter(catalog, q.search), Preferences.ViewedIds(rows), Preferences.Categories(rows));
    }
  }
}
