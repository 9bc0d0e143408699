/** The sales figures of backend/src/controllers/salesController.js: the
    summary over completed orders and the top-selling products. Prices,
    totals and revenue are integer cents. */
module Sales {
  import opened Wrappers

  const TopLimit: nat := 5

  datatype OrderItem = OrderItem(productId: nat, quantity: int, price: int)

  datatype Order = Order(id: nat, status: string, createdAt: int, total: int, items: seq<OrderItem>)

  /** An order counts when it is completed and, if both a from and a to
      date are given, was created within them (both ends included). A
      single date alone restricts nothing. */
  predicate Counted(o: Order, fromDate: Option<int>, toDate: Option<int>)
  {
    o.status == "completed"
    && (fromDate.Some? && toDate.Some? ==> fromDate.value <= o.createdAt <= toDate.value)
  }

  function CountedOrders(orders: seq<Order>, fromDate: Option<int>, toDate: Option<int>): (r: seq<Order>)
    ensures forall o :: o in r <==> o in orders && Counted(o, fromDate, toDate)
    ensures |r| <= |orders|
  {
    if |orders| == 0 then []
    else
      var rest := CountedOrders(orders[1..], fromDate, toDate);
      assert orders == [orders[0]] + orders[1..];
      if Counted(orders[0], fromDate, toDate) then [orders[0]] + rest else rest
  }

  /** The items of the given orders, order by order. */
  function ItemsOf(orders: seq<Order>): (r: seq<OrderItem>)
    ensures forall it :: it in r <==> exists o :: o in orders && it in o.items
  {
    if |orders| == 0 then []
    else
      var rest := ItemsOf(orders[1..]);
      assert forall o :: o in orders <==> o == orders[0] || o in orders[1..] by {
        assert orders == [orders[0]] + orders[1..];
      }
      orders[0].items + rest
  }

  /** The order items the top-products query returns. */
  function CountedItems(orders: seq<Order>, fromDate: Option<int>, toDate: Option<int>): seq<OrderItem>
  {
    ItemsOf(CountedOrders(orders, fromDate, toDate))
  }

  /** One product's aggregate: total quantity and revenue. */
  datatype ProductSales = ProductSales(productId: nat, quantity: int, revenue: int)

  function ItemPids(items: seq<OrderItem>): set<nat>
  {
    set it | it in items :: it.productId
  }

  function SalesPids(g: seq<ProductSales>): set<nat>
  {
    set e | e in g :: e.productId
  }

  /** Reference sums over the items of one product, in item order. */
  function SumQty(items: seq<OrderItem>, pid: nat): int
  {
    if |items| == 0 then 0
    else SumQty(items[..|items| - 1], pid)
         + (if items[|items| - 1].productId == pid then items[|items| - 1].quantity else 0)
  }

  function SumRevenue(items: seq<OrderItem>, pid: nat): int
  {
    if |items| == 0 then 0
    else SumRevenue(items[..|items| - 1], pid)
         + (if items[|items| - 1].productId == pid then items[|items| - 1].price * items[|items| - 1].quantity else 0)
  }

  /** The grouping object's key order: integer keys enumerate ascending. */
  ghost predicate PidAscending(g: seq<ProductSales>)
  {
    forall i, j | 0 <= i < j < |g| :: g[i].productId < g[j].productId
  }

  /** The aggregate stored under `pid`, or 0 when there is none. */
  function QtyOf(g: seq<ProductSales>, pid: nat): int
  {
    if |g| == 0 then 0
    else if g[0].productId == pid then g[0].quantity
    else QtyOf(g[1..], pid)
  }

  function RevenueOf(g: seq<ProductSales>, pid: nat): int
  {
    if |g| == 0 then 0
    else if g[0].productId == pid then g[0].revenue
    else RevenueOf(g[1..], pid)
  }

  lemma {:induction false} EntryAggregates(g: seq<ProductSales>, i: nat)
    requires PidAscending(g) && i < |g|
    ensures QtyOf(g, g[i].productId) == g[i].quantity
    ensures RevenueOf(g, g[i].productId) == g[i].revenue
  {
    if i > 0 {
      EntryAggregates(g[1..], i - 1);
    }
  }

  /** A product id below the first entry's has no aggregate. */
  lemma {:induction false} AggregatesBelowFirst(g: seq<ProductSales>, pid: nat)
    requires PidAscending(g) && |g| > 0 && pid < g[0].productId
    ensures QtyOf(g, pid) == 0 && RevenueOf(g, pid) == 0
  {
    if |g| > 1 {
      AggregatesBelowFirst(g[1..], pid);
    }
  }

  lemma SalesPidsCons(e: ProductSales, g: seq<ProductSales>)
    ensures SalesPids([e] + g) == {e.productId} + SalesPids(g)
  {
    assert forall x | x in [e] + g :: x == e || x in g;
  }

  /** One step of the `forEach`: the item's product entry is created if
      absent, then its quantity and revenue grow by the item's. */
  function AddItem(g: seq<ProductSales>, it: OrderItem): (r: seq<ProductSales>)
    requires PidAscending(g)
    ensures PidAscending(r)
    ensures |r| > 0
    ensures r[0].productId == if |g| == 0 || it.productId <= g[0].productId then it.productId else g[0].productId
    ensures SalesPids(r) == SalesPids(g) + {it.productId}
  {
    var created := ProductSales(it.productId, it.quantity, it.price * it.quantity);
    if |g| == 0 then [created]
    else
      assert g == [g[0]] + g[1..];
      SalesPidsCons(g[0], g[1..]);
      TailAscending(g);
      if g[0].productId == it.productId then
        var updated := g[0].(quantity := g[0].quantity + it.quantity, revenue := g[0].revenue + it.price * it.quantity);
        SalesPidsCons(updated, g[1..]);
        ConsAscending(updated, g[1..]);
        [updated] + g[1..]
      else if it.productId < g[0].productId then
        SalesPidsCons(created, g);
        ConsAscending(created, g);
        [created] + g
      else
        var rest := AddItem(g[1..], it);
        SalesPidsCons(g[0], rest);
        ConsAscending(g[0], rest);
        [g[0]] + rest
  }

  lemma TailAscending(g: seq<ProductSales>)
    requires PidAscending(g) && |g| > 0
    ensures PidAscending(g[1..])
    ensures |g| > 1 ==> g[0].productId < g[1].productId
  {
    forall i, j | 0 <= i < j < |g| - 1
      ensures g[1..][i].productId < g[1..][j].productId
    {
      assert g[1..][i] == g[i + 1] && g[1..][j] == g[j + 1];
    }
  }

  /** An entry below the first of an ascending list may go in front. */
  lemma ConsAscending(e: ProductSales, g: seq<ProductSales>)
    requires PidAscending(g)
    requires |g| > 0 ==> e.productId < g[0].productId
    ensures PidAscending([e] + g)
  {
    var r := [e] + g;
    forall i, j | 0 <= i < j < |r|
      ensures r[i].productId < r[j].productId
    {
      assert r[j] == g[j - 1];
      if i > 0 {
        assert r[i] == g[i - 1];
      } else if j > 1 {
        assert g[0].productId < g[j - 1].productId;
      }
    }
  }

  /** The step adds the item's quantity and revenue to its product's
      aggregate and leaves every other product's as it was. */
  lemma {:induction false} AddItemSums(g: seq<ProductSales>, it: OrderItem, pid: nat)
    requires PidAscending(g)
    ensures QtyOf(AddItem(g, it), pid) == QtyOf(g, pid) + (if pid == it.productId then it.quantity else 0)
    ensures RevenueOf(AddItem(g, it), pid) == RevenueOf(g, pid) + (if pid == it.productId then it.price * it.quantity else 0)
  {
    if |g| > 0 {
      if g[0].productId == it.productId {
      } else if it.productId < g[0].productId {
        if pid == it.productId {
          AggregatesBelowFirst(g, pid);
        }
      } else {
        AddItemSums(g[1..], it, pid);
      }
    }
  }

  /** The grouping of the items by product. */
  function Group(items: seq<OrderItem>): (g: seq<ProductSales>)
    ensures PidAscending(g)
    ensures SalesPids(g) == ItemPids(items)
  {
    if |items| == 0 then []
    else
      var init := items[..|items| - 1];
      assert items == init + [items[|items| - 1]];
      assert forall x | x in items :: x in init || x == items[|items| - 1];
      AddItem(Group(init), items[|items| - 1])
  }

  /** Each product's aggregate is the sum over its items. */
  lemma {:induction false} GroupSums(items: seq<OrderItem>, pid: nat)
    ensures QtyOf(Group(items), pid) == SumQty(items, pid)
    ensures RevenueOf(Group(items), pid) == SumRevenue(items, pid)
  {
    if |items| > 0 {
      var init := items[..|items| - 1];
      GroupSums(init, pid);
      AddItemSums(Group(init), items[|items| - 1], pid);
    }
  }

  ghost predicate NonIncreasing(s: seq<ProductSales>)
  {
    forall i, j | 0 <= i < j < |s| :: s[i].quantity >= s[j].quantity
  }

  /** Inserts `x` ahead of every entry whose quantity does not exceed its
      own: `x` comes from earlier in the input than all of `s`, so a tie
      keeps input order, as the stable `Array.prototype.sort` does. */
  function InsertByQty(x: ProductSales, s: seq<ProductSales>): (r: seq<ProductSales>)
    requires NonIncreasing(s)
    ensures NonIncreasing(r)
    ensures multiset(r) == multiset(s) + multiset{x}
    ensures |r| == |s| + 1
  {
    if |s| == 0 then [x]
    else if s[0].quantity <= x.quantity then
      ConsNonIncreasing(x, s);
      [x] + s
    else
      var rest := InsertByQty(x, s[1..]);
      assert s == [s[0]] + s[1..];
      var others := s[1..] + [x];
      assert multiset(rest) == multiset(others);
      forall k | 0 <= k < |others| ensures others[k].quantity <= s[0].quantity {
        if k < |s| - 1 {
          assert others[k] == s[k + 1];
        }
      }
      BoundTransfers(s[0].quantity, rest, others);
      ConsNonIncreasing(s[0], rest);
      [s[0]] + rest
  }

  /** An entry at least as large as every quantity of a non-increasing
      list may go in front. */
  lemma ConsNonIncreasing(a: ProductSales, t: seq<ProductSales>)
    requires NonIncreasing(t)
    requires |t| > 0 ==> t[0].quantity <= a.quantity
    ensures NonIncreasing([a] + t)
  {
    var r := [a] + t;
    forall i, j | 0 <= i < j < |r|
      ensures r[i].quantity >= r[j].quantity
    {
      assert r[j] == t[j - 1];
      if i > 0 {
        assert r[i] == t[i - 1];
      } else if j > 1 {
        assert t[0].quantity >= t[j - 1].quantity;
      }
    }
  }

  /** A bound on every quantity carries over to any permutation. */
  lemma BoundTransfers(q: int, a: seq<ProductSales>, b: seq<ProductSales>)
    requires multiset(a) == multiset(b)
    requires forall k | 0 <= k < |b| :: b[k].quantity <= q
    ensures forall k | 0 <= k < |a| :: a[k].quantity <= q
  {
    forall k | 0 <= k < |a|
      ensures a[k].quantity <= q
    {
      assert a[k] in multiset(b);
      var m :| 0 <= m < |b| && b[m] == a[k];
    }
  }

  /** `sort((a, b) => b.quantity - a.quantity)`. */
  function SortByQuantity(s: seq<ProductSales>): (r: seq<ProductSales>)
    ensures NonIncreasing(r)
    ensures multiset(r) == multiset(s)
    ensures |r| == |s|
  {
    if |s| == 0 then []
    else
      assert s == [s[0]] + s[1..];
      InsertByQty(s[0], SortByQuantity(s[1..]))
  }

  ghost predicate DistinctPids(s: seq<ProductSales>)
  {
    forall i, j | 0 <= i < j < |s| :: s[i].productId != s[j].productId
  }

  /** Larger total first; equal totals by ascending product id. */
  predicate Ahead(a: ProductSales, b: ProductSales)
  {
    a.quantity > b.quantity || (a.quantity == b.quantity && a.productId < b.productId)
  }

  ghost predicate QtyThenPid(s: seq<ProductSales>)
  {
    forall i, j | 0 <= i < j < |s| :: Ahead(s[i], s[j])
  }

  lemma ConsOrdered(a: ProductSales, t: seq<ProductSales>)
    requires QtyThenPid(t) && DistinctPids(t)
    requires forall y | y in t :: Ahead(a, y) && a.productId != y.productId
    ensures QtyThenPid([a] + t) && DistinctPids([a] + t)
  {
    var r := [a] + t;
    forall i, j | 0 <= i < j < |r|
      ensures Ahead(r[i], r[j]) && r[i].productId != r[j].productId
    {
      assert r[j] == t[j - 1];
      if i == 0 {
        assert t[j - 1] in t;
      } else {
        assert r[i] == t[i - 1];
      }
    }
  }

  /** `x` can lead a list whose entries it precedes by quantity. */
  lemma InsertAtFrontOrdered(x: ProductSales, s: seq<ProductSales>)
    requires NonIncreasing(s) && QtyThenPid(s) && DistinctPids(s)
    requires forall y | y in s :: x.productId < y.productId
    requires |s| > 0 && s[0].quantity <= x.quantity
    ensures QtyThenPid([x] + s) && DistinctPids([x] + s)
  {
    forall y | y in s ensures Ahead(x, y) && x.productId != y.productId {
      var j :| 0 <= j < |s| && s[j] == y;
      assert s[0].quantity >= s[j].quantity;
    }
    ConsOrdered(x, s);
  }

  lemma TailOrdered(s: seq<ProductSales>)
    requires |s| > 0 && NonIncreasing(s) && QtyThenPid(s) && DistinctPids(s)
    ensures NonIncreasing(s[1..]) && QtyThenPid(s[1..]) && DistinctPids(s[1..])
  {
    forall i, j | 0 <= i < j < |s[1..]|
      ensures s[1..][i].quantity >= s[1..][j].quantity
      ensures Ahead(s[1..][i], s[1..][j]) && s[1..][i].productId != s[1..][j].productId
    {
      assert s[1..][i] == s[i + 1] && s[1..][j] == s[j + 1];
    }
  }

  lemma {:induction false} InsertByQtyOrdered(x: ProductSales, s: seq<ProductSales>)
    requires NonIncreasing(s) && QtyThenPid(s) && DistinctPids(s)
    requires forall y | y in s :: x.productId < y.productId
    ensures QtyThenPid(InsertByQty(x, s)) && DistinctPids(InsertByQty(x, s))
  {
    if |s| == 0 {
      assert InsertByQty(x, s) == [x];
    } else if s[0].quantity <= x.quantity {
      InsertAtFrontOrdered(x, s);
    } else {
      var tail := s[1..];
      TailOrdered(s);
      assert forall y | y in tail :: y in s;
      InsertByQtyOrdered(x, tail);
      var rest := InsertByQty(x, tail);
      assert InsertByQty(x, s) == [s[0]] + rest;
      forall y | y in rest ensures Ahead(s[0], y) && s[0].productId != y.productId {
        assert y in multiset(rest);
        if y != x {
          assert y in multiset(tail);
          var m :| 0 <= m < |tail| && tail[m] == y;
          assert s[m + 1] == y;
        }
      }
      ConsOrdered(s[0], rest);
    }
  }

  /** Sorting the product-ordered grouping by quantity alone orders it by
      quantity descending and then by product id ascending. */
  lemma {:induction false} SortByQuantityOrdered(s: seq<ProductSales>)
    requires PidAscending(s)
    ensures QtyThenPid(SortByQuantity(s)) && DistinctPids(SortByQuantity(s))
  {
    if |s| > 0 {
      assert s == [s[0]] + s[1..];
      SortByQuantityOrdered(s[1..]);
      var t := SortByQuantity(s[1..]);
      forall y | y in t ensures s[0].productId < y.productId {
        assert y in multiset(s[1..]);
        var m :| 0 <= m < |s[1..]| && s[1..][m] == y;
        assert s[m + 1] == y;
      }
      InsertByQtyOrdered(s[0], t);
    }
  }

  /** `getTopProducts`: group the counted items, sort by quantity, keep 5. */
  function TopProducts(orders: seq<Order>, fromDate: Option<int>, toDate: Option<int>): (r: seq<ProductSales>)
    ensures |r| <= TopLimit
  {
    Take(SortByQuantity(Group(CountedItems(orders, fromDate, toDate))), TopLimit)
  }

  /** Every counted item belongs to a completed order inside the range. */
  lemma CountedItemsAreCompleted(orders: seq<Order>, fromDate: Option<int>, toDate: Option<int>, it: OrderItem)
    ensures it in CountedItems(orders, fromDate, toDate) <==>
              exists o :: o in orders && Counted(o, fromDate, toDate) && it in o.items
  {
  }

  /** At most five entries, one per product, larger totals first and ties
      by ascending product id. */
  lemma TopProductsOrdered(orders: seq<Order>, fromDate: Option<int>, toDate: Option<int>)
    ensures var r := TopProducts(orders, fromDate, toDate);
            |r| <= TopLimit && DistinctPids(r) && QtyThenPid(r)
  {
    var sorted := SortByQuantity(Group(CountedItems(orders, fromDate, toDate)));
    SortByQuantityOrdered(Group(CountedItems(orders, fromDate, toDate)));
    var r := TopProducts(orders, fromDate, toDate);
    assert forall i | 0 <= i < |r| :: r[i] == sorted[i];
  }

  /** Each entry is a product that was sold in the period and carries the
      sum of its items' quantities and revenues. */
  lemma TopProductsSums(orders: seq<Order>, fromDate: Option<int>, toDate: Option<int>)
    ensures var items := CountedItems(orders, fromDate, toDate);
            var r := TopProducts(orders, fromDate, toDate);
            forall i | 0 <= i < |r| ::
              && r[i].productId in ItemPids(items)
              && r[i].quantity == SumQty(items, r[i].productId)
              && r[i].revenue == SumRevenue(items, r[i].productId)
  {
    var items := CountedItems(orders, fromDate, toDate);
    var g := Group(items);
    var sorted := SortByQuantity(g);
    var r := TopProducts(orders, fromDate, toDate);
    forall i | 0 <= i < |r|
      ensures r[i].productId in ItemPids(items)
      ensures r[i].quantity == SumQty(items, r[i].productId)
      ensures r[i].revenue == SumRevenue(items, r[i].productId)
    {
      assert r[i] == sorted[i] && sorted[i] in multiset(g);
      var m :| 0 <= m < |g| && g[m] == r[i];
      assert g[m] in g;
      EntryAggregates(g, m);
      GroupSums(items, r[i].productId);
    }
  }

  /** No product sold in the period is left out while a product with a
      smaller total is listed: one left out means five are listed, each
      with a total at least its own. */
  lemma TopProductsPrefix(orders: seq<Order>, fromDate: Option<int>, toDate: Option<int>, pid: nat)
    requires pid in ItemPids(CountedItems(orders, fromDate, toDate))
    requires forall i | 0 <= i < |TopProducts(orders, fromDate, toDate)| ::
               TopProducts(orders, fromDate, toDate)[i].productId != pid
    ensures |TopProducts(orders, fromDate, toDate)| == TopLimit
    ensures forall i | 0 <= i < |TopProducts(orders, fromDate, toDate)| ::
              TopProducts(orders, fromDate, toDate)[i].quantity >= SumQty(CountedItems(orders, fromDate, toDate), pid)
  {
    var items := CountedItems(orders, fromDate, toDate);
    var g := Group(items);
    var sorted := SortByQuantity(g);
    var r := TopProducts(orders, fromDate, toDate);
    var m := IndexOfPid(g, pid);
    EntryAggregates(g, m);
    GroupSums(items, pid);
    assert g[m] in multiset(g);
    assert g[m] in sorted;
    LeftOutEntryIsBelow(sorted, g[m]);
  }

  lemma IndexOfPid(g: seq<ProductSales>, pid: nat) returns (m: nat)
    requires pid in SalesPids(g)
    ensures m < |g| && g[m].productId == pid
  {
    var e :| e in g && e.productId == pid;
    m :| 0 <= m < |g| && g[m] == e;
  }

  /** An entry of a sorted list missing from its first five sits after
      them: five are listed, each with at least its quantity. */
  lemma LeftOutEntryIsBelow(sorted: seq<ProductSales>, e: ProductSales)
    requires NonIncreasing(sorted) && e in sorted
    requires forall i | 0 <= i < |Take(sorted, TopLimit)| :: Take(sorted, TopLimit)[i].productId != e.productId
    ensures |Take(sorted, TopLimit)| == TopLimit
    ensures forall i | 0 <= i < |Take(sorted, TopLimit)| :: Take(sorted, TopLimit)[i].quantity >= e.quantity
  {
    var r := Take(sorted, TopLimit);
    var k :| 0 <= k < |sorted| && sorted[k] == e;
    assert |r| <= k;
    forall i | 0 <= i < |r|
      ensures r[i].quantity >= e.quantity
    {
      assert r[i] == sorted[i];
    }
  }

  /** The summary figures; revenue in cents, the average exact. */
  datatype Summary = Summary(totalOrders: nat, totalRevenue: int, averageOrderValue: real)

  /** With at least one order, the average times the order count is the
      revenue. */
  predicate AverageIsExact(s: Summary)
  {
    s.totalOrders > 0 ==> s.averageOrderValue * (s.totalOrders as real) == s.totalRevenue as real
  }

  function SumTotals(orders: seq<Order>): int
  {
    if |orders| == 0 then 0 else orders[0].total + SumTotals(orders[1..])
  }

  /** `getSalesSummary`: with no counted order the average is 0 rather
      than a division by zero; otherwise it is revenue over order count. */
  function SalesSummary(orders: seq<Order>, fromDate: Option<int>, toDate: Option<int>): (s: Summary)
    ensures s.totalOrders == |CountedOrders(orders, fromDate, toDate)| <= |orders|
    ensures s.totalOrders == 0 ==> s.averageOrderValue == 0.0 && s.totalRevenue == 0
    ensures AverageIsExact(s)
  {
    var counted := CountedOrders(orders, fromDate, toDate);
    var s := SummaryOf(counted);
    assert s.totalOrders == |counted|;
    s
  }

  function SummaryOf(counted: seq<Order>): (s: Summary)
    ensures s.totalOrders == |counted| && s.totalRevenue == SumTotals(counted)
    ensures s.totalOrders == 0 ==> s.averageOrderValue == 0.0 && s.totalRevenue == 0
    ensures AverageIsExact(s)
  {
    var revenue := SumTotals(counted);
    Summary(|counted|, revenue,
            if |counted| > 0 then (revenue as real) / (|counted| as real) else 0.0)
  }

  lemma {:induction false} SumTotalsAppend(a: seq<Order>, b: seq<Order>)
    ensures SumTotals(a + b) == SumTotals(a) + SumTotals(b)
  {
    if |a| == 0 {
      assert a + b == b;
    } else {
      assert (a + b)[0] == a[0];
      assert (a + b)[1..] == a[1..] + b;
      SumTotalsAppend(a[1..], b);
    }
  }

  /** Orders that are not counted add nothing: appending one leaves the
      summary as it was, and appending a counted order adds one order and
      its total. */
  lemma {:induction false} SummaryAppend(orders: seq<Order>, o: Order, fromDate: Option<int>, toDate: Option<int>)
    ensures var before := SalesSummary(orders, fromDate, toDate);
            var after := SalesSummary(orders + [o], fromDate, toDate);
            if Counted(o, fromDate, toDate)
            then after.totalOrders == before.totalOrders + 1 && after.totalRevenue == before.totalRevenue + o.total
            else after == before
  {
    var before := CountedOrders(orders, fromDate, toDate);
    CountedOrdersAppend(orders, o, fromDate, toDate);
    if Counted(o, fromDate, toDate) {
      assert CountedOrders(orders + [o], fromDate, toDate) == before + [o];
      SumTotalsAppend(before, [o]);
      assert SumTotals([o]) == o.total;
    } else {
      assert CountedOrders(orders + [o], fromDate, toDate) == before;
    }
  }

  lemma {:induction false} CountedOrdersAppend(orders: seq<Order>, o: Order, fromDate: Option<int>, toDate: Option<int>)
    ensures CountedOrders(orders + [o], fromDate, toDate)
            == CountedOrders(orders, fromDate, toDate) + (if Counted(o, fromDate, toDate) then [o] else [])
  {
    if |orders| > 0 {
      assert (orders + [o])[1..] == orders[1..] + [o];
      CountedOrdersAppend(orders[1..], o, fromDate, toDate);
    } else {
      assert orders + [o] == [o];
    }
  }
}
