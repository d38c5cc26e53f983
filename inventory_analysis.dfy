/**
 * The inventory analysis panel: the items ranked by stock value and the
 * items whose stock is low.
 */
module InventoryAnalysis {
  import opened Tables
  import opened Schema

  /** An item with the value of its stock at sale price. */
  datatype Metric = Metric(item: InventoryItem, totalValue: real)

  function StockValue(item: InventoryItem): real {
    item.data.quantity as real * item.data.salePrice
  }

  function MetricOf(item: InventoryItem): (m: Metric)
    ensures m.item == item && m.totalValue == StockValue(item)
  {
    Metric(item, StockValue(item))
  }

  /** Ordered from the highest stock value down. */
  predicate ByValueDescending(ms: seq<Metric>) {
    forall i, j :: 0 <= i < j < |ms| ==> ms[i].totalValue >= ms[j].totalValue
  }

  /** Each entry carries the stock value of its own item. */
  predicate ValuesAgree(ms: seq<Metric>) {
    forall i :: 0 <= i < |ms| ==> ms[i].totalValue == StockValue(ms[i].item)
  }

  /** Puts `m` before the first entry whose value does not exceed it. */
  function Insert(m: Metric, sorted: seq<Metric>): (r: seq<Metric>)
    requires ByValueDescending(sorted)
    ensures ByValueDescending(r)
    ensures multiset(r) == multiset(sorted) + multiset{m}
  {
    if |sorted| == 0 || m.totalValue >= sorted[0].totalValue then [m] + sorted
    else
      var rest := Insert(m, sorted[1..]);
      InsertBelowHead(m, sorted, rest);
      assert sorted == [sorted[0]] + sorted[1..];
      [sorted[0]] + rest
  }

  /** The head of a ranking that outranks `m` stays in front of the rest with `m` inserted. */
  lemma InsertBelowHead(m: Metric, sorted: seq<Metric>, rest: seq<Metric>)
    requires ByValueDescending(sorted) && |sorted| > 0 && m.totalValue < sorted[0].totalValue
    requires ByValueDescending(rest) && multiset(rest) == multiset(sorted[1..]) + multiset{m}
    ensures ByValueDescending([sorted[0]] + rest)
  {
    var r := [sorted[0]] + rest;
    forall i, j | 0 <= i < j < |r| ensures r[i].totalValue >= r[j].totalValue {
      if i == 0 {
        assert r[j] == rest[j - 1];
        assert rest[j - 1] in multiset(rest);
        if rest[j - 1] != m {
          assert rest[j - 1] in sorted[1..];
          var k :| 0 <= k < |sorted[1..]| && sorted[1..][k] == rest[j - 1];
          assert sorted[k + 1] == rest[j - 1];
        }
      }
    }
  }

  /** A stable sort by non-increasing value, as the array sort with the comparator `b - a` orders it. */
  function SortByValue(ms: seq<Metric>): (r: seq<Metric>)
    ensures ByValueDescending(r)
    ensures multiset(r) == multiset(ms)
  {
    if |ms| == 0 then []
    else
      assert ms == [ms[0]] + ms[1..];
      Insert(ms[0], SortByValue(ms[1..]))
  }

  /** Every item with its stock value, highest value first. */
  function InventoryMetrics(inventory: seq<InventoryItem>): seq<Metric> {
    SortByValue(seq(|inventory|, i requires 0 <= i < |inventory| => MetricOf(inventory[i])))
  }

  /** The ranking lists every item exactly as often as the inventory does, each with its own stock value, highest first. */
  lemma {:induction false} MetricsRankEveryItem(inventory: seq<InventoryItem>)
    ensures var ms := InventoryMetrics(inventory);
      && |ms| == |inventory|
      && ByValueDescending(ms)
      && ValuesAgree(ms)
      && multiset(Items(ms)) == multiset(inventory)
  {
    var mapped := seq(|inventory|, i requires 0 <= i < |inventory| => MetricOf(inventory[i]));
    var ms := InventoryMetrics(inventory);
    assert multiset(ms) == multiset(mapped);
    assert |ms| == |mapped| by { assert |ms| == |multiset(ms)|; }
    forall i | 0 <= i < |ms| ensures ms[i].totalValue == StockValue(ms[i].item) {
      assert ms[i] in multiset(mapped);
    }
    ItemsOfMetrics(inventory);
    ItemsMultiset(ms, mapped);
  }

  /** The items of a ranking, in its order. */
  function Items(ms: seq<Metric>): (r: seq<InventoryItem>)
    ensures |r| == |ms|
  {
    if |ms| == 0 then [] else [ms[0].item] + Items(ms[1..])
  }

  lemma {:induction false} ItemsAppend(a: seq<Metric>, b: seq<Metric>)
    ensures Items(a + b) == Items(a) + Items(b)
  {
    if |a| > 0 {
      ItemsAppend(a[1..], b);
      assert (a + b)[1..] == a[1..] + b;
    } else {
      assert a + b == b;
    }
  }

  /** Where the first entry of `xs` sits in a rearrangement `ys`, and what is left on both sides without it. */
  lemma MatchFirst(xs: seq<Metric>, ys: seq<Metric>) returns (k: nat)
    requires |xs| > 0 && multiset(xs) == multiset(ys)
    ensures k < |ys| && ys[k] == xs[0]
    ensures ys == ys[..k] + [ys[k]] + ys[k + 1..]
    ensures multiset(xs[1..]) == multiset(ys[..k] + ys[k + 1..])
  {
    assert xs[0] in multiset(ys);
    k :| 0 <= k < |ys| && ys[k] == xs[0];
    assert ys == ys[..k] + [ys[k]] + ys[k + 1..];
    assert xs == [xs[0]] + xs[1..];
    assert multiset(xs[1..]) == multiset(xs) - multiset{xs[0]};
  }

  /** Attaching the stock values and dropping them again gives the inventory back. */
  lemma {:induction false} ItemsOfMetrics(inventory: seq<InventoryItem>)
    ensures Items(seq(|inventory|, i requires 0 <= i < |inventory| => MetricOf(inventory[i]))) == inventory
  {
    var mapped := seq(|inventory|, i requires 0 <= i < |inventory| => MetricOf(inventory[i]));
    if |inventory| > 0 {
      ItemsOfMetrics(inventory[1..]);
      assert mapped[1..] == seq(|inventory[1..]|, i requires 0 <= i < |inventory[1..]| => MetricOf(inventory[1..][i]));
      assert inventory == [inventory[0]] + inventory[1..];
    }
  }

  /** Rearranging entries rearranges their items. */
  lemma {:induction false} ItemsMultiset(xs: seq<Metric>, ys: seq<Metric>)
    requires multiset(xs) == multiset(ys)
    ensures multiset(Items(xs)) == multiset(Items(ys))
    decreases |xs|
  {
    if |xs| > 0 {
      var k := MatchFirst(xs, ys);
      ItemsMultiset(xs[1..], ys[..k] + ys[k + 1..]);
      ItemsWithOneMore(ys[..k], xs[0], ys[k + 1..]);
    }
  }

  /** Inserting an entry adds its item once. */
  lemma ItemsWithOneMore(a: seq<Metric>, x: Metric, b: seq<Metric>)
    ensures multiset(Items(a + [x] + b)) == multiset(Items(a + b)) + multiset{x.item}
  {
    ItemsAppend(a + [x], b);
    ItemsAppend(a, [x]);
    ItemsAppend(a, b);
    assert Items([x]) == [x.item];
  }

  const LowStockThreshold := 10

  predicate IsLowStock(item: InventoryItem) {
    item.data.quantity <= LowStockThreshold
  }

  /** The items whose quantity is at most the threshold, in inventory order. */
  function LowStockItems(inventory: seq<InventoryItem>): (r: seq<InventoryItem>)
    ensures forall item :: item in r <==> item in inventory && item.data.quantity <= LowStockThreshold
  {
    Where(inventory, IsLowStock)
  }

  /** Low-stock items keep their multiplicity, and the others are dropped. */
  lemma LowStockCounts(inventory: seq<InventoryItem>, item: InventoryItem)
    ensures multiset(LowStockItems(inventory))[item] ==
      if item.data.quantity <= LowStockThreshold then multiset(inventory)[item] else 0
  {
    WhereMultiset(inventory, IsLowStock, item);
  }

  /** Filtering the inventory piece by piece gives the pieces' low-stock items in the same order. */
  lemma LowStockKeepsOrder(a: seq<InventoryItem>, b: seq<InventoryItem>)
    ensures LowStockItems(a + b) == LowStockItems(a) + LowStockItems(b)
  {
    WhereAppend(a, b, IsLowStock);
  }

  /** The threshold is inclusive: ten left is low stock, eleven is not. */
  lemma ThresholdInclusive(item: InventoryItem)
    ensures item.data.quantity == 10 ==> LowStockItems([item]) == [item]
    ensures item.data.quantity == 11 ==> LowStockItems([item]) == []
  {
  }
}
