/**
 * What the report endpoint assembles: the sales of every subsidiary in
 * subsidiary order, the inventory of every subsidiary, and the activity logs;
 * sales and logs are kept when their timestamp lies in the requested window,
 * both ends included, and names are joined in with fallback labels.
 * Dates and amounts are formatted by functions the caller supplies.
 */
module Reports {
  import opened Wrappers
  import opened Tables
  import opened Schema
  import opened Storage
  import opened Csv

  datatype ReportType = SalesReport | InventoryReport | ActivityReport

  /** The `:type` segment of the path; anything else is an invalid report type. */
  function ParseReportType(s: string): (r: Option<ReportType>)
    ensures r == Some(SalesReport) <==> s == "sales"
    ensures r == Some(InventoryReport) <==> s == "inventory"
    ensures r == Some(ActivityReport) <==> s == "activity"
  {
    if s == "sales" then Some(SalesReport)
    else if s == "inventory" then Some(InventoryReport)
    else if s == "activity" then Some(ActivityReport)
    else None
  }

  /** A time window, as millisecond timestamps. */
  datatype Window = Window(start: int, end: int)

  predicate InWindow(w: Window, t: int) {
    w.start <= t <= w.end
  }

  /** `name || fallback`: a missing or empty name shows the fallback. */
  function NameOr(name: Option<string>, fallback: string): (r: string)
    ensures name.None? || name.value == "" ==> r == fallback
    ensures name.Some? && name.value != "" ==> r == name.value
  {
    if name.Some? && name.value != "" then name.value else fallback
  }

  /** `subsidiaries.find(s => s.id === id)?.name`. */
  function SubsidiaryName(subs: seq<Subsidiary>, id: int): (r: Option<string>)
    ensures r.Some? <==> id in Ids(subs)
    ensures r.Some? ==> exists s :: s in subs && s.id == id && s.data.name == r.value
  {
    match Find(subs, id)
    case None => None
    case Some(s) => Some(s.data.name)
  }

  /** `users.find(u => u.id === id)?.username`. */
  function Username(users: seq<User>, id: int): (r: Option<string>)
    ensures r.Some? <==> id in Ids(users)
    ensures r.Some? ==> exists u :: u in users && u.id == id && u.data.username == r.value
  {
    match Find(users, id)
    case None => None
    case Some(u) => Some(u.data.username)
  }

  // ---------------------------------------------------------------------------
  // Every sale, gathered subsidiary by subsidiary

  /** Each subsidiary's sales in turn, in the order of the subsidiaries. */
  function AllSales(sales: seq<Sale>, subs: seq<Subsidiary>): seq<Sale>
    decreases |subs|
  {
    if |subs| == 0 then []
    else AllSales(sales, subs[..|subs| - 1]) + SalesOf(sales, subs[|subs| - 1].id)
  }

  /** Each subsidiary's number of inventory items, added up. */
  function TotalItems(items: seq<InventoryItem>, subs: seq<Subsidiary>): nat
    decreases |subs|
  {
    if |subs| == 0 then 0
    else TotalItems(items, subs[..|subs| - 1]) + |ItemsOf(items, subs[|subs| - 1].id)|
  }

  /** Each subsidiary's inventory items in turn, in the order of the subsidiaries. */
  function AllItems(items: seq<InventoryItem>, subs: seq<Subsidiary>): seq<InventoryItem>
    decreases |subs|
  {
    if |subs| == 0 then []
    else AllItems(items, subs[..|subs| - 1]) + ItemsOf(items, subs[|subs| - 1].id)
  }

  lemma SubsPrefix(subs: seq<Subsidiary>)
    requires |subs| > 0 && UniqueIds(subs)
    ensures var init := subs[..|subs| - 1];
      UniqueIds(init) && subs[|subs| - 1].id !in Ids(init) && Ids(subs) == Ids(init) + {subs[|subs| - 1].id}
  {
    var init := subs[..|subs| - 1];
    var x := subs[|subs| - 1];
    assert subs == init + [x];
    IdsAppend(init, x);
  }

  /** The gathered sales are exactly the sales of the listed subsidiaries, each once. */
  lemma {:induction false} AllSalesContents(sales: seq<Sale>, subs: seq<Subsidiary>)
    requires UniqueIds(subs)
    ensures multiset(AllSales(sales, subs)) == multiset(Where(sales, (s: Sale) => s.data.subsidiaryId in Ids(subs)))
  {
    var pq := (s: Sale) => s.data.subsidiaryId in Ids(subs);
    if |subs| == 0 {
      WhereNone(sales, pq);
    } else {
      var init := subs[..|subs| - 1];
      var x := subs[|subs| - 1];
      SubsPrefix(subs);
      AllSalesContents(sales, init);
      var p := (s: Sale) => s.data.subsidiaryId in Ids(init);
      var q := (s: Sale) => s.data.subsidiaryId == x.id;
      WhereMultisetSplit(sales, p, q, pq);
      WhereExt(sales, q, (s: Sale) => s.data.subsidiaryId == x.id);
    }
  }

  /** Over a consistent database, `/api/sales` returns every sale exactly once. */
  lemma AllSalesIsEverySale(db: Db)
    requires Consistent(db)
    ensures multiset(AllSales(db.sales, db.subsidiaries)) == multiset(db.sales)
  {
    AllSalesContents(db.sales, db.subsidiaries);
    WhereAll(db.sales, (s: Sale) => s.data.subsidiaryId in Ids(db.subsidiaries));
  }

  /** The item count is the number of items of the listed subsidiaries. */
  lemma {:induction false} TotalItemsCount(items: seq<InventoryItem>, subs: seq<Subsidiary>)
    requires UniqueIds(subs)
    ensures TotalItems(items, subs) == |Where(items, (x: InventoryItem) => x.data.subsidiaryId in Ids(subs))|
  {
    var pq := (x: InventoryItem) => x.data.subsidiaryId in Ids(subs);
    if |subs| == 0 {
      WhereNone(items, pq);
    } else {
      var init := subs[..|subs| - 1];
      var s := subs[|subs| - 1];
      SubsPrefix(subs);
      TotalItemsCount(items, init);
      var p := (x: InventoryItem) => x.data.subsidiaryId in Ids(init);
      var q := (x: InventoryItem) => x.data.subsidiaryId == s.id;
      WhereCountSplit(items, p, q, pq);
      WhereExt(items, q, (x: InventoryItem) => x.data.subsidiaryId == s.id);
    }
  }

  /** The gathered items are exactly the items of the listed subsidiaries, each once. */
  lemma {:induction false} AllItemsContents(items: seq<InventoryItem>, subs: seq<Subsidiary>)
    requires UniqueIds(subs)
    ensures multiset(AllItems(items, subs)) == multiset(Where(items, (x: InventoryItem) => x.data.subsidiaryId in Ids(subs)))
  {
    var pq := (x: InventoryItem) => x.data.subsidiaryId in Ids(subs);
    if |subs| == 0 {
      WhereNone(items, pq);
    } else {
      var init := subs[..|subs| - 1];
      var s := subs[|subs| - 1];
      SubsPrefix(subs);
      AllItemsContents(items, init);
      var p := (x: InventoryItem) => x.data.subsidiaryId in Ids(init);
      var q := (x: InventoryItem) => x.data.subsidiaryId == s.id;
      WhereMultisetSplit(items, p, q, pq);
      WhereExt(items, q, (x: InventoryItem) => x.data.subsidiaryId == s.id);
    }
  }

  /** Over a consistent database, the inventory report gathers every inventory item exactly once. */
  lemma AllItemsIsEveryItem(db: Db)
    requires Consistent(db)
    ensures multiset(AllItems(db.inventory, db.subsidiaries)) == multiset(db.inventory)
  {
    AllItemsContents(db.inventory, db.subsidiaries);
    WhereAll(db.inventory, (x: InventoryItem) => x.data.subsidiaryId in Ids(db.subsidiaries));
  }

  /** Over a consistent database, `/api/inventory/total` is the number of inventory items. */
  lemma TotalItemsIsEveryItem(db: Db)
    requires Consistent(db)
    ensures TotalItems(db.inventory, db.subsidiaries) == |db.inventory|
  {
    TotalItemsCount(db.inventory, db.subsidiaries);
    WhereAll(db.inventory, (x: InventoryItem) => x.data.subsidiaryId in Ids(db.subsidiaries));
  }

  // ---------------------------------------------------------------------------
  // Report rows

  datatype SalesRow = SalesRow(
    timestamp: int, subsidiary: string, soldBy: string, quantity: int, salePrice: real, total: real)

  datatype InventoryRow = InventoryRow(
    subsidiary: string, productName: string, sku: string, quantity: int, salePrice: real, totalValue: real)

  datatype ActivityRow = ActivityRow(
    timestamp: int, subsidiary: string, user: string, action: string, details: Option<string>)

  const Unknown := "Unknown"
  const HoldingLabel := "MHC"
  const SystemLabel := "System"

  function SalesRowOf(s: Sale, subs: seq<Subsidiary>, users: seq<User>): SalesRow {
    SalesRow(s.data.timestamp,
             NameOr(SubsidiaryName(subs, s.data.subsidiaryId), Unknown),
             NameOr(Username(users, s.data.userId), Unknown),
             s.data.quantity, s.data.salePrice, s.data.quantity as real * s.data.salePrice)
  }

  /** The gathered sales whose timestamp lies in the window, in gathering order. */
  function SalesInWindow(all: seq<Sale>, w: Window): (r: seq<Sale>)
    ensures forall s :: s in r <==> s in all && InWindow(w, s.data.timestamp)
  {
    Where(all, (s: Sale) => InWindow(w, s.data.timestamp))
  }

  /** One row per gathered sale in the window. */
  function SalesRowsFrom(all: seq<Sale>, subs: seq<Subsidiary>, users: seq<User>, w: Window): (r: seq<SalesRow>)
    ensures |r| == |SalesInWindow(all, w)|
    ensures forall i :: 0 <= i < |r| ==> r[i] == SalesRowOf(SalesInWindow(all, w)[i], subs, users)
  {
    var kept := SalesInWindow(all, w);
    seq(|kept|, i requires 0 <= i < |kept| => SalesRowOf(kept[i], subs, users))
  }

  /** The sales report: one row per sale in the window, gathered subsidiary by subsidiary. */
  function SalesReportRows(sales: seq<Sale>, subs: seq<Subsidiary>, users: seq<User>, w: Window): seq<SalesRow> {
    SalesRowsFrom(AllSales(sales, subs), subs, users, w)
  }

  /** A row shows the item's name, sku, quantity and price, and the quantity times the price. */
  predicate DescribesItem(row: InventoryRow, x: InventoryItem) {
    && row.productName == x.data.name && row.sku == x.data.sku
    && row.quantity == x.data.quantity && row.salePrice == x.data.salePrice
    && row.totalValue == x.data.quantity as real * x.data.salePrice
  }

  function ItemRows(sub: Subsidiary, items: seq<InventoryItem>): (r: seq<InventoryRow>)
    ensures |r| == |items|
    ensures forall i :: 0 <= i < |r| ==> r[i].subsidiary == sub.data.name && r[i].sku == items[i].data.sku
    ensures forall i :: 0 <= i < |r| ==> DescribesItem(r[i], items[i])
  {
    seq(|items|, i requires 0 <= i < |items| =>
      var d := items[i].data;
      InventoryRow(sub.data.name, d.name, d.sku, d.quantity, d.salePrice, d.quantity as real * d.salePrice))
  }

  /** The inventory report: each subsidiary's items in turn, whatever the window. */
  function InventoryReportRows(items: seq<InventoryItem>, subs: seq<Subsidiary>): (r: seq<InventoryRow>)
    decreases |subs|
    ensures |r| == TotalItems(items, subs) == |AllItems(items, subs)|
    ensures forall i :: 0 <= i < |r| ==> DescribesItem(r[i], AllItems(items, subs)[i])
    ensures forall i :: 0 <= i < |r| ==>
      exists s :: s in subs && s.id == AllItems(items, subs)[i].data.subsidiaryId && r[i].subsidiary == s.data.name
  {
    if |subs| == 0 then []
    else
      var s := subs[|subs| - 1];
      var init := subs[..|subs| - 1];
      var front := InventoryReportRows(items, init);
      var own := ItemsOf(items, s.id);
      var back := ItemRows(s, own);
      assert AllItems(items, subs) == AllItems(items, init) + own;
      assert forall j :: 0 <= j < |own| ==> own[j] in own && own[j].data.subsidiaryId == s.id;
      assert forall t :: t in init ==> t in subs;
      front + back
  }

  function ActivityRowOf(l: ActivityLog, subs: seq<Subsidiary>, users: seq<User>): ActivityRow {
    ActivityRow(l.data.timestamp,
                NameOr(if l.data.subsidiaryId.Some? then SubsidiaryName(subs, l.data.subsidiaryId.value) else None,
                       HoldingLabel),
                NameOr(Username(users, l.data.userId), SystemLabel),
                l.data.action, l.data.details)
  }

  /** The activity report: one row per log in the window, in log order. */
  function ActivityReportRows(logs: seq<ActivityLog>, subs: seq<Subsidiary>, users: seq<User>, w: Window): (r: seq<ActivityRow>)
    ensures forall i :: 0 <= i < |r| ==> InWindow(w, r[i].timestamp)
    ensures |r| == |Where(logs, (l: ActivityLog) => InWindow(w, l.data.timestamp))|
    ensures forall i :: 0 <= i < |r| ==>
      r[i] == ActivityRowOf(Where(logs, (l: ActivityLog) => InWindow(w, l.data.timestamp))[i], subs, users)
  {
    var kept := Where(logs, (l: ActivityLog) => InWindow(w, l.data.timestamp));
    assert forall i :: 0 <= i < |kept| ==> kept[i] in kept;
    seq(|kept|, i requires 0 <= i < |kept| => ActivityRowOf(kept[i], subs, users))
  }

  /**
   * Every row of the sales report lies in the window, and over a consistent
   * database the rows are made from exactly the sales in it, each once.
   */
  lemma SalesReportExact(db: Db, w: Window)
    requires Consistent(db)
    ensures var r := SalesReportRows(db.sales, db.subsidiaries, db.users, w);
      && (forall i :: 0 <= i < |r| ==> InWindow(w, r[i].timestamp))
      && |r| == |Where(db.sales, (s: Sale) => InWindow(w, s.data.timestamp))|
    ensures multiset(SalesInWindow(AllSales(db.sales, db.subsidiaries), w)) ==
            multiset(Where(db.sales, (s: Sale) => InWindow(w, s.data.timestamp)))
  {
    var kept := SalesInWindow(AllSales(db.sales, db.subsidiaries), w);
    assert forall i :: 0 <= i < |kept| ==> kept[i] in kept;
    AllSalesIsEverySale(db);
    WhereSameMultiset(AllSales(db.sales, db.subsidiaries), db.sales, (s: Sale) => InWindow(w, s.data.timestamp));
    assert |multiset(kept)| == |multiset(Where(db.sales, (s: Sale) => InWindow(w, s.data.timestamp)))|;
  }

  /** A timestamp on either end of the window is kept; one just outside it is not. */
  lemma WindowInclusive(w: Window)
    requires w.start <= w.end
    ensures InWindow(w, w.start) && InWindow(w, w.end)
    ensures !InWindow(w, w.start - 1) && !InWindow(w, w.end + 1)
  {
  }

  /** Over a consistent database, a sale row names the sale's subsidiary and seller unless the name is empty. */
  lemma SalesRowJoins(db: Db, s: Sale)
    requires Consistent(db) && s in db.sales
    ensures var row := SalesRowOf(s, db.subsidiaries, db.users);
      && (row.subsidiary == Unknown <==> SubsidiaryName(db.subsidiaries, s.data.subsidiaryId).value in {"", Unknown})
      && (row.soldBy == Unknown <==> Username(db.users, s.data.userId).value in {"", Unknown})
  {
    var i :| 0 <= i < |db.sales| && db.sales[i] == s;
    assert SaleRefsOk(db, db.sales[i].data);
  }

  /** A log of no subsidiary shows the holding, and a log whose user is gone shows the system. */
  lemma ActivityFallbacks(l: ActivityLog, subs: seq<Subsidiary>, users: seq<User>)
    ensures l.data.subsidiaryId.None? ==> ActivityRowOf(l, subs, users).subsidiary == HoldingLabel
    ensures l.data.userId !in Ids(users) ==> ActivityRowOf(l, subs, users).user == SystemLabel
  {
  }

  // ---------------------------------------------------------------------------
  // Rows as the objects sent back

  const SalesHeaders := ["Date", "Subsidiary", "Sold By", "Quantity", "Sale Price", "Total"]
  const InventoryHeaders := ["Subsidiary", "Product Name", "SKU", "Quantity", "Sale Price", "Total Value"]
  const ActivityHeaders := ["Date", "Subsidiary", "User", "Action", "Details"]

  /** `$` and the amount as the caller formats it. */
  function Money(money: real -> string, x: real): string {
    "$" + money(x)
  }

  function SalesRecord(r: SalesRow, date: int -> string, money: real -> string): (rec: Record)
    ensures Keys(rec) == SalesHeaders
  {
    [("Date", Str(date(r.timestamp))), ("Subsidiary", Str(r.subsidiary)), ("Sold By", Str(r.soldBy)),
     ("Quantity", Num(r.quantity)), ("Sale Price", Str(Money(money, r.salePrice))),
     ("Total", Str(Money(money, r.total)))]
  }

  function InventoryRecord(r: InventoryRow, money: real -> string): (rec: Record)
    ensures Keys(rec) == InventoryHeaders
  {
    [("Subsidiary", Str(r.subsidiary)), ("Product Name", Str(r.productName)), ("SKU", Str(r.sku)),
     ("Quantity", Num(r.quantity)), ("Sale Price", Str(Money(money, r.salePrice))),
     ("Total Value", Str(Money(money, r.totalValue)))]
  }

  function ActivityRecord(r: ActivityRow, date: int -> string): (rec: Record)
    ensures Keys(rec) == ActivityHeaders
  {
    [("Date", Str(date(r.timestamp))), ("Subsidiary", Str(r.subsidiary)), ("User", Str(r.user)),
     ("Action", Str(r.action)), ("Details", if r.details.Some? then Str(r.details.value) else Null)]
  }

  function SalesRecords(rows: seq<SalesRow>, date: int -> string, money: real -> string): (recs: seq<Record>)
    ensures |recs| == |rows| && forall i :: 0 <= i < |recs| ==> Keys(recs[i]) == SalesHeaders
  {
    seq(|rows|, i requires 0 <= i < |rows| => SalesRecord(rows[i], date, money))
  }

  function InventoryRecords(rows: seq<InventoryRow>, money: real -> string): (recs: seq<Record>)
    ensures |recs| == |rows| && forall i :: 0 <= i < |recs| ==> Keys(recs[i]) == InventoryHeaders
  {
    seq(|rows|, i requires 0 <= i < |rows| => InventoryRecord(rows[i], money))
  }

  function ActivityRecords(rows: seq<ActivityRow>, date: int -> string): (recs: seq<Record>)
    ensures |recs| == |rows| && forall i :: 0 <= i < |recs| ==> Keys(recs[i]) == ActivityHeaders
  {
    seq(|rows|, i requires 0 <= i < |rows| => ActivityRecord(rows[i], date))
  }

  /** The rows of a report as the objects sent back, in report order. */
  function ReportRecords(db: Db, t: ReportType, w: Window, date: int -> string, money: real -> string): seq<Record> {
    match t
    case SalesReport => SalesRecords(SalesReportRows(db.sales, db.subsidiaries, db.users, w), date, money)
    case InventoryReport => InventoryRecords(InventoryReportRows(db.inventory, db.subsidiaries), money)
    case ActivityReport => ActivityRecords(ActivityReportRows(db.logs, db.subsidiaries, db.users, w), date)
  }

  /** The inventory report does not depend on the window. */
  lemma InventoryIgnoresWindow(db: Db, w1: Window, w2: Window, date: int -> string, money: real -> string)
    ensures ReportRecords(db, InventoryReport, w1, date, money) == ReportRecords(db, InventoryReport, w2, date, money)
  {
  }

  /** A CSV export of a non-empty sales report starts with the fixed headers, comma-separated, on a line of their own. */
  lemma SalesCsvHeader(recs: seq<Record>)
    requires |recs| >= 1 && forall i :: 0 <= i < |recs| ==> Keys(recs[i]) == SalesHeaders
    ensures Text.Join(SalesHeaders, ",") + "\n" <= ConvertToCsv(Rfc4180, recs)
  {
    var ls := Lines(Rfc4180, recs);
    var rest := Text.Join(ls[1..], "\n");
    assert ConvertToCsv(Rfc4180, recs) == ls[0] + "\n" + rest;
  }
}
