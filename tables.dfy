/**
 * Tables of rows keyed by a serial primary key, and the row-level queries the
 * storage layer issues against them: select by id, delete by id, filtered select.
 */
module Tables {
  import opened Wrappers

  /** One row of a table: its serial `id` and the remaining columns. */
  datatype Row<T> = Row(id: int, data: T)

  /** The primary keys present in a table. */
  function Ids<T>(rows: seq<Row<T>>): set<int> {
    set i | 0 <= i < |rows| :: rows[i].id
  }

  /** The primary-key constraint. */
  predicate UniqueIds<T>(rows: seq<Row<T>>) {
    forall i, j :: 0 <= i < j < |rows| ==> rows[i].id != rows[j].id
  }

  /** Every key is below the next value of the table's serial sequence. */
  predicate IdsBelow<T>(rows: seq<Row<T>>, next: int) {
    forall i :: 0 <= i < |rows| ==> rows[i].id < next
  }

  function IndexFrom<T>(rows: seq<Row<T>>, id: int, k: nat): (r: Option<nat>)
    requires k <= |rows|
    decreases |rows| - k
    ensures r.Some? ==> k <= r.value < |rows| && rows[r.value].id == id
    ensures r.Some? ==> forall j :: k <= j < r.value ==> rows[j].id != id
    ensures r.None? ==> forall j :: k <= j < |rows| ==> rows[j].id != id
  {
    if k == |rows| then None
    else if rows[k].id == id then Some(k)
    else IndexFrom(rows, id, k + 1)
  }

  /** The position of the first row with key `id`. */
  function IndexOf<T>(rows: seq<Row<T>>, id: int): (r: Option<nat>)
    ensures r.None? <==> id !in Ids(rows)
    ensures r.Some? ==> r.value < |rows| && rows[r.value].id == id
    ensures r.Some? ==> forall j :: 0 <= j < r.value ==> rows[j].id != id
  {
    var r := IndexFrom(rows, id, 0);
    assert r.Some? ==> rows[r.value].id in Ids(rows);
    r
  }

  /** `select ... where id = ?` followed by taking the first result. */
  function Find<T>(rows: seq<Row<T>>, id: int): (r: Option<Row<T>>)
    ensures r.Some? <==> id in Ids(rows)
    ensures r.Some? ==> r.value.id == id && r.value in rows
  {
    match IndexOf(rows, id)
    case None => None
    case Some(k) => Some(rows[k])
  }

  /** `delete ... where id = ?`: removes every row with that key, and nothing else. */
  function Delete<T(!new)>(rows: seq<Row<T>>, id: int): (r: seq<Row<T>>)
    ensures forall x :: x in r <==> x in rows && x.id != id
  {
    Where(rows, (x: Row<T>) => x.id != id)
  }

  /** What a delete by key does to the constraints of the table. */
  lemma DeleteKeys<T(!new)>(rows: seq<Row<T>>, id: int)
    ensures Ids(Delete(rows, id)) == Ids(rows) - {id}
    ensures UniqueIds(rows) ==> UniqueIds(Delete(rows, id))
    ensures forall n :: IdsBelow(rows, n) ==> IdsBelow(Delete(rows, id), n)
    ensures id !in Ids(rows) ==> Delete(rows, id) == rows
  {
    var r := Delete(rows, id);
    forall x | x in Ids(r) ensures x in Ids(rows) - {id} {
      var i :| 0 <= i < |r| && r[i].id == x;
      assert r[i] in rows;
      var j :| 0 <= j < |rows| && rows[j] == r[i];
    }
    forall x | x in Ids(rows) - {id} ensures x in Ids(r) {
      var i :| 0 <= i < |rows| && rows[i].id == x;
      assert rows[i] in r;
      var j :| 0 <= j < |r| && r[j] == rows[i];
    }
    forall n | IdsBelow(rows, n) ensures IdsBelow(r, n) {
      forall i | 0 <= i < |r| ensures r[i].id < n {
        assert r[i] in rows;
      }
    }
    if UniqueIds(rows) { DeleteUnique(rows, id); }
    if id !in Ids(rows) { DeleteAbsent(rows, id); }
  }

  /** Deleting a key keeps the primary-key constraint. */
  lemma {:induction false} DeleteUnique<T(!new)>(rows: seq<Row<T>>, id: int)
    requires UniqueIds(rows)
    ensures UniqueIds(Delete(rows, id))
  {
    if |rows| > 0 {
      assert UniqueIds(rows[1..]);
      DeleteUnique(rows[1..], id);
      if rows[0].id != id {
        assert Delete(rows, id) == [rows[0]] + Delete(rows[1..], id);
        DeleteConsUnique(rows, id);
      } else {
        assert Delete(rows, id) == Delete(rows[1..], id);
      }
    }
  }

  /** Deleting a key no row has changes nothing. */
  lemma {:induction false} DeleteAbsent<T(!new)>(rows: seq<Row<T>>, id: int)
    requires id !in Ids(rows)
    ensures Delete(rows, id) == rows
  {
    if |rows| > 0 {
      IdsCons(rows);
      DeleteAbsent(rows[1..], id);
      assert rows == [rows[0]] + rows[1..];
    }
  }

  /** The keys of a non-empty table: the first row's and the rest's. */
  lemma IdsCons<T>(rows: seq<Row<T>>)
    requires |rows| > 0
    ensures Ids(rows) == {rows[0].id} + Ids(rows[1..])
  {
    forall x | x in Ids(rows) ensures x in {rows[0].id} + Ids(rows[1..]) {
      var i :| 0 <= i < |rows| && rows[i].id == x;
      if i > 0 { assert rows[1..][i - 1].id == x; }
    }
    forall x | x in Ids(rows[1..]) ensures x in Ids(rows) {
      var i :| 0 <= i < |rows[1..]| && rows[1..][i].id == x;
      assert rows[i + 1].id == x;
    }
  }

  /** Keeping the first row in front of a delete of the rest keeps keys unique. */
  lemma DeleteConsUnique<T(!new)>(rows: seq<Row<T>>, id: int)
    requires |rows| > 0 && rows[0].id != id && UniqueIds(rows)
    requires UniqueIds(Delete(rows[1..], id))
    ensures UniqueIds([rows[0]] + Delete(rows[1..], id))
  {
    var rest := Delete(rows[1..], id);
    var r := [rows[0]] + rest;
    forall i, j | 0 <= i < j < |r| ensures r[i].id != r[j].id {
      if i == 0 {
        assert r[j] == rest[j - 1];
        assert r[j] in rows[1..];
      }
    }
  }

  lemma IdsAppend<T>(rows: seq<Row<T>>, x: Row<T>)
    ensures Ids(rows + [x]) == Ids(rows) + {x.id}
  {
    var r := rows + [x];
    forall k | k in Ids(r) ensures k in Ids(rows) + {x.id} {
      var i :| 0 <= i < |r| && r[i].id == k;
      if i < |rows| { assert rows[i].id == k; }
    }
    forall k | k in Ids(rows) ensures k in Ids(r) {
      var i :| 0 <= i < |rows| && rows[i].id == k;
      assert r[i].id == k;
    }
    assert r[|rows|].id == x.id;
  }

  /** Rewriting the columns of one row keeps the set of keys. */
  lemma IdsUpdate<T>(rows: seq<Row<T>>, k: nat, data: T)
    requires k < |rows|
    ensures Ids(rows[k := Row(rows[k].id, data)]) == Ids(rows)
  {
    var r := rows[k := Row(rows[k].id, data)];
    forall x | x in Ids(r) ensures x in Ids(rows) {
      var i :| 0 <= i < |r| && r[i].id == x;
      assert rows[i].id == x;
    }
    forall x | x in Ids(rows) ensures x in Ids(r) {
      var i :| 0 <= i < |rows| && rows[i].id == x;
      assert r[i].id == x;
    }
  }

  /** Rewriting the columns of one row keeps every key below the serial sequence. */
  lemma IdsBelowUpdate<T>(rows: seq<Row<T>>, k: nat, data: T, next: int)
    requires k < |rows| && IdsBelow(rows, next)
    ensures IdsBelow(rows[k := Row(rows[k].id, data)], next)
  {
  }

  /** `xs.filter(keep)`, also a `select ... where` over a table. */
  function Where<T(!new)>(xs: seq<T>, keep: T -> bool): (r: seq<T>)
    ensures forall x :: x in r <==> x in xs && keep(x)
    ensures |r| <= |xs|
  {
    if |xs| == 0 then []
    else if keep(xs[0]) then [xs[0]] + Where(xs[1..], keep)
    else Where(xs[1..], keep)
  }

  /** A filter keeps every kept element as often as it occurs, and drops the others. */
  lemma {:induction false} WhereMultiset<T(!new)>(xs: seq<T>, keep: T -> bool, x: T)
    ensures multiset(Where(xs, keep))[x] == if keep(x) then multiset(xs)[x] else 0
  {
    if |xs| > 0 {
      WhereMultiset(xs[1..], keep, x);
      assert xs == [xs[0]] + xs[1..];
    }
  }

  /** Filtering keeps the original order: it distributes over concatenation. */
  lemma {:induction false} WhereAppend<T(!new)>(a: seq<T>, b: seq<T>, keep: T -> bool)
    ensures Where(a + b, keep) == Where(a, keep) + Where(b, keep)
  {
    if |a| == 0 {
      assert a + b == b;
    } else {
      var ab := a + b;
      assert ab[0] == a[0] && ab[1..] == a[1..] + b;
      WhereCons(ab, keep);
      WhereCons(a, keep);
      WhereAppend(a[1..], b, keep);
      var head := if keep(a[0]) then [a[0]] else [];
      var wa, wb := Where(a[1..], keep), Where(b, keep);
      assert head + (wa + wb) == (head + wa) + wb;
    }
  }

  /** A filter decides on the first element, then filters the rest. */
  lemma WhereCons<T(!new)>(xs: seq<T>, keep: T -> bool)
    requires |xs| > 0
    ensures Where(xs, keep) == (if keep(xs[0]) then [xs[0]] else []) + Where(xs[1..], keep)
  {
    if !keep(xs[0]) {
      assert [] + Where(xs[1..], keep) == Where(xs[1..], keep);
    }
  }

  /** Splitting a filter by two disjoint conditions splits its count. */
  lemma {:induction false} WhereCountSplit<T(!new)>(xs: seq<T>, p: T -> bool, q: T -> bool, pq: T -> bool)
    requires forall x :: pq(x) == (p(x) || q(x))
    requires forall x :: !(p(x) && q(x))
    ensures |Where(xs, pq)| == |Where(xs, p)| + |Where(xs, q)|
  {
    if |xs| > 0 {
      WhereCountSplit(xs[1..], p, q, pq);
    }
  }

  /** Splitting a filter by two disjoint conditions splits its contents. */
  lemma {:induction false} WhereMultisetSplit<T(!new)>(xs: seq<T>, p: T -> bool, q: T -> bool, pq: T -> bool)
    requires forall x :: pq(x) == (p(x) || q(x))
    requires forall x :: !(p(x) && q(x))
    ensures multiset(Where(xs, pq)) == multiset(Where(xs, p)) + multiset(Where(xs, q))
  {
    if |xs| > 0 {
      WhereMultisetSplit(xs[1..], p, q, pq);
    }
  }

  /** A filter that keeps every element returns its input. */
  lemma {:induction false} WhereAll<T(!new)>(xs: seq<T>, keep: T -> bool)
    requires forall i :: 0 <= i < |xs| ==> keep(xs[i])
    ensures Where(xs, keep) == xs
  {
    if |xs| > 0 {
      WhereAll(xs[1..], keep);
    }
  }

  /** A filter that keeps no element returns nothing. */
  lemma {:induction false} WhereNone<T(!new)>(xs: seq<T>, keep: T -> bool)
    requires forall i :: 0 <= i < |xs| ==> !keep(xs[i])
    ensures Where(xs, keep) == []
  {
    if |xs| > 0 {
      WhereNone(xs[1..], keep);
    }
  }

  /** Filters by conditions that agree on every element give the same result. */
  lemma {:induction false} WhereExt<T(!new)>(xs: seq<T>, p: T -> bool, q: T -> bool)
    requires forall i :: 0 <= i < |xs| ==> p(xs[i]) == q(xs[i])
    ensures Where(xs, p) == Where(xs, q)
  {
    if |xs| > 0 {
      WhereExt(xs[1..], p, q);
    }
  }

  /** Filtering sequences with the same elements gives sequences with the same elements. */
  lemma WhereSameMultiset<T(!new)>(xs: seq<T>, ys: seq<T>, keep: T -> bool)
    requires multiset(xs) == multiset(ys)
    ensures multiset(Where(xs, keep)) == multiset(Where(ys, keep))
  {
    forall x ensures multiset(Where(xs, keep))[x] == multiset(Where(ys, keep))[x] {
      WhereMultiset(xs, keep, x);
      WhereMultiset(ys, keep, x);
    }
  }
}
