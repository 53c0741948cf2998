/** The `articles` table of the SQLite database the scripts maintain, reduced
    to the columns the repair scripts read and write: an `INTEGER PRIMARY KEY
    AUTOINCREMENT` id, and the `UNIQUE(title, published_date, source)`
    constraint that every statement is checked against. */
module ArticleTable {
  import opened Text

  /** One row; `openRate` and `paidSubs` are `None` where the column holds `NULL`. */
  datatype Row = Row(id: nat, title: string, date: string, source: string,
                     views: int, openRate: Option<real>, paidSubs: Option<int>)

  /** The columns of the `UNIQUE` constraint. */
  function Key(r: Row): (string, string, string) {
    (r.title, r.date, r.source)
  }

  /** No two rows share an id or the unique key, and every id is below the
      next id the table hands out. */
  predicate Consistent(rows: seq<Row>, nextId: nat) {
    (forall i, j :: 0 <= i < j < |rows| ==> rows[i].id != rows[j].id && Key(rows[i]) != Key(rows[j]))
    && forall i :: 0 <= i < |rows| ==> rows[i].id < nextId
  }

  /** The position of the row with the given id. */
  function IndexOfId(rows: seq<Row>, id: nat): (r: Option<nat>)
    ensures r.Some? ==> r.value < |rows| && rows[r.value].id == id
    ensures r.None? ==> forall i :: 0 <= i < |rows| ==> rows[i].id != id
  {
    if rows == [] then None
    else if rows[|rows| - 1].id == id then Some(|rows| - 1)
    else IndexOfId(rows[..|rows| - 1], id)
  }

  /** With unique ids, the row found for an id is the only one. */
  lemma IndexOfUnique(rows: seq<Row>, nextId: nat, i: nat)
    requires Consistent(rows, nextId) && i < |rows|
    ensures IndexOfId(rows, rows[i].id) == Some(i)
  {
  }

  /** Writing `r` at position `i` breaks the unique key: another row already has `r`'s key. */
  predicate Clashes(rows: seq<Row>, i: nat, r: Row) {
    exists j :: 0 <= j < |rows| && j != i && Key(rows[j]) == Key(r)
  }

  /** An update that keeps the id and breaks no key leaves the table consistent. */
  lemma ReplaceKeepsConsistent(rows: seq<Row>, nextId: nat, i: nat, r: Row)
    requires Consistent(rows, nextId) && i < |rows| && r.id == rows[i].id && !Clashes(rows, i, r)
    ensures Consistent(rows[i := r], nextId)
  {
    var s := rows[i := r];
    forall a, b | 0 <= a < b < |s| ensures s[a].id != s[b].id && Key(s[a]) != Key(s[b]) {
      if a == i {
        assert Key(rows[b]) != Key(r);
      } else if b == i {
        assert Key(rows[a]) != Key(r);
      }
    }
  }

  /** A row with a new id and a new key can be added at the end. */
  lemma ConsistentSnoc(w: seq<Row>, last: Row, nextId: nat)
    requires Consistent(w, nextId) && last.id < nextId
    requires forall x :: x in w ==> x.id != last.id && Key(x) != Key(last)
    ensures Consistent(w + [last], nextId)
  {
    var s := w + [last];
    forall a, b | 0 <= a < b < |s| ensures s[a].id != s[b].id && Key(s[a]) != Key(s[b]) {
      if b == |w| {
        assert s[a] == w[a] && w[a] in w;
      }
    }
  }

  /** The rows without the one with key `k`. */
  function WithoutKey(rows: seq<Row>, k: (string, string, string)): (r: seq<Row>)
    ensures |r| <= |rows|
    ensures forall x :: x in r <==> x in rows && Key(x) != k
  {
    if rows == [] then []
    else WithoutKey(rows[..|rows| - 1], k) + (if Key(rows[|rows| - 1]) == k then [] else [rows[|rows| - 1]])
  }

  /** Dropping rows keeps the table consistent. */
  lemma {:induction false} WithoutKeyConsistent(rows: seq<Row>, nextId: nat, k: (string, string, string))
    requires Consistent(rows, nextId)
    ensures Consistent(WithoutKey(rows, k), nextId)
  {
    if rows != [] {
      var init := rows[..|rows| - 1];
      WithoutKeyConsistent(init, nextId, k);
      var w := WithoutKey(init, k);
      var last := rows[|rows| - 1];
      forall x | x in w ensures x.id != last.id && Key(x) != Key(last) {
        var a :| 0 <= a < |init| && init[a] == x;
        assert rows[a] == x;
      }
      if Key(last) != k {
        ConsistentSnoc(w, last, nextId);
      } else {
        assert WithoutKey(rows, k) == w;
      }
    }
  }

  /** The rows without the one with id `id`. */
  function WithoutId(rows: seq<Row>, id: nat): (r: seq<Row>)
    ensures |r| <= |rows|
    ensures forall x :: x in r <==> x in rows && x.id != id
  {
    if rows == [] then []
    else WithoutId(rows[..|rows| - 1], id) + (if rows[|rows| - 1].id == id then [] else [rows[|rows| - 1]])
  }

  lemma {:induction false} WithoutIdConsistent(rows: seq<Row>, nextId: nat, id: nat)
    requires Consistent(rows, nextId)
    ensures Consistent(WithoutId(rows, id), nextId)
  {
    if rows != [] {
      var init := rows[..|rows| - 1];
      WithoutIdConsistent(init, nextId, id);
      var w := WithoutId(init, id);
      var last := rows[|rows| - 1];
      forall x | x in w ensures x.id != last.id && Key(x) != Key(last) {
        var a :| 0 <= a < |init| && init[a] == x;
        assert rows[a] == x;
      }
      if last.id != id {
        ConsistentSnoc(w, last, nextId);
      } else {
        assert WithoutId(rows, id) == w;
      }
    }
  }

  /** The table: its rows in rowid order and the next id `AUTOINCREMENT` gives out. */
  class Table {
    var rows: seq<Row>
    var nextId: nat

    ghost predicate Valid()
      reads this
    {
      Consistent(rows, nextId)
    }

    constructor (initial: seq<Row>, next: nat)
      requires Consistent(initial, next)
      ensures Valid() && rows == initial && nextId == next
    {
      rows := initial;
      nextId := next;
    }

    /** `UPDATE articles SET published_date = ? WHERE id = ?`: with no such
        row nothing happens; when the new date gives the row the key of
        another row the statement fails and nothing changes. */
    method UpdateDate(id: nat, date: string) returns (ok: bool)
      requires Valid()
      modifies this
      ensures Valid() && nextId == old(nextId)
      ensures IndexOfId(old(rows), id).None? ==> ok && rows == old(rows)
      ensures IndexOfId(old(rows), id).Some? ==>
                var i := IndexOfId(old(rows), id).value;
                var r := old(rows)[i].(date := date);
                ok == !Clashes(old(rows), i, r) && rows == if ok then old(rows)[i := r] else old(rows)
    {
      var found := IndexOfId(rows, id);
      if found.None? {
        return true;
      }
      var i := found.value;
      var r := rows[i].(date := date);
      ok := !Clashes(rows, i, r);
      if ok {
        ReplaceKeepsConsistent(rows, nextId, i, r);
        rows := rows[i := r];
      }
    }

    /** `UPDATE articles SET views = ?, open_rate = ?, new_paid_subs = ?,
        source = ? WHERE id = ?`, failing like `UpdateDate` on a broken key. */
    method UpdateStats(id: nat, views: int, openRate: real, paidSubs: int, source: string) returns (ok: bool)
      requires Valid()
      modifies this
      ensures Valid() && nextId == old(nextId)
      ensures IndexOfId(old(rows), id).None? ==> ok && rows == old(rows)
      ensures IndexOfId(old(rows), id).Some? ==>
                var i := IndexOfId(old(rows), id).value;
                var r := old(rows)[i].(views := views, openRate := Some(openRate), paidSubs := Some(paidSubs), source := source);
                ok == !Clashes(old(rows), i, r) && rows == if ok then old(rows)[i := r] else old(rows)
    {
      var found := IndexOfId(rows, id);
      if found.None? {
        return true;
      }
      var i := found.value;
      var r := rows[i].(views := views, openRate := Some(openRate), paidSubs := Some(paidSubs), source := source);
      ok := !Clashes(rows, i, r);
      if ok {
        ReplaceKeepsConsistent(rows, nextId, i, r);
        rows := rows[i := r];
      }
    }

    /** `DELETE FROM articles WHERE id = ?`. */
    method Delete(id: nat)
      requires Valid()
      modifies this
      ensures Valid() && nextId == old(nextId)
      ensures rows == WithoutId(old(rows), id)
    {
      WithoutIdConsistent(rows, nextId, id);
      rows := WithoutId(rows, id);
    }

    /** `INSERT OR REPLACE`: a row with the same key is deleted, and the new
        row is added with a fresh id. */
    method Upsert(title: string, date: string, source: string, views: int, openRate: real, paidSubs: int)
      requires Valid()
      modifies this
      ensures Valid() && nextId == old(nextId) + 1
      ensures rows == WithoutKey(old(rows), (title, date, source))
                      + [Row(old(nextId), title, date, source, views, Some(openRate), Some(paidSubs))]
    {
      var kept := WithoutKey(rows, (title, date, source));
      WithoutKeyConsistent(rows, nextId, (title, date, source));
      var r := Row(nextId, title, date, source, views, Some(openRate), Some(paidSubs));
      rows := kept + [r];
      nextId := nextId + 1;
    }
  }
}
