/** A document collection: rows kept in natural (insertion) order, each carrying the
    document's `_id`. The store's queries are functions over such a sequence: `findOne`
    is the first matching row, `find` the matching rows in order, `findByIdAndUpdate`
    and `findByIdAndDelete` act on the row with the given id. */
module Table {
  import opened Wrappers

  /** A document id. ObjectIds are opaque; the model uses naturals handed out by the store. */
  type Id = nat

  datatype Row<T> = Row(id: Id, doc: T)

  type Table<T> = seq<Row<T>>

  function IdOf<T>(r: Row<T>): Id { r.id }

  /** No two rows of `t` agree on `key` (the primary key, or a unique index). */
  ghost predicate UniqueBy<T, K>(t: Table<T>, key: Row<T> -> K) {
    forall i, j :: 0 <= i < j < |t| ==> key(t[i]) != key(t[j])
  }

  ghost predicate UniqueIds<T>(t: Table<T>) {
    UniqueBy(t, IdOf)
  }

  /** Every id in `t` is below `bound`, so `bound` and everything above it are unused. */
  ghost predicate IdsBelow<T>(t: Table<T>, bound: Id) {
    forall r :: r in t ==> r.id < bound
  }

  /** Rows have unique ids, all below `bound` (the allocator's next id). */
  ghost predicate Keyed<T>(t: Table<T>, bound: Id) {
    UniqueIds(t) && IdsBelow(t, bound)
  }

  /** `findOne(filter)`: the position of the first row satisfying `p`. */
  function FindFirst<T>(t: Table<T>, p: Row<T> -> bool): (r: Option<nat>)
    ensures r.Some? ==> r.value < |t| && p(t[r.value])
    ensures r.Some? ==> forall j :: 0 <= j < r.value ==> !p(t[j])
    ensures r.None? <==> forall j :: 0 <= j < |t| ==> !p(t[j])
  {
    if t == [] then None
    else if p(t[0]) then Some(0)
    else match FindFirst(t[1..], p)
      case None => None
      case Some(k) => Some(k + 1)
  }

  /** `findOne` sees a table only through its filter: two tables on which the filters agree
      position by position give the same answer. */
  lemma {:induction false} FindFirstAgrees<T, U>(t: Table<T>, p: Row<T> -> bool, u: Table<U>, q: Row<U> -> bool)
    requires |u| == |t| && forall i :: 0 <= i < |t| ==> p(t[i]) == q(u[i])
    ensures FindFirst(t, p) == FindFirst(u, q)
  {
    if t != [] {
      FindFirstAgrees(t[1..], p, u[1..], q);
    }
  }

  /** `findById`: the position of the row with this id. */
  function IndexOf<T>(t: Table<T>, id: Id): (r: Option<nat>)
    ensures r.Some? ==> r.value < |t| && t[r.value].id == id
    ensures r.None? <==> forall j :: 0 <= j < |t| ==> t[j].id != id
  {
    FindFirst(t, (row: Row<T>) => row.id == id)
  }

  predicate HasId<T>(t: Table<T>, id: Id)
  {
    IndexOf(t, id).Some?
  }

  /** The document stored under `id`, or None when no row has that id. */
  function Lookup<T>(t: Table<T>, id: Id): (r: Option<T>)
    ensures r.Some? ==> Row(id, r.value) in t
    ensures r.None? <==> forall row :: row in t ==> row.id != id
  {
    match IndexOf(t, id)
    case Some(i) => Some(t[i].doc)
    case None => None
  }

  /** `find(filter)`: the rows satisfying `p`, in natural order. */
  function Where<T(!new)>(t: Table<T>, p: Row<T> -> bool): (r: Table<T>)
    ensures forall row :: row in r <==> row in t && p(row)
    ensures |r| <= |t|
  {
    if t == [] then []
    else (if p(t[0]) then [t[0]] else []) + Where(t[1..], p)
  }

  /** `findByIdAndDelete` (ids are unique, so removing every row with the id removes one). */
  function Remove<T(!new)>(t: Table<T>, id: Id): (r: Table<T>)
    ensures forall row :: row in r <==> row in t && row.id != id
  {
    Where(t, (row: Row<T>) => row.id != id)
  }

  /** `findByIdAndUpdate`: the row with this id gets document `f(doc)`, in place. */
  function Update<T>(t: Table<T>, id: Id, f: T -> T): (r: Table<T>)
    ensures |r| == |t|
    ensures forall i :: 0 <= i < |t| ==>
      r[i].id == t[i].id && r[i].doc == (if t[i].id == id then f(t[i].doc) else t[i].doc)
  {
    seq(|t|, i requires 0 <= i < |t| => if t[i].id == id then Row(id, f(t[i].doc)) else t[i])
  }

  /** Two rows of a table with unique keys that agree on the key are the same row. */
  lemma SameKeySameRow<T, K>(t: Table<T>, key: Row<T> -> K, a: Row<T>, b: Row<T>)
    requires UniqueBy(t, key)
    requires a in t && b in t && key(a) == key(b)
    ensures a == b
  {
    var i :| 0 <= i < |t| && t[i] == a;
    var j :| 0 <= j < |t| && t[j] == b;
    assert i == j;
  }

  /** Below the first row of a unique table, the rest is unique and none shares its key. */
  lemma UniqueTail<T, K>(t: Table<T>, key: Row<T> -> K)
    requires UniqueBy(t, key) && t != []
    ensures UniqueBy(t[1..], key)
    ensures forall x :: x in t[1..] ==> key(x) != key(t[0])
  {
    forall x | x in t[1..] ensures key(x) != key(t[0]) {
      var k :| 0 <= k < |t[1..]| && t[1..][k] == x;
      assert t[k + 1] == x;
    }
  }

  /** A row whose key no row of a unique table has can head it. */
  lemma ConsUnique<T, K>(x: Row<T>, rest: Table<T>, key: Row<T> -> K)
    requires UniqueBy(rest, key)
    requires forall y :: y in rest ==> key(y) != key(x)
    ensures UniqueBy([x] + rest, key)
  {
    var r := [x] + rest;
    forall i, j | 0 <= i < j < |r| ensures key(r[i]) != key(r[j]) {
      assert r[j] == rest[j - 1];
      if i > 0 {
        assert r[i] == rest[i - 1];
      }
    }
  }

  /** Filtering keeps a unique index unique. */
  lemma {:induction false} WhereKeepsUnique<T(!new), K>(t: Table<T>, p: Row<T> -> bool, key: Row<T> -> K)
    requires UniqueBy(t, key)
    ensures UniqueBy(Where(t, p), key)
  {
    if t != [] {
      UniqueTail(t, key);
      WhereKeepsUnique(t[1..], p, key);
      if p(t[0]) {
        ConsUnique(t[0], Where(t[1..], p), key);
      }
    }
  }

  /** `find` distributes over the concatenation of two tables. */
  lemma {:induction false} WhereAppend<T(!new)>(t: Table<T>, u: Table<T>, p: Row<T> -> bool)
    ensures Where(t + u, p) == Where(t, p) + Where(u, p)
  {
    if t != [] {
      assert (t + u)[1..] == t[1..] + u;
      WhereAppend(t[1..], u, p);
    } else {
      assert t + u == u;
    }
  }

  /** A filter every row passes returns the table itself. */
  lemma {:induction false} WhereAll<T(!new)>(t: Table<T>, p: Row<T> -> bool)
    requires forall row :: row in t ==> p(row)
    ensures Where(t, p) == t
  {
    if t != [] {
      assert forall row :: row in t[1..] ==> row in t;
      WhereAll(t[1..], p);
      assert [t[0]] + t[1..] == t;
    }
  }

  /** A filter no row passes returns nothing. */
  lemma {:induction false} WhereNone<T(!new)>(t: Table<T>, p: Row<T> -> bool)
    requires forall row :: row in t ==> !p(row)
    ensures Where(t, p) == []
  {
    if t != [] {
      assert t[0] in t;
      assert forall row :: row in t[1..] ==> row in t;
      WhereNone(t[1..], p);
    }
  }

  /** A filter some row fails returns fewer rows than the table has. */
  lemma {:induction false} WhereDrops<T(!new)>(t: Table<T>, p: Row<T> -> bool, row: Row<T>)
    requires row in t && !p(row)
    ensures |Where(t, p)| < |t|
  {
    if t[0] != row {
      assert row in t[1..];
      WhereDrops(t[1..], p, row);
    }
  }

  /** Filtering by two conditions at once is filtering by one and then by the other:
      the single query returns the same rows, in the same order, as the two-step one. */
  lemma {:induction false} WhereOfWhere<T(!new)>(t: Table<T>, p: Row<T> -> bool, q: Row<T> -> bool, both: Row<T> -> bool)
    requires forall row :: both(row) == (p(row) && q(row))
    ensures Where(t, both) == Where(Where(t, p), q)
  {
    if t != [] {
      WhereOfWhere(t[1..], p, q, both);
      var head := if p(t[0]) then [t[0]] else [];
      WhereAppend(head, Where(t[1..], p), q);
      if p(t[0]) {
        assert Where(head, q) == (if q(t[0]) then [t[0]] else []) by {
          assert head[1..] == [];
        }
      } else {
        assert Where(head, q) == [];
      }
    }
  }

  /** Deleting the row that was just appended under a fresh id gives back the table. */
  lemma RemoveAppended<T(!new)>(t: Table<T>, n: Id, d: T)
    requires forall row :: row in t ==> row.id != n
    ensures Remove(t + [Row(n, d)], n) == t
  {
    var p := (row: Row<T>) => row.id != n;
    WhereAppend(t, [Row(n, d)], p);
    WhereAll(t, p);
    assert [Row(n, d)][1..] == [];
    assert Where([Row(n, d)], p) == [];
  }

  /** The row just appended under a fresh id is the one found under that id. */
  lemma LookupAppended<T>(t: Table<T>, n: Id, d: T)
    requires forall row :: row in t ==> row.id != n
    ensures Lookup(t + [Row(n, d)], n) == Some(d)
  {
    var t' := t + [Row(n, d)];
    forall j | 0 <= j < |t| ensures t'[j].id != n {
      assert t'[j] == t[j] && t[j] in t;
    }
    assert t'[|t|] == Row(n, d);
  }

  /** Appending a row whose key no row has keeps the key unique. */
  lemma AppendKeepsUnique<T, K>(t: Table<T>, key: Row<T> -> K, r: Row<T>)
    requires UniqueBy(t, key)
    requires forall x :: x in t ==> key(x) != key(r)
    ensures UniqueBy(t + [r], key)
  {
    var t' := t + [r];
    forall i, j | 0 <= i < j < |t'| ensures key(t'[i]) != key(t'[j]) {
      assert t'[i] == t[i];
      if j < |t| {
        assert t'[j] == t[j];
      }
    }
  }

  /** Inserting a row under a fresh id keeps the table keyed, with a higher bound. */
  lemma InsertKeyed<T>(t: Table<T>, bound: Id, n: Id, d: T, bound': Id)
    requires Keyed(t, bound)
    requires bound <= n < bound'
    ensures Keyed(t + [Row(n, d)], bound')
  {
    AppendKeepsUnique(t, IdOf, Row(n, d));
  }

  /** Rewriting documents in place, every row keeping its key, keeps the key unique. */
  lemma ReshapedUnique<T, K>(t: Table<T>, t': Table<T>, key: Row<T> -> K)
    requires UniqueBy(t, key)
    requires |t'| == |t| && forall i :: 0 <= i < |t| ==> key(t'[i]) == key(t[i])
    ensures UniqueBy(t', key)
  {
    forall i, j | 0 <= i < j < |t'| ensures key(t'[i]) != key(t'[j]) {
      assert key(t[i]) != key(t[j]);
    }
  }

  /** Rewriting documents in place, every row keeping its id, keeps the table keyed. */
  lemma ReshapedKeyed<T>(t: Table<T>, t': Table<T>, bound: Id)
    requires Keyed(t, bound)
    requires |t'| == |t| && forall i :: 0 <= i < |t| ==> t'[i].id == t[i].id
    ensures Keyed(t', bound)
  {
    ReshapedUnique(t, t', IdOf);
    forall r | r in t' ensures r.id < bound {
      var i :| 0 <= i < |t'| && t'[i] == r;
      assert t[i] in t;
    }
  }

  /** Deleting rows keeps the table keyed. */
  lemma WhereKeyed<T(!new)>(t: Table<T>, p: Row<T> -> bool, bound: Id)
    requires Keyed(t, bound)
    ensures Keyed(Where(t, p), bound)
  {
    WhereKeepsUnique(t, p, IdOf);
  }
}
