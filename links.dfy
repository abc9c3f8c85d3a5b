/** Parent-held child-id arrays (`Exam.subjects`, `Subject.topics`, `Topic.quizzes`) and the
    dual-write that keeps them in step with the children's own foreign keys: creating a
    child `$push`es its id onto its parent's array, deleting it `$pull`s the id back out. */
module Links {
  import opened Table

  /** `$pull`: every occurrence of `x` removed, the rest kept in order. */
  function Pull(s: seq<Id>, x: Id): (r: seq<Id>)
    ensures forall y :: y in r <==> y in s && y != x
    ensures |r| <= |s|
    ensures x !in s ==> r == s
  {
    if s == [] then []
    else (if s[0] == x then [] else [s[0]]) + Pull(s[1..], x)
  }

  /** `$push` of an id the array does not hold, then `$pull` of it, restores the array. */
  lemma {:induction false} PullUndoesPush(s: seq<Id>, x: Id)
    requires x !in s
    ensures Pull(s + [x], x) == s
  {
    if s == [] {
      assert Pull([x], x) == [] + Pull([x][1..], x);
    } else {
      assert (s + [x])[1..] == s[1..] + [x];
      PullUndoesPush(s[1..], x);
    }
  }

  /** Some child row has id `x` and names `p` as its parent. */
  ghost predicate ChildOf<C(!new)>(cs: Table<C>, up: C -> Id, x: Id, p: Id) {
    exists c :: Row(x, c) in cs && up(c) == p
  }

  /** The dual-write invariant: the array of every parent row lists exactly the child rows
      whose foreign key `up` names that parent. (A child whose parent row does not exist is
      listed nowhere; the invariant says nothing about it.) */
  ghost predicate Consistent<P(!new), C(!new)>(ps: Table<P>, kids: P -> seq<Id>, cs: Table<C>, up: C -> Id) {
    && (forall q, x :: q in ps && x in kids(q.doc) ==> ChildOf(cs, up, x, q.id))
    && (forall q, r :: q in ps && r in cs && up(r.doc) == q.id ==> r.id in kids(q.doc))
  }

  /** Every foreign key a child holds is below `bound`, so no fresh id is referenced yet. */
  ghost predicate RefsBelow<C(!new)>(cs: Table<C>, up: C -> Id, bound: Id) {
    forall r :: r in cs ==> up(r.doc) < bound
  }

  /** No parent lists an id no child has yet. */
  lemma FreshUnlisted<P(!new), C(!new)>(ps: Table<P>, kids: P -> seq<Id>, cs: Table<C>, up: C -> Id, n: Id)
    requires Consistent(ps, kids, cs, up) && IdsBelow(cs, n)
    ensures forall q :: q in ps ==> n !in kids(q.doc)
  {
  }

  /** Creating a child under a fresh id and pushing that id onto its parent's array
      (if the parent exists) keeps the arrays consistent. */
  lemma AddChild<P(!new), C(!new)>(ps: Table<P>, ps': Table<P>, kids: P -> seq<Id>, cs: Table<C>, up: C -> Id, n: Id, c: C)
    requires Consistent(ps, kids, cs, up)
    requires IdsBelow(cs, n)
    requires |ps'| == |ps|
    requires forall i :: 0 <= i < |ps| ==>
      && ps'[i].id == ps[i].id
      && kids(ps'[i].doc) == (if ps[i].id == up(c) then kids(ps[i].doc) + [n] else kids(ps[i].doc))
    ensures Consistent(ps', kids, cs + [Row(n, c)], up)
  {
    var cs' := cs + [Row(n, c)];
    forall q', x | q' in ps' && x in kids(q'.doc) ensures ChildOf(cs', up, x, q'.id) {
      var i :| 0 <= i < |ps'| && ps'[i] == q';
      if x in kids(ps[i].doc) {
        assert ChildOf(cs, up, x, ps[i].id);
        var d :| Row(x, d) in cs && up(d) == ps[i].id;
        assert Row(x, d) in cs';
      } else {
        assert Row(n, c) in cs';
      }
    }
    forall q', r | q' in ps' && r in cs' && up(r.doc) == q'.id ensures r.id in kids(q'.doc) {
      var i :| 0 <= i < |ps'| && ps'[i] == q';
      if r in cs {
        assert r.id in kids(ps[i].doc);
      }
    }
  }

  /** Deleting the child with id `x` and pulling `x` from its parent's array keeps the
      arrays consistent: no other parent lists `x`, since `x` names one parent only. */
  lemma RemoveChild<P(!new), C(!new)>(ps: Table<P>, ps': Table<P>, kids: P -> seq<Id>, cs: Table<C>, up: C -> Id, x: Id, c: C)
    requires Consistent(ps, kids, cs, up)
    requires UniqueIds(cs)
    requires Row(x, c) in cs
    requires |ps'| == |ps|
    requires forall i :: 0 <= i < |ps| ==>
      && ps'[i].id == ps[i].id
      && kids(ps'[i].doc) == (if ps[i].id == up(c) then Pull(kids(ps[i].doc), x) else kids(ps[i].doc))
    ensures Consistent(ps', kids, Remove(cs, x), up)
  {
    var cs' := Remove(cs, x);
    forall q', y | q' in ps' && y in kids(q'.doc) ensures ChildOf(cs', up, y, q'.id) {
      var i :| 0 <= i < |ps'| && ps'[i] == q';
      assert y in kids(ps[i].doc);
      assert ChildOf(cs, up, y, ps[i].id);
      var d :| Row(y, d) in cs && up(d) == ps[i].id;
      if y == x {
        SameKeySameRow(cs, IdOf, Row(x, c), Row(y, d));
        assert false;
      }
      assert Row(y, d) in cs';
    }
    forall q', r | q' in ps' && r in cs' && up(r.doc) == q'.id ensures r.id in kids(q'.doc) {
      var i :| 0 <= i < |ps'| && ps'[i] == q';
      assert r.id in kids(ps[i].doc);
    }
  }

  /** Creating a parent under an id no child references, with an empty array, keeps the
      arrays consistent. */
  lemma AddParent<P(!new), C(!new)>(ps: Table<P>, kids: P -> seq<Id>, cs: Table<C>, up: C -> Id, n: Id, p: P)
    requires Consistent(ps, kids, cs, up)
    requires RefsBelow(cs, up, n)
    requires kids(p) == []
    ensures Consistent(ps + [Row(n, p)], kids, cs, up)
  {
  }

  /** Deleting a parent row alone (no cascade) keeps the arrays of the others consistent. */
  lemma RemoveParent<P(!new), C(!new)>(ps: Table<P>, kids: P -> seq<Id>, cs: Table<C>, up: C -> Id, x: Id)
    requires Consistent(ps, kids, cs, up)
    ensures Consistent(Remove(ps, x), kids, cs, up)
  {
  }

  /** An in-place update of parents that leaves every id and every array as it was keeps
      the arrays consistent. */
  lemma ParentsReshaped<P(!new), C(!new)>(ps: Table<P>, ps': Table<P>, kids: P -> seq<Id>, cs: Table<C>, up: C -> Id)
    requires Consistent(ps, kids, cs, up)
    requires |ps'| == |ps|
    requires forall i :: 0 <= i < |ps| ==> ps'[i].id == ps[i].id && kids(ps'[i].doc) == kids(ps[i].doc)
    ensures Consistent(ps', kids, cs, up)
  {
    forall q', x | q' in ps' && x in kids(q'.doc) ensures ChildOf(cs, up, x, q'.id) {
      var i :| 0 <= i < |ps'| && ps'[i] == q';
      assert x in kids(ps[i].doc);
    }
    forall q', r | q' in ps' && r in cs && up(r.doc) == q'.id ensures r.id in kids(q'.doc) {
      var i :| 0 <= i < |ps'| && ps'[i] == q';
      assert r.id in kids(ps[i].doc);
    }
  }

  /** An in-place update of children that leaves every id and every foreign key as it was
      keeps the arrays consistent. */
  lemma ChildrenReshaped<P(!new), C(!new)>(ps: Table<P>, kids: P -> seq<Id>, cs: Table<C>, cs': Table<C>, up: C -> Id, bound: Id)
    requires Consistent(ps, kids, cs, up) && RefsBelow(cs, up, bound)
    requires |cs'| == |cs|
    requires forall j :: 0 <= j < |cs| ==> cs'[j].id == cs[j].id && up(cs'[j].doc) == up(cs[j].doc)
    ensures Consistent(ps, kids, cs', up) && RefsBelow(cs', up, bound)
  {
    forall r' | r' in cs' ensures up(r'.doc) < bound {
      var j :| 0 <= j < |cs'| && cs'[j] == r';
      assert cs[j] in cs;
    }
    forall q, x | q in ps && x in kids(q.doc) ensures ChildOf(cs', up, x, q.id) {
      var d :| Row(x, d) in cs && up(d) == q.id;
      var j :| 0 <= j < |cs| && cs[j] == Row(x, d);
      assert Row(x, cs'[j].doc) in cs';
    }
    forall q, r' | q in ps && r' in cs' && up(r'.doc) == q.id ensures r'.id in kids(q.doc) {
      var j :| 0 <= j < |cs'| && cs'[j] == r';
      assert cs[j] in cs;
    }
  }
}
