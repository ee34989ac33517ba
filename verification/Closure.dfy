/** The transitive closure of a finite relation by repeated joining. */
module Closure {

  type Relation = set<(string, string)>

  ghost predicate IsPath(r: Relation, path: seq<string>) {
    && |path| >= 2
    && forall i | 0 <= i < |path| - 1 :: (path[i], path[i + 1]) in r
  }

  /** The pair is joined by a non-empty path. */
  ghost predicate IsJoined(r: Relation, a: string, b: string) {
    exists path :: IsPath(r, path) && path[0] == a && path[|path| - 1] == b
  }

  ghost predicate IsTransitive(r: Relation) {
    forall a, b, c | (a, b) in r && (b, c) in r :: (a, c) in r
  }

  function Joins(r: Relation): Relation {
    set p, q | p in r && q in r && q.0 == p.1 :: (p.0, q.1)
  }

  lemma JoinedByPair(r: Relation, a: string, b: string)
    requires (a, b) in r
    ensures IsJoined(r, a, b)
  {
    assert IsPath(r, [a, b]);
  }

  lemma JoinedTransitive(r: Relation, a: string, b: string, c: string)
    requires IsJoined(r, a, b) && IsJoined(r, b, c)
    ensures IsJoined(r, a, c)
  {
    var p :| IsPath(r, p) && p[0] == a && p[|p| - 1] == b;
    var q :| IsPath(r, q) && q[0] == b && q[|q| - 1] == c;
    var path := p + q[1..];
    forall i | 0 <= i < |path| - 1
      ensures (path[i], path[i + 1]) in r
    {
      if i >= |p| - 1 {
        var j := i - (|p| - 1);
        assert (q[j], q[j + 1]) in r;
        assert path[i] == q[j] && path[i + 1] == q[j + 1];
      } else {
        assert (p[i], p[i + 1]) in r;
      }
    }
    assert IsPath(r, path);
  }

  /** A transitive relation that contains the edges contains all joined pairs. */
  lemma {:induction false} TransitiveContains(r: Relation, t: Relation, path: seq<string>)
    requires r <= t && IsTransitive(t) && IsPath(r, path)
    ensures (path[0], path[|path| - 1]) in t
    decreases |path|
  {
    assert (path[0], path[1]) in r;
    if |path| > 2 {
      var rest := path[1..];
      forall i | 0 <= i < |rest| - 1
        ensures (rest[i], rest[i + 1]) in r
      {
        assert (path[i + 1], path[i + 2]) in r;
      }
      TransitiveContains(r, t, rest);
    }
  }

  ghost predicate IsClosureOf(t: Relation, r: Relation) {
    && (forall a, b :: (a, b) in t <==> IsJoined(r, a, b))
    && IsTransitive(t) && r <= t
    && forall t' | r <= t' && IsTransitive(t') :: t <= t'
  }

  /** All values that occur in a relation, paired with each other. */
  function Field(r: Relation): Relation {
    set p, q | p in r && q in r :: (p.0, q.1)
  }

  class MuranoState {
    var connected: Relation

    method TransitiveClosure()
      modifies this
      ensures IsClosureOf(connected, old(connected))
    {
      hide IsJoined, Joins, Field, IsClosureOf;
      ghost var r := connected;
      var closure := connected;
      FieldContains(r);
      forall a, b | (a, b) in closure
        ensures IsJoined(r, a, b)
      {
        JoinedByPair(r, a, b);
      }
      while true
        invariant connected == r && r <= closure <= Field(r)
        invariant forall a, b | (a, b) in closure :: IsJoined(r, a, b)
        decreases Field(r) - closure
      {
        var newRelations := Joins(closure);
        JoinsAreJoined(r, closure);
        var untilNow := closure + newRelations;
        if untilNow == closure {
          FixpointIsClosure(r, closure);
          connected := closure;
          break;
        }
        assert Field(r) - untilNow < Field(r) - closure by {
          var p :| p in untilNow && p !in closure;
          assert p in Field(r) - closure;
        }
        closure := untilNow;
      }
    }
  }

  lemma FieldContains(r: Relation)
    ensures r <= Field(r)
  {
    forall p | p in r
      ensures p in Field(r)
    {
      assert p == (p.0, p.1);
    }
  }

  lemma JoinsAreJoined(r: Relation, closure: Relation)
    requires closure <= Field(r) && forall a, b | (a, b) in closure :: IsJoined(r, a, b)
    ensures Joins(closure) <= Field(r) && forall a, b | (a, b) in Joins(closure) :: IsJoined(r, a, b)
  {
    hide IsJoined;
    forall a, b | (a, b) in Joins(closure)
      ensures (a, b) in Field(r) && IsJoined(r, a, b)
    {
      var p, q :| p in closure && q in closure && q.0 == p.1 && (a, b) == (p.0, q.1);
      assert (p.0, p.1) in closure && (q.0, q.1) in closure;
      JoinedTransitive(r, p.0, p.1, q.1);
    }
  }

  lemma FixpointIsClosure(r: Relation, t: Relation)
    requires r <= t && Joins(t) <= t && forall a, b | (a, b) in t :: IsJoined(r, a, b)
    ensures IsClosureOf(t, r)
  {
    forall a, b, c | (a, b) in t && (b, c) in t
      ensures (a, c) in t
    {
      assert (a, c) in Joins(t);
    }
    forall t', a, b | r <= t' && IsTransitive(t') && IsJoined(r, a, b)
      ensures (a, b) in t'
    {
      var path :| IsPath(r, path) && path[0] == a && path[|path| - 1] == b;
      TransitiveContains(r, t', path);
    }
    forall t' | r <= t' && IsTransitive(t')
      ensures t <= t'
    {
      forall p | p in t
        ensures p in t'
      {
        assert IsJoined(r, p.0, p.1);
      }
    }
  }
}
