/** When giving one node of a graph other targets closes a cycle. */
module CycleClosing {
  import opened Graphs

  /** A walk to id stays a walk, up to its first visit of id, when only id's own edges change. */
  lemma {:induction false} WalkTo(e: Edges, f: Edges, w: seq<Id>, id: Id)
    requires forall a, b :: a != id ==> ((a, b) in e <==> (a, b) in f)
    requires IsWalk(e, w) && w[|w| - 1] == id
    ensures Reaches(f, w[0], id)
    decreases |w|
  {
    if w[0] == id {
      ReachesSelf(f, id);
    } else {
      assert (w[0], w[1]) in e;
      WalkTo(e, f, w[1..], id);
      ReachesSelf(f, w[0]);
      ReachesExtend(f, w[0], w[0], w[1]);
      ReachesTrans(f, w[0], w[1], id);
    }
  }

  /** A cycle with id on it leads from one of id's targets back to id. */
  lemma CycleThrough(e: Edges, c: seq<Id>, i: nat) returns (d: Id)
    requires IsCycle(e, c) && i < |c| - 1
    ensures (c[i], d) in e && Reaches(e, d, c[i])
  {
    d := c[i + 1];
    assert WalkFromTo(e, c[i + 1..], d, c[0]);
    assert WalkFromTo(e, c[..i + 1], c[0], c[i]);
    ReachesTrans(e, d, c[0], c[i]);
  }

  /** Giving one node new targets closes a cycle exactly when one of them leads back to it. */
  lemma RetargetAcyclicIff(g: Graph, id: Id, targets: seq<Id>)
    requires Acyclic(EdgesOf(g))
    ensures Acyclic(EdgesOf(g[id := targets])) <==> forall d :: d in targets ==> !Reaches(EdgesOf(g), d, id)
  {
    var e, f := EdgesOf(g), EdgesOf(g[id := targets]);
    forall d | d in targets && Reaches(e, d, id) ensures !Acyclic(f) {
      var w :| WalkFromTo(e, w, d, id);
      WalkTo(e, f, w, id);
      var v :| WalkFromTo(f, v, d, id);
      assert (id, d) in f;
      assert IsCycle(f, [id] + v);
    }
    if !Acyclic(f) {
      var c :| IsCycle(f, c);
      if forall i :: 0 <= i < |c| - 1 ==> c[i] != id {
        assert IsCycle(e, c);
        assert false;
      } else {
        var i :| 0 <= i < |c| - 1 && c[i] == id;
        var d := CycleThrough(f, c, i);
        var w :| WalkFromTo(f, w, d, id);
        WalkTo(f, e, w, id);
        assert d in targets;
      }
    }
  }

  /** Below a node that reaches no cycle nothing leads back to it, in a smaller graph neither. */
  lemma AcyclicFromOutside(e: Edges, f: Edges, id: Id, d: Id)
    requires (forall a, b :: (a, b) in e ==> (a, b) in f) && AcyclicFrom(f, id) && (id, d) in f
    ensures !Reaches(e, d, id)
  {
    if Reaches(e, d, id) {
      var w :| WalkFromTo(e, w, d, id);
      assert IsCycle(f, [id] + w);
      ReachesSelf(f, id);
    }
  }
}
