/** Bounded chains: how deep one can go below a node of a dependency graph, which is what every
    dependency checker of the project comes down to. */
module Chains {
  import opened Graphs

  ghost predicate Closed(g: Graph) {
    forall a, b :: a in g && b in g[a] ==> b in g
  }

  /** Every walk from t stays among the keys of g and has fewer than k edges
      (see SettledMeaning); as a recursion, everything t depends on settles one step earlier. */
  ghost predicate Settled(g: Graph, t: Id, k: nat)
    decreases k
  {
    k > 0 && t in g && forall d :: d in g[t] ==> Settled(g, d, k - 1)
  }

  lemma {:induction false} SettledGrows(g: Graph, t: Id, k: nat, m: nat)
    requires Settled(g, t, k) && k <= m
    ensures Settled(g, t, m)
    decreases k
  {
    forall d | d in g[t] ensures Settled(g, d, m - 1) {
      SettledGrows(g, d, k - 1, m - 1);
    }
  }

  lemma {:induction false} SettledWalk(g: Graph, k: nat, w: seq<Id>)
    requires IsWalk(EdgesOf(g), w) && Settled(g, w[0], k)
    ensures |w| <= k
    ensures w[|w| - 1] in g
    decreases |w|
  {
    if |w| > 1 {
      assert (w[0], w[1]) in EdgesOf(g);
      SettledWalk(g, k - 1, w[1..]);
    }
  }

  /** A node that is not settled starts a walk that is too long or leaves the keys. */
  lemma {:induction false} UnsettledWalk(g: Graph, t: Id, k: nat) returns (w: seq<Id>)
    requires !Settled(g, t, k)
    ensures IsWalk(EdgesOf(g), w) && w[0] == t
    ensures |w| == k + 1 || (|w| <= k && w[|w| - 1] !in g)
    decreases k
  {
    if k == 0 || t !in g {
      w := [t];
    } else {
      var d :| d in g[t] && !Settled(g, d, k - 1);
      var v := UnsettledWalk(g, d, k - 1);
      w := [t] + v;
      assert (t, d) in EdgesOf(g);
    }
  }

  /** The meaning of Settled in terms of walks, in both directions. */
  lemma SettledMeaning(g: Graph, t: Id, k: nat)
    ensures Settled(g, t, k) <==>
            (forall w :: IsWalk(EdgesOf(g), w) && w[0] == t ==> |w| <= k && w[|w| - 1] in g)
  {
    if Settled(g, t, k) {
      forall w | IsWalk(EdgesOf(g), w) && w[0] == t ensures |w| <= k && w[|w| - 1] in g {
        SettledWalk(g, k, w);
      }
    } else {
      var w := UnsettledWalk(g, t, k);
    }
  }

  /** Everything reachable from t is a key of g. */
  ghost predicate PresentFrom(g: Graph, t: Id) {
    forall n :: Reaches(EdgesOf(g), t, n) ==> n in g
  }

  /** With a bound of at least the number of keys, being settled is exactly: everything
      reachable is present and no cycle is reachable. */
  lemma SettledIffSound(g: Graph, t: Id, k: nat)
    requires k >= |g|
    ensures Settled(g, t, k) <==> PresentFrom(g, t) && AcyclicFrom(EdgesOf(g), t)
  {
    var e := EdgesOf(g);
    if Settled(g, t, k) {
      SettledPresent(g, t, k);
      SettledAcyclic(g, t, k);
    } else if PresentFrom(g, t) && AcyclicFrom(e, t) {
      var w := UnsettledWalk(g, t, k);
      AcyclicWalkDistinct(e, w);
      forall x | x in w ensures x in g.Keys {
        var i :| 0 <= i < |w| && w[i] == x;
        assert WalkFromTo(e, w[..i + 1], t, x);
      }
      DistinctFits(w, g.Keys);
    }
  }

  lemma SettledPresent(g: Graph, t: Id, k: nat)
    requires Settled(g, t, k)
    ensures PresentFrom(g, t)
  {
    forall n | Reaches(EdgesOf(g), t, n) ensures n in g {
      var w :| WalkFromTo(EdgesOf(g), w, t, n);
      SettledWalk(g, k, w);
    }
  }

  lemma SettledAcyclic(g: Graph, t: Id, k: nat)
    requires Settled(g, t, k)
    ensures AcyclicFrom(EdgesOf(g), t)
  {
    var e := EdgesOf(g);
    forall c | IsCycle(e, c) ensures !Reaches(e, t, c[0]) {
      if Reaches(e, t, c[0]) {
        var w :| WalkFromTo(e, w, t, c[0]);
        var v := Pump(e, w, c, k);
        SettledWalk(g, k, v);
      }
    }
  }

  /** Going round a reachable cycle gives walks of any length. */
  lemma {:induction false} Pump(e: Edges, w: seq<Id>, c: seq<Id>, k: nat) returns (v: seq<Id>)
    requires IsWalk(e, w) && IsCycle(e, c) && w[|w| - 1] == c[0]
    ensures IsWalk(e, v) && v[0] == w[0] && v[|v| - 1] == c[0] && |v| > k
    decreases k
  {
    if k == 0 {
      v := w;
    } else {
      var u := Pump(e, w, c, k - 1);
      Join(e, u, c);
      v := u + c[1..];
    }
  }

  /** All keys are settled by some bound exactly when no dependency is missing and there is no cycle. */
  lemma AllSettledIffSound(g: Graph, k: nat)
    requires k >= |g|
    ensures (forall t :: t in g ==> Settled(g, t, k)) <==> Closed(g) && Acyclic(EdgesOf(g))
  {
    var e := EdgesOf(g);
    if forall t :: t in g ==> Settled(g, t, k) {
      forall a, b | a in g && b in g[a] ensures b in g {
        assert Settled(g, a, k);
      }
      forall c ensures !IsCycle(e, c) {
        if IsCycle(e, c) {
          assert (c[0], c[1]) in e;
          SettledAcyclic(g, c[0], k);
          ReachesSelf(e, c[0]);
        }
      }
    }
    if Closed(g) && Acyclic(e) {
      forall t | t in g ensures Settled(g, t, k) {
        forall n | Reaches(e, t, n) ensures n in g {
          var w :| WalkFromTo(e, w, t, n);
          ClosedContains(e, g.Keys, w);
        }
        SettledIffSound(g, t, k);
      }
    }
  }

  /** t has a chain of k dependency edges below it and none longer. */
  ghost predicate LongestChain(e: Edges, t: Id, k: nat) {
    (exists w :: IsWalk(e, w) && w[0] == t && |w| == k + 1) &&
    (forall w :: IsWalk(e, w) && w[0] == t ==> |w| <= k + 1)
  }

  lemma SettledLevel(g: Graph, t: Id, k: nat)
    requires Settled(g, t, k + 1) && !Settled(g, t, k)
    ensures LongestChain(EdgesOf(g), t, k)
  {
    SettledMeaning(g, t, k + 1);
    SettledMeaning(g, t, k);
    var w := UnsettledWalk(g, t, k);
  }

  lemma LongestChainUnique(e: Edges, t: Id, a: nat, b: nat)
    requires LongestChain(e, t, a) && LongestChain(e, t, b)
    ensures a == b
  {}
}
