/** The graph "p is blocked sending to g[p]": every process has at most one way out. */
module SendGraph {
  import opened Prelude

  type Graph = seq<Option<nat>>

  ghost predicate IsPath(g: Graph, path: seq<nat>) {
    && |path| > 0
    && (forall i :: 0 <= i < |path| ==> path[i] < |g|)
    && (forall i :: 0 <= i < |path| - 1 ==> g[path[i]] == Some(path[i + 1]))
  }

  ghost predicate Reaches(g: Graph, a: nat, b: nat) {
    exists path :: IsPath(g, path) && path[0] == a && path[|path| - 1] == b
  }

  /** A circle of processes that would all wait for each other. */
  ghost predicate HasCycle(g: Graph) {
    exists path :: IsPath(g, path) && |path| > 1 && path[0] == path[|path| - 1]
  }

  ghost predicate Closed(g: Graph) {
    forall p :: 0 <= p < |g| && g[p].Some? ==> g[p].value < |g|
  }

  /** `rank` goes down along every edge. */
  ghost predicate Ranked(g: Graph, rank: seq<nat>) {
    && |rank| == |g| && Closed(g)
    && forall p :: 0 <= p < |g| && g[p].Some? ==> rank[g[p].value] < rank[p]
  }

  lemma PrependEdge(g: Graph, p: nat, b: nat)
    requires p < |g| && g[p].Some? && Reaches(g, g[p].value, b)
    ensures Reaches(g, p, b)
  {
    var path :| IsPath(g, path) && path[0] == g[p].value && path[|path| - 1] == b;
    var longer := [p] + path;
    assert forall i :: 0 < i < |longer| ==> longer[i] == path[i - 1];
    assert IsPath(g, longer);
  }

  lemma ExtendPath(g: Graph, path: seq<nat>, q: nat)
    requires IsPath(g, path) && q < |g| && g[path[|path| - 1]] == Some(q)
    ensures IsPath(g, path + [q])
  {
  }

  lemma SinglePath(g: Graph, p: nat)
    requires p < |g|
    ensures IsPath(g, [p])
  {
  }

  lemma DropEdge(g: Graph, p: nat, b: nat)
    requires p < |g| && p != b && Reaches(g, p, b)
    ensures g[p].Some? && Reaches(g, g[p].value, b)
  {
    var path :| IsPath(g, path) && path[0] == p && path[|path| - 1] == b;
    assert g[path[0]] == Some(path[1]);
    assert IsPath(g, path[1..]) && path[1..][0] == g[p].value;
  }

  lemma ReachesSelf(g: Graph, p: nat)
    requires p < |g|
    ensures Reaches(g, p, p)
  {
    assert IsPath(g, [p]);
  }

  lemma {:induction false} PathDescends(g: Graph, rank: seq<nat>, path: seq<nat>)
    requires Ranked(g, rank) && IsPath(g, path) && |path| > 1
    ensures rank[path[|path| - 1]] < rank[path[0]]
  {
    assert g[path[0]] == Some(path[1]);
    if |path| > 2 {
      assert IsPath(g, path[1..]);
      PathDescends(g, rank, path[1..]);
    }
  }

  lemma RankedHasNoCycle(g: Graph, rank: seq<nat>)
    requires Ranked(g, rank)
    ensures !HasCycle(g)
  {
    forall path | IsPath(g, path) && |path| > 1
      ensures path[0] != path[|path| - 1]
    {
      PathDescends(g, rank, path);
    }
  }

  lemma NoEdgesNoCycle(g: Graph)
    requires forall p :: 0 <= p < |g| ==> g[p].None?
    ensures !HasCycle(g)
  {
    RankedHasNoCycle(g, seq(|g|, _ => 0));
  }

  /** Lift everything that leads to `src` above `dest`: the ranking survives the new edge. */
  lemma RankNewEdge(g: Graph, rank: seq<nat>, src: nat, dest: nat) returns (rank': seq<nat>)
    requires Ranked(g, rank) && src < |g| && dest < |g| && !Reaches(g, dest, src)
    ensures Ranked(g[src := Some(dest)], rank')
  {
    rank' := seq(|g|, x requires 0 <= x < |g| => if Reaches(g, x, src) then rank[x] + rank[dest] + 1 else rank[x]);
    ReachesSelf(g, src);
    var g' := g[src := Some(dest)];
    forall p | 0 <= p < |g| && g'[p].Some?
      ensures g'[p].value < |g| && rank'[g'[p].value] < rank'[p]
    {
      if p != src {
        if Reaches(g, p, src) { DropEdge(g, p, src); }
        if Reaches(g, g[p].value, src) { PrependEdge(g, p, src); }
      }
    }
  }

  lemma WayBackClosesCycle(g: Graph, p: nat, q: nat)
    requires p < |g| && g[p] == Some(q) && Reaches(g[p := None], q, p)
    ensures HasCycle(g)
  {
    var cut := g[p := None];
    var path :| IsPath(cut, path) && path[0] == q && path[|path| - 1] == p;
    var circle := [p] + path;
    assert forall i :: 0 < i < |circle| ==> circle[i] == path[i - 1];
    forall i | 0 <= i < |circle| - 1
      ensures g[circle[i]] == Some(circle[i + 1])
    {
      if i > 0 { assert cut[path[i - 1]] == Some(path[i]); }
    }
    assert IsPath(g, circle);
  }

  /** Without a cycle there is a ranking; `k` bounds the processes that still have an edge. */
  lemma {:induction false} RankingExists(g: Graph, k: nat) returns (rank: seq<nat>)
    requires Closed(g) && !HasCycle(g) && k <= |g|
    requires forall p :: k <= p < |g| ==> g[p].None?
    ensures Ranked(g, rank)
    decreases k
  {
    if k == 0 {
      rank := seq(|g|, _ => 0);
    } else if g[k - 1].None? {
      rank := RankingExists(g, k - 1);
    } else {
      var p, q := k - 1, g[k - 1].value;
      var cut := g[p := None];
      RemovedEdgeClosesNoCycle(g, p);
      rank := RankingExists(cut, k - 1);
      if Reaches(cut, q, p) { WayBackClosesCycle(g, p, q); }
      rank := RankNewEdge(cut, rank, p, q);
      assert cut[p := Some(q)] == g;
    }
  }

  /** A new edge out of an idle process closes a cycle exactly when its target already leads back. */
  lemma NewEdgeClosesCycle(g: Graph, src: nat, dest: nat)
    requires Closed(g) && !HasCycle(g) && src < |g| && dest < |g| && g[src].None?
    ensures HasCycle(g[src := Some(dest)]) <==> Reaches(g, dest, src)
  {
    var g' := g[src := Some(dest)];
    if Reaches(g, dest, src) {
      assert g'[src := None] == g;
      WayBackClosesCycle(g', src, dest);
    } else {
      var rank := RankingExists(g, |g|);
      rank := RankNewEdge(g, rank, src, dest);
      RankedHasNoCycle(g', rank);
    }
  }

  lemma RemovedEdgeClosesNoCycle(g: Graph, p: nat)
    requires p < |g| && !HasCycle(g)
    ensures !HasCycle(g[p := None])
  {
    var g' := g[p := None];
    forall path | IsPath(g', path)
      ensures IsPath(g, path)
    {
      forall i | 0 <= i < |path| - 1
        ensures g[path[i]] == Some(path[i + 1])
      { assert g'[path[i]] == Some(path[i + 1]); }
    }
  }

  /** In an acyclic graph every chain of blocked senders ends at a process that is not sending. */
  lemma {:induction false} ChainEnds(g: Graph, rank: seq<nat>, p: nat) returns (end: nat)
    requires Ranked(g, rank) && p < |g|
    ensures end < |g| && g[end].None? && Reaches(g, p, end)
    decreases rank[p]
  {
    if g[p].None? {
      end := p;
      ReachesSelf(g, p);
    } else {
      end := ChainEnds(g, rank, g[p].value);
      PrependEdge(g, p, end);
    }
  }

  lemma EveryChainEnds(g: Graph, p: nat)
    requires Closed(g) && !HasCycle(g) && p < |g|
    ensures exists end :: 0 <= end < |g| && g[end].None? && Reaches(g, p, end)
  {
    var rank := RankingExists(g, |g|);
    var end := ChainEnds(g, rank, p);
  }
}
