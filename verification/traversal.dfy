/** `Form.collect_questions`: a depth-first walk from a start question that
    stores every question it visits under its id and then walks into each of
    its follow-ups. The walk stores before it recurses but never consults what
    it has stored, so it only terminates on acyclic graphs; the model demands
    acyclicity as a rank that strictly decreases along every edge. */
module Traversal {
  import opened Wrappers
  import opened Questionnaire

  /** The question objects of a program, by id. */
  type Graph = map<nat, Question>

  /** Every id of `ids` is a question of `g` ranked below `bound`. */
  ghost predicate Below(g: Graph, rank: map<nat, nat>, bound: nat, ids: seq<nat>) {
    forall i :: 0 <= i < |ids| ==> ids[i] in g && ids[i] in rank && rank[ids[i]] < bound
  }

  /** Question `id` is ranked, and each of its follow-ups is a question of
      `g` ranked strictly below it. */
  ghost predicate RankedAbove(g: Graph, rank: map<nat, nat>, id: nat)
    requires id in g
  {
    id in rank && Below(g, rank, rank[id], FollowUps(g[id]))
  }

  /** Every follow-up named in `g` is a question of `g`, and `rank` strictly
      decreases from every question to each of its follow-ups. */
  ghost predicate Acyclic(g: Graph, rank: map<nat, nat>) {
    && (forall id :: id in g ==> id in rank)
    && (forall id {:trigger RankedAbove(g, rank, id)} :: id in g ==> RankedAbove(g, rank, id))
  }

  /** The ids the walk from `id` visits: `id` itself and everything the walk
      from each follow-up visits. */
  ghost function Reach(g: Graph, rank: map<nat, nat>, id: nat): (ids: set<nat>)
    requires Acyclic(g, rank) && id in g
    ensures id in ids && ids <= g.Keys
    decreases rank[id] + 1, 0
  {
    assert RankedAbove(g, rank, id);
    {id} + ReachAll(g, rank, rank[id], FollowUps(g[id]))
  }

  ghost function ReachAll(g: Graph, rank: map<nat, nat>, bound: nat, ids: seq<nat>): (r: set<nat>)
    requires Acyclic(g, rank) && Below(g, rank, bound, ids)
    ensures r <= g.Keys
    decreases bound, |ids|
  {
    if ids == [] then {}
    else Reach(g, rank, ids[0]) + ReachAll(g, rank, bound, ids[1..])
  }

  /** `collect_questions(question, memo)`: every id the walk visits ends up
      mapped to its question; entries of `memo` the walk does not visit are
      kept as they were. */
  function Collect(g: Graph, rank: map<nat, nat>, id: nat, memo: Graph): (r: Graph)
    requires Acyclic(g, rank) && id in g
    ensures r.Keys == memo.Keys + Reach(g, rank, id)
    ensures forall x :: x in r ==> r[x] == if x in Reach(g, rank, id) then g[x] else memo[x]
    decreases rank[id] + 1, 0
  {
    assert RankedAbove(g, rank, id);
    CollectAll(g, rank, rank[id], FollowUps(g[id]), memo[id := g[id]])
  }

  /** The walk over a question's follow-ups, one after another in order,
      each walk starting from the memo the previous one left. */
  function CollectAll(g: Graph, rank: map<nat, nat>, bound: nat, ids: seq<nat>, memo: Graph): (r: Graph)
    requires Acyclic(g, rank) && Below(g, rank, bound, ids)
    ensures r.Keys == memo.Keys + ReachAll(g, rank, bound, ids)
    ensures forall x :: x in r ==> r[x] == if x in ReachAll(g, rank, bound, ids) then g[x] else memo[x]
    decreases bound, |ids|
  {
    if ids == [] then memo
    else CollectAll(g, rank, bound, ids[1..], Collect(g, rank, ids[0], memo))
  }

  /** A walk along follow-up edges of `g`: it starts at a question of `g`
      and every step goes to a follow-up of the question before it. */
  ghost predicate IsPath(g: Graph, p: seq<nat>) {
    && |p| > 0
    && p[0] in g
    && (|p| > 1 ==> p[1] in FollowUps(g[p[0]]) && IsPath(g, p[1..]))
  }

  /** `to` can be reached from `from` by following follow-ups. */
  ghost predicate Reachable(g: Graph, from: nat, to: nat) {
    exists p {:trigger IsPath(g, p)} :: IsPath(g, p) && p[0] == from && p[|p| - 1] == to
  }

  /** A follow-up of a question is a question of the graph ranked below it. */
  lemma FollowUpBelow(g: Graph, rank: map<nat, nat>, id: nat, t: nat)
    requires Acyclic(g, rank) && id in g && t in FollowUps(g[id])
    ensures t in g && id in rank && t in rank && rank[t] < rank[id]
  {
    assert RankedAbove(g, rank, id);
    var follow := FollowUps(g[id]);
    var k :| 0 <= k < |follow| && follow[k] == t;
  }

  /** A step to a follow-up in front of a path is a path. */
  lemma PathCons(g: Graph, id: nat, p: seq<nat>)
    requires IsPath(g, p) && id in g && p[0] in FollowUps(g[id])
    ensures IsPath(g, [id] + p)
  {
    assert ([id] + p)[1..] == p;
  }

  /** A question and one of its follow-ups form a path. */
  lemma PathPair(g: Graph, x: nat, t: nat)
    requires x in g && t in g && t in FollowUps(g[x])
    ensures IsPath(g, [x, t])
  {
    assert [x, t][1..] == [t];
  }

  /** A path of two or more questions steps from its first question to a
      follow-up and continues as a path. */
  lemma PathTail(g: Graph, p: seq<nat>)
    requires IsPath(g, p) && |p| > 1
    ensures p[0] in g && p[1] in FollowUps(g[p[0]]) && IsPath(g, p[1..])
  {
  }

  /** Appending to a non-empty sequence keeps its head in front. */
  lemma SnocSplit(p: seq<nat>, t: nat)
    requires |p| > 0
    ensures p + [t] == [p[0]] + (p[1..] + [t])
  {
  }

  /** A path that is extended at the end stays a path when its first
      question steps into the extended rest. */
  lemma PathConsSnoc(g: Graph, p: seq<nat>, t: nat)
    requires |p| > 0 && p[0] in g
    requires IsPath(g, p[1..] + [t]) && (p[1..] + [t])[0] in FollowUps(g[p[0]])
    ensures IsPath(g, p + [t])
  {
    SnocSplit(p, t);
    PathCons(g, p[0], p[1..] + [t]);
  }

  /** A step to a follow-up after the end of a path is a path. */
  lemma {:induction false} PathSnoc(g: Graph, p: seq<nat>, t: nat)
    requires IsPath(g, p) && p[|p| - 1] in g && t in g && t in FollowUps(g[p[|p| - 1]])
    ensures IsPath(g, p + [t])
    decreases |p|
  {
    if |p| == 1 {
      assert p + [t] == [p[0], t];
      PathPair(g, p[0], t);
    } else {
      var x := p[0];
      var rest := p[1..] + [t];
      assert IsPath(g, rest) && x in g && rest[0] in FollowUps(g[x]) by {
        PathTail(g, p);
        var tail := p[1..];
        assert tail[|tail| - 1] == p[|p| - 1];
        PathSnoc(g, tail, t);
      }
      PathConsSnoc(g, p, t);
    }
  }

  /** Everything the walk visits is reachable from where it started. */
  lemma {:induction false} ReachSound(g: Graph, rank: map<nat, nat>, id: nat, x: nat)
    requires Acyclic(g, rank) && id in g && x in Reach(g, rank, id)
    ensures Reachable(g, id, x)
    decreases rank[id] + 1, 0
  {
    if x == id {
      var q := [id];
      assert IsPath(g, q) && q[0] == id && q[|q| - 1] == x;
    } else {
      var follow := FollowUps(g[id]);
      assert RankedAbove(g, rank, id);
      assert Reach(g, rank, id) == {id} + ReachAll(g, rank, rank[id], follow);
      var k := ReachAllSound(g, rank, rank[id], follow, x);
      ReachableCons(g, id, follow[k], x);
    }
  }

  /** Whatever a follow-up of a question reaches, the question reaches too. */
  lemma ReachableCons(g: Graph, id: nat, y: nat, x: nat)
    requires id in g && y in FollowUps(g[id]) && Reachable(g, y, x)
    ensures Reachable(g, id, x)
  {
    var p :| IsPath(g, p) && p[0] == y && p[|p| - 1] == x;
    PathCons(g, id, p);
    var q := [id] + p;
    assert q[0] == id && q[|q| - 1] == x;
  }

  /** Everything the walk from a list of follow-ups visits is reachable from
      one of them; `k` says which. */
  lemma {:induction false} ReachAllSound(g: Graph, rank: map<nat, nat>, bound: nat, ids: seq<nat>, x: nat) returns (k: nat)
    requires Acyclic(g, rank) && Below(g, rank, bound, ids)
    requires x in ReachAll(g, rank, bound, ids)
    ensures k < |ids| && Reachable(g, ids[k], x)
    decreases bound, |ids|
  {
    var tail := ids[1..];
    var head := Reach(g, rank, ids[0]);
    var rest := ReachAll(g, rank, bound, tail);
    assert ReachAll(g, rank, bound, ids) == head + rest;
    if x in head {
      ReachSound(g, rank, ids[0], x);
      k := 0;
    } else {
      assert x in rest;
      var j := ReachAllSound(g, rank, bound, tail, x);
      k := j + 1;
      var p :| IsPath(g, p) && p[0] == tail[j] && p[|p| - 1] == x;
      assert p[0] == ids[k];
    }
  }

  /** The walk from a list visits everything the walk from any member visits. */
  lemma {:induction false} ReachAllCovers(g: Graph, rank: map<nat, nat>, bound: nat, ids: seq<nat>, k: nat)
    requires Acyclic(g, rank) && Below(g, rank, bound, ids)
    requires k < |ids|
    ensures Reach(g, rank, ids[k]) <= ReachAll(g, rank, bound, ids)
    decreases |ids|
  {
    if k > 0 {
      ReachAllCovers(g, rank, bound, ids[1..], k - 1);
    }
  }

  /** The walk visits every question a path from its start leads to. */
  lemma {:induction false} ReachComplete(g: Graph, rank: map<nat, nat>, p: seq<nat>)
    requires Acyclic(g, rank) && IsPath(g, p)
    ensures p[|p| - 1] in Reach(g, rank, p[0])
    decreases |p|
  {
    if |p| > 1 {
      var tail := p[1..];
      ReachComplete(g, rank, tail);
      var follow := FollowUps(g[p[0]]);
      assert p[1] in follow;
      var k :| 0 <= k < |follow| && follow[k] == p[1];
      assert RankedAbove(g, rank, p[0]);
      ReachAllCovers(g, rank, rank[p[0]], follow, k);
    }
  }

  /** The ids collected from `start` are exactly those reachable from it, each
      mapped to its own question; a question reached along two paths is one
      entry. This is what `Form#initialize` indexes. */
  lemma CollectIsReachable(g: Graph, rank: map<nat, nat>, start: nat)
    requires Acyclic(g, rank) && start in g
    ensures var r := Collect(g, rank, start, map[]);
      && start in r
      && (forall x :: x in r <==> Reachable(g, start, x))
      && (forall x :: x in r ==> r[x] == g[x])
  {
    forall x | Reachable(g, start, x) ensures x in Reach(g, rank, start) {
      var p :| IsPath(g, p) && p[0] == start && p[|p| - 1] == x;
      ReachComplete(g, rank, p);
    }
    forall x | x in Reach(g, rank, start) ensures Reachable(g, start, x) {
      ReachSound(g, rank, start, x);
    }
  }

  /** A question reachable from the start has all its follow-ups reachable too. */
  lemma ReachableStep(g: Graph, from: nat, x: nat, t: nat)
    requires Reachable(g, from, x) && x in g && t in g && t in FollowUps(g[x])
    ensures Reachable(g, from, t)
  {
    var p :| IsPath(g, p) && p[0] == from && p[|p| - 1] == x;
    PathSnocReaches(g, p, t);
  }

  /** A path followed by one more step reaches the step's target. */
  lemma PathSnocReaches(g: Graph, p: seq<nat>, t: nat)
    requires IsPath(g, p) && p[|p| - 1] in g && t in g && t in FollowUps(g[p[|p| - 1]])
    ensures Reachable(g, p[0], t)
  {
    PathSnoc(g, p, t);
    SnocEnds(p, t);
    ReachableByPath(g, p + [t]);
  }

  /** Appending keeps the first element and puts the new one last. */
  lemma SnocEnds(p: seq<nat>, t: nat)
    requires |p| > 0
    ensures (p + [t])[0] == p[0] && (p + [t])[|p|] == t && |p + [t]| == |p| + 1
  {
  }

  /** A path reaches its last question from its first. */
  lemma ReachableByPath(g: Graph, q: seq<nat>)
    requires IsPath(g, q)
    ensures Reachable(g, q[0], q[|q| - 1])
  {
  }

  /** Every follow-up of a collected question is collected as well. */
  lemma CollectIsClosed(g: Graph, rank: map<nat, nat>, start: nat)
    requires Acyclic(g, rank) && start in g
    ensures var r := Collect(g, rank, start, map[]);
      forall id, t :: id in r && t in FollowUps(r[id]) ==> t in r
  {
    var r := Collect(g, rank, start, map[]);
    CollectIsReachable(g, rank, start);
    forall id, t | id in r && t in FollowUps(r[id]) ensures t in r {
      assert r[id] == g[id];
      assert Reachable(g, start, id);
      FollowUpBelow(g, rank, id, t);
      ReachableStep(g, start, id, t);
    }
  }
}
