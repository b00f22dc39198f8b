/** `Graph.bellman_ford` of the distance-vector demonstration: a map from
    node to distance that starts at "infinity" (the sum of all edge weights
    plus one) and 0 at the source, then one relaxation pass over every
    directed edge per node. The distances are returned instead of printed. */
module BellmanFord {
  import opened Wrappers

  /** A directed edge `(src, dst)` of the edge dictionary and its weight. */
  datatype Edge<N> = Edge(src: N, dst: N, weight: int)

  /** `Graph`: the node set and the edge dictionary in iteration order. */
  datatype Graph<N> = Graph(nodes: set<N>, edges: seq<Edge<N>>)

  /** The sum of the weights, `sum(self.edges.values())` for a whole graph. */
  function TotalWeight<N>(es: seq<Edge<N>>): int
    decreases |es|
  {
    if es == [] then 0 else TotalWeight(es[..|es| - 1]) + es[|es| - 1].weight
  }

  predicate NonNegative<N>(es: seq<Edge<N>>)
  {
    forall i :: 0 <= i < |es| ==> es[i].weight >= 0
  }

  /** The distance that stands for "unreached". */
  function Infinity<N>(g: Graph<N>): int
  {
    TotalWeight(g.edges) + 1
  }

  /** The dictionary before the first pass: every node at infinity, then the
      source (a node or not) at 0. */
  function Initial<N>(g: Graph<N>, source: N): (d: map<N, int>)
    ensures d.Keys == g.nodes + {source}
    ensures d[source] == 0
    ensures forall n :: n in d && n != source ==> d[n] == Infinity(g)
  {
    (map n | n in g.nodes :: Infinity(g))[source := 0]
  }

  /** Both ends of each of the first `j` edges are keys of the dictionary. */
  predicate ClosedUpTo<N>(es: seq<Edge<N>>, j: nat, keys: set<N>)
    requires j <= |es|
  {
    forall i :: 0 <= i < j ==> es[i].src in keys && es[i].dst in keys
  }

  predicate Closed<N>(es: seq<Edge<N>>, keys: set<N>)
  {
    ClosedUpTo(es, |es|, keys)
  }

  /** One relaxation: the distance of `e.dst` becomes the smaller of itself
      and the distance of `e.src` plus the weight; nothing else changes. (An
      edge with an end that is not a key makes the source raise KeyError;
      the method reports that before this function is ever consulted, and
      here such an edge changes nothing.) */
  function Relax<N>(d: map<N, int>, e: Edge<N>): (r: map<N, int>)
    ensures r.Keys == d.Keys
    ensures e.src in d && e.dst in d ==>
              && r[e.dst] <= d[e.dst] && r[e.dst] <= d[e.src] + e.weight
              && (r[e.dst] == d[e.dst] || r[e.dst] == d[e.src] + e.weight)
    ensures forall x :: x in d && x != e.dst ==> r[x] == d[x]
  {
    if e.src in d && e.dst in d && d[e.src] + e.weight < d[e.dst] then d[e.dst := d[e.src] + e.weight] else d
  }

  lemma RelaxKeyed<N>(d: map<N, int>, e: Edge<N>)
    requires e.src in d && e.dst in d
    ensures Relax(d, e) == if d[e.src] + e.weight < d[e.dst] then d[e.dst := d[e.src] + e.weight] else d
  {
  }

  /** An edge with an end that is not a key leaves the edges unclosed. */
  lemma OpenAt<N>(es: seq<Edge<N>>, j: nat, keys: set<N>)
    requires j < |es| && !(es[j].src in keys && es[j].dst in keys)
    ensures !Closed(es, keys)
  {
  }

  lemma ClosedStep<N>(es: seq<Edge<N>>, j: nat, keys: set<N>)
    requires j < |es| && ClosedUpTo(es, j, keys) && es[j].src in keys && es[j].dst in keys
    ensures ClosedUpTo(es, j + 1, keys)
  {
  }

  /** The dictionary after relaxing the first `j` edges in order. */
  function PassUpTo<N>(d: map<N, int>, es: seq<Edge<N>>, j: nat): (r: map<N, int>)
    requires j <= |es|
    ensures r.Keys == d.Keys
    decreases j
  {
    if j == 0 then d else Relax(PassUpTo(d, es, j - 1), es[j - 1])
  }

  lemma PassUpToNext<N>(d: map<N, int>, es: seq<Edge<N>>, j: nat)
    requires j < |es|
    ensures PassUpTo(d, es, j + 1) == Relax(PassUpTo(d, es, j), es[j])
  {
  }

  /** One pass over all the edges. */
  function Pass<N>(d: map<N, int>, es: seq<Edge<N>>): (r: map<N, int>)
    ensures r.Keys == d.Keys
  {
    PassUpTo(d, es, |es|)
  }

  /** `k` passes over all the edges. */
  function Passes<N>(d: map<N, int>, es: seq<Edge<N>>, k: nat): (r: map<N, int>)
    ensures r.Keys == d.Keys
  {
    if k == 0 then d else Pass(Passes(d, es, k - 1), es)
  }

  /** The inner loop of `bellman_ford`: relax every edge once, in order.
      KeyError (`None`) at the first edge with an end that is not a key. */
  method RelaxEdges<N>(d: map<N, int>, es: seq<Edge<N>>) returns (r: Option<map<N, int>>)
    ensures r.None? <==> !Closed(es, d.Keys)
    ensures r.Some? ==> r.value == Pass(d, es)
  {
    var distance := d;
    var j := 0;
    while j < |es|
      invariant j <= |es|
      invariant ClosedUpTo(es, j, d.Keys)
      invariant distance == PassUpTo(d, es, j)
    {
      var e := es[j];
      if e.src !in distance || e.dst !in distance {
        OpenAt(es, j, d.Keys);
        return None;
      }
      ClosedStep(es, j, d.Keys);
      RelaxKeyed(distance, e);
      PassUpToNext(d, es, j);
      if distance[e.src] + e.weight < distance[e.dst] {
        distance := distance[e.dst := distance[e.src] + e.weight];
      }
      j := j + 1;
    }
    return Some(distance);
  }

  /** `bellman_ford(source)`: KeyError (`None`) when a pass meets an edge
      whose end is neither a node nor the source; otherwise the dictionary
      after one pass per node. */
  method BellmanFord<N>(g: Graph<N>, source: N) returns (r: Option<map<N, int>>)
    ensures r.None? <==> |g.nodes| > 0 && !Closed(g.edges, g.nodes + {source})
    ensures r.Some? ==> r.value == Passes(Initial(g, source), g.edges, |g.nodes|)
  {
    var es := g.edges;
    var distance := InitialDistances(g, source);
    ghost var start := distance;
    var passes := 0;
    while passes < |g.nodes|
      invariant passes <= |g.nodes|
      invariant passes > 0 ==> Closed(es, start.Keys)
      invariant distance == Passes(start, es, passes)
    {
      var next := RelaxEdges(distance, es);
      if next.None? {
        return None;
      }
      PassesNext(start, es, passes);
      distance := next.value;
      passes := passes + 1;
    }
    return Some(distance);
  }

  /** `distance = {n: inf for n in nodes}`, then `distance[source] = 0`. */
  method InitialDistances<N>(g: Graph<N>, source: N) returns (distance: map<N, int>)
    ensures distance == Initial(g, source)
  {
    distance := map n | n in g.nodes :: TotalWeight(g.edges) + 1;
    distance := distance[source := 0];
  }

  // ---------------------------------------------------------------- passes

  lemma PassesNext<N>(d: map<N, int>, es: seq<Edge<N>>, k: nat)
    ensures Passes(d, es, k + 1) == Pass(Passes(d, es, k), es)
  {
  }

  lemma {:induction false} TotalWeightAppend<N>(a: seq<Edge<N>>, b: seq<Edge<N>>)
    ensures TotalWeight(a + b) == TotalWeight(a) + TotalWeight(b)
    decreases |b|
  {
    if b == [] {
      assert a + b == a;
    } else {
      TotalWeightAppend(a, b[..|b| - 1]);
      assert (a + b)[..|a + b| - 1] == a + b[..|b| - 1];
    }
  }

  lemma {:induction false} TotalWeightNonNegative<N>(es: seq<Edge<N>>)
    requires NonNegative(es)
    ensures TotalWeight(es) >= 0
    decreases |es|
  {
    if es != [] {
      TotalWeightNonNegative(es[..|es| - 1]);
    }
  }

  /** Within a pass a distance only goes down. */
  lemma {:induction false} PassUpToMono<N>(d: map<N, int>, es: seq<Edge<N>>, i: nat, j: nat, x: N)
    requires i <= j <= |es| && x in d
    ensures PassUpTo(d, es, j)[x] <= PassUpTo(d, es, i)[x]
    decreases j - i
  {
    if i < j {
      PassUpToMono(d, es, i + 1, j, x);
      RelaxStep(d, es, i, x);
    }
  }

  lemma RelaxStep<N>(d: map<N, int>, es: seq<Edge<N>>, i: nat, x: N)
    requires i < |es| && x in d
    ensures PassUpTo(d, es, i + 1)[x] <= PassUpTo(d, es, i)[x]
  {
    PassUpToNext(d, es, i);
  }

  /** After a pass, every edge's target is at most the source's distance
      before the pass plus the weight. */
  lemma PassEdge<N>(d: map<N, int>, es: seq<Edge<N>>, i: nat)
    requires i < |es| && es[i].src in d && es[i].dst in d
    ensures Pass(d, es)[es[i].dst] <= d[es[i].src] + es[i].weight
  {
    PassUpToMono(d, es, 0, i, es[i].src);
    PassUpToMono(d, es, i + 1, |es|, es[i].dst);
  }

  lemma PassesStep<N>(d: map<N, int>, es: seq<Edge<N>>, k: nat, x: N)
    requires k > 0 && x in d
    ensures Passes(d, es, k)[x] <= Passes(d, es, k - 1)[x]
  {
    PassUpToMono(Passes(d, es, k - 1), es, 0, |es|, x);
  }

  /** Distances never increase from one pass to a later one. */
  lemma {:induction false} PassesMono<N>(d: map<N, int>, es: seq<Edge<N>>, k1: nat, k2: nat, x: N)
    requires k1 <= k2 && x in d
    ensures Passes(d, es, k2)[x] <= Passes(d, es, k1)[x]
    decreases k2 - k1
  {
    if k1 < k2 {
      PassesMono(d, es, k1 + 1, k2, x);
      PassesStep(d, es, k1 + 1, x);
    }
  }

  // ---------------------------------------------------------------- walks

  /** `p` is a walk along directed edges from `s` to `t`. */
  ghost predicate IsWalk<N>(s: N, p: seq<Edge<N>>, t: N)
  {
    if p == [] then s == t
    else p[0].src == s && p[|p| - 1].dst == t && forall i :: 0 < i < |p| ==> p[i].src == p[i - 1].dst
  }

  ghost predicate InGraph<N>(p: seq<Edge<N>>, es: seq<Edge<N>>)
  {
    forall i :: 0 <= i < |p| ==> p[i] in es
  }

  /** The nodes a walk from `s` visits, in order. */
  function Visits<N>(s: N, p: seq<Edge<N>>): (v: seq<N>)
    ensures |v| == |p| + 1 && v[0] == s
    ensures forall i :: 0 < i < |v| ==> v[i] == p[i - 1].dst
  {
    [s] + seq(|p|, i requires 0 <= i < |p| => p[i].dst)
  }

  lemma WalkSnoc<N>(s: N, p: seq<Edge<N>>, e: Edge<N>)
    requires IsWalk(s, p, e.src)
    ensures IsWalk(s, p + [e], e.dst)
    ensures TotalWeight(p + [e]) == TotalWeight(p) + e.weight
  {
    assert (p + [e])[..|p|] == p;
  }

  lemma InGraphNonNegative<N>(p: seq<Edge<N>>, es: seq<Edge<N>>)
    requires InGraph(p, es) && NonNegative(es)
    ensures NonNegative(p)
  {
    forall i | 0 <= i < |p| ensures p[i].weight >= 0 {
      var k :| 0 <= k < |es| && es[k] == p[i];
    }
  }

  /** The nodes a walk visits are the ends of its edges. */
  lemma WalkNodes<N>(s: N, p: seq<Edge<N>>, x: N)
    requires IsWalk(s, p, x)
    ensures forall k :: 0 <= k < |p| ==> p[k].src == Visits(s, p)[k] && p[k].dst == Visits(s, p)[k + 1]
    ensures Visits(s, p)[|p|] == x
  {
  }

  /** Consecutive edges of the cut walk still meet. */
  lemma CutJoins<N>(v: seq<N>, p: seq<Edge<N>>, i: nat, j: nat)
    requires |v| == |p| + 1 && i < j <= |p| && v[i] == v[j]
    requires forall k :: 0 <= k < |p| ==> p[k].src == v[k] && p[k].dst == v[k + 1]
    ensures forall k :: 0 < k < |p[..i] + p[j..]| ==> (p[..i] + p[j..])[k].src == (p[..i] + p[j..])[k - 1].dst
  {
    var c := p[..i] + p[j..];
    forall k | 0 < k < |c| ensures c[k].src == c[k - 1].dst {
      if k < i {
        assert c[k] == p[k] && c[k - 1] == p[k - 1];
      } else if k == i {
        assert c[k] == p[j] && c[k - 1] == p[i - 1];
      } else {
        assert c[k] == p[k - i + j] && c[k - 1] == p[k - 1 - i + j];
      }
    }
  }

  /** Cutting the closed stretch between two visits of the same node leaves
      a shorter walk between the same ends that weighs no more. */
  lemma CutWalk<N>(s: N, p: seq<Edge<N>>, x: N, i: nat, j: nat)
    requires IsWalk(s, p, x) && NonNegative(p)
    requires i < j <= |p| && Visits(s, p)[i] == Visits(s, p)[j]
    ensures IsWalk(s, p[..i] + p[j..], x)
    ensures TotalWeight(p[..i] + p[j..]) <= TotalWeight(p)
  {
    var v := Visits(s, p);
    var c := p[..i] + p[j..];
    WalkNodes(s, p, x);
    CutJoins(v, p, i, j);
    if c != [] {
      assert c[0].src == s by {
        if i == 0 { assert c[0] == p[j]; }
      }
      assert c[|c| - 1].dst == x by {
        if j == |p| { assert c[|c| - 1] == p[i - 1]; }
      }
    }
    CutWeight(p, i, j);
  }

  /** Leaving out a stretch of non-negative edges does not add weight. */
  lemma CutWeight<N>(p: seq<Edge<N>>, i: nat, j: nat)
    requires NonNegative(p) && i <= j <= |p|
    ensures TotalWeight(p[..i] + p[j..]) <= TotalWeight(p)
  {
    var a, b, c := p[..i], p[i..j], p[j..];
    assert p == (a + b) + c;
    TotalWeightAppend(a + b, c);
    TotalWeightAppend(a, b);
    TotalWeightAppend(a, c);
    assert NonNegative(b) by {
      forall k | 0 <= k < |b| ensures b[k].weight >= 0 {
        assert b[k] == p[i + k];
      }
    }
    TotalWeightNonNegative(b);
  }

  lemma {:induction false} DistinctCount<N>(v: seq<N>)
    requires forall i, j :: 0 <= i < j < |v| ==> v[i] != v[j]
    ensures |set x | x in v| == |v|
    decreases |v|
  {
    if v != [] {
      var init := v[..|v| - 1];
      DistinctCount(init);
      assert (set x | x in v) == (set x | x in init) + {v[|v| - 1]};
    }
  }

  lemma {:induction false} SubsetCard<N>(a: set<N>, b: set<N>)
    requires a <= b
    ensures |a| <= |b|
    decreases a
  {
    if a != {} {
      var y :| y in a;
      SubsetCard(a - {y}, b - {y});
    }
  }

  /** A walk whose nodes are all keys can be replaced by one with fewer
      edges than there are keys, between the same ends and no heavier. */
  lemma {:induction false} Shorten<N>(s: N, p: seq<Edge<N>>, x: N, es: seq<Edge<N>>, keys: set<N>) returns (q: seq<Edge<N>>)
    requires IsWalk(s, p, x) && InGraph(p, es) && NonNegative(es)
    requires s in keys && Closed(es, keys)
    ensures IsWalk(s, q, x) && InGraph(q, es) && TotalWeight(q) <= TotalWeight(p)
    ensures |q| < |keys|
    decreases |p|
  {
    var v := Visits(s, p);
    if i, j :| 0 <= i < j < |v| && v[i] == v[j] {
      InGraphNonNegative(p, es);
      CutWalk(s, p, x, i, j);
      q := Shorten(s, p[..i] + p[j..], x, es, keys);
    } else {
      forall k | 0 <= k < |v| ensures v[k] in keys {
        if k > 0 {
          var m :| 0 <= m < |es| && es[m] == p[k - 1];
        }
      }
      DistinctCount(v);
      SubsetCard((set y | y in v), keys);
      q := p;
    }
  }

  /** After `k` passes no node is further than any walk of at most `k` edges
      to it from a key `s`, counting from `s`'s starting distance. */
  lemma {:induction false} UpperBound<N>(d: map<N, int>, es: seq<Edge<N>>, k: nat, s: N, p: seq<Edge<N>>, x: N)
    requires Closed(es, d.Keys) && s in d
    requires IsWalk(s, p, x) && InGraph(p, es) && |p| <= k
    ensures x in d && Passes(d, es, k)[x] <= d[s] + TotalWeight(p)
    decreases k
  {
    if p == [] {
      PassesMono(d, es, 0, k, s);
    } else {
      var init, e := p[..|p| - 1], p[|p| - 1];
      assert p == init + [e];
      assert IsWalk(s, init, e.src) by {
        if init != [] { assert init[|init| - 1] == p[|p| - 2]; }
      }
      UpperBound(d, es, k - 1, s, init, e.src);
      var i :| 0 <= i < |es| && es[i] == e;
      PassEdge(Passes(d, es, k - 1), es, i);
      WalkSnoc(s, init, e);
    }
  }

  // ---------------------------------------------------------------- what a distance means

  /** Every distance is infinity or the weight of a walk to it. */
  ghost predicate Witnessed<N(!new)>(d: map<N, int>, es: seq<Edge<N>>, s: N, inf: int)
  {
    forall x {:trigger Reached(d, es, s, inf, x)} :: x in d ==> Reached(d, es, s, inf, x)
  }

  /** The distance of `x` is infinity or the weight of a walk to it. */
  ghost predicate Reached<N(!new)>(d: map<N, int>, es: seq<Edge<N>>, s: N, inf: int, x: N)
    requires x in d
  {
    d[x] == inf || exists p :: IsWalk(s, p, x) && InGraph(p, es) && TotalWeight(p) == d[x]
  }

  predicate Bounded<N>(d: map<N, int>, inf: int)
  {
    forall x :: x in d ==> d[x] <= inf
  }

  lemma RelaxWitnessed<N(!new)>(d: map<N, int>, es: seq<Edge<N>>, s: N, inf: int, i: nat)
    requires i < |es| && NonNegative(es)
    requires Witnessed(d, es, s, inf) && Bounded(d, inf)
    ensures Witnessed(Relax(d, es[i]), es, s, inf) && Bounded(Relax(d, es[i]), inf)
  {
    var e := es[i];
    var r := Relax(d, e);
    forall x | x in r ensures Reached(r, es, s, inf, x) {
      assert Reached(d, es, s, inf, x);
      if x == e.dst && r[x] != d[x] {
        assert Reached(d, es, s, inf, e.src) && d[e.src] != inf;
        var p :| IsWalk(s, p, e.src) && InGraph(p, es) && TotalWeight(p) == d[e.src];
        WalkSnoc(s, p, e);
        assert InGraph(p + [e], es);
      }
    }
  }

  lemma {:induction false} PassUpToWitnessed<N(!new)>(d: map<N, int>, es: seq<Edge<N>>, j: nat, s: N, inf: int)
    requires j <= |es| && NonNegative(es)
    requires Witnessed(d, es, s, inf) && Bounded(d, inf)
    ensures Witnessed(PassUpTo(d, es, j), es, s, inf) && Bounded(PassUpTo(d, es, j), inf)
    decreases j
  {
    if j > 0 {
      PassUpToWitnessed(d, es, j - 1, s, inf);
      RelaxWitnessed(PassUpTo(d, es, j - 1), es, s, inf, j - 1);
    }
  }

  lemma {:induction false} PassesWitnessed<N(!new)>(d: map<N, int>, es: seq<Edge<N>>, k: nat, s: N, inf: int)
    requires NonNegative(es)
    requires Witnessed(d, es, s, inf) && Bounded(d, inf)
    ensures Witnessed(Passes(d, es, k), es, s, inf) && Bounded(Passes(d, es, k), inf)
    decreases k
  {
    if k > 0 {
      PassesWitnessed(d, es, k - 1, s, inf);
      PassUpToWitnessed(Passes(d, es, k - 1), es, |es|, s, inf);
    }
  }

  lemma InitialWitnessed<N(!new)>(g: Graph<N>, source: N)
    requires NonNegative(g.edges)
    ensures Witnessed(Initial(g, source), g.edges, source, Infinity(g))
    ensures Bounded(Initial(g, source), Infinity(g))
  {
    TotalWeightNonNegative(g.edges);
    assert IsWalk(source, [], source) && TotalWeight<N>([]) == 0;
  }

  // ---------------------------------------------------------------- the results

  /** With non-negative weights, after any number of passes every distance
      lies between 0 and infinity, the source's stays 0, and a distance below
      infinity is exactly the weight of some walk from the source. */
  lemma Distances<N(!new)>(g: Graph<N>, source: N, k: nat)
    requires NonNegative(g.edges)
    ensures var r := Passes(Initial(g, source), g.edges, k);
      && r.Keys == g.nodes + {source}
      && r[source] == 0
      && (forall x :: x in r ==> 0 <= r[x] <= Infinity(g))
      && (forall x :: x in r && r[x] != Infinity(g) ==>
            exists p :: IsWalk(source, p, x) && InGraph(p, g.edges) && TotalWeight(p) == r[x])
  {
    var r := Passes(Initial(g, source), g.edges, k);
    InitialWitnessed(g, source);
    PassesWitnessed(Initial(g, source), g.edges, k, source, Infinity(g));
    TotalWeightNonNegative(g.edges);
    PassesMono(Initial(g, source), g.edges, 0, k, source);
    forall x | x in r ensures 0 <= r[x] && Reached(r, g.edges, source, Infinity(g), x) {
      assert Reached(r, g.edges, source, Infinity(g), x);
      if r[x] != Infinity(g) {
        var p :| IsWalk(source, p, x) && InGraph(p, g.edges) && TotalWeight(p) == r[x];
        InGraphNonNegative(p, g.edges);
        TotalWeightNonNegative(p);
      }
    }
  }

  /** The Bellman-Ford guarantee: with non-negative weights, after one pass
      per node no edge can lower its target any further. */
  lemma Settled<N(!new)>(g: Graph<N>, source: N)
    requires NonNegative(g.edges) && Closed(g.edges, g.nodes + {source})
    ensures var r := Passes(Initial(g, source), g.edges, |g.nodes|);
      forall i :: 0 <= i < |g.edges| ==> r[g.edges[i].dst] <= r[g.edges[i].src] + g.edges[i].weight
  {
    var es := g.edges;
    var r := Passes(Initial(g, source), es, |g.nodes|);
    InitialWitnessed(g, source);
    PassesWitnessed(Initial(g, source), es, |g.nodes|, source, Infinity(g));
    forall i | 0 <= i < |es| ensures r[es[i].dst] <= r[es[i].src] + es[i].weight {
      var e := es[i];
      if r[e.src] != Infinity(g) {
        assert Reached(r, es, source, Infinity(g), e.src);
        var p :| IsWalk(source, p, e.src) && InGraph(p, es) && TotalWeight(p) == r[e.src];
        WalkSettles(g, source, p, i);
      }
    }
  }

  /** A walk from the source to an edge's start, extended by that edge,
      bounds the edge's end after one pass per node. */
  lemma WalkSettles<N(!new)>(g: Graph<N>, source: N, p: seq<Edge<N>>, i: nat)
    requires NonNegative(g.edges) && Closed(g.edges, g.nodes + {source}) && i < |g.edges|
    requires IsWalk(source, p, g.edges[i].src) && InGraph(p, g.edges)
    ensures Passes(Initial(g, source), g.edges, |g.nodes|)[g.edges[i].dst] <= TotalWeight(p) + g.edges[i].weight
  {
    var es, n, e := g.edges, |g.nodes|, g.edges[i];
    var keys := g.nodes + {source};
    assert |keys| <= n + 1 by {
      if source in g.nodes { assert keys == g.nodes; }
    }
    WalkSnoc(source, p, e);
    assert InGraph(p + [e], es);
    var q := Shorten(source, p + [e], e.dst, es, keys);
    UpperBound(Initial(g, source), es, n, source, q, e.dst);
  }
}
