/** `bf_short.bellman_ford(G, source)`: hop counts over an adjacency
    dictionary after a single sweep over every (node, neighbour) pair, each
    pair pulling both ends to within one hop of each other, rendered as the
    text `"k:v "` per key. */
module HopCount {
  import opened Wrappers
  import opened PyText

  /** The adjacency dictionary in its iteration order: each key with its
      neighbour list. */
  type Adjacency = seq<(string, seq<string>)>

  function Keys(g: Adjacency): (ks: seq<string>)
    ensures |ks| == |g| && forall i :: 0 <= i < |g| ==> ks[i] == g[i].0
  {
    seq(|g|, i requires 0 <= i < |g| => g[i].0)
  }

  /** A dictionary has each key once. */
  predicate DistinctKeys(g: Adjacency)
  {
    forall i, j :: 0 <= i < j < |g| ==> g[i].0 != g[j].0
  }

  /** The key order of the distance dictionary: the keys of `G`, then the
      source when it is not one of them. */
  function Order(g: Adjacency, source: string): (o: seq<string>)
    ensures forall k :: k in o <==> k in Keys(g) || k == source
  {
    if source in Keys(g) then Keys(g) else Keys(g) + [source]
  }

  function Min(a: int, b: int): int
  {
    if a <= b then a else b
  }

  /** `dict(zip(G.keys(), [0] + [len(G) + 1] * (len(G) - 1)))` with the
      source then set to 0: the first key and the source at 0, every other
      key at `len(G) + 1`. */
  function Initial(g: Adjacency, source: string): (d: map<string, int>)
    ensures forall k :: k in d <==> k in Keys(g) || k == source
    ensures d[source] == 0
    ensures |g| > 0 ==> d[g[0].0] == 0
    ensures forall k :: k in d && k != source && k != Keys(g)[0] ==> d[k] == |g| + 1
  {
    var ks := Keys(g);
    (map k | k in ks :: if k == ks[0] then 0 else |g| + 1)[source := 0]
  }

  /** One (node, neighbour) pair: the neighbour drops to at most the node's
      count plus one, then the node to at most the neighbour's new count plus
      one. (A neighbour that is not a key raises KeyError in the source; the
      method reports that, and here such a pair changes nothing.) */
  function Step(d: map<string, int>, node: string, nb: string): (r: map<string, int>)
    ensures r.Keys == d.Keys
  {
    if node in d && nb in d then
      var d1 := d[nb := Min(d[nb], d[node] + 1)];
      d1[node := Min(d1[node], d1[nb] + 1)]
    else d
  }

  /** After a pair the two counts are within one of each other, neither went
      up, each kept its value or became the other's plus one, and nothing
      else changed. */
  lemma StepSpec(d: map<string, int>, node: string, nb: string)
    ensures var r := Step(d, node, nb);
      && (node in d && nb in d ==>
            && r[nb] <= r[node] + 1 && r[node] <= r[nb] + 1
            && r[nb] <= d[nb] && r[node] <= d[node]
            && (r[nb] == d[nb] || r[nb] == d[node] + 1)
            && (r[node] == d[node] || r[node] == r[nb] + 1))
      && (forall x :: x in d && x != node && x != nb ==> r[x] == d[x])
  {
  }

  /** The pairs of one adjacency list, in order. */
  function Row(node: string, nbs: seq<string>): (ps: seq<(string, string)>)
    ensures |ps| == |nbs| && forall j :: 0 <= j < |nbs| ==> ps[j] == (node, nbs[j])
  {
    seq(|nbs|, j requires 0 <= j < |nbs| => (node, nbs[j]))
  }

  /** Every (node, neighbour) pair of the dictionary, in sweep order. */
  function Pairs(g: Adjacency): seq<(string, string)>
    decreases |g|
  {
    if g == [] then [] else Pairs(g[..|g| - 1]) + Row(g[|g| - 1].0, g[|g| - 1].1)
  }

  /** The dictionary after stepping through the pairs `ps` in order. */
  function Run(d: map<string, int>, ps: seq<(string, string)>): (r: map<string, int>)
    ensures r.Keys == d.Keys
    decreases |ps|
  {
    if ps == [] then d else Step(Run(d, ps[..|ps| - 1]), ps[|ps| - 1].0, ps[|ps| - 1].1)
  }

  /** Some neighbour list names a node that is neither a key nor the source. */
  predicate HasUnknownNeighbour(g: Adjacency, source: string)
  {
    exists i, j :: 0 <= i < |g| && 0 <= j < |g[i].1| && g[i].1[j] !in Keys(g) && g[i].1[j] != source
  }

  /** `c + ':' + str(i)`, the text of one entry without its trailing blank. */
  function Entry(k: string, v: int): string
  {
    k + ":" + IntToDecimal(v)
  }

  /** `''.join([c + ':' + str(i) + ' ' for ...])` over the keys in `order`. */
  function Render(order: seq<string>, d: map<string, int>): string
    requires forall i :: 0 <= i < |order| ==> order[i] in d
    decreases |order|
  {
    if order == [] then "" else Entry(order[0], d[order[0]]) + " " + Render(order[1..], d)
  }

  // ---------------------------------------------------------------- the sweep

  lemma RunSnoc(d: map<string, int>, ps: seq<(string, string)>, p: (string, string))
    ensures Run(d, ps + [p]) == Step(Run(d, ps), p.0, p.1)
  {
    assert (ps + [p])[..|ps|] == ps;
  }

  lemma PairsSnoc(g: Adjacency, i: nat)
    requires i < |g|
    ensures Pairs(g[..i + 1]) == Pairs(g[..i]) + Row(g[i].0, g[i].1)
  {
    assert g[..i + 1][..i] == g[..i];
  }

  lemma RowSnoc(node: string, nbs: seq<string>, j: nat)
    requires j < |nbs|
    ensures Row(node, nbs[..j + 1]) == Row(node, nbs[..j]) + [(node, nbs[j])]
  {
  }

  lemma {:induction false} RunAppend(d: map<string, int>, a: seq<(string, string)>, b: seq<(string, string)>)
    ensures Run(d, a + b) == Run(Run(d, a), b)
    decreases |b|
  {
    if b == [] {
      assert a + b == a;
    } else {
      var b', p := b[..|b| - 1], b[|b| - 1];
      assert a + b == (a + b') + [p];
      RunSnoc(d, a + b', p);
      RunAppend(d, a, b');
      RunSnoc(Run(d, a), b', p);
      assert b == b' + [p];
    }
  }

  /** Every neighbour in the first `i` lists is one of `keys`. */
  predicate KnownUpTo(g: Adjacency, i: nat, keys: set<string>)
    requires i <= |g|
  {
    forall i', j :: 0 <= i' < i && 0 <= j < |g[i'].1| ==> g[i'].1[j] in keys
  }

  lemma KnownStep(g: Adjacency, i: nat, keys: set<string>)
    requires i < |g| && KnownUpTo(g, i, keys)
    requires forall j :: 0 <= j < |g[i].1| ==> g[i].1[j] in keys
    ensures KnownUpTo(g, i + 1, keys)
  {
  }

  /** A neighbour of list `i` that is not a key of the starting dictionary
      is neither a key of `G` nor the source. */
  lemma UnknownFound(g: Adjacency, source: string, i: nat)
    requires i < |g|
    requires exists j :: 0 <= j < |g[i].1| && g[i].1[j] !in Initial(g, source)
    ensures HasUnknownNeighbour(g, source)
  {
    var j :| 0 <= j < |g[i].1| && g[i].1[j] !in Initial(g, source);
    assert g[i].1[j] !in Keys(g) && g[i].1[j] != source;
  }

  /** When every neighbour is a key of the starting dictionary, none is unknown. */
  lemma KnownAll(g: Adjacency, source: string)
    requires KnownUpTo(g, |g|, Initial(g, source).Keys)
    ensures !HasUnknownNeighbour(g, source)
  {
    forall i, j | 0 <= i < |g| && 0 <= j < |g[i].1| ensures g[i].1[j] in Keys(g) || g[i].1[j] == source {
      assert g[i].1[j] in Initial(g, source);
    }
  }

  /** One more adjacency list swept. */
  lemma RowStep(g: Adjacency, start: map<string, int>, d: map<string, int>, r: map<string, int>, i: nat)
    requires i < |g| && d == Run(start, Pairs(g[..i])) && r == Run(d, Row(g[i].0, g[i].1))
    ensures r == Run(start, Pairs(g[..i + 1]))
  {
    RunAppend(start, Pairs(g[..i]), Row(g[i].0, g[i].1));
    PairsSnoc(g, i);
  }

  /** The inner loop: the pairs of one adjacency list in order, or `None`
      (KeyError) at a neighbour that is not a key. */
  method SweepRow(d: map<string, int>, node: string, nbs: seq<string>) returns (r: Option<map<string, int>>)
    requires node in d
    ensures r.None? <==> exists j :: 0 <= j < |nbs| && nbs[j] !in d
    ensures r.Some? ==> r.value == Run(d, Row(node, nbs))
  {
    var cur := d;
    var j := 0;
    while j < |nbs|
      invariant j <= |nbs|
      invariant cur == Run(d, Row(node, nbs[..j]))
      invariant forall j' :: 0 <= j' < j ==> nbs[j'] in d
    {
      var nb := nbs[j];
      if nb !in cur {
        return None;
      }
      ghost var prev := cur;
      cur := cur[nb := Min(cur[nb], cur[node] + 1)];
      cur := cur[node := Min(cur[node], cur[nb] + 1)];
      assert cur == Step(prev, node, nb);
      RowSnoc(node, nbs, j);
      RunSnoc(d, Row(node, nbs[..j]), (node, nb));
      j := j + 1;
    }
    assert nbs[..j] == nbs;
    return Some(cur);
  }

  /** `d = dict(zip(G.keys(), [0] + [len(G) + 1] * (len(G) - 1)))`, then
      `d[source] = 0`. */
  method InitialCounts(g: Adjacency, source: string) returns (d: map<string, int>)
    ensures d == Initial(g, source)
  {
    var ks := Keys(g);
    d := map k | k in ks :: if k == ks[0] then 0 else |g| + 1;
    d := d[source := 0];
  }

  /** `bellman_ford(G, source)`: `None` (KeyError) when a neighbour is
      neither a key nor the source; otherwise the rendering, in the
      dictionary's key order, of the counts after one sweep over every pair. */
  method BellmanFord(g: Adjacency, source: string) returns (r: Option<string>)
    requires DistinctKeys(g)
    ensures r.None? <==> HasUnknownNeighbour(g, source)
    ensures r.Some? ==> r.value == Render(Order(g, source), Run(Initial(g, source), Pairs(g)))
  {
    var d := InitialCounts(g, source);
    ghost var start := d;
    var i := 0;
    while i < |g|
      invariant i <= |g|
      invariant d == Run(start, Pairs(g[..i]))
      invariant KnownUpTo(g, i, start.Keys)
    {
      assert g[i].0 in d by { assert g[i].0 == Keys(g)[i]; }
      var next := SweepRow(d, g[i].0, g[i].1);
      if next.None? {
        UnknownFound(g, source, i);
        return None;
      }
      KnownStep(g, i, start.Keys);
      RowStep(g, start, d, next.value, i);
      d := next.value;
      i := i + 1;
    }
    KnownAll(g, source);
    assert g[..i] == g;
    r := Some(Render(Order(g, source), d));
  }

  // ---------------------------------------------------------------- what the counts are

  /** Counts never go up. */
  lemma {:induction false} RunMono(d: map<string, int>, ps: seq<(string, string)>, x: string)
    requires x in d
    ensures Run(d, ps)[x] <= d[x]
    decreases |ps|
  {
    if ps != [] {
      RunMono(d, ps[..|ps| - 1], x);
      StepSpec(Run(d, ps[..|ps| - 1]), ps[|ps| - 1].0, ps[|ps| - 1].1);
    }
  }

  /** Counts that start within `[0, hi]` stay there. */
  lemma {:induction false} RunBounds(d: map<string, int>, ps: seq<(string, string)>, hi: int, x: string)
    requires forall y :: y in d ==> 0 <= d[y] <= hi
    requires x in d
    ensures 0 <= Run(d, ps)[x] <= hi
    decreases |ps|
  {
    if ps != [] {
      var q := Run(d, ps[..|ps| - 1]);
      forall y | y in q ensures 0 <= q[y] <= hi {
        RunBounds(d, ps[..|ps| - 1], hi, y);
      }
      StepSpec(q, ps[|ps| - 1].0, ps[|ps| - 1].1);
    }
  }

  /** After the sweep every key and the source have a count between 0 and
      `len(G) + 1`, no count is above its starting value, and the source's
      count is still 0. */
  lemma HopsBounded(g: Adjacency, source: string, x: string)
    requires x in Keys(g) || x == source
    ensures var d0 := Initial(g, source);
      var r := Run(d0, Pairs(g));
      && 0 <= r[x] <= |g| + 1
      && r[x] <= d0[x]
      && r[source] == 0
  {
    var d0 := Initial(g, source);
    RunBounds(d0, Pairs(g), |g| + 1, x);
    RunBounds(d0, Pairs(g), |g| + 1, source);
    RunMono(d0, Pairs(g), x);
    RunMono(d0, Pairs(g), source);
  }

  /** After a pair whose ends are both counted, the two counts are within one
      of each other. */
  lemma PairClose(d: map<string, int>, ps: seq<(string, string)>, node: string, nb: string)
    requires node in d && nb in d
    ensures var r := Run(d, ps + [(node, nb)]);
      r[nb] <= r[node] + 1 && r[node] <= r[nb] + 1
  {
    RunSnoc(d, ps, (node, nb));
    StepSpec(Run(d, ps), node, nb);
  }

  // ---------------------------------------------------------------- reading the text back

  /** The entries of the rendering, one per key of `order`. */
  function Entries(order: seq<string>, d: map<string, int>): (es: seq<string>)
    requires forall i :: 0 <= i < |order| ==> order[i] in d
    ensures |es| == |order|
    ensures forall i :: 0 <= i < |order| ==> es[i] == Entry(order[i], d[order[i]])
  {
    seq(|order|, i requires 0 <= i < |order| => Entry(order[i], d[order[i]]))
  }

  lemma EntriesCons(order: seq<string>, d: map<string, int>)
    requires order != [] && forall i :: 0 <= i < |order| ==> order[i] in d
    ensures Entries(order, d) == [Entry(order[0], d[order[0]])] + Entries(order[1..], d)
  {
    var es, rest := Entries(order, d), Entries(order[1..], d);
    forall i | 1 <= i < |order| ensures es[i] == rest[i - 1] {
      assert order[1..][i - 1] == order[i];
    }
  }

  /** The rendering is the entries joined by blanks, with a final blank. */
  lemma {:induction false} RenderIsJoin(order: seq<string>, d: map<string, int>)
    requires forall i :: 0 <= i < |order| ==> order[i] in d
    ensures Render(order, d) == Join(Entries(order, d) + [""], ' ')
    decreases |order|
  {
    if order != [] {
      var es := Entries(order, d) + [""];
      var tail := Entries(order[1..], d) + [""];
      RenderIsJoin(order[1..], d);
      EntriesCons(order, d);
      assert es == [Entry(order[0], d[order[0]])] + tail;
      assert es[1..] == tail;
      assert Join(es, ' ') == es[0] + [' '] + Join(tail, ' ');
    }
  }

  lemma DecimalHasNo(n: nat, c: char)
    requires !IsDigit(c)
    ensures c !in NatToDecimal(n)
  {
  }

  /** Splitting one entry at its colon gives back the key and the numeral. */
  lemma EntrySplit(k: string, v: nat)
    requires ':' !in k
    ensures Split(Entry(k, v), ':') == [k, NatToDecimal(v)]
    ensures PyInt(NatToDecimal(v)) == Some(v)
  {
    DecimalHasNo(v, ':');
    assert Entry(k, v) == k + [':'] + NatToDecimal(v);
    SplitAround(k, ':', NatToDecimal(v));
    PyIntOfDecimal(v);
  }

  /** The text reads back: split at blanks it is one entry per key and an
      empty tail, and each entry splits at its colon into the key and a
      numeral that `int()` reads as the count. Keys must hold neither a
      blank nor a colon, and counts must be non-negative. */
  lemma RenderParses(order: seq<string>, d: map<string, int>)
    requires forall i :: 0 <= i < |order| ==> order[i] in d && ' ' !in order[i] && ':' !in order[i]
    requires forall i :: 0 <= i < |order| ==> d[order[i]] >= 0
    ensures var parts := Split(Render(order, d), ' ');
      && |parts| == |order| + 1 && parts[|order|] == ""
      && forall i :: 0 <= i < |order| ==>
           && Split(parts[i], ':') == [order[i], NatToDecimal(d[order[i]])]
           && PyInt(NatToDecimal(d[order[i]])) == Some(d[order[i]])
  {
    var es := Entries(order, d);
    RenderIsJoin(order, d);
    forall i | 0 <= i < |es + [""]| ensures ' ' !in (es + [""])[i] {
      if i < |es| {
        DecimalHasNo(d[order[i]], ' ');
      }
    }
    SplitJoin(es + [""], ' ');
    forall i | 0 <= i < |order|
      ensures Split(es[i], ':') == [order[i], NatToDecimal(d[order[i]])]
      ensures PyInt(NatToDecimal(d[order[i]])) == Some(d[order[i]])
    {
      EntrySplit(order[i], d[order[i]]);
    }
  }
}
