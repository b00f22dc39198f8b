/** `spanning_tree(G)`: a sweep over the upper triangle of an adjacency
    matrix in which node `i` adopts a later neighbour `j` whose recorded root
    is larger than `i`'s own, marking the link `i`-`j` in the result matrix.
    Despite the name the result need not be a tree; what is proved here is
    the shape of the matrix and the invariants of the messages. */
module SpanningTree {

  /** One entry of `msg`: `[self, dist, root]`. */
  datatype Msg = Msg(self: nat, dist: nat, root: nat)

  /** The messages and the links marked so far, each link `(i, j)` with `i < j`. */
  datatype Sweep = Sweep(msg: seq<Msg>, tree: set<(nat, nat)>)

  /** Every entry the sweep reads exists: `G[i][j]` for `i < j < len(G)`. */
  predicate Readable(G: seq<seq<int>>)
  {
    forall i :: 0 <= i < |G| - 1 ==> |G[i]| >= |G|
  }

  /** `msg = [[i, 0, i] for i in range(n)]` and no link. */
  function Start(n: nat): (s: Sweep)
    ensures |s.msg| == n
  {
    Sweep(seq(n, k requires 0 <= k < n => Msg(k, 0, k)), {})
  }

  /** The body of the inner loop for the pair `(i, j)`, where the running
      `dist` is `j - i`: if `G[i][j] == 1` and `i`'s root is smaller than
      `j`'s, `j` records `[j, dist, i]` and the link is marked. */
  function Visit(G: seq<seq<int>>, s: Sweep, i: nat, j: nat): (r: Sweep)
    requires i < j < |s.msg| && i < |G| && j < |G[i]|
    ensures |r.msg| == |s.msg|
  {
    if G[i][j] == 1 && s.msg[i].root < s.msg[j].root then
      Sweep(s.msg[j := Msg(j, j - i, i)], s.tree + {(i, j)})
    else s
  }

  /** Row `i` visited for the columns `i + 1 .. j - 1`. */
  function RowUpTo(G: seq<seq<int>>, s: Sweep, i: nat, j: nat): (r: Sweep)
    requires Readable(G) && |s.msg| == |G| && i < j <= |G|
    ensures |r.msg| == |G|
    decreases j
  {
    if j == i + 1 then s else Visit(G, RowUpTo(G, s, i, j - 1), i, j - 1)
  }

  /** The sweep after the rows `0 .. i - 1`. */
  function Rows(G: seq<seq<int>>, i: nat): (r: Sweep)
    requires Readable(G) && i <= |G|
    ensures |r.msg| == |G|
    decreases i
  {
    if i == 0 then Start(|G|) else RowUpTo(G, Rows(G, i - 1), i - 1, |G|)
  }

  lemma RowUpToNext(G: seq<seq<int>>, s: Sweep, i: nat, j: nat)
    requires Readable(G) && |s.msg| == |G| && i < j < |G|
    ensures RowUpTo(G, s, i, j + 1) == Visit(G, RowUpTo(G, s, i, j), i, j)
  {
  }

  lemma RowsNext(G: seq<seq<int>>, i: nat)
    requires Readable(G) && i < |G|
    ensures Rows(G, i + 1) == RowUpTo(G, Rows(G, i), i, |G|)
  {
  }

  function Final(G: seq<seq<int>>): Sweep
    requires Readable(G)
  {
    Rows(G, |G|)
  }

  /** `T[a][b] == 1`: the link between `a` and `b` is marked either way round. */
  predicate Linked(tree: set<(nat, nat)>, a: nat, b: nat)
  {
    (a, b) in tree || (b, a) in tree
  }

  /** `spanning_tree(G)`: the `n`-by-`n` matrix that is 1 exactly where the
      sweep marked a link, in either orientation, and 0 elsewhere. */
  method SpanningTree(G: seq<seq<int>>) returns (T: array2<int>)
    requires Readable(G)
    ensures fresh(T) && T.Length0 == |G| && T.Length1 == |G|
    ensures forall a, b :: 0 <= a < |G| && 0 <= b < |G| ==>
              T[a, b] == if Linked(Final(G).tree, a, b) then 1 else 0
  {
    var n := |G|;
    T := new int[n, n]((a, b) => 0);
    var msg := new Msg[n](k => Msg(k, 0, k));
    ghost var tree: set<(nat, nat)> := {};
    assert msg[..] == Start(n).msg;
    var i: nat := 0;
    while i < n
      invariant i <= n
      invariant Sweep(msg[..], tree) == Rows(G, i)
      invariant forall a, b :: 0 <= a < n && 0 <= b < n ==> T[a, b] == if Linked(tree, a, b) then 1 else 0
    {
      tree := SweepRow(G, T, msg, i, tree);
      assert Sweep(msg[..], tree) == Rows(G, i + 1) by {
        RowsNext(G, i);
      }
      i := i + 1;
    }
  }

  /** The inner loop of `spanning_tree` for row `i`, with `dist` running
      alongside `j` as `j - i`. */
  method SweepRow(G: seq<seq<int>>, T: array2<int>, msg: array<Msg>, i: nat, ghost tree0: set<(nat, nat)>)
    returns (ghost tree: set<(nat, nat)>)
    requires Readable(G) && i < |G| && msg.Length == |G| && T.Length0 == |G| && T.Length1 == |G|
    requires forall a, b :: 0 <= a < |G| && 0 <= b < |G| ==> T[a, b] == if Linked(tree0, a, b) then 1 else 0
    modifies T, msg
    ensures Sweep(msg[..], tree) == RowUpTo(G, Sweep(old(msg[..]), tree0), i, |G|)
    ensures forall a, b :: 0 <= a < |G| && 0 <= b < |G| ==> T[a, b] == if Linked(tree, a, b) then 1 else 0
  {
    var n := |G|;
    tree := tree0;
    ghost var before := Sweep(msg[..], tree);
    var dist := 1;
    var j: nat := i + 1;
    while j < n
      invariant i + 1 <= j <= n
      invariant dist == j - i
      invariant Sweep(msg[..], tree) == RowUpTo(G, before, i, j)
      invariant forall a, b :: 0 <= a < n && 0 <= b < n ==> T[a, b] == if Linked(tree, a, b) then 1 else 0
    {
      ghost var prev := Sweep(msg[..], tree);
      if G[i][j] == 1 && msg[i].root < msg[j].root {
        msg[j] := Msg(j, dist, i);
        T[i, j] := 1;
        T[j, i] := 1;
        tree := tree + {(i, j)};
        assert Sweep(msg[..], tree) == Visit(G, prev, i, j);
      } else {
        assert Sweep(msg[..], tree) == Visit(G, prev, i, j);
      }
      assert Sweep(msg[..], tree) == RowUpTo(G, before, i, j + 1) by {
        RowUpToNext(G, before, i, j);
      }
      dist := dist + 1;
      j := j + 1;
    }
  }

  // ---------------------------------------------------------------- what the sweep keeps

  /** The invariants of the sweep: entry `k` of `msg` names `k` itself, a
      root no later than `k` and the distance `k - root`; every marked link
      `(i, j)` has `i < j` and `G[i][j] == 1`. */
  predicate Good(G: seq<seq<int>>, s: Sweep)
  {
    && |s.msg| == |G|
    && (forall k :: 0 <= k < |s.msg| ==>
          s.msg[k].self == k && s.msg[k].root <= k && s.msg[k].dist == k - s.msg[k].root)
    && (forall e :: e in s.tree ==> e.0 < e.1 < |G| && e.1 < |G[e.0]| && G[e.0][e.1] == 1)
  }

  /** One visit keeps the invariants. */
  lemma VisitGood(G: seq<seq<int>>, s: Sweep, i: nat, j: nat)
    requires i < j < |s.msg| && i < |G| && j < |G[i]|
    requires Good(G, s)
    ensures Good(G, Visit(G, s, i, j))
  {
    var r := Visit(G, s, i, j);
    if G[i][j] == 1 && s.msg[i].root < s.msg[j].root {
      assert r.msg == s.msg[j := Msg(j, j - i, i)] && r.tree == s.tree + {(i, j)};
      forall e | e in r.tree ensures e.0 < e.1 < |G| && e.1 < |G[e.0]| && G[e.0][e.1] == 1 {
        if e != (i, j) {
          assert e in s.tree;
        }
      }
    }
  }

  lemma {:induction false} RowUpToGood(G: seq<seq<int>>, s: Sweep, i: nat, j: nat)
    requires Readable(G) && |s.msg| == |G| && i < j <= |G|
    requires Good(G, s)
    ensures Good(G, RowUpTo(G, s, i, j))
    decreases j
  {
    if j > i + 1 {
      RowUpToGood(G, s, i, j - 1);
      VisitGood(G, RowUpTo(G, s, i, j - 1), i, j - 1);
    }
  }

  lemma {:induction false} RowsGood(G: seq<seq<int>>, i: nat)
    requires Readable(G) && i <= |G|
    ensures Good(G, Rows(G, i))
    decreases i
  {
    if i > 0 {
      RowsGood(G, i - 1);
      RowUpToGood(G, Rows(G, i - 1), i - 1, |G|);
    }
  }

  /** What the returned matrix is: 0 on the diagonal, symmetric, and 1 only
      where `G` has a 1 above the diagonal; every message names itself, a
      root no later than itself, and its distance from that root. */
  lemma MatrixShape(G: seq<seq<int>>)
    requires Readable(G)
    ensures var f := Final(G);
      && (forall a: nat, b: nat :: Linked(f.tree, a, b) ==> Linked(f.tree, b, a))
      && (forall a: nat :: !Linked(f.tree, a, a))
      && (forall a: nat, b: nat :: Linked(f.tree, a, b) && a < b ==> b < |G| && b < |G[a]| && G[a][b] == 1)
      && (forall k :: 0 <= k < |G| ==>
            f.msg[k].self == k && f.msg[k].root <= k && f.msg[k].dist == k - f.msg[k].root)
  {
    RowsGood(G, |G|);
  }

  /** Only the entries above the diagonal are read: two matrices that agree
      there give the same sweep. */
  lemma {:induction false} RowUpToUpper(G: seq<seq<int>>, H: seq<seq<int>>, s: Sweep, i: nat, j: nat)
    requires Readable(G) && Readable(H) && |G| == |H| && |s.msg| == |G| && i < j <= |G|
    requires forall a, b :: 0 <= a < b < |G| ==> G[a][b] == H[a][b]
    ensures RowUpTo(G, s, i, j) == RowUpTo(H, s, i, j)
    decreases j
  {
    if j > i + 1 {
      RowUpToUpper(G, H, s, i, j - 1);
    }
  }

  lemma {:induction false} RowsUpper(G: seq<seq<int>>, H: seq<seq<int>>, i: nat)
    requires Readable(G) && Readable(H) && |G| == |H| && i <= |G|
    requires forall a, b :: 0 <= a < b < |G| ==> G[a][b] == H[a][b]
    ensures Rows(G, i) == Rows(H, i)
    decreases i
  {
    if i > 0 {
      RowsUpper(G, H, i - 1);
      RowUpToUpper(G, H, Rows(G, i - 1), i - 1, |G|);
    }
  }

  lemma UpperTriangleOnly(G: seq<seq<int>>, H: seq<seq<int>>)
    requires Readable(G) && Readable(H) && |G| == |H|
    requires forall a, b :: 0 <= a < b < |G| ==> G[a][b] == H[a][b]
    ensures Final(G) == Final(H)
  {
    RowsUpper(G, H, |G|);
  }

  // ---------------------------------------------------------------- two sweeps worked through

  /** On the 4-cycle 0-1-3-2-0 every edge is marked: node 3 is adopted by 1
      and then again by 2, so the matrix holds the whole cycle and is not a
      tree. */
  lemma CycleKept()
    ensures Final([[0, 1, 1, 0], [1, 0, 0, 1], [1, 0, 0, 1], [0, 1, 1, 0]]).tree == {(0, 1), (0, 2), (1, 3), (2, 3)}
  {
    var G := [[0, 1, 1, 0], [1, 0, 0, 1], [1, 0, 0, 1], [0, 1, 1, 0]];
    var s0 := Start(4);
    assert s0.msg == [Msg(0, 0, 0), Msg(1, 0, 1), Msg(2, 0, 2), Msg(3, 0, 3)];
    var s1 := Rows(G, 1);
    assert s1 == RowUpTo(G, s0, 0, 4);
    assert s1.msg == [Msg(0, 0, 0), Msg(1, 1, 0), Msg(2, 2, 0), Msg(3, 0, 3)] && s1.tree == {(0, 1), (0, 2)};
    var s2 := Rows(G, 2);
    assert s2 == RowUpTo(G, s1, 1, 4);
    assert s2.msg == [Msg(0, 0, 0), Msg(1, 1, 0), Msg(2, 2, 0), Msg(3, 2, 1)] && s2.tree == {(0, 1), (0, 2), (1, 3)};
    var s3 := Rows(G, 3);
    assert s3 == RowUpTo(G, s2, 2, 4);
    assert s3.tree == {(0, 1), (0, 2), (1, 3), (2, 3)};
    assert Rows(G, 4) == RowUpTo(G, s3, 3, 4) == s3;
  }

  /** The sample graph of `main`: the marked links are 0-1, 0-2, 1-4, 2-3
      and 2-4, which close the cycle 0-1-4-2-0. */
  lemma SampleSweep()
    ensures Final([[0, 1, 1, 0, 0], [1, 0, 1, 0, 1], [1, 1, 0, 1, 1], [0, 0, 1, 0, 1], [0, 1, 1, 1, 0]]).tree
         == {(0, 1), (0, 2), (1, 4), (2, 3), (2, 4)}
  {
    var G := [[0, 1, 1, 0, 0], [1, 0, 1, 0, 1], [1, 1, 0, 1, 1], [0, 0, 1, 0, 1], [0, 1, 1, 1, 0]];
    var s0 := Start(5);
    assert s0.msg == [Msg(0, 0, 0), Msg(1, 0, 1), Msg(2, 0, 2), Msg(3, 0, 3), Msg(4, 0, 4)];
    var s1 := Rows(G, 1);
    assert s1 == RowUpTo(G, s0, 0, 5);
    assert s1.msg == [Msg(0, 0, 0), Msg(1, 1, 0), Msg(2, 2, 0), Msg(3, 0, 3), Msg(4, 0, 4)];
    assert s1.tree == {(0, 1), (0, 2)};
    var s2 := Rows(G, 2);
    assert s2 == RowUpTo(G, s1, 1, 5);
    assert s2.msg == [Msg(0, 0, 0), Msg(1, 1, 0), Msg(2, 2, 0), Msg(3, 0, 3), Msg(4, 3, 1)];
    assert s2.tree == {(0, 1), (0, 2), (1, 4)};
    var s3 := Rows(G, 3);
    assert s3 == RowUpTo(G, s2, 2, 5);
    assert s3.msg == [Msg(0, 0, 0), Msg(1, 1, 0), Msg(2, 2, 0), Msg(3, 1, 2), Msg(4, 2, 2)];
    assert s3.tree == {(0, 1), (0, 2), (1, 4), (2, 3), (2, 4)};
    var s4 := Rows(G, 4);
    assert s4 == RowUpTo(G, s3, 3, 5);
    assert s4 == s3;
    assert Rows(G, 5) == RowUpTo(G, s4, 4, 5) == s4;
  }
}
