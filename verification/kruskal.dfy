/**
  Kruskal's minimum spanning tree over the alive edges of the triangulation:
  `computeKruskalMinD` and the `Kruskal` constructor.  Both copy the alive
  stacked edges, sort them by cached squared length, and accept an edge
  when its endpoints lie in different sets, stopping once `N - 1` edges are
  accepted.  `min_d` is kept squared here: the final `std::sqrt` is not
  modelled.
 */
module Kruskal {
  import opened Sorting
  import opened UnionFind
  import opened QuadEdge
  import opened Delaunay

  /** What the loop reads through one stacked `Edge *`: the endpoint
      identifiers, the cached squared length and the liveness of its quad. */
  datatype WEdge = WEdge(edge: Handle, org: int, dest: int, length: int, alive: bool)

  /** The stacked edges as the loop reads them from the mesh. */
  function View(A: Arena, stack: seq<Handle>): (r: seq<WEdge>)
    requires Shaped(A) && forall i :: 0 <= i < |stack| ==> Has(A, stack[i])
    ensures |r| == |stack|
  {
    seq(|stack|, i requires 0 <= i < |stack| =>
      WEdge(stack[i], Org(A, stack[i]).id, Dest(A, stack[i]).id, Length(A, stack[i]), Alive(A, stack[i])))
  }

  /** The copy into `valid_edges`: the alive edges, in stack order. */
  function AliveEdges(s: seq<WEdge>): (r: seq<WEdge>)
    ensures |r| <= |s|
    ensures forall k :: 0 <= k < |r| ==> r[k].alive && r[k] in s
    ensures forall w: WEdge :: w.alive ==> multiset(r)[w] == multiset(s)[w]
    decreases |s|
  {
    if |s| == 0 then []
    else
      assert s == [s[0]] + s[1..];
      (if s[0].alive then [s[0]] else []) + AliveEdges(s[1..])
  }

  /** The order of the length sort. */
  predicate ShorterOrEqual(a: WEdge, b: WEdge)
  {
    a.length <= b.length
  }

  /** Comparing cached lengths is a total preorder. */
  lemma ByLengthOrder()
    ensures TotalPreorder(ShorterOrEqual)
  {
  }

  /** The sort of `valid_edges` by cached squared length. */
  function SortByLength(s: seq<WEdge>): (r: seq<WEdge>)
    ensures Sorted(ShorterOrEqual, r) && multiset(r) == multiset(s) && |r| == |s|
  {
    ByLengthOrder();
    SortBy(ShorterOrEqual, s)
  }

  /** The edges the loop visits: the alive ones, sorted by length. */
  function Prepared(stack: seq<WEdge>): seq<WEdge>
  {
    SortByLength(AliveEdges(stack))
  }

  /** The cached lengths of `s`, in order. */
  function Lengths(s: seq<WEdge>): (r: seq<int>)
    ensures |r| == |s|
  {
    seq(|s|, i requires 0 <= i < |s| => s[i].length)
  }

  /** The largest length in `s`, or 0 when there is none above 0 (`min_d`
      starts at 0). */
  function MaxLength(s: seq<WEdge>): (m: int)
    ensures m >= 0 && forall k :: 0 <= k < |s| ==> s[k].length <= m
    ensures m == 0 || exists k :: 0 <= k < |s| && s[k].length == m
    decreases |s|
  {
    if |s| == 0 then 0
    else
      var m := MaxLength(s[..|s| - 1]);
      assert forall k :: 0 <= k < |s| - 1 ==> s[..|s| - 1][k] == s[k];
      if s[|s| - 1].length > m then s[|s| - 1].length else m
  }

  /** Every endpoint identifier names a node of the forest. */
  predicate Endpoints(s: seq<WEdge>, n: int)
  {
    forall k :: 0 <= k < |s| ==> 0 <= s[k].org < n && 0 <= s[k].dest < n
  }

  /** The endpoints of `w` are in the same set. */
  ghost predicate Joined(parent: seq<int>, w: WEdge)
    requires Forest(parent) && 0 <= w.org < |parent| && 0 <= w.dest < |parent|
  {
    FindSet(parent, w.org) == FindSet(parent, w.dest)
  }

  /** Some edge of `sol` joins `a` and `b`, in either direction. */
  ghost predicate Step(sol: seq<WEdge>, a: int, b: int)
  {
    exists k :: 0 <= k < |sol| && ((sol[k].org == a && sol[k].dest == b) || (sol[k].org == b && sol[k].dest == a))
  }

  /** `path` is a non-empty walk along edges of `sol`. */
  ghost predicate Walk(sol: seq<WEdge>, path: seq<int>)
  {
    |path| > 0 && forall i :: 0 <= i < |path| - 1 ==> Step(sol, path[i], path[i + 1])
  }

  /** `x` and `y` are connected by edges of `sol`. */
  ghost predicate Linked(sol: seq<WEdge>, x: int, y: int)
  {
    exists path :: Walk(sol, path) && path[0] == x && path[|path| - 1] == y
  }

  /** No edge of `sol` closes a cycle: each one joins two nodes that the edges
      before it do not connect. */
  ghost predicate Acyclic(sol: seq<WEdge>)
  {
    forall k :: 0 <= k < |sol| ==> !Linked(sol[..k], sol[k].org, sol[k].dest)
  }

  /** Every node is connected to itself. */
  lemma LinkedRefl(sol: seq<WEdge>, x: int)
    ensures Linked(sol, x, x)
  {
    assert Walk(sol, [x]);
  }

  /** Each edge connects its endpoints. */
  lemma LinkedEdge(sol: seq<WEdge>, k: int)
    requires 0 <= k < |sol|
    ensures Linked(sol, sol[k].org, sol[k].dest)
  {
    var path := [sol[k].org, sol[k].dest];
    assert Step(sol, path[0], path[1]);
    assert Walk(sol, path);
  }

  /** Without edges, only a node and itself are connected. */
  lemma LinkedEmpty(x: int, y: int)
    requires Linked([], x, y)
    ensures x == y
  {
    var path :| Walk([], path) && path[0] == x && path[|path| - 1] == y;
    assert |path| == 1 || Step([], path[0], path[1]);
  }

  /** Connection is symmetric: a walk read backwards. */
  lemma LinkedSym(sol: seq<WEdge>, x: int, y: int)
    requires Linked(sol, x, y)
    ensures Linked(sol, y, x)
  {
    var path :| Walk(sol, path) && path[0] == x && path[|path| - 1] == y;
    var back := seq(|path|, i requires 0 <= i < |path| => path[|path| - 1 - i]);
    forall i | 0 <= i < |back| - 1
      ensures Step(sol, back[i], back[i + 1])
    {
      var j := |path| - 2 - i;
      assert Step(sol, path[j], path[j + 1]);
      assert back[i] == path[j + 1] && back[i + 1] == path[j];
    }
    assert Walk(sol, back);
  }

  /** Connection is transitive: two walks put end to end. */
  lemma LinkedTrans(sol: seq<WEdge>, x: int, y: int, z: int)
    requires Linked(sol, x, y) && Linked(sol, y, z)
    ensures Linked(sol, x, z)
  {
    var p :| Walk(sol, p) && p[0] == x && p[|p| - 1] == y;
    var q :| Walk(sol, q) && q[0] == y && q[|q| - 1] == z;
    var r := p + q[1..];
    forall i | 0 <= i < |r| - 1
      ensures Step(sol, r[i], r[i + 1])
    {
      if i < |p| - 1 {
        assert r[i] == p[i] && r[i + 1] == p[i + 1];
        assert Step(sol, p[i], p[i + 1]);
      } else {
        var j := i - |p| + 1;
        assert r[i] == q[j] && r[i + 1] == q[j + 1];
        assert Step(sol, q[j], q[j + 1]);
      }
    }
    assert Walk(sol, r);
  }

  /** Adding an edge keeps every connection. */
  lemma LinkedMono(sol: seq<WEdge>, w: WEdge, x: int, y: int)
    requires Linked(sol, x, y)
    ensures Linked(sol + [w], x, y)
  {
    var path :| Walk(sol, path) && path[0] == x && path[|path| - 1] == y;
    forall i | 0 <= i < |path| - 1
      ensures Step(sol + [w], path[i], path[i + 1])
    {
      assert Step(sol, path[i], path[i + 1]);
      var k :| 0 <= k < |sol| && ((sol[k].org == path[i] && sol[k].dest == path[i + 1])
                                  || (sol[k].org == path[i + 1] && sol[k].dest == path[i]));
      assert (sol + [w])[k] == sol[k];
    }
    assert Walk(sol + [w], path);
  }

  /** Sets that join the endpoints of every edge of `sol` join the two ends of
      every walk along `sol`. */
  lemma {:induction false} WalkSameSet(parent: seq<int>, sol: seq<WEdge>, path: seq<int>)
    requires Forest(parent) && Endpoints(sol, |parent|)
    requires forall k :: 0 <= k < |sol| ==> FindSet(parent, sol[k].org) == FindSet(parent, sol[k].dest)
    requires Walk(sol, path) && 0 <= path[0] < |parent|
    ensures 0 <= path[|path| - 1] < |parent| && FindSet(parent, path[0]) == FindSet(parent, path[|path| - 1])
    decreases |path|
  {
    if |path| > 1 {
      var front := path[..|path| - 1];
      forall i | 0 <= i < |front| - 1
        ensures Step(sol, front[i], front[i + 1])
      {
        assert front[i] == path[i] && front[i + 1] == path[i + 1];
        assert Step(sol, path[i], path[i + 1]);
      }
      WalkSameSet(parent, sol, front);
      var a, b := path[|path| - 2], path[|path| - 1];
      assert a == front[|front| - 1];
      assert Step(sol, a, b);
      var k :| 0 <= k < |sol| && ((sol[k].org == a && sol[k].dest == b) || (sol[k].org == b && sol[k].dest == a));
    }
  }

  /** The loop state: `parent`, `a_solution` and `min_d`. */
  datatype State = State(parent: seq<int>, solution: seq<WEdge>, minD: int)

  /** The state before the loop: singleton sets, no edge, `min_d == 0`. */
  function Start(n: nat): (st: State)
    ensures Forest(st.parent) && |st.parent| == n && |Roots(st.parent)| == n
  {
    SingletonsForest(n);
    State(Singletons(n), [], 0)
  }

  /** One iteration for the edge `w`.  `guard` is the length that the test
      before the `min_d` update reads.  Returns the new state and whether the
      loop stops. */
  function Consider(st: State, w: WEdge, guard: int, n: int): (r: (State, bool))
    requires Forest(st.parent) && |st.parent| == n && 0 <= w.org < n && 0 <= w.dest < n
    ensures Forest(r.0.parent) && |r.0.parent| == n
    ensures var accepted := w.alive && FindSet(st.parent, w.org) != FindSet(st.parent, w.dest);
      && (accepted ==>
            && r.0.solution == st.solution + [w]
            && Roots(r.0.parent) == Roots(st.parent) - {FindSet(st.parent, w.org)}
            && Joined(r.0.parent, w)
            && r.1 == (|r.0.solution| == n - 1))
      && (!accepted ==> r.0 == st && !r.1)
    ensures forall x, y :: 0 <= x < n && 0 <= y < n && FindSet(st.parent, x) == FindSet(st.parent, y) ==>
              FindSet(r.0.parent, x) == FindSet(r.0.parent, y)
  {
    if !w.alive then (st, false)
    else
      var ro, rd := FindSet(st.parent, w.org), FindSet(st.parent, w.dest);
      if ro == rd then (st, false)
      else
        Union(st.parent, ro, rd);
        var solution := st.solution + [w];
        var minD := if guard > st.minD then w.length else st.minD;
        (State(st.parent[ro := st.parent[rd]], solution, minD), |solution| == n - 1)
  }

  /** The loop from index `i` of the visited edges; `guards[i]` is the length
      the `min_d` test reads at index `i`. */
  function Scan(valid: seq<WEdge>, guards: seq<int>, n: int, i: int, st: State): (r: State)
    requires |guards| == |valid| && 0 <= i <= |valid| && Endpoints(valid, n)
    requires Forest(st.parent) && |st.parent| == n
    ensures Forest(r.parent) && |r.parent| == n
    decreases |valid| - i
  {
    if i == |valid| then st
    else
      var (st', stop) := Consider(st, valid[i], guards[i], n);
      if stop then st' else Scan(valid, guards, n, i + 1, st')
  }

  /** Every accepted edge merged two sets: accepted edges and sets add up to `n`. */
  ghost predicate Counted(st: State, n: int)
  {
    Forest(st.parent) && |st.parent| == n && |st.solution| + |Roots(st.parent)| == n
  }

  /** The accepted edges are alive edges of `valid`. */
  ghost predicate Picked(valid: seq<WEdge>, st: State)
  {
    forall k :: 0 <= k < |st.solution| ==> st.solution[k].alive && st.solution[k] in valid
  }

  /** Every accepted edge and every alive edge among the first `i` ends inside one set. */
  ghost predicate Spans(valid: seq<WEdge>, i: int, st: State)
    requires Forest(st.parent) && 0 <= i <= |valid|
    requires Endpoints(valid, |st.parent|) && Endpoints(st.solution, |st.parent|)
  {
    && (forall k :: 0 <= k < |st.solution| ==> Joined(st.parent, st.solution[k]))
    && (forall j :: 0 <= j < i && valid[j].alive ==> Joined(st.parent, valid[j]))
  }

  /** The accepted edges are in length order and no longer than any edge from `i` on. */
  ghost predicate Ordered(valid: seq<WEdge>, i: int, st: State)
    requires 0 <= i
  {
    && Sorted(ShorterOrEqual, st.solution)
    && (forall k, j :: 0 <= k < |st.solution| && i <= j < |valid| ==> st.solution[k].length <= valid[j].length)
  }

  /** What the loop keeps after visiting the first `i` edges. */
  ghost predicate Good(valid: seq<WEdge>, n: int, i: int, st: State)
    requires Endpoints(valid, n) && 0 <= i <= |valid|
  {
    && Counted(st, n)
    && Endpoints(st.solution, n)
    && Picked(valid, st)
    && Spans(valid, i, st)
    && Ordered(valid, i, st)
  }

  /** One iteration keeps `Good`, whatever length the `min_d` test reads. */
  lemma ConsiderGood(valid: seq<WEdge>, guard: int, n: int, i: int, st: State)
    requires Endpoints(valid, n) && 0 <= i < |valid| && Sorted(ShorterOrEqual, valid)
    requires Good(valid, n, i, st)
    ensures Good(valid, n, i + 1, Consider(st, valid[i], guard, n).0)
  {
    var st' := Consider(st, valid[i], guard, n).0;
    ConsiderCounted(st, valid[i], guard, n);
    assert Endpoints(st'.solution, n) && Picked(valid, st');
    ConsiderSpans(valid, guard, n, i, st);
    ConsiderOrdered(valid, guard, n, i, st);
  }

  /** One iteration keeps `Counted`. */
  lemma ConsiderCounted(st: State, w: WEdge, guard: int, n: int)
    requires Counted(st, n) && 0 <= w.org < n && 0 <= w.dest < n
    ensures Counted(Consider(st, w, guard, n).0, n)
  {
    var st' := Consider(st, w, guard, n).0;
    if st' != st {
      var ro := FindSet(st.parent, w.org);
      assert ro in Roots(st.parent);
      assert Roots(st'.parent) == Roots(st.parent) - {ro};
    }
  }

  /** One iteration keeps `Spans`, one index further. */
  lemma ConsiderSpans(valid: seq<WEdge>, guard: int, n: int, i: int, st: State)
    requires Endpoints(valid, n) && 0 <= i < |valid|
    requires Forest(st.parent) && |st.parent| == n && Endpoints(st.solution, n) && Spans(valid, i, st)
    ensures var st' := Consider(st, valid[i], guard, n).0;
      Endpoints(st'.solution, n) && Spans(valid, i + 1, st')
  {
    var w := valid[i];
    var st' := Consider(st, w, guard, n).0;
    if st' != st {
      forall k | 0 <= k < |st'.solution|
        ensures Joined(st'.parent, st'.solution[k])
      {
        if k < |st.solution| {
          assert st'.solution[k] == st.solution[k];
        }
      }
    }
  }

  /** One iteration keeps `Ordered`, one index further. */
  lemma ConsiderOrdered(valid: seq<WEdge>, guard: int, n: int, i: int, st: State)
    requires Endpoints(valid, n) && 0 <= i < |valid| && Sorted(ShorterOrEqual, valid)
    requires Forest(st.parent) && |st.parent| == n && Ordered(valid, i, st)
    ensures Ordered(valid, i + 1, Consider(st, valid[i], guard, n).0)
  {
    var st' := Consider(st, valid[i], guard, n).0;
    if st' != st {
      assert st'.solution == st.solution + [valid[i]];
      forall k, j | 0 <= k < |st'.solution| && i + 1 <= j < |valid|
        ensures st'.solution[k].length <= valid[j].length
      {
        if k < |st.solution| {
          assert st'.solution[k] == st.solution[k];
        }
      }
    }
  }

  /** A state whose `solution` has `n - 1` edges has a single set. */
  lemma FullJoinsAll(valid: seq<WEdge>, n: int, st: State)
    requires Endpoints(valid, n) && Forest(st.parent) && |st.parent| == n
    requires |st.solution| + |Roots(st.parent)| == n && |st.solution| == n - 1
    ensures forall j :: 0 <= j < |valid| ==> Joined(st.parent, valid[j])
  {
    forall j | 0 <= j < |valid|
      ensures Joined(st.parent, valid[j])
    {
      OneRoot(st.parent, valid[j].org, valid[j].dest);
    }
  }

  /** The whole loop keeps `Good`, and ends having visited every edge or with
      `n - 1` accepted edges, which joins everything as well. */
  lemma {:induction false} ScanGood(valid: seq<WEdge>, guards: seq<int>, n: int, i: int, st: State)
    requires |guards| == |valid| && 0 <= i <= |valid| && Endpoints(valid, n)
    requires Sorted(ShorterOrEqual, valid) && Good(valid, n, i, st)
    ensures Good(valid, n, |valid|, Scan(valid, guards, n, i, st))
    decreases |valid| - i
  {
    if i < |valid| {
      var (st', stop) := Consider(st, valid[i], guards[i], n);
      ConsiderGood(valid, guards[i], n, i, st);
      if stop {
        FullJoinsAll(valid, n, st');
      } else {
        ScanGood(valid, guards, n, i + 1, st');
      }
    }
  }

  /** The sets of the forest are exactly the components of the accepted
      edges, and the accepted edges form a forest of their own. */
  ghost predicate Components(st: State, n: int)
    requires Forest(st.parent) && |st.parent| == n
  {
    && (forall x, y :: 0 <= x < n && 0 <= y < n ==>
          (FindSet(st.parent, x) == FindSet(st.parent, y) <==> Linked(st.solution, x, y)))
    && Acyclic(st.solution)
  }

  /** Before the loop every node is alone in its set and no edge is accepted. */
  lemma StartComponents(n: nat)
    ensures Components(Start(n), n)
  {
    var p := Start(n).parent;
    forall x, y | 0 <= x < n && 0 <= y < n
      ensures FindSet(p, x) == FindSet(p, y) <==> Linked([], x, y)
    {
      assert FindSet(p, x) == x && FindSet(p, y) == y;
      if Linked([], x, y) {
        LinkedEmpty(x, y);
      }
      if x == y {
        LinkedRefl([], x);
      }
    }
  }

  /** Two nodes whose sets the union of the sets of `w.org` and `w.dest`
      merges are connected once `w` is accepted. */
  lemma UnionLinks(st: State, w: WEdge, n: int, x: int, y: int)
    requires Forest(st.parent) && |st.parent| == n && Components(st, n)
    requires 0 <= w.org < n && 0 <= w.dest < n && 0 <= x < n && 0 <= y < n
    requires var f := FindSet(st.parent, x); var g := FindSet(st.parent, y);
      || f == g
      || (f == FindSet(st.parent, w.org) && g == FindSet(st.parent, w.dest))
      || (f == FindSet(st.parent, w.dest) && g == FindSet(st.parent, w.org))
    ensures Linked(st.solution + [w], x, y)
  {
    var sol, p := st.solution, st.parent;
    var sol' := sol + [w];
    assert sol'[|sol|] == w;
    LinkedEdge(sol', |sol|);
    if FindSet(p, x) == FindSet(p, y) {
      LinkedMono(sol, w, x, y);
    } else if FindSet(p, x) == FindSet(p, w.org) && FindSet(p, y) == FindSet(p, w.dest) {
      LinkedMono(sol, w, x, w.org);
      LinkedMono(sol, w, w.dest, y);
      LinkedTrans(sol', x, w.org, w.dest);
      LinkedTrans(sol', x, w.dest, y);
    } else {
      LinkedMono(sol, w, x, w.dest);
      LinkedMono(sol, w, w.org, y);
      LinkedSym(sol', w.org, w.dest);
      LinkedTrans(sol', x, w.dest, w.org);
      LinkedTrans(sol', x, w.org, y);
    }
  }

  /** One iteration keeps the sets equal to the components of the accepted
      edges: an accepted edge joins two components, exactly as the union
      joins two sets. */
  lemma ConsiderComponents(st: State, w: WEdge, guard: int, n: int)
    requires Forest(st.parent) && |st.parent| == n && 0 <= w.org < n && 0 <= w.dest < n
    requires Endpoints(st.solution, n) && Components(st, n)
    ensures Components(Consider(st, w, guard, n).0, n)
  {
    var st' := Consider(st, w, guard, n).0;
    if st' != st {
      var p, sol := st.parent, st.solution;
      var ro, rd := FindSet(p, w.org), FindSet(p, w.dest);
      Union(p, ro, rd);
      var p', sol' := st'.parent, sol + [w];
      assert p' == p[ro := p[rd]] && st'.solution == sol';
      forall k | 0 <= k < |sol'|
        ensures FindSet(p', sol'[k].org) == FindSet(p', sol'[k].dest)
      {
        if k < |sol| {
          assert sol'[k] == sol[k];
          LinkedEdge(sol, k);
        }
      }
      forall x, y | 0 <= x < n && 0 <= y < n
        ensures FindSet(p', x) == FindSet(p', y) <==> Linked(sol', x, y)
      {
        if Linked(sol', x, y) {
          var path :| Walk(sol', path) && path[0] == x && path[|path| - 1] == y;
          WalkSameSet(p', sol', path);
        }
        if FindSet(p', x) == FindSet(p', y) {
          UnionLinks(st, w, n, x, y);
        }
      }
      forall k | 0 <= k < |sol'|
        ensures !Linked(sol'[..k], sol'[k].org, sol'[k].dest)
      {
        if k < |sol| {
          assert sol'[..k] == sol[..k] && sol'[k] == sol[k];
        } else {
          assert sol'[..k] == sol;
        }
      }
    }
  }

  /** The whole loop keeps the sets equal to the components of the accepted
      edges. */
  lemma {:induction false} ScanComponents(valid: seq<WEdge>, guards: seq<int>, n: int, i: int, st: State)
    requires |guards| == |valid| && 0 <= i <= |valid| && Endpoints(valid, n)
    requires Forest(st.parent) && |st.parent| == n && Endpoints(st.solution, n) && Components(st, n)
    ensures Components(Scan(valid, guards, n, i, st), n)
    decreases |valid| - i
  {
    if i < |valid| {
      ConsiderComponents(st, valid[i], guards[i], n);
      var (st', stop) := Consider(st, valid[i], guards[i], n);
      if !stop {
        assert Endpoints(st'.solution, n);
        ScanComponents(valid, guards, n, i + 1, st');
      }
    }
  }

  /** When the `min_d` test reads the length of the visited edge, one
      iteration keeps `min_d` the largest accepted length. */
  lemma ConsiderMax(st: State, w: WEdge, n: int)
    requires Forest(st.parent) && |st.parent| == n && 0 <= w.org < n && 0 <= w.dest < n
    requires st.minD == MaxLength(st.solution)
    ensures Consider(st, w, w.length, n).0.minD == MaxLength(Consider(st, w, w.length, n).0.solution)
  {
    var st' := Consider(st, w, w.length, n).0;
    if st' != st {
      assert st'.solution[..|st'.solution| - 1] == st.solution;
    }
  }

  /** When the `min_d` test reads the length of the visited edge itself,
      `min_d` is the largest accepted length. */
  lemma {:induction false} ScanMax(valid: seq<WEdge>, n: int, i: int, st: State)
    requires 0 <= i <= |valid| && Endpoints(valid, n)
    requires Forest(st.parent) && |st.parent| == n && st.minD == MaxLength(st.solution)
    ensures Scan(valid, Lengths(valid), n, i, st).minD == MaxLength(Scan(valid, Lengths(valid), n, i, st).solution)
    decreases |valid| - i
  {
    if i < |valid| {
      var r := Consider(st, valid[i], valid[i].length, n);
      assert Lengths(valid)[i] == valid[i].length;
      ConsiderMax(st, valid[i], n);
      assert Scan(valid, Lengths(valid), n, i, st) == if r.1 then r.0 else Scan(valid, Lengths(valid), n, i + 1, r.0);
      if !r.1 {
        ScanMax(valid, n, i + 1, r.0);
      }
    }
  }

  /** The length read by the `min_d` test changes nothing but `min_d`. */
  lemma {:induction false} ScanGuardsIrrelevant(valid: seq<WEdge>, g1: seq<int>, g2: seq<int>, n: int,
                                                i: int, st1: State, st2: State)
    requires |g1| == |valid| && |g2| == |valid| && 0 <= i <= |valid| && Endpoints(valid, n)
    requires Forest(st1.parent) && |st1.parent| == n
    requires st2.parent == st1.parent && st2.solution == st1.solution
    ensures Scan(valid, g1, n, i, st1).parent == Scan(valid, g2, n, i, st2).parent
    ensures Scan(valid, g1, n, i, st1).solution == Scan(valid, g2, n, i, st2).solution
    decreases |valid| - i
  {
    if i < |valid| {
      var (s1, stop1) := Consider(st1, valid[i], g1[i], n);
      var (s2, stop2) := Consider(st2, valid[i], g2[i], n);
      if !stop1 {
        ScanGuardsIrrelevant(valid, g1, g2, n, i + 1, s1, s2);
      }
    }
  }

  /** Alive edges whose endpoints name nodes of the forest. */
  predicate AliveEndpoints(stack: seq<WEdge>, n: int)
  {
    forall k :: 0 <= k < |stack| && stack[k].alive ==> 0 <= stack[k].org < n && 0 <= stack[k].dest < n
  }

  /** The visited edges are the alive stacked edges, and their endpoints are in range. */
  lemma PreparedEdges(stack: seq<WEdge>, n: int)
    requires AliveEndpoints(stack, n)
    ensures Endpoints(Prepared(stack), n) && Sorted(ShorterOrEqual, Prepared(stack))
    ensures |Prepared(stack)| <= |stack|
    ensures forall k :: 0 <= k < |Prepared(stack)| ==> Prepared(stack)[k].alive && Prepared(stack)[k] in stack
    ensures forall k :: 0 <= k < |stack| && stack[k].alive ==> stack[k] in Prepared(stack)
  {
    var a := AliveEdges(stack);
    var p := Prepared(stack);
    forall k | 0 <= k < |p|
      ensures p[k].alive && p[k] in stack
    {
      assert p[k] in multiset(a);
    }
    forall k | 0 <= k < |stack| && stack[k].alive
      ensures stack[k] in p
    {
      assert stack[k] in multiset(stack);
      assert multiset(a)[stack[k]] == multiset(stack)[stack[k]];
      assert stack[k] in multiset(p);
    }
    forall k | 0 <= k < |p|
      ensures 0 <= p[k].org < n && 0 <= p[k].dest < n
    {
      var j :| 0 <= j < |stack| && stack[j] == p[k];
    }
  }

  /** The loop of `computeKruskalMinD`, whose `min_d` test reads the visited edge. */
  function KruskalMinD(stack: seq<WEdge>, n: nat): (r: State)
    requires AliveEndpoints(stack, n)
    ensures Forest(r.parent) && |r.parent| == n && |r.solution| + |Roots(r.parent)| == n
    ensures Sorted(ShorterOrEqual, r.solution)
  {
    PreparedEdges(stack, n);
    var valid := Prepared(stack);
    StartGood(valid, n);
    ScanGood(valid, Lengths(valid), n, 0, Start(n));
    Scan(valid, Lengths(valid), n, 0, Start(n))
  }

  /** The `Kruskal` constructor of `kruskal.cpp` as written: its `min_d` test
      reads `edge_stack[i]`, the unsorted and unfiltered stack, at the index
      of the visited edge.  The body reads `edge_stack` and `num_node`, not
      its parameters `e_stack` and `num_nodes`; `stack` and `n` stand for
      the names the body reads. */
  function KruskalAsWritten(stack: seq<WEdge>, n: nat): (r: State)
    requires AliveEndpoints(stack, n)
    ensures Forest(r.parent) && |r.parent| == n && |r.solution| + |Roots(r.parent)| == n
    ensures Sorted(ShorterOrEqual, r.solution)
  {
    PreparedEdges(stack, n);
    var valid := Prepared(stack);
    StartGood(valid, n);
    ScanGood(valid, Lengths(stack)[..|valid|], n, 0, Start(n));
    Scan(valid, Lengths(stack)[..|valid|], n, 0, Start(n))
  }

  /** Before the loop nothing is accepted, so `Good` holds at index 0. */
  lemma StartGood(valid: seq<WEdge>, n: nat)
    requires Endpoints(valid, n)
    ensures Good(valid, n, 0, Start(n))
  {
  }

  /** The final state of `computeKruskalMinD` satisfies `Good` over all
      visited edges, and its `min_d` is the largest accepted length. */
  lemma KruskalGood(stack: seq<WEdge>, n: nat)
    requires AliveEndpoints(stack, n)
    ensures Endpoints(Prepared(stack), n)
    ensures Good(Prepared(stack), n, |Prepared(stack)|, KruskalMinD(stack, n))
    ensures KruskalMinD(stack, n).minD == MaxLength(KruskalMinD(stack, n).solution)
  {
    PreparedEdges(stack, n);
    var valid := Prepared(stack);
    StartGood(valid, n);
    ScanGood(valid, Lengths(valid), n, 0, Start(n));
    ScanMax(valid, n, 0, Start(n));
  }

  /** At the end of `computeKruskalMinD` the sets are the components of the
      accepted edges, and no accepted edge closes a cycle. */
  lemma KruskalComponents(stack: seq<WEdge>, n: nat)
    requires AliveEndpoints(stack, n)
    ensures Components(KruskalMinD(stack, n), n)
  {
    PreparedEdges(stack, n);
    var valid := Prepared(stack);
    StartComponents(n);
    ScanComponents(valid, Lengths(valid), n, 0, Start(n));
  }

  /** The edges of `sol` no longer than `len`, in order. */
  function Within(sol: seq<WEdge>, len: int): (r: seq<WEdge>)
    ensures |r| <= |sol|
    ensures forall k :: 0 <= k < |r| ==> r[k].length <= len
    decreases |sol|
  {
    if |sol| == 0 then []
    else Within(sol[..|sol| - 1], len) + (if sol[|sol| - 1].length <= len then [sol[|sol| - 1]] else [])
  }

  /** The filter keeps exactly the edges of `sol` no longer than `len`. */
  lemma {:induction false} WithinMembers(sol: seq<WEdge>, len: int, w: WEdge)
    ensures w in Within(sol, len) <==> w in sol && w.length <= len
    decreases |sol|
  {
    if |sol| > 0 {
      var front := sol[..|sol| - 1];
      WithinMembers(front, len, w);
      assert sol == front + [sol[|sol| - 1]];
    }
  }

  /** When every edge of `sol` is no longer than `len`, none is left out. */
  lemma {:induction false} WithinAll(sol: seq<WEdge>, len: int)
    requires forall k :: 0 <= k < |sol| ==> sol[k].length <= len
    ensures Within(sol, len) == sol
    decreases |sol|
  {
    if |sol| > 0 {
      var front := sol[..|sol| - 1];
      WithinAll(front, len);
      assert front + [sol[|sol| - 1]] == sol;
    }
  }

  /** Appending `w` to the accepted edges appends it to their filter exactly
      when it is no longer than `len`. */
  lemma WithinAppend(sol: seq<WEdge>, w: WEdge, len: int)
    ensures Within(sol + [w], len) == Within(sol, len) + (if w.length <= len then [w] else [])
  {
    assert (sol + [w])[..|sol|] == sol;
  }

  /** Accepting one more edge keeps every connection along edges no longer than `len`. */
  lemma LinkedWithinMono(sol: seq<WEdge>, w: WEdge, len: int, x: int, y: int)
    requires Linked(Within(sol, len), x, y)
    ensures Linked(Within(sol + [w], len), x, y)
  {
    WithinAppend(sol, w, len);
    if w.length <= len {
      LinkedMono(Within(sol, len), w, x, y);
    } else {
      assert Within(sol + [w], len) == Within(sol, len);
    }
  }

  /** The cycle property over the first `i` visited edges: the endpoints of
      each alive one are connected by accepted edges no longer than it. */
  ghost predicate Cycles(valid: seq<WEdge>, i: int, sol: seq<WEdge>)
    requires 0 <= i <= |valid|
  {
    forall j :: 0 <= j < i && valid[j].alive ==>
      Linked(Within(sol, valid[j].length), valid[j].org, valid[j].dest)
  }

  /** An accepted edge links its own endpoints among the accepted edges no
      longer than it, and the earlier links survive. */
  lemma AcceptCycles(valid: seq<WEdge>, i: int, sol: seq<WEdge>)
    requires 0 <= i < |valid| && Cycles(valid, i, sol)
    ensures Cycles(valid, i + 1, sol + [valid[i]])
  {
    var w := valid[i];
    forall j | 0 <= j < i + 1 && valid[j].alive
      ensures Linked(Within(sol + [w], valid[j].length), valid[j].org, valid[j].dest)
    {
      if j < i {
        assert Linked(Within(sol, valid[j].length), valid[j].org, valid[j].dest);
        LinkedWithinMono(sol, w, valid[j].length, valid[j].org, valid[j].dest);
      } else {
        WithinAppend(sol, w, w.length);
        var within := Within(sol + [w], w.length);
        assert within[|within| - 1] == w;
        LinkedEdge(within, |within| - 1);
      }
    }
  }

  /** A rejected alive edge already had its endpoints linked by accepted
      edges, every one of which is no longer than it. */
  lemma RejectCycles(valid: seq<WEdge>, i: int, sol: seq<WEdge>)
    requires 0 <= i < |valid| && Cycles(valid, i, sol)
    requires valid[i].alive ==> Linked(sol, valid[i].org, valid[i].dest)
    requires forall k :: 0 <= k < |sol| ==> sol[k].length <= valid[i].length
    ensures Cycles(valid, i + 1, sol)
  {
    WithinAll(sol, valid[i].length);
  }

  /** One iteration keeps the cycle property, one index further. */
  lemma ConsiderCycles(valid: seq<WEdge>, guard: int, n: int, i: int, st: State)
    requires Endpoints(valid, n) && 0 <= i < |valid| && Good(valid, n, i, st)
    requires Components(st, n) && Cycles(valid, i, st.solution)
    ensures Cycles(valid, i + 1, Consider(st, valid[i], guard, n).0.solution)
  {
    var w := valid[i];
    var sol := st.solution;
    var st' := Consider(st, w, guard, n).0;
    if w.alive && FindSet(st.parent, w.org) != FindSet(st.parent, w.dest) {
      AcceptCycles(valid, i, sol);
      assert st'.solution == sol + [w];
    } else {
      assert Ordered(valid, i, st);
      RejectCycles(valid, i, sol);
      assert st' == st;
    }
  }

  /** Once `n - 1` edges are accepted, the cycle property holds for every
      later edge: they all end inside the single set, and no accepted edge is
      longer than them. */
  lemma FullCycles(valid: seq<WEdge>, n: int, i: int, st: State)
    requires Endpoints(valid, n) && 0 <= i <= |valid| && Good(valid, n, i, st)
    requires Components(st, n) && Cycles(valid, i, st.solution) && |st.solution| == n - 1
    ensures Cycles(valid, |valid|, st.solution)
  {
    FullJoinsAll(valid, n, st);
    forall j | i <= j < |valid| && valid[j].alive
      ensures Linked(Within(st.solution, valid[j].length), valid[j].org, valid[j].dest)
    {
      assert Joined(st.parent, valid[j]);
      assert Ordered(valid, i, st);
      WithinAll(st.solution, valid[j].length);
    }
  }

  /** Everything the loop keeps after visiting the first `i` edges. */
  ghost predicate Scanning(valid: seq<WEdge>, n: int, i: int, st: State)
    requires Endpoints(valid, n) && 0 <= i <= |valid|
  {
    Good(valid, n, i, st) && Components(st, n) && Cycles(valid, i, st.solution)
  }

  /** One iteration keeps all of it. */
  lemma ConsiderScanning(valid: seq<WEdge>, guard: int, n: int, i: int, st: State)
    requires Endpoints(valid, n) && 0 <= i < |valid| && Sorted(ShorterOrEqual, valid)
    requires Scanning(valid, n, i, st)
    ensures Scanning(valid, n, i + 1, Consider(st, valid[i], guard, n).0)
  {
    ConsiderCycles(valid, guard, n, i, st);
    ConsiderGood(valid, guard, n, i, st);
    ConsiderComponents(st, valid[i], guard, n);
  }

  /** The whole loop keeps the cycle property and ends with it over every
      visited edge. */
  lemma {:induction false} ScanCycles(valid: seq<WEdge>, guards: seq<int>, n: int, i: int, st: State)
    requires |guards| == |valid| && 0 <= i <= |valid| && Endpoints(valid, n)
    requires Sorted(ShorterOrEqual, valid) && Scanning(valid, n, i, st)
    ensures Cycles(valid, |valid|, Scan(valid, guards, n, i, st).solution)
    decreases |valid| - i
  {
    if i < |valid| {
      ConsiderScanning(valid, guards[i], n, i, st);
      var (st', stop) := Consider(st, valid[i], guards[i], n);
      if stop {
        FullCycles(valid, n, i + 1, st');
      } else {
        ScanCycles(valid, guards, n, i + 1, st');
      }
    }
  }

  /** At the end of `computeKruskalMinD` the cycle property holds for every
      alive stacked edge. */
  lemma KruskalCycles(stack: seq<WEdge>, n: nat)
    requires AliveEndpoints(stack, n)
    ensures forall k :: 0 <= k < |stack| && stack[k].alive ==>
              Linked(Within(KruskalMinD(stack, n).solution, stack[k].length), stack[k].org, stack[k].dest)
  {
    PreparedEdges(stack, n);
    var valid := Prepared(stack);
    StartGood(valid, n);
    StartComponents(n);
    ScanCycles(valid, Lengths(valid), n, 0, Start(n));
    var sol := KruskalMinD(stack, n).solution;
    forall k | 0 <= k < |stack| && stack[k].alive
      ensures Linked(Within(sol, stack[k].length), stack[k].org, stack[k].dest)
    {
      var j := IndexOf(valid, stack[k]);
    }
  }

  /** What a finished scan over `valid`, the alive edges of `stack`, says
      about the edges of `stack`. */
  lemma GoodForest(stack: seq<WEdge>, valid: seq<WEdge>, n: nat, st: State)
    requires Endpoints(valid, n)
    requires forall k :: 0 <= k < |valid| ==> valid[k] in stack
    requires forall k :: 0 <= k < |stack| && stack[k].alive ==> stack[k] in valid
    requires Good(valid, n, |valid|, st)
    ensures forall k :: 0 <= k < |st.solution| ==> st.solution[k].alive && st.solution[k] in stack
    ensures (n > 0 ==> |st.solution| <= n - 1) && (n == 0 ==> |st.solution| == 0)
    ensures forall k :: 0 <= k < |stack| && stack[k].alive ==>
              FindSet(st.parent, stack[k].org) == FindSet(st.parent, stack[k].dest)
  {
    assert Counted(st, n) && Picked(valid, st) && Spans(valid, |valid|, st);
    if n > 0 {
      HasRoot(st.parent);
    }
    forall k | 0 <= k < |st.solution|
      ensures st.solution[k] in stack
    {
      assert st.solution[k] in valid;
    }
    forall k | 0 <= k < |stack| && stack[k].alive
      ensures FindSet(st.parent, stack[k].org) == FindSet(st.parent, stack[k].dest)
    {
      var j :| 0 <= j < |valid| && valid[j] == stack[k];
      assert Joined(st.parent, valid[j]);
    }
  }

  /** `computeKruskalMinD` builds a spanning forest of the alive edges: only
      alive stacked edges are accepted, in length order, at most `n - 1` of
      them; each accepted edge joins two nodes the earlier ones did not
      connect, the sets of `parent` are exactly the components of the
      accepted edges, every alive edge ends inside one set, and `min_d` is
      the largest accepted squared length. */
  lemma KruskalMinDSpec(stack: seq<WEdge>, n: nat)
    requires AliveEndpoints(stack, n)
    ensures var st := KruskalMinD(stack, n);
      && (forall k :: 0 <= k < |st.solution| ==> st.solution[k].alive && st.solution[k] in stack)
      && Sorted(ShorterOrEqual, st.solution)
      && Forest(st.parent) && |st.parent| == n
      && |st.solution| + |Roots(st.parent)| == n
      && (n > 0 ==> |st.solution| <= n - 1) && (n == 0 ==> |st.solution| == 0)
      && (forall k :: 0 <= k < |stack| && stack[k].alive ==>
            FindSet(st.parent, stack[k].org) == FindSet(st.parent, stack[k].dest))
      && st.minD == MaxLength(st.solution)
      && (forall x, y :: 0 <= x < n && 0 <= y < n ==>
            (FindSet(st.parent, x) == FindSet(st.parent, y) <==> Linked(st.solution, x, y)))
      && Acyclic(st.solution)
  {
    KruskalGood(stack, n);
    PreparedEdges(stack, n);
    GoodForest(stack, Prepared(stack), n, KruskalMinD(stack, n));
    KruskalComponents(stack, n);
  }

  /** The constructor of `kruskal.cpp` accepts the same edges as
      `computeKruskalMinD`: its misread guard only affects `min_d`. */
  lemma AsWrittenSameTree(stack: seq<WEdge>, n: nat)
    requires AliveEndpoints(stack, n)
    ensures KruskalAsWritten(stack, n).solution == KruskalMinD(stack, n).solution
    ensures KruskalAsWritten(stack, n).parent == KruskalMinD(stack, n).parent
  {
    PreparedEdges(stack, n);
    var valid := Prepared(stack);
    ScanGuardsIrrelevant(valid, Lengths(stack)[..|valid|], Lengths(valid), n, 0, Start(n), Start(n));
  }

  /** The edge stack of a built mesh: every stacked edge is in the arena and
      the endpoints of the alive ones are handed-out node identifiers. */
  lemma MeshEndpoints(T: Builder)
    requires Inv(T)
    ensures forall i :: 0 <= i < |T.edges| ==> Has(T.mesh, T.edges[i])
    ensures AliveEndpoints(View(T.mesh, T.edges), T.nodes)
  {
    var view := View(T.mesh, T.edges);
    forall k | 0 <= k < |view| && view[k].alive
      ensures 0 <= view[k].org < T.nodes && 0 <= view[k].dest < T.nodes
    {
      var e := T.edges[k];
      DestIsOrgOfSym(T.mesh, e);
      assert NodeOk(T.points, T.nodes, Org(T.mesh, e));
      assert NodeOk(T.points, T.nodes, Org(T.mesh, Sym(e)));
    }
  }

  /** The `Edge *` behind each visited edge. */
  function Handles(s: seq<WEdge>): seq<Handle>
  {
    seq(|s|, k requires 0 <= k < |s| => s[k].edge)
  }

  /** A position at which `w` occurs in `s`. */
  lemma IndexOf(s: seq<WEdge>, w: WEdge) returns (i: int)
    requires w in s
    ensures 0 <= i < |s| && s[i] == w
  {
    i :| 0 <= i < |s| && s[i] == w;
  }

  /** Alive edges taken from the view of the stack are alive stacked edges of the
      mesh, with their cached lengths. */
  lemma ViewedEdges(T: Builder, sol: seq<WEdge>)
    requires Inv(T) && forall i :: 0 <= i < |T.edges| ==> Has(T.mesh, T.edges[i])
    requires forall k :: 0 <= k < |sol| ==> sol[k].alive && sol[k] in View(T.mesh, T.edges)
    ensures forall k :: 0 <= k < |sol| ==>
              && Handles(sol)[k] in T.edges && Alive(T.mesh, Handles(sol)[k])
              && Length(T.mesh, Handles(sol)[k]) == sol[k].length
    ensures forall k :: 0 <= k < |sol| ==> Has(T.mesh, Handles(sol)[k])
    ensures View(T.mesh, Handles(sol)) == sol
  {
    var view := View(T.mesh, T.edges);
    forall k | 0 <= k < |sol|
      ensures Handles(sol)[k] in T.edges && Length(T.mesh, Handles(sol)[k]) == sol[k].length
      ensures sol[k].alive == Alive(T.mesh, Handles(sol)[k]) && Has(T.mesh, Handles(sol)[k])
    {
      var i := IndexOf(view, sol[k]);
    }
    var back := View(T.mesh, Handles(sol));
    forall k | 0 <= k < |sol|
      ensures back[k] == sol[k]
    {
      var i := IndexOf(view, sol[k]);
    }
  }

  /** Sets joining the endpoints of every alive edge of the view join the
      endpoints of every alive stacked edge of the mesh. */
  lemma ViewedJoins(T: Builder, parent: seq<int>)
    requires Inv(T) && forall i :: 0 <= i < |T.edges| ==> Has(T.mesh, T.edges[i])
    requires AliveEndpoints(View(T.mesh, T.edges), T.nodes)
    requires Forest(parent) && |parent| == T.nodes
    requires forall k :: 0 <= k < |T.edges| && View(T.mesh, T.edges)[k].alive ==>
               FindSet(parent, View(T.mesh, T.edges)[k].org) == FindSet(parent, View(T.mesh, T.edges)[k].dest)
    ensures forall i :: 0 <= i < |T.edges| && Alive(T.mesh, T.edges[i]) ==>
              && 0 <= Org(T.mesh, T.edges[i]).id < T.nodes && 0 <= Dest(T.mesh, T.edges[i]).id < T.nodes
              && FindSet(parent, Org(T.mesh, T.edges[i]).id) == FindSet(parent, Dest(T.mesh, T.edges[i]).id)
  {
    var view := View(T.mesh, T.edges);
    forall i | 0 <= i < |T.edges| && Alive(T.mesh, T.edges[i])
      ensures 0 <= Org(T.mesh, T.edges[i]).id < T.nodes && 0 <= Dest(T.mesh, T.edges[i]).id < T.nodes
      ensures FindSet(parent, Org(T.mesh, T.edges[i]).id) == FindSet(parent, Dest(T.mesh, T.edges[i]).id)
    {
      assert view[i].alive;
    }
  }

  /** The components of the accepted edges, read back from the mesh. */
  lemma ViewedComponents(T: Builder, st: State)
    requires Inv(T) && Forest(st.parent) && |st.parent| == T.nodes && Components(st, T.nodes)
    requires forall k :: 0 <= k < |st.solution| ==> Has(T.mesh, Handles(st.solution)[k])
    requires View(T.mesh, Handles(st.solution)) == st.solution
    ensures forall x, y :: 0 <= x < T.nodes && 0 <= y < T.nodes ==>
              (FindSet(st.parent, x) == FindSet(st.parent, y) <==> Linked(View(T.mesh, Handles(st.solution)), x, y))
    ensures Acyclic(View(T.mesh, Handles(st.solution)))
  {
  }

  /** The run of `computeKruskalMinD` over the stacked edges of a built
      triangulation, with `connected_nodes` sets. */
  function RunOn(T: Builder): (st: State)
    requires Inv(T)
    ensures Forest(st.parent) && |st.parent| == T.nodes
  {
    MeshEndpoints(T);
    KruskalMinD(View(T.mesh, T.edges), T.nodes)
  }

  /** The accepted edges of `RunOn(T)` as mesh edges: alive stacked edges in
      length order, at most `connected_nodes - 1` of them, one per set they
      merged, the largest length being `min_d`. */
  lemma RunOnEdges(T: Builder, solution: seq<Handle>, minD: int, parent: seq<int>)
    requires Inv(T)
    requires solution == Handles(RunOn(T).solution) && minD == RunOn(T).minD && parent == RunOn(T).parent
    ensures forall k :: 0 <= k < |solution| ==> Has(T.mesh, solution[k])
    ensures forall k :: 0 <= k < |solution| ==> solution[k] in T.edges && Alive(T.mesh, solution[k])
    ensures forall k, l :: 0 <= k < l < |solution| ==> Length(T.mesh, solution[k]) <= Length(T.mesh, solution[l])
    ensures T.nodes > 0 ==> |solution| <= T.nodes - 1
    ensures T.nodes == 0 ==> |solution| == 0
    ensures Forest(parent) && |parent| == T.nodes
    ensures |solution| + |Roots(parent)| == T.nodes
    ensures minD >= 0
    ensures forall k :: 0 <= k < |solution| ==> Length(T.mesh, solution[k]) <= minD
    ensures minD == 0 || exists k :: 0 <= k < |solution| && Length(T.mesh, solution[k]) == minD
  {
    MeshEndpoints(T);
    var view := View(T.mesh, T.edges);
    var st := KruskalMinD(view, T.nodes);
    assert st == RunOn(T);
    KruskalMinDSpec(view, T.nodes);
    ViewedEdges(T, st.solution);
    assert forall k :: 0 <= k < |solution| ==> Length(T.mesh, solution[k]) == st.solution[k].length;
    forall k, l | 0 <= k < l < |solution|
      ensures Length(T.mesh, solution[k]) <= Length(T.mesh, solution[l])
    {
      assert ShorterOrEqual(st.solution[k], st.solution[l]);
    }
    assert minD == MaxLength(st.solution);
    if minD != 0 {
      var k :| 0 <= k < |st.solution| && st.solution[k].length == minD;
      assert Length(T.mesh, solution[k]) == minD;
    }
  }

  /** The final sets of `RunOn(T)` are the components of its accepted mesh
      edges, which form a forest, and they join the endpoints of every alive
      stacked edge. */
  lemma RunOnComponents(T: Builder, solution: seq<Handle>, parent: seq<int>)
    requires Inv(T)
    requires solution == Handles(RunOn(T).solution) && parent == RunOn(T).parent
    requires forall k :: 0 <= k < |solution| ==> Has(T.mesh, solution[k])
    ensures forall x, y :: 0 <= x < T.nodes && 0 <= y < T.nodes ==>
              (FindSet(parent, x) == FindSet(parent, y) <==> Linked(View(T.mesh, solution), x, y))
    ensures Acyclic(View(T.mesh, solution))
    ensures forall i :: 0 <= i < |T.edges| && Alive(T.mesh, T.edges[i]) ==>
              && 0 <= Org(T.mesh, T.edges[i]).id < T.nodes && 0 <= Dest(T.mesh, T.edges[i]).id < T.nodes
              && FindSet(parent, Org(T.mesh, T.edges[i]).id) == FindSet(parent, Dest(T.mesh, T.edges[i]).id)
  {
    MeshEndpoints(T);
    var view := View(T.mesh, T.edges);
    var st := KruskalMinD(view, T.nodes);
    KruskalMinDSpec(view, T.nodes);
    ViewedEdges(T, st.solution);
    ViewedJoins(T, st.parent);
    KruskalComponents(view, T.nodes);
    ViewedComponents(T, st);
  }

  /** The cycle property of `RunOn(T)` over the mesh: the endpoints of every
      alive stacked edge are connected by accepted edges no longer than it. */
  lemma RunOnCycles(T: Builder, solution: seq<Handle>)
    requires Inv(T) && solution == Handles(RunOn(T).solution)
    requires forall k :: 0 <= k < |solution| ==> Has(T.mesh, solution[k])
    ensures forall i :: 0 <= i < |T.edges| && Alive(T.mesh, T.edges[i]) ==>
              Linked(Within(View(T.mesh, solution), Length(T.mesh, T.edges[i])),
                     Org(T.mesh, T.edges[i]).id, Dest(T.mesh, T.edges[i]).id)
  {
    MeshEndpoints(T);
    var view := View(T.mesh, T.edges);
    var st := KruskalMinD(view, T.nodes);
    KruskalMinDSpec(view, T.nodes);
    ViewedEdges(T, st.solution);
    KruskalCycles(view, T.nodes);
    forall i | 0 <= i < |T.edges| && Alive(T.mesh, T.edges[i])
      ensures Linked(Within(View(T.mesh, solution), Length(T.mesh, T.edges[i])),
                     Org(T.mesh, T.edges[i]).id, Dest(T.mesh, T.edges[i]).id)
    {
      assert view[i].alive;
    }
  }

  /** `computeKruskalMinD` over a built triangulation, with `connected_nodes`
      sets: the accepted edges are alive stacked edges in length order, at
      most `connected_nodes - 1` of them, each joining two nodes the earlier
      ones did not connect; the final sets are exactly the components of the
      accepted edges, one per missing edge, they join the endpoints of every
      alive stacked edge, every alive stacked edge has its endpoints
      connected by accepted edges no longer than it (so none could replace
      an accepted edge and shorten the forest), and the returned (squared)
      `min_d` is the largest accepted length. */
  method ComputeKruskalMinD(T: Builder) returns (solution: seq<Handle>, minD: int, ghost parent: seq<int>)
    requires Inv(T)
    ensures forall k :: 0 <= k < |solution| ==> solution[k] in T.edges && Alive(T.mesh, solution[k])
    ensures forall k :: 0 <= k < |solution| ==> Has(T.mesh, solution[k])
    ensures forall k, l :: 0 <= k < l < |solution| ==> Length(T.mesh, solution[k]) <= Length(T.mesh, solution[l])
    ensures T.nodes > 0 ==> |solution| <= T.nodes - 1
    ensures T.nodes == 0 ==> |solution| == 0
    ensures Forest(parent) && |parent| == T.nodes
    ensures |solution| + |Roots(parent)| == T.nodes
    ensures forall x, y :: 0 <= x < T.nodes && 0 <= y < T.nodes ==>
              (FindSet(parent, x) == FindSet(parent, y) <==> Linked(View(T.mesh, solution), x, y))
    ensures Acyclic(View(T.mesh, solution))
    ensures forall i :: 0 <= i < |T.edges| && Alive(T.mesh, T.edges[i]) ==>
              && 0 <= Org(T.mesh, T.edges[i]).id < T.nodes && 0 <= Dest(T.mesh, T.edges[i]).id < T.nodes
              && FindSet(parent, Org(T.mesh, T.edges[i]).id) == FindSet(parent, Dest(T.mesh, T.edges[i]).id)
    ensures forall i :: 0 <= i < |T.edges| && Alive(T.mesh, T.edges[i]) ==>
              Linked(Within(View(T.mesh, solution), Length(T.mesh, T.edges[i])),
                     Org(T.mesh, T.edges[i]).id, Dest(T.mesh, T.edges[i]).id)
    ensures minD >= 0
    ensures forall k :: 0 <= k < |solution| ==> Length(T.mesh, solution[k]) <= minD
    ensures minD == 0 || exists k :: 0 <= k < |solution| && Length(T.mesh, solution[k]) == minD
  {
    MeshEndpoints(T);
    var st := KruskalMinD(View(T.mesh, T.edges), T.nodes);
    solution, minD, parent := Handles(st.solution), st.minD, st.parent;
    RunOnEdges(T, solution, minD, parent);
    RunOnComponents(T, solution, parent);
    RunOnCycles(T, solution);
  }

  /** `min_d` is 0 or the length of an accepted edge. */
  predicate MinDAccepted(st: State)
  {
    st.minD == 0 || exists k :: 0 <= k < |st.solution| && st.solution[k].length == st.minD
  }

  /** Whatever length the `min_d` test reads, one iteration only ever stores
      the length of the edge it accepts. */
  lemma ConsiderAccepted(st: State, w: WEdge, guard: int, n: int)
    requires Forest(st.parent) && |st.parent| == n && 0 <= w.org < n && 0 <= w.dest < n
    requires MinDAccepted(st)
    ensures MinDAccepted(Consider(st, w, guard, n).0)
  {
    var st' := Consider(st, w, guard, n).0;
    if st' != st {
      assert st'.solution[|st.solution|] == w;
      if st'.minD == st.minD && st.minD != 0 {
        var k :| 0 <= k < |st.solution| && st.solution[k].length == st.minD;
        assert st'.solution[k] == st.solution[k];
      }
    }
  }

  /** The loop keeps `MinDAccepted` for any lengths read by its test. */
  lemma {:induction false} ScanAccepted(valid: seq<WEdge>, guards: seq<int>, n: int, i: int, st: State)
    requires |guards| == |valid| && 0 <= i <= |valid| && Endpoints(valid, n)
    requires Forest(st.parent) && |st.parent| == n && MinDAccepted(st)
    ensures MinDAccepted(Scan(valid, guards, n, i, st))
    decreases |valid| - i
  {
    if i < |valid| {
      ConsiderAccepted(st, valid[i], guards[i], n);
      var (st', stop) := Consider(st, valid[i], guards[i], n);
      if !stop {
        ScanAccepted(valid, guards, n, i + 1, st');
      }
    }
  }

  /** Even with the misread guard of `kruskal.cpp`, `min_d` ends as 0 or the
      length of an accepted edge. */
  lemma AsWrittenMinDAccepted(stack: seq<WEdge>, n: nat)
    requires AliveEndpoints(stack, n)
    ensures MinDAccepted(KruskalAsWritten(stack, n))
  {
    PreparedEdges(stack, n);
    var valid := Prepared(stack);
    ScanAccepted(valid, Lengths(stack)[..|valid|], n, 0, Start(n));
  }

  /** Two alive edges on three nodes, pushed longest first: `1 - 2` of
      squared length 5, then `0 - 1` of squared length 1. */
  function ExampleStack(): seq<WEdge>
  {
    [WEdge(Handle(0, 0), 1, 2, 5, true), WEdge(Handle(1, 0), 0, 1, 1, true)]
  }

  /** The example's edges are visited shortest first. */
  lemma ExamplePrepared()
    ensures AliveEndpoints(ExampleStack(), 3)
    ensures Prepared(ExampleStack()) == [ExampleStack()[1], ExampleStack()[0]]
  {
    var e0, e1 := ExampleStack()[0], ExampleStack()[1];
    assert AliveEdges([e1]) == [e1];
    assert AliveEdges(ExampleStack()) == [e0, e1];
    ByLengthOrder();
    assert SortBy(ShorterOrEqual, [e1]) == [e1];
    assert Insert(ShorterOrEqual, e0, [e1]) == [e1, e0];
  }

  /** The first iteration accepts `0 - 1`; its `min_d` test reads 5 from the
      stack and stores the visited length 1. */
  lemma ExampleFirst()
    ensures Consider(Start(3), ExampleStack()[1], 5, 3) == (State([1, 1, 2], [ExampleStack()[1]], 1), false)
  {
    var p := Start(3).parent;
    assert p == [0, 1, 2];
    assert FindSet(p, 0) == 0 && FindSet(p, 1) == 1;
    assert p[0 := p[1]] == [1, 1, 2];
    assert Start(3).minD == 0 && Start(3).solution == [];
    var w := ExampleStack()[1];
    assert w.alive && w.org == 0 && w.dest == 1;
    var r := Consider(Start(3), w, 5, 3);
    assert r.0.parent == [1, 1, 2];
    assert r.0.solution == [w];
    assert r.0.minD == 1;
    assert !r.1;
  }

  /** The second iteration accepts `1 - 2` and stops; its `min_d` test reads 1
      from the stack, which is not above 1, so `min_d` stays 1. */
  lemma ExampleSecond()
    ensures Forest([1, 1, 2])
    ensures Consider(State([1, 1, 2], [ExampleStack()[1]], 1), ExampleStack()[0], 1, 3)
            == (State([1, 2, 2], [ExampleStack()[1], ExampleStack()[0]], 1), true)
  {
    var p := [1, 1, 2];
    assert Ranked(p, [1, 0, 0]);
    assert FindSet(p, 1) == 1 && FindSet(p, 2) == 2;
    assert p[1 := p[2]] == [1, 2, 2];
    var w := ExampleStack()[0];
    assert w.alive && w.org == 1 && w.dest == 2 && w.length == 5;
    var st := State(p, [ExampleStack()[1]], 1);
    var r := Consider(st, w, 1, 3);
    assert r.0.parent == [1, 2, 2];
    assert r.0.solution == [ExampleStack()[1], w];
    assert r.0.minD == 1;
    assert r.1;
  }

  /** The loop of the example, with the lengths its `min_d` test reads: 5,
      then 1. */
  lemma ExampleScan()
    ensures Endpoints([ExampleStack()[1], ExampleStack()[0]], 3)
    ensures Scan([ExampleStack()[1], ExampleStack()[0]], [5, 1], 3, 0, Start(3))
            == State([1, 2, 2], [ExampleStack()[1], ExampleStack()[0]], 1)
  {
    ExampleFirst();
    ExampleSecond();
    var valid := [ExampleStack()[1], ExampleStack()[0]];
    var st1 := State([1, 1, 2], [ExampleStack()[1]], 1);
    assert Scan(valid, [5, 1], 3, 1, st1) == State([1, 2, 2], valid, 1);
  }

  /** The largest squared length among the example's edges is 5. */
  lemma ExampleMax()
    ensures MaxLength([ExampleStack()[1], ExampleStack()[0]]) == 5
  {
    var s := [ExampleStack()[1], ExampleStack()[0]];
    assert s[..1] == [ExampleStack()[1]];
    assert s[..1][..0] == [];
  }

  /** The constructor of `kruskal.cpp`, as written, run on the example. */
  lemma ExampleAsWritten()
    ensures AliveEndpoints(ExampleStack(), 3)
    ensures KruskalAsWritten(ExampleStack(), 3) == State([1, 2, 2], [ExampleStack()[1], ExampleStack()[0]], 1)
  {
    ExamplePrepared();
    ExampleScan();
    assert Lengths(ExampleStack())[..2] == [5, 1];
  }

  /** The constructor of `kruskal.cpp`, as written, accepts both edges of the
      example but ends with `min_d == 1` instead of the largest accepted
      squared length 5. */
  lemma AsWrittenMissesMax()
    ensures AliveEndpoints(ExampleStack(), 3)
    ensures KruskalAsWritten(ExampleStack(), 3).solution == [ExampleStack()[1], ExampleStack()[0]]
    ensures KruskalAsWritten(ExampleStack(), 3).minD == 1
    ensures MaxLength(KruskalAsWritten(ExampleStack(), 3).solution) == 5
  {
    ExampleAsWritten();
    ExampleMax();
  }
}
