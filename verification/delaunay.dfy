/**
  The divide-and-conquer triangulation of Guibas and Stolfi (1985) on the
  quad-edge arena.

  The builder threads one state through the recursion: the sorted points,
  the arena, the stack of created edges (`edges_stack`), the number of
  nodes handed out so far (`connected_nodes`) and the number of deletions
  (`deleted_count`).  The lower-tangent walk, the merge sweep and the two
  candidate-deletion loops terminate for geometric reasons that are not
  modelled; each of them runs at most `fuel` rounds.
 */
module Delaunay {
  import opened Geometry
  import opened QuadEdge

  /* ------------------------------------------------------------------ */
  /* Predicates on points and edges                                     */
  /* ------------------------------------------------------------------ */

  /** `RightOf(x, e)`: `x` lies strictly to the right of `e`. */
  predicate RightOf(A: Arena, x: Point, e: Handle): (r: bool)
    requires Shaped(A) && Has(A, e)
    ensures r ==> x != Org2d(A, e) && x != Dest2d(A, e) && !LeftOf(A, x, e)
  {
    CcwLaws(x, Org2d(A, e), Dest2d(A, e));
    Ccw(x, Dest2d(A, e), Org2d(A, e))
  }

  /** `LeftOf(x, e)`: `x` lies strictly to the left of `e`. */
  predicate LeftOf(A: Arena, x: Point, e: Handle): (r: bool)
    requires Shaped(A) && Has(A, e)
    ensures r ==> x != Org2d(A, e) && x != Dest2d(A, e)
  {
    Ccw(x, Org2d(A, e), Dest2d(A, e))
  }

  /** Left of an edge is right of its reverse, and no point is on both sides. */
  lemma LeftOfIsRightOfSym(A: Arena, x: Point, e: Handle)
    requires Shaped(A) && Has(A, e)
    ensures LeftOf(A, x, e) <==> RightOf(A, x, Sym(e))
    ensures !(LeftOf(A, x, e) && RightOf(A, x, e))
  {
    CcwLaws(x, Org2d(A, e), Dest2d(A, e));
  }


  /* ------------------------------------------------------------------ */
  /* Builder state and its invariant                                    */
  /* ------------------------------------------------------------------ */

  /** The `DivideConquer` object while it triangulates: the sorted points, the
      mesh, `edges_stack`, `connected_nodes` and `deleted_count`. */
  datatype Builder = Builder(points: seq<Point>, mesh: Arena, edges: seq<Handle>,
                             nodes: int, deleted: int)

  /** A node handed out by the builder: its identifier is below `nodes` and it
      sits at the point with that index. */
  predicate NodeOk(points: seq<Point>, nodes: int, n: Node)
  {
    0 <= n.id < nodes && n.id < |points| && n.pos == points[n.id]
  }

  /** Every primal slot of the arena holds a handed-out node. */
  ghost predicate Labelled(A: Arena, points: seq<Point>, nodes: int)
  {
    Shaped(A) && forall e: Handle {:trigger Org(A, e)} ::
      e.quad < |A| && Primal(e) ==> NodeOk(points, nodes, Org(A, e))
  }

  /** Some primal slot of the arena holds the node with identifier `k`. */
  ghost predicate Named(A: Arena, k: int)
    requires Shaped(A)
  {
    exists e: Handle {:trigger Org(A, e)} :: e.quad < |A| && Primal(e) && Org(A, e).id == k
  }

  /** Every identifier handed out so far names a node of the arena. */
  ghost predicate Dense(A: Arena, nodes: int)
  {
    Shaped(A) && forall k :: 0 <= k < nodes ==> Named(A, k)
  }

  /** The edge stack holds representation 0 of every quad exactly once. */
  ghost predicate Stacked(count: int, edges: seq<Handle>)
  {
    && |edges| == count
    && (forall i :: 0 <= i < |edges| ==> edges[i].r == 0 && edges[i].quad < count)
    && (forall i, j :: 0 <= i < j < |edges| ==> edges[i].quad != edges[j].quad)
  }

  /** The builder invariant. */
  ghost predicate Inv(S: Builder)
  {
    && Valid(S.mesh)
    && Labelled(S.mesh, S.points, S.nodes)
    && Dense(S.mesh, S.nodes)
    && Stacked(|S.mesh|, S.edges)
    && 0 <= S.nodes <= |S.points|
    && DeadCount(S.mesh, |S.mesh|) <= S.deleted
  }

  /** The number of dead quads among the first `n` quads of `A`. */
  function DeadCount(A: Arena, n: nat): (c: nat)
    requires n <= |A|
    ensures c <= n
  {
    if n == 0 then 0 else DeadCount(A, n - 1) + (if A[n - 1].alive then 0 else 1)
  }

  /** Changing the liveness of no quad but `x` adds at most one dead quad,
      and none unless `x` ends dead. */
  lemma {:induction false} DeadCountFrame(A: Arena, B: Arena, n: nat, x: int)
    requires n <= |A| && n <= |B|
    requires forall q :: 0 <= q < n && q != x ==> B[q].alive == A[q].alive
    ensures DeadCount(B, n) <= DeadCount(A, n) + (if 0 <= x < n && !B[x].alive then 1 else 0)
    decreases n
  {
    if n > 0 {
      DeadCountFrame(A, B, n - 1, x);
    }
  }

  /** Appending an alive quad and keeping the liveness of the others adds no dead quad. */
  lemma DeadCountAppend(A: Arena, B: Arena)
    requires |B| == |A| + 1 && B[|A|].alive
    requires forall q :: 0 <= q < |A| ==> B[q].alive == A[q].alive
    ensures DeadCount(B, |B|) <= DeadCount(A, |A|)
  {
    DeadCountFrame(A, B, |A|, -1);
  }

  /** What every step of the builder keeps: the points, the node data of the
      quads that existed, and dead quads dead. */
  ghost predicate Grows(S: Builder, T: Builder)
  {
    && T.points == S.points
    && |S.mesh| <= |T.mesh|
    && (forall q :: 0 <= q < |S.mesh| ==> T.mesh[q].node == S.mesh[q].node)
    && (forall q :: 0 <= q < |S.mesh| && T.mesh[q].alive ==> S.mesh[q].alive)
    && S.deleted <= T.deleted
  }

  /** `Grows` is transitive. */
  lemma GrowsTrans(S: Builder, T: Builder, U: Builder)
    requires Grows(S, T) && Grows(T, U)
    ensures Grows(S, U)
  {
  }

  /** A later state of the builder reads the same origin from an old handle. */
  lemma OrgKept(S: Builder, T: Builder, e: Handle)
    requires Shaped(S.mesh) && Shaped(T.mesh) && Grows(S, T) && Has(S.mesh, e)
    ensures Has(T.mesh, e) && Org(T.mesh, e) == Org(S.mesh, e)
    ensures Org2d(T.mesh, e) == Org2d(S.mesh, e)
  {
    assert T.mesh[e.quad].node == S.mesh[e.quad].node;
  }

  /** Pushing the representation 0 of new quads, each once, keeps the stack exact. */
  lemma StackedExtend(count: int, edges: seq<Handle>, extra: seq<Handle>)
    requires Stacked(count, edges)
    requires forall i :: 0 <= i < |extra| ==> extra[i].r == 0 && count <= extra[i].quad < count + |extra|
    requires forall i, j :: 0 <= i < j < |extra| ==> extra[i].quad != extra[j].quad
    ensures Stacked(count + |extra|, edges + extra)
  {
    var all := edges + extra;
    forall i, j | 0 <= i < j < |all|
      ensures all[i].quad != all[j].quad
    {
      if j < |edges| {
        assert all[i] == edges[i] && all[j] == edges[j];
      } else if i < |edges| {
        assert all[i] == edges[i] && all[j] == extra[j - |edges|];
      } else {
        assert all[i] == extra[i - |edges|] && all[j] == extra[j - |edges|];
      }
    }
  }

  /** Labels survive when the node data of all quads is kept and more nodes are handed out. */
  lemma LabelledKeep(A: Arena, B: Arena, points: seq<Point>, nodes: int, nodes': int)
    requires Labelled(A, points, nodes) && Shaped(B) && |B| == |A| && nodes <= nodes'
    requires forall q :: 0 <= q < |A| ==> B[q].node == A[q].node
    ensures Labelled(B, points, nodes')
  {
    forall e: Handle | e.quad < |B| && Primal(e)
      ensures NodeOk(points, nodes', Org(B, e))
    {
      assert Org(B, e) == Org(A, e);
    }
  }

  /** Labels survive the addition of one quad whose two primal slots hold
      handed-out nodes. */
  lemma LabelledAppend(A: Arena, B: Arena, points: seq<Point>, nodes: int, nodes': int)
    requires Labelled(A, points, nodes) && Shaped(B) && |B| == |A| + 1 && nodes <= nodes'
    requires forall q :: 0 <= q < |A| ==> B[q].node == A[q].node
    requires NodeOk(points, nodes', Org(B, Handle(|A|, 0)))
    requires NodeOk(points, nodes', Org(B, Handle(|A|, 2)))
    ensures Labelled(B, points, nodes')
  {
    forall e: Handle | e.quad < |B| && Primal(e)
      ensures NodeOk(points, nodes', Org(B, e))
    {
      if e.quad < |A| {
        assert Org(B, e) == Org(A, e);
      } else {
        assert e == Handle(|A|, 0) || e == Handle(|A|, 2);
      }
    }
  }

  /** Identifiers stay named when the node data of the old quads is kept, and
      one more is named by the primal handle `e` carrying it. */
  lemma DenseAdd(A: Arena, B: Arena, nodes: int, e: Handle)
    requires Dense(A, nodes) && Shaped(B) && |A| <= |B|
    requires forall q :: 0 <= q < |A| ==> B[q].node == A[q].node
    requires e.quad < |B| && Primal(e) && Org(B, e).id == nodes
    ensures Dense(B, nodes + 1)
  {
    DenseKeep(A, B, nodes);
  }

  /** Identifiers stay named when the node data of the old quads is kept. */
  lemma DenseKeep(A: Arena, B: Arena, nodes: int)
    requires Dense(A, nodes) && Shaped(B) && |A| <= |B|
    requires forall q :: 0 <= q < |A| ==> B[q].node == A[q].node
    ensures Dense(B, nodes)
  {
    forall k | 0 <= k < nodes
      ensures Named(B, k)
    {
      assert Named(A, k);
      var e: Handle :| e.quad < |A| && Primal(e) && Org(A, e).id == k;
      assert Org(B, e) == Org(A, e);
    }
  }

  /* ------------------------------------------------------------------ */
  /* Steps of the builder                                               */
  /* ------------------------------------------------------------------ */

  /** `Q` is `P` after `DeleteEdge(d)`: both keep the invariant, the quad of
      `d` is dead, every other quad keeps its liveness, and one more deletion
      is counted. */
  ghost predicate Deleted(P: Builder, d: Handle, Q: Builder)
  {
    && Inv(P) && Has(P.mesh, d) && Inv(Q) && Grows(P, Q)
    && |Q.mesh| == |P.mesh| && Q.edges == P.edges && Q.nodes == P.nodes && Q.deleted == P.deleted + 1
    && !Alive(Q.mesh, d)
    && forall q :: 0 <= q < |P.mesh| && q != d.quad ==> Q.mesh[q].alive == P.mesh[q].alive
  }

  /** `DeleteEdge(e)` on the builder. */
  method DeleteFrom(S: Builder, e: Handle) returns (T: Builder)
    requires Inv(S) && Has(S.mesh, e)
    ensures Deleted(S, e, T)
  {
    var mesh, count := DeleteEdge(S.mesh, e, S.deleted);
    LabelledKeep(S.mesh, mesh, S.points, S.nodes, S.nodes);
    DenseKeep(S.mesh, mesh, S.nodes);
    DeadCountFrame(S.mesh, mesh, |mesh|, e.quad);
    T := S.(mesh := mesh, deleted := count);
  }

  /** `Connect(a, b)` followed by pushing the new edge on the edge stack. */
  method AddEdge(S: Builder, a: Handle, b: Handle) returns (T: Builder, e: Handle)
    requires Inv(S) && Has(S.mesh, a) && Has(S.mesh, b) && Primal(a) && Primal(b)
    ensures Inv(T) && Grows(S, T)
    ensures |T.mesh| == |S.mesh| + 1 && T.edges == S.edges + [e]
    ensures T.nodes == S.nodes && T.deleted == S.deleted
    ensures e == Handle(|S.mesh|, 0) && Has(T.mesh, e) && Alive(T.mesh, e)
    ensures Org(T.mesh, e) == Dest(S.mesh, a) && Dest(T.mesh, e) == Org(S.mesh, b)
    ensures forall q :: 0 <= q < |S.mesh| ==> T.mesh[q].alive == S.mesh[q].alive
  {
    var mesh;
    mesh, e := Connect(S.mesh, a, b);
    DestIsOrgOfSym(S.mesh, a);
    DestIsOrgOfSym(mesh, e);
    LabelledAppend(S.mesh, mesh, S.points, S.nodes, S.nodes);
    DenseKeep(S.mesh, mesh, S.nodes);
    DeadCountAppend(S.mesh, mesh);
    StackedExtend(|S.mesh|, S.edges, [e]);
    T := S.(mesh := mesh, edges := S.edges + [e]);
  }

  /** Two points, `numb_points == 2`: one edge from `points[lo]` to `points[hi]`,
      whose endpoints receive the next two identifiers. */
  method BaseTwo(S: Builder, lo: int, hi: int) returns (T: Builder, left: Handle, right: Handle)
    requires Inv(S) && 0 <= lo && hi == lo + 1 && hi < |S.points| && S.nodes == lo
    ensures Inv(T) && Grows(S, T) && T.nodes == hi + 1 && T.deleted == S.deleted
    ensures |T.mesh| == |S.mesh| + 1 && T.edges == S.edges + [left]
    ensures left == Handle(|S.mesh|, 0) && right == Sym(left)
    ensures Org(T.mesh, left) == Node(S.points[lo], lo) && Org(T.mesh, right) == Node(S.points[hi], hi)
    ensures Onext(T.mesh, left) == left && Onext(T.mesh, right) == right
    ensures forall q :: 0 <= q < |S.mesh| ==> T.mesh[q].alive == S.mesh[q].alive
  {
    var a := Node(S.points[lo], S.nodes);
    var b := Node(S.points[hi], S.nodes + 1);
    var mesh;
    mesh, left := MakeEdgeFrom(S.mesh, a, b);
    right := Sym(left);
    DestIsOrgOfSym(mesh, left);
    LabelledAppend(S.mesh, mesh, S.points, S.nodes, S.nodes + 2);
    DenseAdd(S.mesh, mesh, S.nodes, left);
    DenseAdd(mesh, mesh, S.nodes + 1, right);
    StackedExtend(|S.mesh|, S.edges, [left]);
    DeadCountAppend(S.mesh, mesh);
    T := S.(mesh := mesh, edges := S.edges + [left], nodes := S.nodes + 2);
  }

  /** Three points, `numb_points == 3`: edges `ab` and `bc` joined at `b`, and
      the closing edge `Connect(bc, ab)` from `c` to `a` unless the points are
      collinear.  The closing edge is pushed before `ab` and `bc`. */
  method BaseThree(S: Builder, lo: int, hi: int) returns (T: Builder, left: Handle, right: Handle)
    requires Inv(S) && 0 <= lo && hi == lo + 2 && hi < |S.points| && S.nodes == lo
    ensures Inv(T) && Grows(S, T) && T.nodes == hi + 1 && T.deleted == S.deleted
    ensures Has(T.mesh, left) && Has(T.mesh, right) && Primal(left) && Primal(right)
    ensures Org2d(T.mesh, left) == S.points[lo] && Org2d(T.mesh, right) == S.points[hi]
    ensures var ab, bc, c := Handle(|S.mesh|, 0), Handle(|S.mesh| + 1, 0), Handle(|S.mesh| + 2, 0);
      if Ccw(S.points[lo], S.points[lo + 1], S.points[hi]) then
        && |T.mesh| == |S.mesh| + 3 && T.edges == S.edges + [c, ab, bc] && left == ab && right == Sym(bc)
        && Org(T.mesh, c) == Node(S.points[hi], hi) && Dest(T.mesh, c) == Node(S.points[lo], lo)
      else if Ccw(S.points[lo], S.points[hi], S.points[lo + 1]) then
        && |T.mesh| == |S.mesh| + 3 && T.edges == S.edges + [c, ab, bc] && left == Sym(c) && right == c
        && Org(T.mesh, c) == Node(S.points[hi], hi) && Dest(T.mesh, c) == Node(S.points[lo], lo)
      else
        && |T.mesh| == |S.mesh| + 2 && T.edges == S.edges + [ab, bc] && left == ab && right == Sym(bc)
        && Onext(T.mesh, Sym(ab)) == bc && Onext(T.mesh, bc) == Sym(ab)
    ensures forall q :: 0 <= q < |S.mesh| ==> T.mesh[q].alive == S.mesh[q].alive
  {
    var pa, pb, pc := S.points[lo], S.points[lo + 1], S.points[hi];
    var a := Node(pa, S.nodes);
    var b := Node(pb, S.nodes + 1);
    var c := Node(pc, S.nodes + 2);
    var m1, ab := MakeEdgeFrom(S.mesh, a, b);
    var m2, bc := MakeEdgeFrom(m1, b, c);
    var m3 := Splice(m2, Sym(ab), bc);
    JoinedAtB(S, a, b, c, m1, ab, m2, bc, m3);
    var S3 := S.(mesh := m3, edges := S.edges + [ab, bc], nodes := S.nodes + 3);
    if Ccw(pa, pb, pc) {
      var m4, ce := Connect(m3, bc, ab);
      CloseTriangle(S, S3, ab, bc, m4, ce);
      left, right := ab, Sym(bc);
      T := S3.(mesh := m4, edges := S.edges + [ce, ab, bc]);
    } else if Ccw(pa, pc, pb) {
      var m4, ce := Connect(m3, bc, ab);
      CloseTriangle(S, S3, ab, bc, m4, ce);
      left, right := Sym(ce), ce;
      T := S3.(mesh := m4, edges := S.edges + [ce, ab, bc]);
    } else {
      left, right := ab, Sym(bc);
      T := S3;
    }
  }

  /** The state of `BaseThree` after `Splice(ab.Sym(), bc)`. */
  lemma JoinedAtB(S: Builder, a: Node, b: Node, c: Node, m1: Arena, ab: Handle,
                  m2: Arena, bc: Handle, m3: Arena)
    requires Inv(S) && S.nodes + 3 <= |S.points|
    requires a == Node(S.points[S.nodes], S.nodes) && b == Node(S.points[S.nodes + 1], S.nodes + 1)
    requires c == Node(S.points[S.nodes + 2], S.nodes + 2)
    requires Valid(m1) && |m1| == |S.mesh| + 1 && ab == Handle(|S.mesh|, 0)
    requires forall q :: 0 <= q < |S.mesh| ==> m1[q] == S.mesh[q]
    requires Org(m1, ab) == a && Dest(m1, ab) == b && Alive(m1, ab)
    requires Valid(m2) && |m2| == |m1| + 1 && bc == Handle(|m1|, 0)
    requires forall q :: 0 <= q < |m1| ==> m2[q] == m1[q]
    requires Org(m2, bc) == b && Dest(m2, bc) == c && Alive(m2, bc)
    requires Onext(m2, bc) == bc && Onext(m2, Sym(ab)) == Sym(ab)
    requires Valid(m3) && SameData(m2, m3)
    requires Onext(m3, Sym(ab)) == Onext(m2, bc) && Onext(m3, bc) == Onext(m2, Sym(ab))
    ensures Inv(S.(mesh := m3, edges := S.edges + [ab, bc], nodes := S.nodes + 3))
    ensures Grows(S, S.(mesh := m3, edges := S.edges + [ab, bc], nodes := S.nodes + 3))
    ensures Org(m3, ab) == a && Org(m3, Sym(bc)) == c
    ensures Onext(m3, Sym(ab)) == bc && Onext(m3, bc) == Sym(ab)
  {
    DestIsOrgOfSym(m1, ab);
    DestIsOrgOfSym(m2, bc);
    assert m3[ab.quad].node == m1[ab.quad].node;
    LabelledAppend(S.mesh, m1, S.points, S.nodes, S.nodes + 3);
    LabelledAppend(m1, m2, S.points, S.nodes + 3, S.nodes + 3);
    LabelledKeep(m2, m3, S.points, S.nodes + 3, S.nodes + 3);
    DenseAdd(S.mesh, m3, S.nodes, ab);
    DenseAdd(m3, m3, S.nodes + 1, Sym(ab));
    DenseAdd(m3, m3, S.nodes + 2, Sym(bc));
    StackedExtend(|S.mesh|, S.edges, [ab, bc]);
    DeadCountAppend(S.mesh, m1);
    DeadCountAppend(m1, m2);
    DeadCountFrame(m2, m3, |m3|, -1);
  }

  /** The closing edge of a non-degenerate triple keeps the invariant. */
  lemma CloseTriangle(S: Builder, S3: Builder, ab: Handle, bc: Handle, m4: Arena, ce: Handle)
    requires Inv(S) && Inv(S3) && Grows(S, S3)
    requires ab == Handle(|S.mesh|, 0) && bc == Handle(|S.mesh| + 1, 0) && |S3.mesh| == |S.mesh| + 2
    requires S3.edges == S.edges + [ab, bc]
    requires Valid(m4) && |m4| == |S3.mesh| + 1 && ce == Handle(|S3.mesh|, 0) && Alive(m4, ce)
    requires forall q :: 0 <= q < |S3.mesh| ==>
               m4[q].node == S3.mesh[q].node && m4[q].alive == S3.mesh[q].alive
    requires Org(m4, ce) == Dest(S3.mesh, bc) && Dest(m4, ce) == Org(S3.mesh, ab)
    ensures Inv(S3.(mesh := m4, edges := S.edges + [ce, ab, bc]))
    ensures Grows(S, S3.(mesh := m4, edges := S.edges + [ce, ab, bc]))
    ensures Org(m4, ab) == Org(S3.mesh, ab) && Org(m4, Sym(bc)) == Org(S3.mesh, Sym(bc))
    ensures Org(m4, ce) == Org(S3.mesh, Sym(bc)) && Org(m4, Sym(ce)) == Org(S3.mesh, ab)
  {
    DestIsOrgOfSym(S3.mesh, bc);
    DestIsOrgOfSym(m4, ce);
    LabelledAppend(S3.mesh, m4, S3.points, S3.nodes, S3.nodes);
    DenseKeep(S3.mesh, m4, S3.nodes);
    DeadCountAppend(S3.mesh, m4);
    StackedExtend(|S.mesh|, S.edges, [ce, ab, bc]);
  }

  /* ------------------------------------------------------------------ */
  /* Divide and merge                                                   */
  /* ------------------------------------------------------------------ */

  /** The split of `[lo, hi]` at `numb_points / 2`: the left half ends at
      `r.0` and the right half starts at `r.1`. */
  function Halves(lo: int, hi: int): (r: (int, int))
    ensures r.1 == r.0 + 1
    ensures 1 + hi - lo >= 4 ==> lo + 1 <= r.0 && r.1 + 1 <= hi
    ensures 1 + hi - lo >= 0 ==> r.0 - lo + 1 <= hi - r.1 + 1 <= r.0 - lo + 2
    ensures 1 + hi - lo == 1 ==> r.0 < lo
    ensures 1 + hi - lo == 0 ==> r.0 == hi
  {
    var half := (1 + hi - lo) / 2;
    (lo + half - 1, lo + half)
  }

  /** `Lnext` applied `k` times. */
  function LnextPow(A: Arena, e: Handle, k: nat): (f: Handle)
    requires Valid(A) && Has(A, e)
    ensures Has(A, f) && Primal(f) == Primal(e)
  {
    if k == 0 then e else Lnext(A, LnextPow(A, e, k - 1))
  }

  /** `Rprev` applied `k` times. */
  function RprevPow(A: Arena, e: Handle, k: nat): (f: Handle)
    requires Valid(A) && Has(A, e)
    ensures Has(A, f) && Primal(f) == Primal(e)
  {
    if k == 0 then e else Rprev(A, RprevPow(A, e, k - 1))
  }

  /** The lower common tangent walk: `ldi` advances along its left face while
      the origin of `rdi` lies to its left, `rdi` steps back around its right
      face while the origin of `ldi` lies to its right.  When the walk settles,
      neither test holds. */
  method LowerTangent(A: Arena, ldi: Handle, rdi: Handle, fuel: nat)
    returns (l: Handle, r: Handle, settled: bool, ghost i: nat, ghost j: nat)
    requires Valid(A) && Has(A, ldi) && Has(A, rdi) && Primal(ldi) && Primal(rdi)
    ensures Has(A, l) && Has(A, r) && Primal(l) && Primal(r)
    ensures l == LnextPow(A, ldi, i) && r == RprevPow(A, rdi, j) && i + j <= fuel
    ensures settled ==> !LeftOf(A, Org2d(A, r), l) && !RightOf(A, Org2d(A, l), r)
    ensures !settled ==> i + j == fuel
  {
    l, r, settled := ldi, rdi, false;
    i, j := 0, 0;
    var k := 0;
    while k < fuel
      invariant l == LnextPow(A, ldi, i) && r == RprevPow(A, rdi, j) && i + j == k <= fuel
    {
      if LeftOf(A, Org2d(A, r), l) {
        l, i := Lnext(A, l), i + 1;
      } else if RightOf(A, Org2d(A, l), r) {
        r, j := Rprev(A, r), j + 1;
      } else {
        settled := true;
        break;
      }
      k := k + 1;
    }
  }

  /** The two candidate-deletion loops of a merge round: the left one walks
      around the destination of `basel` with `Onext`, the right one around its
      origin with `Oprev`. */
  datatype Side = Left | Right

  /** The first candidate of `side`: `basel.Sym().Onext()` or `basel.Oprev()`. */
  function First(A: Arena, basel: Handle, side: Side): (f: Handle)
    requires WellLinked(A) && Has(A, basel)
    ensures Has(A, f) && (Valid(A) ==> Primal(f) == Primal(basel))
  {
    if side == Left then Onext(A, Sym(basel)) else Oprev(A, basel)
  }

  /** The candidate after `c` on `side`: `c.Onext()` or `c.Oprev()`. */
  function Next(A: Arena, c: Handle, side: Side): (f: Handle)
    requires WellLinked(A) && Has(A, c)
    ensures Has(A, f) && (Valid(A) ==> Primal(f) == Primal(c))
  {
    if side == Left then Onext(A, c) else Oprev(A, c)
  }

  /** The first candidate of `side` is valid when its destination lies to the
      right of `basel`. */
  predicate CandidateValid(A: Arena, basel: Handle, side: Side)
    requires WellLinked(A) && Has(A, basel)
  {
    RightOf(A, Dest2d(A, First(A, basel, side)), basel)
  }

  /** One round of a deletion loop: the destination of the candidate after
      `c` lies inside the circle through `basel` and the destination of `c`,
      so `c` is deleted, giving `Q`, and that next candidate becomes `c'`. */
  ghost predicate Deletes(P: Builder, basel: Handle, side: Side, c: Handle, Q: Builder, c': Handle)
  {
    && Deleted(P, c, Q) && Has(P.mesh, basel)
    && c' == Next(P.mesh, c, side)
    && InsideCircle(Dest2d(P.mesh, basel), Org2d(P.mesh, basel), Dest2d(P.mesh, c), Dest2d(P.mesh, c'))
  }

  /** The states and candidates a deletion loop went through. */
  datatype Run = Run(states: seq<Builder>, cands: seq<Handle>)

  /** `run` is a deletion loop on `side` from `S` to `T`: it starts at `S` with
      the first candidate, ends at `T` with `cand`, and each step is one round
      of the loop. */
  ghost predicate Trail(S: Builder, basel: Handle, side: Side, run: Run, T: Builder, cand: Handle)
    requires Inv(S) && Has(S.mesh, basel)
  {
    && |run.states| == |run.cands| >= 1
    && run.states[0] == S && run.cands[0] == First(S.mesh, basel, side)
    && run.states[|run.states| - 1] == T && run.cands[|run.cands| - 1] == cand
    && forall k :: 0 <= k < |run.states| - 1 ==>
         Deletes(run.states[k], basel, side, run.cands[k], run.states[k + 1], run.cands[k + 1])
  }

  /** A loop followed by one more round is a loop. */
  lemma TrailExtend(S: Builder, basel: Handle, side: Side, run: Run, T: Builder, cand: Handle,
                    T': Builder, cand': Handle, run': Run)
    requires Inv(S) && Has(S.mesh, basel) && Trail(S, basel, side, run, T, cand)
    requires Deletes(T, basel, side, cand, T', cand')
    requires run' == Run(run.states + [T'], run.cands + [cand'])
    ensures Trail(S, basel, side, run', T', cand')
  {
    forall k | 0 <= k < |run'.states| - 1
      ensures Deletes(run'.states[k], basel, side, run'.cands[k], run'.states[k + 1], run'.cands[k + 1])
    {
      if k < |run.states| - 1 {
        assert run'.states[k] == run.states[k] && run'.states[k + 1] == run.states[k + 1];
        assert run'.cands[k] == run.cands[k] && run'.cands[k + 1] == run.cands[k + 1];
      } else {
        assert run'.states[k] == T && run'.states[k + 1] == T';
        assert run'.cands[k] == cand && run'.cands[k + 1] == cand';
      }
    }
  }

  /** One round of a deletion loop: delete the candidate and move to the next
      one around the same origin. */
  method DeleteRound(ghost S: Builder, basel: Handle, side: Side, ghost run: Run, T: Builder, cand: Handle)
    returns (T': Builder, cand': Handle, ghost run': Run)
    requires Inv(S) && Has(S.mesh, basel) && Primal(basel)
    requires Inv(T) && Grows(S, T) && |T.mesh| == |S.mesh| && T.edges == S.edges && T.nodes == S.nodes
    requires Has(T.mesh, cand) && Primal(cand) && Trail(S, basel, side, run, T, cand)
    requires InsideCircle(Dest2d(T.mesh, basel), Org2d(T.mesh, basel), Dest2d(T.mesh, cand),
                          Dest2d(T.mesh, Next(T.mesh, cand, side)))
    ensures Inv(T') && Grows(S, T') && |T'.mesh| == |S.mesh| && T'.edges == S.edges && T'.nodes == S.nodes
    ensures Has(T'.mesh, cand') && Primal(cand') && Trail(S, basel, side, run', T', cand')
    ensures |run'.states| == |run.states| + 1 && T'.deleted == T.deleted + 1
  {
    cand' := Next(T.mesh, cand, side);
    T' := DeleteFrom(T, cand);
    run' := Run(run.states + [T'], run.cands + [cand']);
    GrowsTrans(S, T, T');
    TrailExtend(S, basel, side, run, T, cand, T', cand', run');
  }

  /** A candidate-deletion loop (the left one with `Left`, the right one with
      `Right`): when the first candidate is valid, delete candidates while the
      next one reaches into the circle through `basel` and the candidate's
      destination.  `run` records the loop; `settled` tells that it ended on
      its own test within `fuel` deletions. */
  method DeleteCandidates(S: Builder, basel: Handle, side: Side, fuel: nat)
    returns (T: Builder, cand: Handle, settled: bool, ghost run: Run)
    requires Inv(S) && Has(S.mesh, basel) && Primal(basel)
    ensures Inv(T) && Grows(S, T) && |T.mesh| == |S.mesh| && T.edges == S.edges && T.nodes == S.nodes
    ensures Has(T.mesh, cand) && Primal(cand)
    ensures Trail(S, basel, side, run, T, cand)
    ensures T.deleted == S.deleted + |run.states| - 1 <= S.deleted + fuel
    ensures !CandidateValid(S.mesh, basel, side) ==>
              T == S && cand == First(S.mesh, basel, side) && settled && |run.states| == 1
    ensures settled && CandidateValid(S.mesh, basel, side) ==>
      !InsideCircle(Dest2d(T.mesh, basel), Org2d(T.mesh, basel), Dest2d(T.mesh, cand),
                    Dest2d(T.mesh, Next(T.mesh, cand, side)))
    ensures !settled ==> T.deleted == S.deleted + fuel
  {
    T, cand, settled := S, First(S.mesh, basel, side), true;
    run := Run([S], [cand]);
    if CandidateValid(S.mesh, basel, side) {
      settled := false;
      while T.deleted < S.deleted + fuel
        invariant Inv(T) && Grows(S, T) && |T.mesh| == |S.mesh| && T.edges == S.edges && T.nodes == S.nodes
        invariant Has(T.mesh, cand) && Primal(cand)
        invariant Trail(S, basel, side, run, T, cand)
        invariant T.deleted == S.deleted + |run.states| - 1 <= S.deleted + fuel
        decreases S.deleted + fuel - T.deleted
      {
        if !InsideCircle(Dest2d(T.mesh, basel), Org2d(T.mesh, basel), Dest2d(T.mesh, cand),
                         Dest2d(T.mesh, Next(T.mesh, cand, side))) {
          settled := true;
          break;
        }
        T, cand, run := DeleteRound(S, basel, side, run, T, cand);
      }
    }
  }

  /** The deletions of one merge round. */
  datatype Sweep = Sweep(mid: Builder, left: Run, right: Run)

  /** `sw` is one merge round's deletions from `S` to `T`: the left loop runs
      from `S` to `sw.mid` and ends at `lcand`, then the right loop runs from
      `sw.mid` to `T` and ends at `rcand`. */
  ghost predicate Swept(S: Builder, basel: Handle, sw: Sweep, T: Builder, lcand: Handle, rcand: Handle)
    requires Inv(S) && Has(S.mesh, basel)
  {
    && Trail(S, basel, Left, sw.left, sw.mid, lcand)
    && Inv(sw.mid) && |sw.mid.mesh| == |S.mesh|
    && Trail(sw.mid, basel, Right, sw.right, T, rcand)
  }

  /** The two deletion loops of one merge round, left then right.  `settled`
      tells that both loops ended on their own test; when neither first
      candidate is valid nothing is deleted. */
  method Candidates(S: Builder, basel: Handle, fuel: nat)
    returns (T: Builder, lcand: Handle, rcand: Handle, settled: bool, ghost sw: Sweep)
    requires Inv(S) && Has(S.mesh, basel) && Primal(basel)
    ensures Inv(T) && Grows(S, T) && |T.mesh| == |S.mesh| && T.edges == S.edges && T.nodes == S.nodes
    ensures Has(T.mesh, lcand) && Primal(lcand) && Has(T.mesh, rcand) && Primal(rcand)
    ensures S.deleted <= T.deleted <= S.deleted + 2 * fuel
    ensures Swept(S, basel, sw, T, lcand, rcand)
    ensures !CandidateValid(S.mesh, basel, Left) ==> sw.mid == S && lcand == First(S.mesh, basel, Left)
    ensures !CandidateValid(sw.mid.mesh, basel, Right) ==> T == sw.mid && rcand == First(sw.mid.mesh, basel, Right)
    ensures !CandidateValid(S.mesh, basel, Left) && !CandidateValid(S.mesh, basel, Right) ==>
              && T == S && lcand == First(S.mesh, basel, Left) && rcand == First(S.mesh, basel, Right)
              && settled
    ensures !settled ==> T.deleted >= S.deleted + fuel
  {
    var T1, ls, rs;
    ghost var lrun, rrun;
    T1, lcand, ls, lrun := DeleteCandidates(S, basel, Left, fuel);
    T, rcand, rs, rrun := DeleteCandidates(T1, basel, Right, fuel);
    GrowsTrans(S, T1, T);
    settled := ls && rs;
    sw := Sweep(T1, lrun, rrun);
  }

  /** `T` is `S` with one new alive cross edge `b` stacked, and no other quad
      changes liveness: it goes from the right candidate's destination to the
      destination of `basel` when the left candidate is invalid or the right
      one's destination lies inside the circle through the left candidate,
      and from the origin of `basel` to the left candidate's destination
      otherwise. */
  ghost predicate Crossed(S: Builder, basel: Handle, lcand: Handle, rcand: Handle, T: Builder, b: Handle)
    requires Inv(S) && Has(S.mesh, basel) && Has(S.mesh, lcand) && Has(S.mesh, rcand)
  {
    && Inv(T) && Grows(S, T) && T.nodes == S.nodes && T.deleted == S.deleted
    && |T.mesh| == |S.mesh| + 1 && T.edges == S.edges + [b]
    && b == Handle(|S.mesh|, 0) && Alive(T.mesh, b) && Primal(b)
    && (forall q :: 0 <= q < |S.mesh| ==> T.mesh[q].alive == S.mesh[q].alive)
    && if !RightOf(S.mesh, Dest2d(S.mesh, lcand), basel)
          || (RightOf(S.mesh, Dest2d(S.mesh, rcand), basel)
              && InsideCircle(Dest2d(S.mesh, lcand), Org2d(S.mesh, lcand),
                              Org2d(S.mesh, rcand), Dest2d(S.mesh, rcand)))
       then Org(T.mesh, b) == Dest(S.mesh, rcand) && Dest(T.mesh, b) == Dest(S.mesh, basel)
       else Org(T.mesh, b) == Org(S.mesh, basel) && Dest(T.mesh, b) == Dest(S.mesh, lcand)
  }

  /** The new cross edge of a merge round, by the source's choice between the
      two candidates. */
  method CrossEdge(S: Builder, basel: Handle, lcand: Handle, rcand: Handle) returns (T: Builder, b: Handle)
    requires Inv(S) && Has(S.mesh, basel) && Primal(basel)
    requires Has(S.mesh, lcand) && Primal(lcand) && Has(S.mesh, rcand) && Primal(rcand)
    ensures Crossed(S, basel, lcand, rcand, T, b)
  {
    DestIsOrgOfSym(S.mesh, basel);
    DestIsOrgOfSym(S.mesh, lcand);
    if !RightOf(S.mesh, Dest2d(S.mesh, lcand), basel)
       || (RightOf(S.mesh, Dest2d(S.mesh, rcand), basel)
           && InsideCircle(Dest2d(S.mesh, lcand), Org2d(S.mesh, lcand),
                           Org2d(S.mesh, rcand), Dest2d(S.mesh, rcand))) {
      T, b := AddEdge(S, rcand, Sym(basel));
      SymLaws(basel);
    } else {
      T, b := AddEdge(S, Sym(basel), Sym(lcand));
      SymLaws(basel);
      SymLaws(lcand);
    }
  }

  /** One round of the merge sweep: both deletion loops, then the stop test.
      When neither candidate left after the deletions lies to the right of
      `basel`, `basel` is the upper common tangent and the round adds nothing;
      otherwise the new cross edge becomes `b`. */
  method MergeStep(S: Builder, basel: Handle, fuel: nat)
    returns (T: Builder, b: Handle, lcand: Handle, rcand: Handle, done: bool, settled: bool,
             ghost U: Builder, ghost sw: Sweep)
    requires Inv(S) && Has(S.mesh, basel) && Primal(basel)
    ensures Inv(T) && Grows(S, T) && T.nodes == S.nodes
    ensures !settled ==> T.deleted >= S.deleted + fuel
    ensures Has(T.mesh, b) && Primal(b) && Has(T.mesh, lcand) && Has(T.mesh, rcand)
    ensures Inv(U) && Grows(S, U) && |U.mesh| == |S.mesh| && U.edges == S.edges && U.nodes == S.nodes
    ensures Has(U.mesh, lcand) && Primal(lcand) && Has(U.mesh, rcand) && Primal(rcand)
    ensures Swept(S, basel, sw, U, lcand, rcand)
    ensures done <==> !RightOf(U.mesh, Dest2d(U.mesh, lcand), basel) && !RightOf(U.mesh, Dest2d(U.mesh, rcand), basel)
    ensures done ==> T == U && b == basel
    ensures !done ==> Crossed(U, basel, lcand, rcand, T, b)
    ensures !CandidateValid(S.mesh, basel, Left) && !CandidateValid(S.mesh, basel, Right) ==>
              done && T == S && b == basel
  {
    var V;
    V, lcand, rcand, settled, sw := Candidates(S, basel, fuel);
    U := V;
    if !RightOf(V.mesh, Dest2d(V.mesh, lcand), basel) && !RightOf(V.mesh, Dest2d(V.mesh, rcand), basel) {
      T, b, done := V, basel, true;
    } else {
      done := false;
      T, b := CrossEdge(V, basel, lcand, rcand);
      GrowsTrans(S, V, T);
    }
  }

  /** One round of the sweep as `Merge` uses it: what the round keeps and
      adds, and, when it stops, the deletions it made. */
  method SweepRound(T: Builder, b: Handle, fuel: nat)
    returns (T': Builder, b': Handle, lcand: Handle, rcand: Handle, done: bool, clean: bool, ghost sw: Sweep)
    requires Inv(T) && Has(T.mesh, b) && Primal(b)
    ensures Inv(T') && Grows(T, T') && T'.nodes == T.nodes
    ensures Has(T'.mesh, b') && Primal(b') && Has(T'.mesh, lcand) && Has(T'.mesh, rcand)
    ensures |T.edges| <= |T'.edges| && forall i :: 0 <= i < |T.edges| ==> T'.edges[i] == T.edges[i]
    ensures !clean ==> T'.deleted >= T.deleted + fuel
    ensures done ==> && b' == b && |T'.mesh| == |T.mesh| && Swept(T, b, sw, T', lcand, rcand)
                     && !RightOf(T'.mesh, Dest2d(T'.mesh, lcand), b)
                     && !RightOf(T'.mesh, Dest2d(T'.mesh, rcand), b)
    ensures !done ==> |T'.mesh| == |T.mesh| + 1 && b' == Handle(|T.mesh|, 0)
    ensures !CandidateValid(T.mesh, b, Left) && !CandidateValid(T.mesh, b, Right) ==> done && T' == T
  {
    ghost var U;
    T', b', lcand, rcand, done, clean, U, sw := MergeStep(T, b, fuel);
  }

  /** The merge sweep: rounds of `MergeStep` until one adds nothing (at most
      `fuel` rounds).  When it settles, `R` is the state the last round
      started from and `sw` its deletions, and both final candidates lie on
      or to the left of the final base edge; when it does not, every round
      added an edge.  `exact` tells that the sweep settled and no deletion
      loop ran out of fuel. */
  method Merge(S: Builder, basel: Handle, fuel: nat)
    returns (T: Builder, b: Handle, lcand: Handle, rcand: Handle, settled: bool, exact: bool,
             ghost R: Builder, ghost sw: Sweep)
    requires Inv(S) && Has(S.mesh, basel) && Primal(basel)
    ensures Inv(T) && Grows(S, T) && T.nodes == S.nodes
    ensures Has(T.mesh, b) && Primal(b) && Has(T.mesh, lcand) && Has(T.mesh, rcand)
    ensures |T.mesh| <= |S.mesh| + fuel
    ensures |S.edges| <= |T.edges| && forall k :: 0 <= k < |S.edges| ==> T.edges[k] == S.edges[k]
    ensures b == basel || |S.mesh| <= b.quad
    ensures settled ==> !RightOf(T.mesh, Dest2d(T.mesh, lcand), b) && !RightOf(T.mesh, Dest2d(T.mesh, rcand), b)
    ensures settled ==> Inv(R) && Grows(S, R) && Has(R.mesh, b) && Primal(b) && Swept(R, b, sw, T, lcand, rcand)
    ensures !settled ==> |T.mesh| == |S.mesh| + fuel
    ensures exact ==> settled
    ensures settled && !exact ==> T.deleted >= S.deleted + fuel
    ensures fuel > 0 && !CandidateValid(S.mesh, basel, Left) && !CandidateValid(S.mesh, basel, Right) ==>
              settled && T == S && b == basel
  {
    T, b, lcand, rcand, settled := S, basel, basel, basel, false;
    R, sw := S, Sweep(S, Run([], []), Run([], []));
    var clean := true;
    var k := 0;
    while k < fuel
      invariant Inv(T) && Grows(S, T) && T.nodes == S.nodes
      invariant Has(T.mesh, b) && Primal(b) && Has(T.mesh, lcand) && Has(T.mesh, rcand)
      invariant k <= fuel && |T.mesh| == |S.mesh| + k
      invariant |S.edges| <= |T.edges| && forall i :: 0 <= i < |S.edges| ==> T.edges[i] == S.edges[i]
      invariant b == basel || |S.mesh| <= b.quad
      invariant !clean ==> T.deleted >= S.deleted + fuel
      invariant k == 0 ==> T == S && b == basel
      invariant !CandidateValid(S.mesh, basel, Left) && !CandidateValid(S.mesh, basel, Right) ==> k == 0
      invariant !settled
    {
      ghost var before := T;
      var T', b', done, stepClean;
      ghost var sw';
      T', b', lcand, rcand, done, stepClean, sw' := SweepRound(T, b, fuel);
      GrowsTrans(S, T, T');
      clean := clean && stepClean;
      if done {
        R, sw := before, sw';
        T, b := T', b';
        settled := true;
        break;
      }
      T, b := T', b';
      k := k + 1;
    }
    exact := settled && clean;
  }

  /** The merge of two triangulated halves: walk to the lower common tangent
      (`i` steps of `Lnext` from `lr` and `j` of `Rprev` from `rl`), connect
      it as the first base edge from the origin of `rdi` to the origin of
      `ldi`, rebind the outer edges when their origin is an endpoint of that
      tangent, and sweep upward.  `exact` tells that every loop ended on its
      own test; then the tangent `ldi`..`rdi` has no point of the facing half
      below it, and the sweep's last round, from `R` with deletions `sw`,
      left both final candidates on or to the left of the last base edge
      `top`. */
  method Combine(S: Builder, ll: Handle, lr: Handle, rl: Handle, rr: Handle, fuel: nat)
    returns (T: Builder, left: Handle, right: Handle, exact: bool,
             ldi: Handle, rdi: Handle, top: Handle, lcand: Handle, rcand: Handle,
             ghost i: nat, ghost j: nat, ghost R: Builder, ghost sw: Sweep)
    requires Inv(S)
    requires Has(S.mesh, ll) && Has(S.mesh, lr) && Has(S.mesh, rl) && Has(S.mesh, rr)
    requires Primal(ll) && Primal(lr) && Primal(rl) && Primal(rr)
    ensures Inv(T) && Grows(S, T) && T.nodes == S.nodes && |T.mesh| > |S.mesh|
    ensures Has(T.mesh, left) && Has(T.mesh, right) && Primal(left) && Primal(right)
    ensures Org2d(T.mesh, left) == Org2d(S.mesh, ll) && Org2d(T.mesh, right) == Org2d(S.mesh, rr)
    ensures Has(S.mesh, ldi) && Has(S.mesh, rdi) && Primal(ldi) && Primal(rdi)
    ensures ldi == LnextPow(S.mesh, lr, i) && rdi == RprevPow(S.mesh, rl, j) && i + j <= fuel
    ensures |S.edges| < |T.edges| && T.edges[|S.edges|] == Handle(|S.mesh|, 0)
    ensures Org(T.mesh, Handle(|S.mesh|, 0)) == Org(S.mesh, rdi) && Dest(T.mesh, Handle(|S.mesh|, 0)) == Org(S.mesh, ldi)
    ensures left == if Org2d(S.mesh, ldi) == Org2d(S.mesh, ll) then Sym(Handle(|S.mesh|, 0)) else ll
    ensures right == if Org2d(S.mesh, rdi) == Org2d(S.mesh, rr) then Handle(|S.mesh|, 0) else rr
    ensures Has(T.mesh, top) && Has(T.mesh, lcand) && Has(T.mesh, rcand)
    ensures exact ==> !LeftOf(S.mesh, Org2d(S.mesh, rdi), ldi) && !RightOf(S.mesh, Org2d(S.mesh, ldi), rdi)
    ensures exact ==> !RightOf(T.mesh, Dest2d(T.mesh, lcand), top) && !RightOf(T.mesh, Dest2d(T.mesh, rcand), top)
    ensures exact ==> Inv(R) && Grows(S, R) && Has(R.mesh, top) && Primal(top) && Swept(R, top, sw, T, lcand, rcand)
  {
    var tangentSettled;
    ldi, rdi, tangentSettled, i, j := LowerTangent(S.mesh, lr, rl, fuel);
    var S1, basel := AddEdge(S, Sym(rdi), ldi);
    DestIsOrgOfSym(S.mesh, Sym(rdi));
    DestIsOrgOfSym(S1.mesh, basel);
    SymLaws(rdi);
    OrgKept(S, S1, ll);
    OrgKept(S, S1, rr);
    OrgKept(S, S1, ldi);
    OrgKept(S, S1, rdi);
    left, right := ll, rr;
    if Org2d(S1.mesh, ldi) == Org2d(S1.mesh, ll) {
      left := Sym(basel);
    }
    if Org2d(S1.mesh, rdi) == Org2d(S1.mesh, rr) {
      right := basel;
    }
    assert Org2d(S1.mesh, left) == Org2d(S.mesh, ll) && Org2d(S1.mesh, right) == Org2d(S.mesh, rr);
    var mergeSettled, mergeExact;
    T, top, lcand, rcand, mergeSettled, mergeExact, R, sw := Merge(S1, basel, fuel);
    GrowsTrans(S, S1, T);
    if mergeSettled {
      GrowsTrans(S, S1, R);
    }
    OrgKept(S1, T, left);
    OrgKept(S1, T, right);
    OrgKept(S1, T, basel);
    OrgKept(S1, T, Sym(basel));
    DestIsOrgOfSym(T.mesh, basel);
    exact := tangentSettled && mergeExact;
  }

  /** `delaunay(o_left, o_right, lo, hi)`: triangulates `points[lo..hi]`,
      numbering its points `lo` to `hi` in order, and returns an edge out of
      the first and one out of the last point.  `exact` tells that every
      fuel-bounded loop of every merge ended on its own test; the base
      cases have no such loop. */
  method Build(S: Builder, lo: int, hi: int, fuel: nat)
    returns (T: Builder, left: Handle, right: Handle, exact: bool)
    requires Inv(S) && 0 <= lo < hi < |S.points| && S.nodes == lo
    ensures Inv(T) && Grows(S, T) && T.nodes == hi + 1
    ensures Has(T.mesh, left) && Has(T.mesh, right) && Primal(left) && Primal(right)
    ensures Org2d(T.mesh, left) == S.points[lo] && Org2d(T.mesh, right) == S.points[hi]
    ensures |T.mesh| >= |S.mesh| + (hi - lo)
    ensures hi - lo <= 2 ==> exact
    decreases hi - lo
  {
    var n := 1 + hi - lo;
    if n == 2 {
      T, left, right := BaseTwo(S, lo, hi);
      DestIsOrgOfSym(T.mesh, left);
      exact := true;
    } else if n == 3 {
      T, left, right := BaseThree(S, lo, hi);
      exact := true;
    } else {
      var (mid0, mid1) := Halves(lo, hi);
      var S1, ll, lr, e1 := Build(S, lo, mid0, fuel);
      var S2, rl, rr, e2 := Build(S1, mid1, hi, fuel);
      GrowsTrans(S, S1, S2);
      OrgKept(S1, S2, ll);
      var e3;
      var ldi, rdi, top, lcand, rcand;
      ghost var i, j, R, sw;
      T, left, right, e3, ldi, rdi, top, lcand, rcand, i, j, R, sw := Combine(S2, ll, lr, rl, rr, fuel);
      GrowsTrans(S, S2, T);
      exact := e1 && e2 && e3;
    }
  }

  /** `computeTriangulation`: the whole sequence of points, from an empty
      builder.  Afterwards the node identifiers are exactly `0` to `n - 1`,
      each node sits at the point with its identifier, and every created
      edge is on the edge stack once. */
  method Triangulate(points: seq<Point>, fuel: nat) returns (T: Builder, left: Handle, right: Handle, exact: bool)
    requires |points| >= 2
    ensures Inv(T) && T.points == points && T.nodes == |points|
    ensures forall e: Handle {:trigger Org(T.mesh, e)} :: e.quad < |T.mesh| && Primal(e) ==>
              0 <= Org(T.mesh, e).id < |points| && Org(T.mesh, e).pos == points[Org(T.mesh, e).id]
    ensures forall k :: 0 <= k < |points| ==> Named(T.mesh, k)
    ensures |T.edges| == |T.mesh| >= |points| - 1
    ensures Has(T.mesh, left) && Has(T.mesh, right)
    ensures Org2d(T.mesh, left) == points[0] && Org2d(T.mesh, right) == points[|points| - 1]
    ensures |points| <= 3 ==> exact
  {
    var S := Builder(points, [], [], 0, 0);
    T, left, right, exact := Build(S, 0, |points| - 1, fuel);
  }
}
