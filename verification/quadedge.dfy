/**
  The quad-edge structure of Guibas and Stolfi (1985) as an arena.

  The original keeps each `QuadEdge` in its own allocation and navigates
  with pointer offsets inside the four-element array `e[4]`.  Here the
  mesh is a sequence of `Quad` records and an `Edge *` is a `Handle`:
  the index of its quad in the arena and its representation index `r`
  (0 and 2 are the two primal directions, 1 and 3 the two duals).
 */
module QuadEdge {
  import opened Geometry

  /** A representation index inside one quad-edge. */
  type Rep = r: int | 0 <= r < 4

  /** `Edge *`: the representation `r` of the quad at index `quad`. */
  datatype Handle = Handle(quad: nat, r: Rep)

  /** A mesh vertex: position and identifier. */
  datatype Node = Node(pos: Point, id: int)

  /** One `QuadEdge`: the `next` link and the origin node of each of its four
      representations, the cached squared length and the liveness flag. */
  datatype Quad = Quad(next: seq<Handle>, node: seq<Node>, length: int, alive: bool)

  /** All quad-edges created so far; slots are never reclaimed. */
  type Arena = seq<Quad>

  /** The node a representation carries before `EndPoints` sets it: the
      original default-constructs it (position (0, 0), identifier left
      indeterminate, modelled as 0). */
  const Unset: Node := Node(Point(0, 0), 0)

  /* ------------------------------------------------------------------ */
  /* Navigation that does not read the arena                            */
  /* ------------------------------------------------------------------ */

  /** Primal representations (0 and 2) carry nodes; duals (1 and 3) do not. */
  predicate Primal(e: Handle)
  {
    e.r == 0 || e.r == 2
  }

  /** `Rot`: the dual edge, directed from its right face to its left face. */
  function Rot(e: Handle): (f: Handle)
    ensures f.quad == e.quad && Primal(f) != Primal(e)
  {
    if e.r < 3 then Handle(e.quad, e.r + 1) else Handle(e.quad, e.r - 3)
  }

  /** `invRot`: the dual edge, directed from its left face to its right face. */
  function InvRot(e: Handle): (f: Handle)
    ensures f.quad == e.quad && Primal(f) != Primal(e)
  {
    if e.r > 0 then Handle(e.quad, e.r - 1) else Handle(e.quad, e.r + 3)
  }

  /** `Sym`: the same edge, directed from its destination to its origin. */
  function Sym(e: Handle): (f: Handle)
    ensures f.quad == e.quad && f != e && Primal(f) == Primal(e)
  {
    if e.r < 2 then Handle(e.quad, e.r + 2) else Handle(e.quad, e.r - 2)
  }

  /** `getQuadEdge`: the owning quad-edge, i.e. its representation 0. */
  function QuadOf(e: Handle): Handle
  {
    Handle(e.quad, 0)
  }

  /** The four representations of one quad-edge have the same owner, which
      is one of them. */
  lemma QuadOfShared(e: Handle)
    ensures QuadOf(Rot(e)) == QuadOf(e) && QuadOf(InvRot(e)) == QuadOf(e) && QuadOf(Sym(e)) == QuadOf(e)
    ensures QuadOf(e) in {e, Rot(e), Sym(e), InvRot(e)}
  {
  }

  /** `Rot` has order four and `invRot` is its inverse. */
  lemma RotLaws(e: Handle)
    ensures Rot(Rot(Rot(Rot(e)))) == e
    ensures InvRot(Rot(e)) == e && Rot(InvRot(e)) == e
  {
  }

  /** `Sym` is `Rot` applied twice, hence an involution. */
  lemma SymLaws(e: Handle)
    ensures Sym(e) == Rot(Rot(e))
    ensures Sym(Sym(e)) == e
  {
  }

  /* ------------------------------------------------------------------ */
  /* Well-formed arenas                                                 */
  /* ------------------------------------------------------------------ */

  /** Every quad has four links and four node slots. */
  ghost predicate Shaped(A: Arena)
  {
    forall q :: 0 <= q < |A| ==> |A[q].next| == 4 && |A[q].node| == 4
  }

  /** The handle denotes a quad of the arena. */
  predicate Has(A: Arena, e: Handle)
  {
    e.quad < |A|
  }

  /** `Onext`: the next edge counterclockwise around the origin of `e`. */
  function Onext(A: Arena, e: Handle): Handle
    requires Shaped(A) && Has(A, e)
  {
    A[e.quad].next[e.r]
  }

  /** Every link points at a quad of the arena (no dangling pointer). */
  ghost predicate WellLinked(A: Arena)
  {
    Shaped(A) && forall e: Handle {:trigger Onext(A, e)} :: e.quad < |A| ==> Onext(A, e).quad < |A|
  }

  /** Moreover `Onext` maps primal edges to primal edges and dual edges to dual
      edges, as every quad-edge subdivision does. */
  ghost predicate Valid(A: Arena)
  {
    WellLinked(A) && forall e: Handle {:trigger Onext(A, e)} :: e.quad < |A| ==> Primal(Onext(A, e)) == Primal(e)
  }

  /** `Oprev`: the next edge clockwise around the origin of `e`. */
  function Oprev(A: Arena, e: Handle): (f: Handle)
    requires WellLinked(A) && Has(A, e)
    ensures Has(A, f)
    ensures Valid(A) ==> Primal(f) == Primal(e)
  {
    Rot(Onext(A, Rot(e)))
  }

  /** `Lnext`: the next edge counterclockwise around the left face of `e`. */
  function Lnext(A: Arena, e: Handle): (f: Handle)
    requires WellLinked(A) && Has(A, e)
    ensures Has(A, f)
    ensures Valid(A) ==> Primal(f) == Primal(e)
  {
    Rot(Onext(A, InvRot(e)))
  }

  /** `Rprev`: the edge before `e` counterclockwise around its right face. */
  function Rprev(A: Arena, e: Handle): (f: Handle)
    requires WellLinked(A) && Has(A, e)
    ensures Has(A, f)
    ensures Valid(A) ==> Primal(f) == Primal(e)
  {
    Onext(A, Sym(e))
  }

  /** `Org`: the origin node of `e`. */
  function Org(A: Arena, e: Handle): Node
    requires Shaped(A) && Has(A, e)
  {
    A[e.quad].node[e.r]
  }

  /** `Dest`: the origin node of `Sym(e)`. */
  function Dest(A: Arena, e: Handle): Node
    requires Shaped(A) && Has(A, e)
  {
    A[e.quad].node[Sym(e).r]
  }

  /** `Org2d`: the position of the origin node. */
  function Org2d(A: Arena, e: Handle): Point
    requires Shaped(A) && Has(A, e)
  {
    A[e.quad].node[e.r].pos
  }

  /** `Dest2d`: the position stored two representations away. */
  function Dest2d(A: Arena, e: Handle): Point
    requires Shaped(A) && Has(A, e)
  {
    A[e.quad].node[if e.r < 2 then e.r + 2 else e.r - 2].pos
  }

  /** `Dest` and `Dest2d` read the origin of the symmetric edge. */
  lemma DestIsOrgOfSym(A: Arena, e: Handle)
    requires Shaped(A) && Has(A, e)
    ensures Dest(A, e) == Org(A, Sym(e))
    ensures Dest2d(A, e) == Org2d(A, Sym(e)) && Org2d(A, e) == Org(A, e).pos
  {
  }

  /** The cached squared length of the quad owning `e`. */
  function Length(A: Arena, e: Handle): int
    requires Has(A, e)
  {
    A[e.quad].length
  }

  /** The liveness flag of the quad owning `e`. */
  predicate Alive(A: Arena, e: Handle)
    requires Has(A, e)
  {
    A[e.quad].alive
  }

  /* ------------------------------------------------------------------ */
  /* Single-link update and frames                                      */
  /* ------------------------------------------------------------------ */

  /** Node slots, lengths and liveness of all quads agree, and so does the size. */
  ghost predicate SameData(A: Arena, B: Arena)
  {
    && |A| == |B|
    && forall q :: 0 <= q < |A| ==>
         A[q].node == B[q].node && A[q].length == B[q].length && A[q].alive == B[q].alive
  }

  /** `e->next = v`. */
  function SetNext(A: Arena, e: Handle, v: Handle): (B: Arena)
    requires Shaped(A) && Has(A, e)
    ensures Shaped(B) && SameData(A, B)
    ensures forall f: Handle {:trigger Onext(B, f)} :: f.quad < |A| ==> Onext(B, f) == if f == e then v else Onext(A, f)
  {
    A[e.quad := A[e.quad].(next := A[e.quad].next[e.r := v])]
  }

  /** Two shaped arenas with the same data and the same links are equal. */
  lemma ArenaExtensional(A: Arena, B: Arena)
    requires Shaped(A) && Shaped(B) && SameData(A, B)
    requires forall e: Handle :: e.quad < |A| ==> Onext(A, e) == Onext(B, e)
    ensures A == B
  {
    forall q | 0 <= q < |A|
      ensures A[q] == B[q]
    {
      forall r | 0 <= r < 4
        ensures A[q].next[r] == B[q].next[r]
      {
        assert Onext(A, Handle(q, r)) == Onext(B, Handle(q, r));
      }
      assert A[q].next == B[q].next;
    }
  }

  /* ------------------------------------------------------------------ */
  /* Mutating primitives                                                */
  /* ------------------------------------------------------------------ */

  /** The freshly constructed `QuadEdge` stored at index `q`. */
  function NewQuad(q: nat): Quad
  {
    Quad([Handle(q, 0), Handle(q, 3), Handle(q, 2), Handle(q, 1)],
         [Unset, Unset, Unset, Unset], 0, true)
  }

  /** `MakeEdge`: appends a fresh quad-edge and returns its representation 0. */
  function MakeEdge(A: Arena): (res: (Arena, Handle))
    requires WellLinked(A)
    ensures |res.0| == |A| + 1 && WellLinked(res.0)
    ensures forall q :: 0 <= q < |A| ==> res.0[q] == A[q]
    ensures forall f: Handle {:trigger Onext(res.0, f)} :: f.quad < |A| ==> Onext(res.0, f) == Onext(A, f)
    ensures res.1 == Handle(|A|, 0) && Has(res.0, res.1) && Alive(res.0, res.1)
    ensures Onext(res.0, res.1) == res.1 && Onext(res.0, Sym(res.1)) == Sym(res.1)
    ensures Onext(res.0, Rot(res.1)) == InvRot(res.1) && Onext(res.0, InvRot(res.1)) == Rot(res.1)
    ensures Valid(A) ==> Valid(res.0)
  {
    var B := A + [NewQuad(|A|)];
    AppendQuadLinks(A, B);
    (B, Handle(|A|, 0))
  }

  /** Appending a fresh quad keeps every old link and links the new quad to itself. */
  lemma AppendQuadLinks(A: Arena, B: Arena)
    requires WellLinked(A) && B == A + [NewQuad(|A|)]
    ensures Shaped(B) && forall q :: 0 <= q < |A| ==> B[q] == A[q]
    ensures forall e: Handle {:trigger Onext(B, e)} :: e.quad < |A| ==> Onext(B, e) == Onext(A, e)
    ensures WellLinked(B)
    ensures Valid(A) ==> Valid(B)
  {
    assert Shaped(B) by {
      forall q | 0 <= q < |B|
        ensures |B[q].next| == 4 && |B[q].node| == 4
      {
        if q < |A| {
          assert B[q] == A[q];
        }
      }
    }
    forall e: Handle | e.quad < |B|
      ensures Onext(B, e).quad < |B|
      ensures e.quad < |A| ==> Onext(B, e) == Onext(A, e)
      ensures Valid(A) ==> Primal(Onext(B, e)) == Primal(e)
    {
      if e.quad < |A| {
        assert B[e.quad] == A[e.quad];
        assert Onext(B, e) == Onext(A, e);
      } else {
        assert B[e.quad] == NewQuad(|A|);
      }
    }
  }

  /** `EndPoints`: sets the origin of `e` and of `Sym(e)` and caches the squared length. */
  method EndPoints(A: Arena, e: Handle, ori: Node, de: Node) returns (B: Arena)
    requires Shaped(A) && Has(A, e)
    ensures Shaped(B) && |B| == |A|
    ensures Org(B, e) == ori && Dest(B, e) == de
    ensures B[e.quad].length == LengthSquared(ori.pos, de.pos)
    ensures forall q :: 0 <= q < |A| ==> B[q].alive == A[q].alive
    ensures forall q :: 0 <= q < |A| && q != e.quad ==> B[q] == A[q]
    ensures forall f: Handle {:trigger Onext(B, f)} :: f.quad < |A| ==> Onext(B, f) == Onext(A, f)
    ensures forall r :: 0 <= r < 4 && r != e.r && r != Sym(e).r ==> B[e.quad].node[r] == A[e.quad].node[r]
    ensures WellLinked(A) ==> WellLinked(B)
    ensures Valid(A) ==> Valid(B)
  {
    var q := A[e.quad];
    B := A[e.quad := q.(node := q.node[e.r := ori][Sym(e).r := de],
                        length := LengthSquared(ori.pos, de.pos))];
    assert forall f: Handle {:trigger Onext(B, f)} :: f.quad < |A| ==> Onext(B, f) == Onext(A, f);
  }

  /** `MakeEdgeFrom`: a fresh edge from `ori` to `de`. */
  method MakeEdgeFrom(A: Arena, ori: Node, de: Node) returns (B: Arena, e: Handle)
    requires WellLinked(A)
    ensures |B| == |A| + 1 && forall q :: 0 <= q < |A| ==> B[q] == A[q]
    ensures e == Handle(|A|, 0) && Has(B, e) && WellLinked(B)
    ensures Org(B, e) == ori && Dest(B, e) == de
    ensures Alive(B, e) && Length(B, e) == LengthSquared(ori.pos, de.pos)
    ensures Onext(B, e) == e && Onext(B, Sym(e)) == Sym(e)
    ensures Valid(A) ==> Valid(B)
  {
    var A1;
    A1, e := MakeEdge(A).0, MakeEdge(A).1;
    B := EndPoints(A1, e, ori, de);
  }

  /** `Splice(a, b)`: exchanges the `next` links of `a` and `b`, and those of
      `alpha = Rot(Onext(a))` and `beta = Rot(Onext(b))`, merging two rings
      into one or splitting one ring into two (Guibas and Stolfi (1985), p. 96). */
  method Splice(A: Arena, a: Handle, b: Handle) returns (B: Arena)
    requires WellLinked(A) && Has(A, a) && Has(A, b)
    ensures WellLinked(B) && SameData(A, B)
    ensures forall e: Handle {:trigger Onext(B, e)} ::
              (e.quad < |A| && e != a && e != b && e != Rot(Onext(A, a)) && e != Rot(Onext(A, b)))
              ==> Onext(B, e) == Onext(A, e)
    ensures Valid(A) && Primal(a) == Primal(b) ==>
      && Valid(B)
      && Onext(B, a) == Onext(A, b)
      && Onext(B, b) == Onext(A, a)
      && Onext(B, Rot(Onext(A, a))) == Onext(A, Rot(Onext(A, b)))
      && Onext(B, Rot(Onext(A, b))) == Onext(A, Rot(Onext(A, a)))
  {
    var alpha := Rot(Onext(A, a));
    var beta := Rot(Onext(A, b));
    var t1 := Onext(A, b);
    var t2 := Onext(A, a);
    var t3 := Onext(A, beta);
    var t4 := Onext(A, alpha);
    var A1 := SetNext(A, a, t1);
    var A2 := SetNext(A1, b, t2);
    var A3 := SetNext(A2, alpha, t3);
    B := SetNext(A3, beta, t4);
    SpliceEffect(A, a, b, A1, A2, A3, B);
  }

  /** The four sequential writes of `Splice` as one simultaneous exchange. */
  lemma SpliceEffect(A: Arena, a: Handle, b: Handle, A1: Arena, A2: Arena, A3: Arena, B: Arena)
    requires WellLinked(A) && Has(A, a) && Has(A, b)
    requires A1 == SetNext(A, a, Onext(A, b))
    requires A2 == SetNext(A1, b, Onext(A, a))
    requires A3 == SetNext(A2, Rot(Onext(A, a)), Onext(A, Rot(Onext(A, b))))
    requires B == SetNext(A3, Rot(Onext(A, b)), Onext(A, Rot(Onext(A, a))))
    ensures WellLinked(B) && SameData(A, B)
    ensures forall e: Handle {:trigger Onext(B, e)} ::
              (e.quad < |A| && e != a && e != b && e != Rot(Onext(A, a)) && e != Rot(Onext(A, b)))
              ==> Onext(B, e) == Onext(A, e)
    ensures Valid(A) && Primal(a) == Primal(b) ==>
      && Valid(B)
      && Onext(B, a) == Onext(A, b)
      && Onext(B, b) == Onext(A, a)
      && Onext(B, Rot(Onext(A, a))) == Onext(A, Rot(Onext(A, b)))
      && Onext(B, Rot(Onext(A, b))) == Onext(A, Rot(Onext(A, a)))
  {
    var alpha := Rot(Onext(A, a));
    var beta := Rot(Onext(A, b));
    var t1, t2, t3, t4 := Onext(A, b), Onext(A, a), Onext(A, beta), Onext(A, alpha);
    FourWrites(A, a, t1, b, t2, alpha, t3, beta, t4, A1, A2, A3, B);
    ExchangeLinked(A, B, a, b, alpha, beta);
    if Valid(A) && Primal(a) == Primal(b) {
      ExchangeValid(A, B, a, b, alpha, beta);
    }
  }

  /** The result of the exchange has no dangling link. */
  lemma ExchangeLinked(A: Arena, B: Arena, a: Handle, b: Handle, alpha: Handle, beta: Handle)
    requires WellLinked(A) && Shaped(B) && |B| == |A|
    requires Has(A, a) && Has(A, b) && Has(A, alpha) && Has(A, beta)
    requires forall e: Handle {:trigger Onext(B, e)} :: e.quad < |A| ==>
              Onext(B, e) == if e == beta then Onext(A, alpha) else if e == alpha then Onext(A, beta)
                             else if e == b then Onext(A, a) else if e == a then Onext(A, b)
                             else Onext(A, e)
    ensures WellLinked(B)
  {
    forall e: Handle | e.quad < |B|
      ensures Onext(B, e).quad < |B|
    {
      assert Onext(B, e) in {Onext(A, alpha), Onext(A, beta), Onext(A, a), Onext(A, b), Onext(A, e)};
    }
  }

  /** When `a`, `b` have one parity and `alpha`, `beta` the other, no write of the
      exchange overwrites another, and parities of links are kept. */
  lemma ExchangeValid(A: Arena, B: Arena, a: Handle, b: Handle, alpha: Handle, beta: Handle)
    requires Valid(A) && Shaped(B) && |B| == |A|
    requires Has(A, a) && Has(A, b) && Has(A, alpha) && Has(A, beta)
    requires Primal(a) == Primal(b) && Primal(alpha) != Primal(a) && Primal(beta) != Primal(a)
    requires forall e: Handle :: e.quad < |A| ==>
              Onext(B, e) == if e == beta then Onext(A, alpha) else if e == alpha then Onext(A, beta)
                             else if e == b then Onext(A, a) else if e == a then Onext(A, b)
                             else Onext(A, e)
    ensures Valid(B)
    ensures Onext(B, a) == Onext(A, b) && Onext(B, b) == Onext(A, a)
    ensures Onext(B, alpha) == Onext(A, beta) && Onext(B, beta) == Onext(A, alpha)
  {
    ExchangeParity(A, B, a, b, alpha, beta);
    assert a != alpha && a != beta && b != alpha && b != beta;
  }

  /** The exchange keeps the parity of every link. */
  lemma ExchangeParity(A: Arena, B: Arena, a: Handle, b: Handle, alpha: Handle, beta: Handle)
    requires Valid(A) && Shaped(B) && |B| == |A|
    requires Has(A, a) && Has(A, b) && Has(A, alpha) && Has(A, beta)
    requires Primal(a) == Primal(b) && Primal(alpha) == Primal(beta)
    requires forall e: Handle :: e.quad < |A| ==>
              Onext(B, e) == if e == beta then Onext(A, alpha) else if e == alpha then Onext(A, beta)
                             else if e == b then Onext(A, a) else if e == a then Onext(A, b)
                             else Onext(A, e)
    ensures Valid(B)
  {
    forall e: Handle | e.quad < |B|
      ensures Onext(B, e).quad < |B| && Primal(Onext(B, e)) == Primal(e)
    {
      if e == beta {
        assert Onext(B, e) == Onext(A, alpha);
      } else if e == alpha {
        assert Onext(B, e) == Onext(A, beta);
      } else if e == b {
        assert Onext(B, e) == Onext(A, a);
      } else if e == a {
        assert Onext(B, e) == Onext(A, b);
      } else {
        assert Onext(B, e) == Onext(A, e);
      }
    }
  }

  /** Under the parity condition `Splice` is its own inverse
      (Guibas and Stolfi (1985), p. 96): splicing twice with the same
      arguments gives back the arena. */
  method SpliceTwice(A: Arena, a: Handle, b: Handle) returns (C: Arena)
    requires Valid(A) && Has(A, a) && Has(A, b) && Primal(a) == Primal(b)
    ensures C == A
  {
    var B := Splice(A, a, b);
    C := Splice(B, a, b);
    var alpha, beta := Rot(Onext(A, a)), Rot(Onext(A, b));
    assert Rot(Onext(B, a)) == beta && Rot(Onext(B, b)) == alpha;
    assert Onext(C, a) == Onext(A, a) && Onext(C, b) == Onext(A, b);
    assert Onext(C, alpha) == Onext(B, beta) == Onext(A, alpha);
    assert Onext(C, beta) == Onext(B, alpha) == Onext(A, beta);
    forall e: Handle {:trigger Onext(C, e)} | e.quad < |A|
      ensures Onext(C, e) == Onext(A, e)
    {
      if e != a && e != b && e != alpha && e != beta {
        assert Onext(C, e) == Onext(B, e) == Onext(A, e);
      }
    }
    SameDataTrans(A, B, C);
    ArenaExtensional(C, A);
  }

  /** Four successive single-link writes: the last write to a handle wins. */
  lemma FourWrites(A: Arena, a: Handle, t1: Handle, b: Handle, t2: Handle,
                   c: Handle, t3: Handle, d: Handle, t4: Handle,
                   A1: Arena, A2: Arena, A3: Arena, B: Arena)
    requires Shaped(A) && Has(A, a) && Has(A, b) && Has(A, c) && Has(A, d)
    requires A1 == SetNext(A, a, t1) && A2 == SetNext(A1, b, t2)
    requires A3 == SetNext(A2, c, t3) && B == SetNext(A3, d, t4)
    ensures Shaped(B) && SameData(A, B)
    ensures forall e: Handle {:trigger Onext(B, e)} :: e.quad < |A| ==>
              Onext(B, e) == if e == d then t4 else if e == c then t3
                             else if e == b then t2 else if e == a then t1 else Onext(A, e)
  {
    forall e: Handle | e.quad < |A|
      ensures Onext(B, e) == if e == d then t4 else if e == c then t3
                             else if e == b then t2 else if e == a then t1 else Onext(A, e)
    {
      assert Onext(A3, e) == if e == c then t3 else Onext(A2, e);
      assert Onext(A2, e) == if e == b then t2 else Onext(A1, e);
      assert Onext(A1, e) == if e == a then t1 else Onext(A, e);
    }
  }

  /** `e->Qedge()->alive = v`. */
  function SetAlive(A: Arena, e: Handle, v: bool): (B: Arena)
    requires WellLinked(A) && Has(A, e)
    ensures WellLinked(B) && |B| == |A| && B[e.quad].alive == v
    ensures forall f: Handle {:trigger Onext(B, f)} :: f.quad < |A| ==> Onext(B, f) == Onext(A, f)
    ensures forall q :: 0 <= q < |A| ==> B[q].node == A[q].node && B[q].length == A[q].length
    ensures forall q :: 0 <= q < |A| && q != e.quad ==> B[q] == A[q]
    ensures Valid(A) ==> Valid(B)
  {
    var B := A[e.quad := A[e.quad].(alive := v)];
    assert forall f: Handle {:trigger Onext(B, f)} :: f.quad < |A| ==> Onext(B, f) == Onext(A, f);
    B
  }

  /** `DeleteEdge`: marks the quad of `e` dead, detaches `e` from the ring at
      its origin and `Sym(e)` from the ring at its destination, and counts the
      deletion.  The slot stays in the arena. */
  method DeleteEdge(A: Arena, e: Handle, deleted: int) returns (B: Arena, count: int)
    requires WellLinked(A) && Has(A, e)
    ensures WellLinked(B) && |B| == |A|
    ensures count == deleted + 1
    ensures !Alive(B, e)
    ensures forall q :: 0 <= q < |A| && q != e.quad ==> B[q].alive == A[q].alive
    ensures forall q :: 0 <= q < |A| ==> B[q].node == A[q].node && B[q].length == A[q].length
    ensures Valid(A) ==> Valid(B)
  {
    var A1 := SetAlive(A, e, false);
    var A2 := Splice(A1, e, Oprev(A1, e));
    B := Splice(A2, Sym(e), Oprev(A2, Sym(e)));
    SameDataTrans(A1, A2, B);
    forall q | 0 <= q < |A|
      ensures B[q].node == A[q].node && B[q].length == A[q].length
    {
      assert B[q].node == A1[q].node && B[q].length == A1[q].length;
    }
    count := deleted + 1;
  }

  /** `SameData` is transitive. */
  lemma SameDataTrans(A: Arena, B: Arena, C: Arena)
    requires SameData(A, B) && SameData(B, C)
    ensures SameData(A, C)
  {
  }

  /** `Connect(a, b)`: a new edge from `Dest(a)` to `Org(b)` such that `a`, the new
      edge and `b` share a left face. */
  method Connect(A: Arena, a: Handle, b: Handle) returns (B: Arena, e: Handle)
    requires WellLinked(A) && Has(A, a) && Has(A, b)
    ensures WellLinked(B) && |B| == |A| + 1
    ensures e == Handle(|A|, 0) && Has(B, e) && Alive(B, e)
    ensures Org(B, e) == Dest(A, a) && Dest(B, e) == Org(A, b)
    ensures Length(B, e) == LengthSquared(Dest(A, a).pos, Org(A, b).pos)
    ensures forall q :: 0 <= q < |A| ==>
              B[q].node == A[q].node && B[q].length == A[q].length && B[q].alive == A[q].alive
    ensures Valid(A) && Primal(a) && Primal(b) ==>
      && Valid(B)
      && Onext(B, b) == Sym(e)
      && Onext(B, e) == Onext(A, Lnext(A, a))
  {
    var A3;
    A3, e := LinkNewEdge(A, a, b);
    assert Dest(A3, a) == Dest(A, a) && Org(A3, b) == Org(A, b) by {
      assert A3[a.quad].node == A[a.quad].node;
      assert A3[b.quad].node == A[b.quad].node;
    }
    // The original then stores the same squared length a second time.
    B := EndPoints(A3, e, Dest(A3, a), Org(A3, b));
  }

  /** The linking half of `Connect`: a fresh edge spliced after `Lnext(a)` at its
      origin and before `b` at its destination. */
  method LinkNewEdge(A: Arena, a: Handle, b: Handle) returns (A3: Arena, e: Handle)
    requires WellLinked(A) && Has(A, a) && Has(A, b)
    ensures WellLinked(A3) && |A3| == |A| + 1
    ensures e == Handle(|A|, 0) && Has(A3, e) && Alive(A3, e)
    ensures forall q :: 0 <= q < |A| ==>
              A3[q].node == A[q].node && A3[q].length == A[q].length && A3[q].alive == A[q].alive
    ensures Valid(A) && Primal(a) && Primal(b) ==>
      && Valid(A3)
      && Onext(A3, b) == Sym(e)
      && Onext(A3, e) == Onext(A, Lnext(A, a))
  {
    var A1;
    A1, e := MakeEdge(A).0, MakeEdge(A).1;
    var L := Lnext(A1, a);
    assert L == Lnext(A, a);
    var A2 := Splice(A1, e, L);
    A3 := Splice(A2, Sym(e), b);
    SameDataTrans(A1, A2, A3);
    if Valid(A) && Primal(a) && Primal(b) {
      assert Primal(L) && Primal(e);
      assert Onext(A2, e) == Onext(A, L);
      assert Onext(A2, Sym(e)) == Sym(e);
      assert Primal(Onext(A2, b));
      assert Onext(A3, b) == Sym(e);
      assert e != Rot(Onext(A2, b));
    }
  }

  /** `Swap(e)`: turns `e` counterclockwise inside its enclosing quadrilateral
      (not used by the triangulation). */
  method Swap(A: Arena, e: Handle) returns (B: Arena)
    requires WellLinked(A) && Has(A, e)
    ensures WellLinked(B) && |B| == |A|
    ensures Org(B, e) == Dest(A, Oprev(A, e)) && Dest(B, e) == Dest(A, Oprev(A, Sym(e)))
    ensures forall q :: 0 <= q < |A| ==> B[q].alive == A[q].alive
    ensures forall q :: 0 <= q < |A| && q != e.quad ==> B[q].node == A[q].node
    ensures Valid(A) ==> Valid(B)
  {
    var a := Oprev(A, e);
    var b := Oprev(A, Sym(e));
    var A1 := Splice(A, e, a);
    var A2 := Splice(A1, Sym(e), b);
    var A3 := Splice(A2, e, Lnext(A2, a));
    var A4 := Splice(A3, Sym(e), Lnext(A3, b));
    assert Valid(A) ==> Valid(A4) by {
      if Valid(A) {
        assert Valid(A1) && Valid(A2);
        assert Primal(Lnext(A2, a)) == Primal(e);
        assert Valid(A3);
        assert Primal(Lnext(A3, b)) == Primal(Sym(e));
      }
    }
    SameDataTrans(A, A1, A2);
    SameDataTrans(A, A2, A3);
    SameDataTrans(A, A3, A4);
    assert Dest(A4, a) == Dest(A, a) by {
      assert A4[a.quad].node == A[a.quad].node;
    }
    assert Dest(A4, b) == Dest(A, b) by {
      assert A4[b.quad].node == A[b.quad].node;
    }
    B := EndPoints(A4, e, Dest(A4, a), Dest(A4, b));
  }
}
