/**
  The disjoint-set forest of the Kruskal step: a `parent` vector without
  path compression or union by rank.  `findSet` follows parent links until
  it meets a node that is its own parent.
 */
module UnionFind {

  /** Every link stays inside `[0, |parent|)`. */
  predicate InRange(parent: seq<int>)
  {
    forall i :: 0 <= i < |parent| ==> 0 <= parent[i] < |parent|
  }

  /** `rank` strictly decreases along every link to another node, so following
      links always ends at a root. */
  ghost predicate Ranked(parent: seq<int>, rank: seq<nat>)
  {
    && InRange(parent)
    && |rank| == |parent|
    && forall i :: 0 <= i < |parent| && parent[i] != i ==> rank[parent[i]] < rank[i]
  }

  /** The links form a forest: no cycle other than a root's link to itself. */
  ghost predicate Forest(parent: seq<int>)
  {
    exists rank :: Ranked(parent, rank)
  }

  /** Some rank witnessing that `parent` is a forest. */
  ghost function RankOf(parent: seq<int>): (rank: seq<nat>)
    requires Forest(parent)
    ensures Ranked(parent, rank)
  {
    var rank :| Ranked(parent, rank); rank
  }

  /** The roots: nodes that are their own parent, one per set. */
  function Roots(parent: seq<int>): set<int>
  {
    set i | 0 <= i < |parent| && parent[i] == i
  }

  /** `std::iota`: node `i` starts as its own parent. */
  function Singletons(n: nat): (parent: seq<int>)
  {
    seq(n, i => i)
  }

  /** Initially the links form a forest and every node is a root. */
  lemma SingletonsForest(n: nat)
    ensures Forest(Singletons(n))
    ensures forall i :: 0 <= i < n ==> i in Roots(Singletons(n))
    ensures |Roots(Singletons(n))| == n
  {
    assert Ranked(Singletons(n), seq(n, i => 0));
    SingletonRoots(n);
  }

  /** `n` singletons have `n` roots. */
  lemma {:induction false} SingletonRoots(n: nat)
    ensures |Roots(Singletons(n))| == n
  {
    if n > 0 {
      SingletonRoots(n - 1);
      assert Roots(Singletons(n)) == Roots(Singletons(n - 1)) + {n - 1};
    }
  }

  /** `findSet(i, parent)`: the root of the tree holding `i`. */
  function FindSet(parent: seq<int>, i: int): (r: int)
    requires Forest(parent) && 0 <= i < |parent|
    ensures 0 <= r < |parent| && parent[r] == r
    decreases RankOf(parent)[i]
  {
    if i == parent[i] then i else FindSet(parent, parent[i])
  }

  /** `parent` applied `k` times. */
  function Follow(parent: seq<int>, i: int, k: nat): (r: int)
    requires InRange(parent) && 0 <= i < |parent|
    ensures 0 <= r < |parent|
    decreases k
  {
    if k == 0 then i else Follow(parent, parent[i], k - 1)
  }

  /** `findSet` returns a root reachable from `i` by following links. */
  lemma {:induction false} FindSetReached(parent: seq<int>, i: int) returns (k: nat)
    requires Forest(parent) && 0 <= i < |parent|
    ensures Follow(parent, i, k) == FindSet(parent, i)
    decreases RankOf(parent)[i]
  {
    if i == parent[i] {
      k := 0;
    } else {
      var k' := FindSetReached(parent, parent[i]);
      k := k' + 1;
    }
  }

  /** Any root reachable from `i` is the one `findSet` returns: each node lies
      in exactly one tree. */
  lemma {:induction false} RootUnique(parent: seq<int>, i: int, k: nat)
    requires Forest(parent) && 0 <= i < |parent|
    requires parent[Follow(parent, i, k)] == Follow(parent, i, k)
    ensures Follow(parent, i, k) == FindSet(parent, i)
    decreases k
  {
    if k > 0 {
      if i == parent[i] {
        RootStays(parent, i, k);
      } else {
        RootUnique(parent, parent[i], k - 1);
      }
    }
  }

  /** Following links from a root stays at the root. */
  lemma {:induction false} RootStays(parent: seq<int>, i: int, k: nat)
    requires InRange(parent) && 0 <= i < |parent| && parent[i] == i
    ensures Follow(parent, i, k) == i
  {
    if k > 0 {
      RootStays(parent, i, k - 1);
    }
  }

  /** `parent[ro] = parent[rd]` for two different roots `ro` and `rd`: the two
      sets are merged under `rd`, all other sets are unchanged, and `ro`
      stops being a root. */
  lemma Union(parent: seq<int>, ro: int, rd: int)
    requires Forest(parent) && 0 <= ro < |parent| && 0 <= rd < |parent|
    requires parent[ro] == ro && parent[rd] == rd && ro != rd
    ensures Forest(parent[ro := parent[rd]])
    ensures forall i :: 0 <= i < |parent| ==>
              FindSet(parent[ro := parent[rd]], i) == if FindSet(parent, i) == ro then rd else FindSet(parent, i)
    ensures Roots(parent[ro := parent[rd]]) == Roots(parent) - {ro}
  {
    var p' := parent[ro := rd];
    var rank := RankOf(parent);
    var rank' := seq(|parent|, i requires 0 <= i < |parent| =>
                       if FindSet(parent, i) == ro then rank[i] + rank[rd] + 1 else rank[i]);
    forall i | 0 <= i < |parent| && p'[i] != i
      ensures rank'[p'[i]] < rank'[i]
    {
      if i != ro {
        FindSetStep(parent, i);
      }
    }
    assert Ranked(p', rank');
    forall i | 0 <= i < |parent|
      ensures FindSet(p', i) == if FindSet(parent, i) == ro then rd else FindSet(parent, i)
    {
      RootAfterUnion(parent, ro, rd, i);
    }
    assert Roots(p') == Roots(parent) - {ro};
  }

  /** A non-root node and its parent have the same root. */
  lemma FindSetStep(parent: seq<int>, i: int)
    requires Forest(parent) && 0 <= i < |parent| && parent[i] != i
    ensures FindSet(parent, i) == FindSet(parent, parent[i])
  {
  }

  /** The root of `i` after the union, by induction along the old links. */
  lemma {:induction false} RootAfterUnion(parent: seq<int>, ro: int, rd: int, i: int)
    requires Forest(parent) && 0 <= ro < |parent| && 0 <= rd < |parent|
    requires parent[ro] == ro && parent[rd] == rd && ro != rd
    requires Forest(parent[ro := rd]) && 0 <= i < |parent|
    ensures FindSet(parent[ro := rd], i) == if FindSet(parent, i) == ro then rd else FindSet(parent, i)
    decreases RankOf(parent)[i]
  {
    var p' := parent[ro := rd];
    if i == ro {
      assert FindSet(p', ro) == FindSet(p', rd) == rd;
    } else if parent[i] == i {
    } else {
      RootAfterUnion(parent, ro, rd, parent[i]);
    }
  }

  /** With a single root every node is in the same set. */
  lemma OneRoot(parent: seq<int>, x: int, y: int)
    requires Forest(parent) && 0 <= x < |parent| && 0 <= y < |parent|
    requires |Roots(parent)| == 1
    ensures FindSet(parent, x) == FindSet(parent, y)
  {
    var rx, ry := FindSet(parent, x), FindSet(parent, y);
    assert rx in Roots(parent) && ry in Roots(parent);
    if rx != ry {
      assert {rx, ry} <= Roots(parent);
      assert |{rx, ry}| == 2;
      SubsetSize({rx, ry}, Roots(parent));
    }
  }

  /** A subset is no larger than its superset. */
  lemma SubsetSize(a: set<int>, b: set<int>)
    requires a <= b
    ensures |a| <= |b|
  {
    assert b == a + (b - a);
  }

  /** A forest over at least one node has a root. */
  lemma HasRoot(parent: seq<int>)
    requires Forest(parent) && |parent| > 0
    ensures |Roots(parent)| >= 1
  {
    var r := FindSet(parent, 0);
    assert r in Roots(parent);
  }
}
