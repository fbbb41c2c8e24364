/**
 * The deep-first, left-right search of a node tree: `get`, `getAll`,
 * `find`, `findAll` and `getParent`.
 *
 * The search starts at the node it is called on and tests that node
 * itself before its descendants ("root is included").
 *
 * A node's identity inside a tree is its position: the path of child
 * indexes that leads to it from the root. The pre-order walk visits every
 * position exactly once, in the lexicographic order `Before` of paths.
 */
module Traversal {
  import opened Wrappers
  import opened Seqs
  import opened Nodes

  /** A query: a stateless predicate over one node (the selector string or builder chain it came from is not modelled). */
  type Query = Node -> bool

  /** The position of a node: child indexes from the root. */
  type Path = seq<nat>

  datatype Error = AmbiguousMatch

  // ---------------------------------------------------------------------------
  // Positions and the deep-first, left-right order
  // ---------------------------------------------------------------------------

  predicate ValidPath(n: Node, p: Path)
    decreases p
  {
    p == [] || (p[0] < |n.children| && ValidPath(n.children[p[0]], p[1..]))
  }

  /** The node at position `p` below `n`. */
  function At(n: Node, p: Path): Node
    requires ValidPath(n, p)
    decreases p
  {
    if p == [] then n else At(n.children[p[0]], p[1..])
  }

  /**
   * Deep-first, left-right order of positions: a node comes before its
   * descendants, and a child's whole subtree before its later siblings.
   */
  predicate Before(p: Path, q: Path)
    decreases p
  {
    q != [] && (p == [] || p[0] < q[0] || (p[0] == q[0] && Before(p[1..], q[1..])))
  }

  predicate Increasing(ps: seq<Path>) {
    forall i, j :: 0 <= i < j < |ps| ==> Before(ps[i], ps[j])
  }

  lemma {:induction false} BeforeIrreflexive(p: Path)
    ensures !Before(p, p)
  {
    if p != [] {
      BeforeIrreflexive(p[1..]);
    }
  }

  /** An increasing sequence of positions names no position twice. */
  lemma IncreasingDistinct(ps: seq<Path>)
    requires Increasing(ps)
    ensures forall i, j :: 0 <= i < j < |ps| ==> ps[i] != ps[j]
  {
    forall i, j | 0 <= i < j < |ps|
      ensures ps[i] != ps[j]
    {
      BeforeIrreflexive(ps[i]);
    }
  }

  /** The pre-order walk: `n` itself, then each child's walk in document order. */
  function Flatten(n: Node): seq<Node>
    decreases n, 1
  {
    [n] + FlattenFrom(n, 0)
  }

  function FlattenFrom(n: Node, i: nat): seq<Node>
    decreases n, 0, |n.children| - i
  {
    if i >= |n.children| then [] else Flatten(n.children[i]) + FlattenFrom(n, i + 1)
  }

  /** Prepends child index `i` to each position. */
  function Prefixed(i: nat, ps: seq<Path>): (r: seq<Path>)
    ensures |r| == |ps|
    ensures forall j :: 0 <= j < |ps| ==> r[j] == [i] + ps[j]
  {
    seq(|ps|, j requires 0 <= j < |ps| => [i] + ps[j])
  }

  /** The positions the pre-order walk visits, in the order it visits them. */
  function Positions(n: Node): seq<Path>
    decreases n, 1
  {
    [[]] + PositionsFrom(n, 0)
  }

  function PositionsFrom(n: Node, i: nat): seq<Path>
    decreases n, 0, |n.children| - i
  {
    if i >= |n.children| then [] else Prefixed(i, Positions(n.children[i])) + PositionsFrom(n, i + 1)
  }

  lemma ChildPath(n: Node, i: nat, p: Path)
    requires i < |n.children| && ValidPath(n.children[i], p)
    ensures ValidPath(n, [i] + p) && At(n, [i] + p) == At(n.children[i], p)
  {
    assert ([i] + p)[1..] == p;
  }

  /** The j-th node of the walk is the node at the j-th position of the walk. */
  lemma {:induction false} PositionsMatchFlatten(n: Node)
    ensures |Positions(n)| == |Flatten(n)|
    ensures forall j :: 0 <= j < |Positions(n)| ==>
      ValidPath(n, Positions(n)[j]) && At(n, Positions(n)[j]) == Flatten(n)[j]
    decreases n, 1
  {
    PositionsFromMatchFlattenFrom(n, 0);
  }

  lemma {:induction false} PositionsFromMatchFlattenFrom(n: Node, i: nat)
    ensures |PositionsFrom(n, i)| == |FlattenFrom(n, i)|
    ensures forall j :: 0 <= j < |PositionsFrom(n, i)| ==>
      ValidPath(n, PositionsFrom(n, i)[j]) && At(n, PositionsFrom(n, i)[j]) == FlattenFrom(n, i)[j]
    decreases n, 0, |n.children| - i
  {
    if i < |n.children| {
      var c := n.children[i];
      PositionsMatchFlatten(c);
      PositionsFromMatchFlattenFrom(n, i + 1);
      var head := Prefixed(i, Positions(c));
      forall j | 0 <= j < |head|
        ensures ValidPath(n, head[j]) && At(n, head[j]) == Flatten(c)[j]
      {
        ChildPath(n, i, Positions(c)[j]);
      }
    }
  }

  /** Every position in the tree is visited by the walk. */
  lemma {:induction false} PositionsComplete(n: Node, p: Path)
    requires ValidPath(n, p)
    ensures p in Positions(n)
    decreases p
  {
    if p != [] {
      PositionsComplete(n.children[p[0]], p[1..]);
      PositionsFromContains(n, 0, p[0], p[1..]);
      assert [p[0]] + p[1..] == p;
    }
  }

  lemma {:induction false} PositionsFromContains(n: Node, i: nat, k: nat, x: Path)
    requires i <= k < |n.children| && x in Positions(n.children[k])
    ensures [k] + x in PositionsFrom(n, i)
    decreases |n.children| - i
  {
    if i < k {
      PositionsFromContains(n, i + 1, k, x);
    } else {
      var j :| 0 <= j < |Positions(n.children[k])| && Positions(n.children[k])[j] == x;
      assert Prefixed(k, Positions(n.children[k]))[j] == [k] + x;
    }
  }

  lemma PrefixedBefore(i: nat, a: Path, b: Path)
    requires Before(a, b)
    ensures Before([i] + a, [i] + b)
  {
    assert ([i] + a)[1..] == a && ([i] + b)[1..] == b;
  }

  lemma IncreasingConcat(a: seq<Path>, b: seq<Path>)
    requires Increasing(a) && Increasing(b)
    requires forall x, y :: x in a && y in b ==> Before(x, y)
    ensures Increasing(a + b)
  {
    forall i, j | 0 <= i < j < |a + b|
      ensures Before((a + b)[i], (a + b)[j])
    {
      if j < |a| {
      } else if i >= |a| {
        assert (a + b)[i] == b[i - |a|] && (a + b)[j] == b[j - |a|];
      } else {
        assert (a + b)[i] in a && (a + b)[j] in b;
      }
    }
  }

  /** The walk visits positions in deep-first, left-right order, so never twice. */
  lemma {:induction false} PositionsIncreasing(n: Node)
    ensures Increasing(Positions(n))
    decreases n, 1
  {
    PositionsFromIncreasing(n, 0);
    var rest := PositionsFrom(n, 0);
    forall y | y in rest
      ensures Before([], y)
    {
    }
    IncreasingConcat([[]], rest);
  }

  lemma {:induction false} PositionsFromIncreasing(n: Node, i: nat)
    ensures Increasing(PositionsFrom(n, i))
    ensures forall x :: x in PositionsFrom(n, i) ==> x != [] && i <= x[0] < |n.children|
    decreases n, 0, |n.children| - i
  {
    if i < |n.children| {
      var c := n.children[i];
      PositionsIncreasing(c);
      PositionsFromIncreasing(n, i + 1);
      var head := Prefixed(i, Positions(c));
      var rest := PositionsFrom(n, i + 1);
      forall a, b | 0 <= a < b < |head|
        ensures Before(head[a], head[b])
      {
        PrefixedBefore(i, Positions(c)[a], Positions(c)[b]);
      }
      forall x, y | x in head && y in rest
        ensures Before(x, y)
      {
      }
      IncreasingConcat(head, rest);
    }
  }

  // ---------------------------------------------------------------------------
  // The search
  // ---------------------------------------------------------------------------

  /** All nodes matching `q`, by a deep-first, left-right search starting at `n`. */
  function GetAll(n: Node, q: Query): (r: seq<Node>)
    ensures forall j :: 0 <= j < |r| ==> q(r[j])
    ensures q(n) ==> r != [] && r[0] == n
    decreases n, 1
  {
    (if q(n) then [n] else []) + GetAllFrom(n, 0, q)
  }

  function GetAllFrom(n: Node, i: nat, q: Query): (r: seq<Node>)
    ensures forall j :: 0 <= j < |r| ==> q(r[j])
    decreases n, 0, |n.children| - i
  {
    if i >= |n.children| then [] else GetAll(n.children[i], q) + GetAllFrom(n, i + 1, q)
  }

  /** The search result is the walk filtered by the query. */
  lemma {:induction false} GetAllIsFilter(n: Node, q: Query)
    ensures GetAll(n, q) == Filter(Flatten(n), q)
    decreases n, 1
  {
    GetAllFromIsFilter(n, 0, q);
    FilterConcat([n], FlattenFrom(n, 0), q);
  }

  lemma {:induction false} GetAllFromIsFilter(n: Node, i: nat, q: Query)
    ensures GetAllFrom(n, i, q) == Filter(FlattenFrom(n, i), q)
    decreases n, 0, |n.children| - i
  {
    if i < |n.children| {
      GetAllIsFilter(n.children[i], q);
      GetAllFromIsFilter(n, i + 1, q);
      FilterConcat(Flatten(n.children[i]), FlattenFrom(n, i + 1), q);
    }
  }

  /** The positions below `n` holding a node that matches `q`. */
  function MatchesAt(n: Node, q: Query): Path -> bool {
    p => ValidPath(n, p) && q(At(n, p))
  }

  /** Filtering positions and filtering the nodes at them keep step. */
  lemma {:induction false} FilterAlongPositions(n: Node, ps: seq<Path>, ns: seq<Node>, q: Query)
    requires |ps| == |ns|
    requires forall j :: 0 <= j < |ps| ==> ValidPath(n, ps[j]) && At(n, ps[j]) == ns[j]
    ensures |Filter(ps, MatchesAt(n, q))| == |Filter(ns, q)|
    ensures forall j :: 0 <= j < |Filter(ns, q)| ==>
      ValidPath(n, Filter(ps, MatchesAt(n, q))[j]) && At(n, Filter(ps, MatchesAt(n, q))[j]) == Filter(ns, q)[j]
  {
    if ps != [] {
      var f := MatchesAt(n, q);
      FilterAlongPositions(n, ps[1..], ns[1..], q);
      var fp, fn := Filter(ps[1..], f), Filter(ns[1..], q);
      assert f(ps[0]) == q(ns[0]);
      if q(ns[0]) {
        assert Filter(ps, f) == [ps[0]] + fp;
        assert Filter(ns, q) == [ns[0]] + fn;
        forall j | 0 <= j < |Filter(ns, q)|
          ensures ValidPath(n, Filter(ps, f)[j]) && At(n, Filter(ps, f)[j]) == Filter(ns, q)[j]
        {
          if j > 0 {
            assert Filter(ps, f)[j] == fp[j - 1] && Filter(ns, q)[j] == fn[j - 1];
          }
        }
      } else {
        assert Filter(ps, f) == fp;
        assert Filter(ns, q) == fn;
      }
    }
  }

  /** Filtering keeps an increasing sequence of positions increasing. */
  lemma {:induction false} FilterIncreasing(ps: seq<Path>, f: Path -> bool)
    requires Increasing(ps)
    ensures Increasing(Filter(ps, f))
  {
    if ps != [] {
      FilterIncreasing(ps[1..], f);
      var rest := Filter(ps[1..], f);
      if f(ps[0]) {
        forall y | y in rest
          ensures Before(ps[0], y)
        {
          var j :| 0 <= j < |ps[1..]| && ps[1..][j] == y;
          assert ps[j + 1] == y;
        }
        IncreasingConcat([ps[0]], rest);
      }
    }
  }

  /** The positions of the nodes GetAll returns, in the order it returns them. */
  function MatchPositions(n: Node, q: Query): seq<Path> {
    Filter(Positions(n), MatchesAt(n, q))
  }

  /**
   * GetAll returns exactly the nodes matching `q`: its j-th result is the node
   * at the j-th matching position, the matching positions are all the
   * positions whose node matches, and they come in deep-first, left-right
   * order, so no node is returned twice and none is left out.
   */
  lemma GetAllExact(n: Node, q: Query)
    ensures |MatchPositions(n, q)| == |GetAll(n, q)|
    ensures forall j :: 0 <= j < |GetAll(n, q)| ==>
      ValidPath(n, MatchPositions(n, q)[j]) && At(n, MatchPositions(n, q)[j]) == GetAll(n, q)[j]
    ensures forall p :: p in MatchPositions(n, q) <==> ValidPath(n, p) && q(At(n, p))
    ensures Increasing(MatchPositions(n, q))
    ensures forall i, j :: 0 <= i < j < |GetAll(n, q)| ==> MatchPositions(n, q)[i] != MatchPositions(n, q)[j]
  {
    PositionsMatchFlatten(n);
    GetAllIsFilter(n, q);
    FilterAlongPositions(n, Positions(n), Flatten(n), q);
    PositionsIncreasing(n);
    FilterIncreasing(Positions(n), MatchesAt(n, q));
    IncreasingDistinct(MatchPositions(n, q));
    forall p | ValidPath(n, p) && q(At(n, p))
      ensures p in MatchPositions(n, q)
    {
      PositionsComplete(n, p);
      var j :| 0 <= j < |Positions(n)| && Positions(n)[j] == p;
      assert MatchesAt(n, q)(Positions(n)[j]);
    }
    forall p | p in MatchPositions(n, q)
      ensures ValidPath(n, p) && q(At(n, p))
    {
      var j :| 0 <= j < |MatchPositions(n, q)| && MatchPositions(n, q)[j] == p;
      assert MatchesAt(n, q)(MatchPositions(n, q)[j]);
    }
  }

  /** The first node matching `q`; the search stops at the first match. */
  function Get(n: Node, q: Query): (r: Option<Node>)
    ensures r.Some? ==> q(r.value)
    ensures q(n) ==> r == Some(n)
    decreases n, 1
  {
    if q(n) then Some(n) else GetFrom(n, 0, q)
  }

  function GetFrom(n: Node, i: nat, q: Query): (r: Option<Node>)
    ensures r.Some? ==> q(r.value)
    decreases n, 0, |n.children| - i
  {
    if i >= |n.children| then None
    else match Get(n.children[i], q)
      case Some(m) => Some(m)
      case None => GetFrom(n, i + 1, q)
  }

  /** Get returns the first result of GetAll, and nothing exactly when GetAll is empty. */
  lemma {:induction false} GetIsFirst(n: Node, q: Query)
    ensures Get(n, q).None? <==> GetAll(n, q) == []
    ensures Get(n, q).Some? ==> Get(n, q).value == GetAll(n, q)[0]
    decreases n, 1
  {
    GetFromIsFirst(n, 0, q);
  }

  lemma {:induction false} GetFromIsFirst(n: Node, i: nat, q: Query)
    ensures GetFrom(n, i, q).None? <==> GetAllFrom(n, i, q) == []
    ensures GetFrom(n, i, q).Some? ==> GetFrom(n, i, q).value == GetAllFrom(n, i, q)[0]
    decreases n, 0, |n.children| - i
  {
    if i < |n.children| {
      GetIsFirst(n.children[i], q);
      GetFromIsFirst(n, i + 1, q);
    }
  }

  /** The first `k` matches at most, by a search that stops once it has them. */
  function Take(n: Node, q: Query, k: nat): (r: seq<Node>)
    ensures |r| <= k
    decreases n, 1
  {
    if k == 0 then []
    else if q(n) then [n] + TakeFrom(n, 0, q, k - 1)
    else TakeFrom(n, 0, q, k)
  }

  function TakeFrom(n: Node, i: nat, q: Query, k: nat): (r: seq<Node>)
    ensures |r| <= k
    decreases n, 0, |n.children| - i
  {
    if k == 0 || i >= |n.children| then []
    else
      var found := Take(n.children[i], q, k);
      found + TakeFrom(n, i + 1, q, k - |found|)
  }

  /** The early-stopping search finds the first `k` results of GetAll. */
  lemma {:induction false} TakeIsPrefix(n: Node, q: Query, k: nat)
    ensures Take(n, q, k) == Truncate(GetAll(n, q), k)
    decreases n, 1
  {
    if k > 0 {
      if q(n) {
        TakeFromIsPrefix(n, 0, q, k - 1);
        TruncateConcat([n], GetAllFrom(n, 0, q), k);
      } else {
        TakeFromIsPrefix(n, 0, q, k);
        assert GetAll(n, q) == GetAllFrom(n, 0, q);
      }
    }
  }

  lemma {:induction false} TakeFromIsPrefix(n: Node, i: nat, q: Query, k: nat)
    ensures TakeFrom(n, i, q, k) == Truncate(GetAllFrom(n, i, q), k)
    decreases n, 0, |n.children| - i
  {
    if k > 0 && i < |n.children| {
      var c := n.children[i];
      TakeIsPrefix(c, q, k);
      TakeFromIsPrefix(n, i + 1, q, k - |Take(c, q, k)|);
      TruncateConcat(GetAll(c, q), GetAllFrom(n, i + 1, q), k);
    }
  }

  /**
   * The only node matching `q`: None when nothing matches, an
   * AmbiguousMatch error when several do. The search stops at the second match.
   */
  function Find(n: Node, q: Query): (r: Result<Option<Node>, Error>)
    ensures GetAll(n, q) == [] <==> r == Ok(None)
    ensures |GetAll(n, q)| == 1 ==> r == Ok(Some(GetAll(n, q)[0]))
    ensures r.Ok? && r.value.Some? ==> |GetAll(n, q)| == 1
    ensures |GetAll(n, q)| >= 2 <==> r == Err(AmbiguousMatch)
  {
    TakeIsPrefix(n, q, 2);
    var firstTwo := Take(n, q, 2);
    if |firstTwo| == 0 then Ok(None)
    else if |firstTwo| == 1 then Ok(Some(firstTwo[0]))
    else Err(AmbiguousMatch)
  }

  /** All nodes matching `q`, as a possibly empty sequence (never an error). */
  function FindAll(n: Node, q: Query): (r: seq<Node>)
    ensures r == Filter(Flatten(n), q)
  {
    GetAllIsFilter(n, q);
    GetAll(n, q)
  }

  /** The parent of the node at `p`: none for the root, else the node of the tree at the parent position, which lists it among its children. */
  function GetParent(root: Node, p: Path): (r: Option<Node>)
    requires ValidPath(root, p)
    ensures r.None? <==> p == []
    ensures r.Some? ==> ValidPath(root, p[..|p| - 1]) && r.value == At(root, p[..|p| - 1])
    ensures r.Some? ==> p[|p| - 1] < |r.value.children| && r.value.children[p[|p| - 1]] == At(root, p)
  {
    if p == [] then None
    else
      assert p == p[..|p| - 1] + [p[|p| - 1]];
      LastStep(root, p[..|p| - 1], p[|p| - 1]);
      Some(At(root, p[..|p| - 1]))
  }

  /** A position one step longer is a child of the shorter one. */
  lemma {:induction false} LastStep(n: Node, p: Path, i: nat)
    requires ValidPath(n, p + [i])
    ensures ValidPath(n, p) && i < |At(n, p).children| && At(n, p + [i]) == At(n, p).children[i]
    decreases p
  {
    if p != [] {
      assert (p + [i])[1..] == p[1..] + [i];
      LastStep(n.children[p[0]], p[1..], i);
    }
  }
}
