/** The graph's adjacency matrix and what is defined over it: the levels of
    a breadth-first search from a start node, the nodes reachable within k
    steps, and the edge listing printed by printEdges.  Nodes are matrix
    indices 0 .. MAX_NODES-1, one less than their node ids. */
module Adjacency {
  import opened Common

  const MAX_NODES: nat := 180

  /** adj_matrix: entry [u, v] holds the id of the edge from u+1 to v+1. */
  type Matrix = array2<Option<Uint32>>

  predicate Square(m: Matrix) {
    m.Length0 == MAX_NODES && m.Length1 == MAX_NODES
  }

  /** Every element is a matrix index. */
  predicate Nodes(s: seq<nat>) {
    forall k :: 0 <= k < |s| ==> s[k] < MAX_NODES
  }

  function Elems(s: seq<nat>): set<nat> {
    set x | x in s
  }

  // ---------------------------------------------------------------- reachability

  /** Some node of S has an edge to v. */
  ghost predicate StepFrom(m: Matrix, S: set<nat>, v: nat)
    requires Square(m) && v < MAX_NODES
    reads m
  {
    exists u :: 0 <= u < MAX_NODES && u in S && m[u, v].Some?
  }

  /** The nodes one step from some node of S. */
  ghost function Succ(m: Matrix, S: set<nat>): set<nat>
    requires Square(m)
    reads m
  {
    set v | 0 <= v < MAX_NODES && StepFrom(m, S, v)
  }

  /** The nodes reachable from s in at most k steps. */
  ghost function Within(m: Matrix, s: nat, k: nat): set<nat>
    requires Square(m)
    reads m
  {
    if k == 0 then {s} else Within(m, s, k - 1) + Succ(m, Within(m, s, k - 1))
  }

  /** A path along set matrix entries. */
  ghost predicate IsWalk(m: Matrix, w: seq<nat>)
    requires Square(m)
    reads m
  {
    w != [] && Nodes(w) && forall i :: 0 <= i < |w| - 1 ==> m[w[i], w[i + 1]].Some?
  }

  /** v is reachable from s by a walk of at most k steps exactly when it is
      in Within(m, s, k). */
  lemma WithinIsWalk(m: Matrix, s: nat, k: nat, v: nat)
    requires Square(m) && s < MAX_NODES
    ensures v in Within(m, s, k) <==>
      exists w :: IsWalk(m, w) && w[0] == s && w[|w| - 1] == v && |w| <= k + 1
  {
    if v in Within(m, s, k) {
      WithinHasWalk(m, s, k, v);
    }
    if exists w :: IsWalk(m, w) && w[0] == s && w[|w| - 1] == v && |w| <= k + 1 {
      var w :| IsWalk(m, w) && w[0] == s && w[|w| - 1] == v && |w| <= k + 1;
      WalkIsWithin(m, s, k, w);
    }
  }

  lemma {:induction false} WithinHasWalk(m: Matrix, s: nat, k: nat, v: nat)
    requires Square(m) && s < MAX_NODES && v in Within(m, s, k)
    ensures exists w :: IsWalk(m, w) && w[0] == s && w[|w| - 1] == v && |w| <= k + 1
  {
    if k == 0 {
      assert IsWalk(m, [s]);
    } else if v in Within(m, s, k - 1) {
      WithinHasWalk(m, s, k - 1, v);
    } else {
      var u :| 0 <= u < MAX_NODES && u in Within(m, s, k - 1) && m[u, v].Some?;
      WithinHasWalk(m, s, k - 1, u);
      var w :| IsWalk(m, w) && w[0] == s && w[|w| - 1] == u && |w| <= k;
      WalkExtends(m, w, v);
      assert (w + [v])[0] == s && (w + [v])[|w + [v]| - 1] == v;
    }
  }

  lemma {:induction false} WalkIsWithin(m: Matrix, s: nat, k: nat, w: seq<nat>)
    requires Square(m) && IsWalk(m, w) && w[0] == s && |w| <= k + 1
    ensures w[|w| - 1] in Within(m, s, k)
  {
    if k > 0 {
      if |w| <= k {
        WalkIsWithin(m, s, k - 1, w);
      } else {
        var w0 := w[..|w| - 1];
        WalkShrinks(m, w);
        WalkIsWithin(m, s, k - 1, w0);
        assert StepFrom(m, Within(m, s, k - 1), w[|w| - 1]);
      }
    }
  }

  /** A walk followed by an edge from its last node is a walk. */
  lemma WalkExtends(m: Matrix, w: seq<nat>, v: nat)
    requires Square(m) && IsWalk(m, w) && v < MAX_NODES && m[w[|w| - 1], v].Some?
    ensures IsWalk(m, w + [v])
  {
    var w' := w + [v];
    forall i | 0 <= i < |w'| - 1 ensures m[w'[i], w'[i + 1]].Some? {
      if i < |w| - 1 {
        assert w'[i] == w[i] && w'[i + 1] == w[i + 1];
      }
    }
  }

  /** A walk of two or more nodes is a walk, one edge longer, of its prefix. */
  lemma WalkShrinks(m: Matrix, w: seq<nat>)
    requires Square(m) && IsWalk(m, w) && |w| >= 2
    ensures IsWalk(m, w[..|w| - 1]) && w[..|w| - 1][0] == w[0]
    ensures m[w[|w| - 2], w[|w| - 1]].Some?
  {
  }

  lemma WithinGrows(m: Matrix, s: nat, k: nat)
    requires Square(m)
    ensures k > 0 ==> Within(m, s, k - 1) <= Within(m, s, k)
  {
  }

  // ---------------------------------------------------------------- BFS levels

  /** The neighbours v < n of u that are not in seen, in ascending order:
      the inner loop of findNthDegreeConnections over one node. */
  function ScanBelow(m: Matrix, u: nat, seen: set<nat>, n: nat): (r: seq<nat>)
    requires Square(m) && u < MAX_NODES && n <= MAX_NODES
    reads m
    ensures forall k :: 0 <= k < |r| ==> r[k] < n
  {
    if n == 0 then []
    else ScanBelow(m, u, seen, n - 1) + (if m[u, n - 1].Some? && n - 1 !in seen then [n - 1] else [])
  }

  /** The nodes discovered while the nodes of `level` are expanded in turn,
      in the order they are queued. */
  function NextLevel(m: Matrix, level: seq<nat>, seen: set<nat>): (r: seq<nat>)
    requires Square(m) && Nodes(level)
    reads m
    ensures Nodes(r)
    decreases |level|
  {
    if level == [] then []
    else
      var p := NextLevel(m, level[..|level| - 1], seen);
      p + ScanBelow(m, level[|level| - 1], seen + Elems(p), m.Length1)
  }

  /** The nodes queued with degree k, in queue order. */
  function Level(m: Matrix, s: nat, k: nat): (r: seq<nat>)
    requires Square(m) && s < MAX_NODES
    reads m
    ensures Nodes(r)
    decreases k, 0
  {
    if k == 0 then [s] else NextLevel(m, Level(m, s, k - 1), Seen(m, s, k - 1))
  }

  /** The nodes marked visited once every node of degree below k is expanded. */
  function Seen(m: Matrix, s: nat, k: nat): set<nat>
    requires Square(m) && s < MAX_NODES
    reads m
    decreases k, 1
  {
    if k == 0 then {s} else Seen(m, s, k - 1) + Elems(Level(m, s, k))
  }

  /** The nodes queued with degree k+1 once the first i nodes of degree k
      are expanded. */
  function Pending(m: Matrix, s: nat, k: nat, i: nat): (r: seq<nat>)
    requires Square(m) && s < MAX_NODES && i <= |Level(m, s, k)|
    reads m
    ensures Nodes(r)
  {
    NextLevel(m, Level(m, s, k)[..i], Seen(m, s, k))
  }

  /** Expanding node i of level k queues its unseen neighbours. */
  lemma PendingStep(m: Matrix, s: nat, k: nat, i: nat)
    requires Square(m) && s < MAX_NODES && i < |Level(m, s, k)|
    ensures Pending(m, s, k, i + 1) ==
      Pending(m, s, k, i) + ScanBelow(m, Level(m, s, k)[i], Seen(m, s, k) + Elems(Pending(m, s, k, i)), m.Length1)
  {
    var L := Level(m, s, k);
    assert L[..i + 1][..i] == L[..i];
  }

  /** Once level k is expanded, what is queued is level k+1, and nothing of
      level k+2 is. */
  lemma PendingDone(m: Matrix, s: nat, k: nat)
    requires Square(m) && s < MAX_NODES
    ensures Pending(m, s, k, |Level(m, s, k)|) == Level(m, s, k + 1)
    ensures Seen(m, s, k + 1) == Seen(m, s, k) + Elems(Pending(m, s, k, |Level(m, s, k)|))
    ensures Pending(m, s, k + 1, 0) == []
  {
    var L := Level(m, s, k);
    assert L[..|L|] == L;
  }

  lemma ElemsConcat(a: seq<nat>, b: seq<nat>)
    ensures Elems(a + b) == Elems(a) + Elems(b)
  {
    forall x | x in Elems(a + b) ensures x in Elems(a) || x in Elems(b) {
      var i :| 0 <= i < |a + b| && (a + b)[i] == x;
      if i >= |a| { assert b[i - |a|] == x; }
    }
    forall x | x in Elems(b) ensures x in Elems(a + b) {
      var i :| 0 <= i < |b| && b[i] == x;
      assert (a + b)[|a| + i] == x;
    }
  }

  lemma DistinctConcat(a: seq<nat>, b: seq<nat>)
    requires Distinct(a) && Distinct(b) && Elems(a) !! Elems(b)
    ensures Distinct(a + b)
  {
    forall i, j | 0 <= i < |a| && 0 <= j < |b| ensures a[i] != b[j] {
      assert a[i] in Elems(a) && b[j] in Elems(b);
    }
    DistinctAppend(a, b);
  }

  /** The scan holds each unseen neighbour below n once, in ascending order. */
  lemma {:induction false} ScanFacts(m: Matrix, u: nat, seen: set<nat>, n: nat)
    requires Square(m) && u < MAX_NODES && n <= MAX_NODES
    ensures Elems(ScanBelow(m, u, seen, n)) == set v | 0 <= v < n && m[u, v].Some? && v !in seen
    ensures Distinct(ScanBelow(m, u, seen, n))
  {
    if n > 0 {
      var p := ScanBelow(m, u, seen, n - 1);
      var e := if m[u, n - 1].Some? && n - 1 !in seen then [n - 1] else [];
      ScanFacts(m, u, seen, n - 1);
      ElemsConcat(p, e);
      DistinctConcat(p, e);
    }
  }

  /** The next level holds, once each, the unseen successors of the level. */
  lemma {:induction false} NextLevelFacts(m: Matrix, level: seq<nat>, seen: set<nat>)
    requires Square(m) && Nodes(level)
    ensures Elems(NextLevel(m, level, seen)) == Succ(m, Elems(level)) - seen
    ensures Distinct(NextLevel(m, level, seen))
    decreases |level|
  {
    if level == [] {
      assert Succ(m, Elems(level)) == {};
    } else {
      var init := level[..|level| - 1];
      var u := level[|level| - 1];
      var p := NextLevel(m, init, seen);
      var q := ScanBelow(m, u, seen + Elems(p), m.Length1);
      NextLevelFacts(m, init, seen);
      ScanFacts(m, u, seen + Elems(p), m.Length1);
      DistinctConcat(p, q);
      var N := set v | 0 <= v < MAX_NODES && m[u, v].Some?;
      assert Elems(q) == N - (seen + Elems(p));
      assert level == init + [u];
      ElemsConcat(init, [u]);
      assert Elems([u]) == {u};
      SuccUnion(m, Elems(init), u);
      ElemsConcat(p, q);
      NewAfter(Succ(m, Elems(init)), N, seen);
    }
  }

  /** What one more expansion adds to the nodes found so far. */
  lemma NewAfter(A: set<nat>, B: set<nat>, seen: set<nat>)
    ensures (A - seen) + (B - (seen + (A - seen))) == (A + B) - seen
  {
  }

  lemma SuccUnion(m: Matrix, S: set<nat>, u: nat)
    requires Square(m) && u < MAX_NODES
    ensures Succ(m, S + {u}) == Succ(m, S) + (set v | 0 <= v < MAX_NODES && m[u, v].Some?)
  {
  }

  lemma SuccMonotone(m: Matrix, S: set<nat>, T: set<nat>)
    requires Square(m)
    ensures Succ(m, S + T) == Succ(m, S) + Succ(m, T)
  {
  }

  lemma SuccSubset(m: Matrix, S: set<nat>, T: set<nat>)
    requires Square(m) && S <= T
    ensures Succ(m, S) <= Succ(m, T)
  {
    forall v | v in Succ(m, S) ensures v in Succ(m, T) {
      var u :| 0 <= u < MAX_NODES && u in S && m[u, v].Some?;
      assert u in T;
    }
  }

  /** Every level is duplicate-free and new, and the visited set after k
      levels is exactly the set of nodes within k steps of s. */
  lemma LevelFacts(m: Matrix, s: nat, k: nat)
    requires Square(m) && s < MAX_NODES
    ensures Distinct(Level(m, s, k))
    ensures k > 0 ==> Elems(Level(m, s, k)) !! Seen(m, s, k - 1)
    ensures Seen(m, s, k) == Within(m, s, k)
  {
    LevelInduction(m, s, k);
  }

  /** LevelFacts, with what the induction needs besides. */
  lemma {:induction false} LevelInduction(m: Matrix, s: nat, k: nat)
    requires Square(m) && s < MAX_NODES
    ensures Distinct(Level(m, s, k))
    ensures k > 0 ==> Elems(Level(m, s, k)) !! Seen(m, s, k - 1)
    ensures Seen(m, s, k) == Within(m, s, k)
    ensures Elems(Level(m, s, k)) <= Seen(m, s, k)
    ensures Succ(m, Seen(m, s, k)) <= Seen(m, s, k + 1)
  {
    if k == 0 {
      LevelZero(m, s);
    } else {
      var j := k - 1;
      LevelInduction(m, s, j);
      assert Seen(m, s, j + 1) == Seen(m, s, k);
      LevelStep(m, s, k);
    }
    NextSeen(m, s, k);
  }

  lemma LevelZero(m: Matrix, s: nat)
    requires Square(m) && s < MAX_NODES
    ensures Distinct(Level(m, s, 0)) && Seen(m, s, 0) == Within(m, s, 0)
    ensures Elems(Level(m, s, 0)) == Seen(m, s, 0)
  {
    assert Elems([s]) == {s};
  }

  /** One more level: what the visited set gains. */
  lemma LevelStep(m: Matrix, s: nat, k: nat)
    requires Square(m) && s < MAX_NODES && k > 0
    requires Seen(m, s, k - 1) == Within(m, s, k - 1)
    requires Elems(Level(m, s, k - 1)) <= Seen(m, s, k - 1)
    requires Succ(m, Seen(m, s, k - 1)) <= Seen(m, s, k)
    ensures Distinct(Level(m, s, k)) && Elems(Level(m, s, k)) !! Seen(m, s, k - 1)
    ensures Seen(m, s, k) == Within(m, s, k)
    ensures Elems(Level(m, s, k)) <= Seen(m, s, k)
  {
    var P := Seen(m, s, k - 1);
    var L0 := Level(m, s, k - 1);
    var L := Level(m, s, k);
    assert L == NextLevel(m, L0, P);
    NextLevelFacts(m, L0, P);
    assert Seen(m, s, k) == P + Elems(L);
    SuccSubset(m, Elems(L0), P);
    assert Within(m, s, k) == P + Succ(m, P);
  }

  /** The visited set after level k+1 takes in every successor of the
      visited set after level k. */
  lemma NextSeen(m: Matrix, s: nat, k: nat)
    requires Square(m) && s < MAX_NODES
    requires k > 0 ==> Succ(m, Seen(m, s, k - 1)) <= Seen(m, s, k)
    requires k > 0 ==> Seen(m, s, k) == Seen(m, s, k - 1) + Elems(Level(m, s, k))
    requires k == 0 ==> Seen(m, s, k) == Elems(Level(m, s, k))
    ensures Succ(m, Seen(m, s, k)) <= Seen(m, s, k + 1)
  {
    var S := Seen(m, s, k);
    var L := Level(m, s, k);
    var N := Level(m, s, k + 1);
    assert N == NextLevel(m, L, S);
    assert Seen(m, s, k + 1) == S + Elems(N);
    NextLevelFacts(m, L, S);
    if k > 0 {
      SuccMonotone(m, Seen(m, s, k - 1), Elems(L));
    }
  }

  /** Level k holds exactly the nodes at shortest distance k from s. */
  lemma LevelIsDistance(m: Matrix, s: nat, k: nat)
    requires Square(m) && s < MAX_NODES
    ensures Distinct(Level(m, s, k))
    ensures k == 0 ==> Elems(Level(m, s, k)) == {s}
    ensures k > 0 ==> Elems(Level(m, s, k)) == Within(m, s, k) - Within(m, s, k - 1)
  {
    LevelFacts(m, s, k);
    if k == 0 {
      assert Elems([s]) == {s};
    } else {
      var j := k - 1;
      LevelFacts(m, s, j);
      var L := Elems(Level(m, s, k));
      assert Seen(m, s, k) == Seen(m, s, j) + L;
      assert L !! Seen(m, s, j);
      assert L == Seen(m, s, k) - Seen(m, s, j);
    }
  }

  /** Once a level is empty, every later level is. */
  lemma {:induction false} EmptyLevelStays(m: Matrix, s: nat, k: nat, k': nat)
    requires Square(m) && s < MAX_NODES && k <= k' && Level(m, s, k) == []
    ensures Level(m, s, k') == []
    decreases k' - k
  {
    if k < k' {
      assert Level(m, s, k + 1) == [];
      EmptyLevelStays(m, s, k + 1, k');
    }
  }

  // ---------------------------------------------------------------- printEdges

  /** A line of printEdges: "Edge: source -> target", plus " (Undirected)". */
  datatype EdgeLine = EdgeLine(source: nat, target: nat, undirected: bool)

  /** The key printEdges de-duplicates on: the pair in ascending order. */
  function Canon(i: nat, j: nat): (nat, nat) {
    if i < j then (i, j) else (j, i)
  }

  /** Cell (a, b) comes before cell (i, j) in the row-major scan. */
  predicate Before(a: nat, b: nat, i: nat, j: nat) {
    a < i || (a == i && b < j)
  }

  /** A set cell is printed unless its mirror image was met, and printed,
      earlier in the scan -- which happens exactly when the mirror lies in an
      earlier row. */
  predicate Reported(m: Matrix, i: nat, j: nat)
    requires Square(m) && i < MAX_NODES && j < MAX_NODES
    reads m
  {
    m[i, j].Some? && !(j < i && m[j, i].Some?)
  }

  function LineOf(m: Matrix, i: nat, j: nat): EdgeLine
    requires Square(m) && i < MAX_NODES && j < MAX_NODES
    reads m
  {
    EdgeLine(i + 1, j + 1, m[j, i].Some?)
  }

  /** The lines printed for the cells of row i before column j. */
  function RowLines(m: Matrix, i: nat, j: nat): seq<EdgeLine>
    requires Square(m) && i < MAX_NODES && j <= MAX_NODES
    reads m
  {
    if j == 0 then []
    else RowLines(m, i, j - 1) + (if Reported(m, i, j - 1) then [LineOf(m, i, j - 1)] else [])
  }

  /** The lines printed for the rows before row i. */
  function RowsBelow(m: Matrix, i: nat): seq<EdgeLine>
    requires Square(m) && i <= MAX_NODES
    reads m
  {
    if i == 0 then [] else RowsBelow(m, i - 1) + RowLines(m, i - 1, m.Length1)
  }

  /** Everything printEdges prints. */
  function EdgeListing(m: Matrix): seq<EdgeLine>
    requires Square(m)
    reads m
  {
    RowsBelow(m, m.Length0)
  }

  /** A line is printed for row i before column j exactly when it is the
      line of a reported cell of that stretch of the row. */
  lemma {:induction false} RowLinesHas(m: Matrix, i: nat, j: nat, l: EdgeLine)
    requires Square(m) && i < MAX_NODES && j <= MAX_NODES
    ensures l in RowLines(m, i, j) <==>
      l.source == i + 1 && 1 <= l.target <= j && Reported(m, i, l.target - 1) && l == LineOf(m, i, l.target - 1)
  {
    if j > 0 {
      RowLinesHas(m, i, j - 1, l);
    }
  }

  lemma {:induction false} RowLinesDistinct(m: Matrix, i: nat, j: nat)
    requires Square(m) && i < MAX_NODES && j <= MAX_NODES
    ensures Distinct(RowLines(m, i, j))
  {
    if j > 0 {
      RowLinesDistinct(m, i, j - 1);
      var p := RowLines(m, i, j - 1);
      var e := if Reported(m, i, j - 1) then [LineOf(m, i, j - 1)] else [];
      forall a, b | 0 <= a < |p| && 0 <= b < |e| ensures p[a] != e[b] {
        RowLinesHas(m, i, j - 1, p[a]);
      }
      DistinctAppend(p, e);
    }
  }

  /** A line is printed for the rows before row i exactly when it is the
      line of a reported cell of those rows. */
  lemma {:induction false} RowsBelowHas(m: Matrix, i: nat, l: EdgeLine)
    requires Square(m) && i <= MAX_NODES
    ensures l in RowsBelow(m, i) <==>
      1 <= l.source <= i && 1 <= l.target <= MAX_NODES &&
      Reported(m, l.source - 1, l.target - 1) && l == LineOf(m, l.source - 1, l.target - 1)
  {
    if i > 0 {
      RowsBelowHas(m, i - 1, l);
      RowLinesHas(m, i - 1, m.Length1, l);
    }
  }

  lemma {:induction false} RowsBelowDistinct(m: Matrix, i: nat)
    requires Square(m) && i <= MAX_NODES
    ensures Distinct(RowsBelow(m, i))
  {
    if i > 0 {
      RowsBelowDistinct(m, i - 1);
      RowLinesDistinct(m, i - 1, m.Length1);
      var p := RowsBelow(m, i - 1);
      var e := RowLines(m, i - 1, m.Length1);
      forall a, b | 0 <= a < |p| && 0 <= b < |e| ensures p[a] != e[b] {
        RowsBelowHas(m, i - 1, p[a]);
        RowLinesHas(m, i - 1, m.Length1, e[b]);
      }
      DistinctAppend(p, e);
    }
  }

  /** What printEdges prints: one line per set cell whose mirror is not set
      in an earlier row; every line names a set cell, and says
      "(Undirected)" exactly when the mirror cell is set too. */
  lemma ListingLines(m: Matrix, l: EdgeLine)
    requires Square(m)
    ensures l in EdgeListing(m) <==>
      1 <= l.source <= MAX_NODES && 1 <= l.target <= MAX_NODES &&
      Reported(m, l.source - 1, l.target - 1) && l == LineOf(m, l.source - 1, l.target - 1)
    ensures l in EdgeListing(m) ==>
      m[l.source - 1, l.target - 1].Some? && (l.undirected <==> m[l.target - 1, l.source - 1].Some?)
  {
    RowsBelowHas(m, m.Length0, l);
  }

  /** Every set cell has its pair of nodes printed, under one of the two
      orders. */
  lemma ListingCovers(m: Matrix, i: nat, j: nat)
    requires Square(m) && i < MAX_NODES && j < MAX_NODES && m[i, j].Some?
    ensures LineOf(m, i, j) in EdgeListing(m) || LineOf(m, j, i) in EdgeListing(m)
  {
    ListingLines(m, LineOf(m, i, j));
    ListingLines(m, LineOf(m, j, i));
  }

  /** No pair of nodes is printed twice, in either order. */
  lemma ListingOnce(m: Matrix, x: nat, y: nat)
    requires Square(m) && x < y < |EdgeListing(m)|
    ensures Canon(EdgeListing(m)[x].source, EdgeListing(m)[x].target) !=
            Canon(EdgeListing(m)[y].source, EdgeListing(m)[y].target)
  {
    var L := EdgeListing(m);
    RowsBelowDistinct(m, m.Length0);
    ListingLines(m, L[x]);
    ListingLines(m, L[y]);
  }
  /** The keys printEdges has marked processed after the cells of row i
      before column j: the key of every set cell (its first sight inserts
      it, later sights leave the set as it is). */
  function RowKeys(m: Matrix, i: nat, j: nat): set<(nat, nat)>
    requires Square(m) && i < MAX_NODES && j <= MAX_NODES
    reads m
  {
    if j == 0 then {}
    else RowKeys(m, i, j - 1) + (if m[i, j - 1].Some? then {Canon(i, j - 1)} else {})
  }

  /** The keys marked after the rows before row i. */
  function KeysBelow(m: Matrix, i: nat): set<(nat, nat)>
    requires Square(m) && i <= MAX_NODES
    reads m
  {
    if i == 0 then {} else KeysBelow(m, i - 1) + RowKeys(m, i - 1, m.Length1)
  }

  /** Key (x, y), x <= y, is marked in row a before column j exactly when
      (x, y) or (y, x) is a set cell of that stretch. */
  lemma {:induction false} RowKeysHas(m: Matrix, a: nat, j: nat, x: nat, y: nat)
    requires Square(m) && a < MAX_NODES && j <= MAX_NODES && x <= y < MAX_NODES
    ensures (x, y) in RowKeys(m, a, j) <==>
      (a == x && x < y && y < j && m[x, y].Some?) || (a == y && x < j && m[y, x].Some?)
  {
    if j > 0 {
      RowKeysHas(m, a, j - 1, x, y);
    }
  }

  /** Key (x, y), x <= y, is marked after the rows before row i exactly
      when (x, y) or (y, x) is a set cell of those rows. */
  lemma {:induction false} KeysBelowHas(m: Matrix, i: nat, x: nat, y: nat)
    requires Square(m) && i <= MAX_NODES && x <= y < MAX_NODES
    ensures (x, y) in KeysBelow(m, i) <==>
      (x < i && x < y && m[x, y].Some?) || (y < i && m[y, x].Some?)
  {
    if i > 0 {
      KeysBelowHas(m, i - 1, x, y);
      RowKeysHas(m, i - 1, m.Length1, x, y);
    }
  }

  /** At a set cell (i, j) of the scan, its key is already marked exactly
      when the cell is not reported: its mirror is a set cell of an
      earlier row. */
  lemma MarkedUnlessReported(m: Matrix, i: nat, j: nat)
    requires Square(m) && i < MAX_NODES && j < MAX_NODES && m[i, j].Some?
    ensures Canon(i, j) in KeysBelow(m, i) + RowKeys(m, i, j) <==> !Reported(m, i, j)
  {
    var c := Canon(i, j);
    KeysBelowHas(m, i, c.0, c.1);
    RowKeysHas(m, i, j, c.0, c.1);
  }
}
