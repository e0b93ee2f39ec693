/** The graph manager: node and edge records kept in pages of the buffer
    manager, an adjacency matrix of edge ids, and the two queries.

    A page's content is what a reader of it sees through the buffer manager
    (Buffer.Content); fix_page and flushPage leave that content unchanged
    (Buffer.FixReadsContent, Buffer.FlushWrites), so the manager's pages are
    kept here as a sequence of records indexed by page id, one per page of
    the file.  A page that was never written as a record of the kind being
    read reads as an empty record with id 0. */
module Graph {
  import opened Common
  import opened Property
  import opened Adjacency
  import Storage
  import Buffer

  /** The number of pages in the file: pages 0 .. MAX_PAGES. */
  const PAGE_COUNT: nat := Storage.MAX_PAGES + 1

  /** Edge ids start after the last node id. */
  const FIRST_EDGE_ID: nat := MAX_NODES + 1

  datatype PageContent =
    | Unwritten
    | NodePage(node: SNode)
    | EdgePage(edge: SEdge)

  /** A page taken as an SNode. */
  function AsNode(p: PageContent): SNode {
    if p.NodePage? then p.node else SNode(0, [])
  }

  /** A page taken as an SEdge. */
  function AsEdge(p: PageContent): SEdge {
    if p.EdgePage? then p.edge else SEdge(0, 0, 0, [])
  }

  /** A stored record holds at most MAX_PROPERTY_COUNT properties. */
  predicate RecordOk(p: PageContent) {
    match p
    case Unwritten => true
    case NodePage(n) => |n.entries| <= MAX_PROPERTY_COUNT
    case EdgePage(e) => |e.entries| <= MAX_PROPERTY_COUNT
  }

  /** The properties a fresh record holds after the creation loop: all of
      them, or the first MAX_PROPERTY_COUNT when there are more (the next
      addProperty throws). */
  function Capped(props: Entries): (r: Entries)
    ensures |r| <= MAX_PROPERTY_COUNT
    ensures |props| <= MAX_PROPERTY_COUNT ==> r == props
    ensures |props| > MAX_PROPERTY_COUNT ==> r == props[..MAX_PROPERTY_COUNT]
  {
    if |props| <= MAX_PROPERTY_COUNT then props else props[..MAX_PROPERTY_COUNT]
  }

  /** The creation loop: the properties added one at a time with
      addProperty, stopping at the first overflow.  `ok` says whether all
      of them were added. */
  method AddAll(props: Entries) returns (e: Entries, ok: bool)
    ensures ok <==> |props| <= MAX_PROPERTY_COUNT
    ensures e == Capped(props)
  {
    e := [];
    var i: nat := 0;
    while i < |props|
      invariant 0 <= i <= |props| && i <= MAX_PROPERTY_COUNT
      invariant e == props[..i]
    {
      var r := AddEntry(e, props[i].0, props[i].1);
      if r.Err? {
        return e, false;
      }
      e := r.value;
      assert props[..i + 1] == props[..i] + [props[i]];
      i := i + 1;
    }
    assert props[..|props|] == props;
    ok := true;
  }

  // ---------------------------------------------------------------- createEdge's guard

  /** The guard of createEdge as written: only ids above MAX_NODES are
      refused. */
  predicate EdgeEndsAsWritten(source: Uint32, target: Uint32) {
    !(source > MAX_NODES || target > MAX_NODES)
  }

  /** The guard that keeps createEdge's matrix indices in range. */
  predicate EdgeEndsOk(source: Uint32, target: Uint32) {
    1 <= source <= MAX_NODES && 1 <= target <= MAX_NODES
  }

  /** The row createEdge writes: `source - 1`, computed in uint32_t. */
  function RowIndex(source: Uint32): nat {
    (source - 1) % UINT32_LIMIT
  }

  /** As written, node id 0 passes the guard, and the row it gives,
      0 - 1 wrapped to 32 bits, lies far outside the matrix. */
  lemma GuardAdmitsZero()
    ensures EdgeEndsAsWritten(0, 1)
    ensures RowIndex(0) == 0xFFFF_FFFF && RowIndex(0) >= MAX_NODES
  {
  }

  /** The corrected guard admits exactly the ids whose rows are in the
      matrix, and refuses everything the guard as written refuses. */
  lemma GuardKeepsInRange(source: Uint32, target: Uint32)
    ensures EdgeEndsOk(source, target) <==> RowIndex(source) < MAX_NODES && RowIndex(target) < MAX_NODES
    ensures EdgeEndsOk(source, target) ==> EdgeEndsAsWritten(source, target)
    ensures EdgeEndsOk(source, target) ==> RowIndex(source) == source - 1 && RowIndex(target) == target - 1
  {
  }

  // ---------------------------------------------------------------- findNthDegreeConnections

  /** The "type" property of node page v, after convert(), equals the
      string "user". */
  predicate IsUser(pages: seq<PageContent>, v: nat)
    requires v < |pages|
  {
    var t := GetProperty(NodeOf(AsNode(pages[v])).bag, "type");
    t.Some? && Equal(t.value, StringValue("user"))
  }

  /** The ids (index + 1) of the nodes of `level` that are users, in order. */
  function UsersIn(pages: seq<PageContent>, level: seq<nat>): (r: seq<nat>)
    requires Nodes(level) && |pages| == PAGE_COUNT
    decreases |level|
  {
    if level == [] then []
    else
      var v := level[|level| - 1];
      UsersIn(pages, level[..|level| - 1]) + (if IsUser(pages, v + 1) then [v + 1] else [])
  }

  /** Queue entries: each node paired with its degree. */
  function Tag(s: seq<nat>, d: nat): (r: seq<(nat, nat)>)
    ensures |r| == |s|
  {
    if s == [] then [] else [(s[0], d)] + Tag(s[1..], d)
  }

  lemma {:induction false} TagConcat(a: seq<nat>, b: seq<nat>, d: nat)
    ensures Tag(a + b, d) == Tag(a, d) + Tag(b, d)
  {
    if a == [] {
      assert a + b == b;
    } else {
      assert (a + b)[1..] == a[1..] + b;
      TagConcat(a[1..], b, d);
    }
  }

  /** One column of the scan of findNthDegreeConnections: column n is
      queued and marked exactly when it is an unmarked neighbour. */
  lemma ScanStep(m: Matrix, u: nat, seen: set<nat>, n: nat, d: nat,
                 q: seq<(nat, nat)>, q': seq<(nat, nat)>, sc: seq<nat>, marked: set<nat>)
    requires Square(m) && u < MAX_NODES && n < MAX_NODES
    requires sc == ScanBelow(m, u, seen, n) && q' == q + Tag(sc, d) && marked == seen + Elems(sc)
    ensures n in marked <==> n in seen
    ensures m[u, n].Some? && n !in marked ==>
      sc + [n] == ScanBelow(m, u, seen, n + 1) && q' + [(n, d)] == q + Tag(sc + [n], d) &&
      marked + {n} == seen + Elems(sc + [n])
    ensures !(m[u, n].Some? && n !in marked) ==> sc == ScanBelow(m, u, seen, n + 1)
  {
    assert n !in Elems(sc);
    ElemsConcat(sc, [n]);
    assert Elems([n]) == {n};
    TagSnoc(q, sc, n, d);
  }

  /** Queueing one more node behind the tagged ones. */
  lemma TagSnoc(q: seq<(nat, nat)>, a: seq<nat>, n: nat, d: nat)
    ensures q + Tag(a, d) + [(n, d)] == q + Tag(a + [n], d)
  {
    TagConcat(a, [n], d);
    assert Tag([n], d) == [(n, d)];
  }

  /** Popping the front of the queue. */
  lemma TagPop(a: seq<nat>, i: nat, d: nat, rest: seq<(nat, nat)>)
    requires i < |a|
    ensures (Tag(a[i..], d) + rest)[0] == (a[i], d)
    ensures (Tag(a[i..], d) + rest)[1..] == Tag(a[i + 1..], d) + rest
  {
    assert a[i..][1..] == a[i + 1..];
  }

  /** A user is a node whose "type" is exactly the string "user". */
  lemma IsUserMeans(pages: seq<PageContent>, v: nat)
    requires v < |pages|
    ensures IsUser(pages, v) <==> GetProperty(NodeOf(AsNode(pages[v])).bag, "type") == Some(StringValue("user"))
  {
    var t := GetProperty(NodeOf(AsNode(pages[v])).bag, "type");
    if t.Some? {
      if t.value.FloatValue? {
        TypeFirst(t.value, StringValue("user"));
      } else {
        EqualIsSameValue(t.value, StringValue("user"));
      }
    }
  }

  /** The users of a level: ids of its members, each once, and exactly its
      members that are users. */
  lemma UsersInFacts(pages: seq<PageContent>, level: seq<nat>)
    requires Nodes(level) && |pages| == PAGE_COUNT && Distinct(level)
    ensures Distinct(UsersIn(pages, level))
    ensures forall id :: id in UsersIn(pages, level) <==> 1 <= id && id - 1 in level && IsUser(pages, id)
  {
    UsersInHas(pages, level);
    UsersInDistinct(pages, level);
  }

  lemma {:induction false} UsersInHas(pages: seq<PageContent>, level: seq<nat>)
    requires Nodes(level) && |pages| == PAGE_COUNT
    ensures forall id :: id in UsersIn(pages, level) <==> 1 <= id && id - 1 in level && IsUser(pages, id)
    decreases |level|
  {
    if level != [] {
      var init := level[..|level| - 1];
      var v := level[|level| - 1];
      assert level == init + [v];
      UsersInHas(pages, init);
      assert forall x :: x in level <==> x in init || x == v;
    }
  }

  lemma {:induction false} UsersInDistinct(pages: seq<PageContent>, level: seq<nat>)
    requires Nodes(level) && |pages| == PAGE_COUNT && Distinct(level)
    ensures Distinct(UsersIn(pages, level))
    decreases |level|
  {
    if level != [] {
      var init := level[..|level| - 1];
      var v := level[|level| - 1];
      assert level == init + [v];
      assert Distinct(init) && v !in init;
      UsersInDistinct(pages, init);
      UsersInHas(pages, init);
      var p := UsersIn(pages, init);
      var e := if IsUser(pages, v + 1) then [v + 1] else [];
      forall a, b | 0 <= a < |p| && 0 <= b < |e| ensures p[a] != e[b] {
        assert p[a] in p;
      }
      DistinctAppend(p, e);
    }
  }

  /** The queue and the collected users while level L, of degree d, is
      being taken off it, i of its nodes already are.  When `expanding`
      (d is below the requested degree) the nodes P discovered so far are
      queued with degree d+1 behind the rest of L and are marked visited
      besides S; otherwise the users among L[..i] are collected. */
  predicate Frontier(pages: seq<PageContent>, L: seq<nat>, P: seq<nat>, S: set<nat>, expanding: bool,
                     d: nat, i: nat, q: seq<(nat, nat)>, found: seq<nat>, vis: set<nat>)
    requires Nodes(L) && i <= |L| && |pages| == PAGE_COUNT
  {
    if expanding then q == Tag(L[i..], d) + Tag(P, d + 1) && found == [] && vis == S + Elems(P)
    else q == Tag(L[i..], d) && found == UsersIn(pages, L[..i]) && vis == S
  }

  /** Where findNthDegreeConnections is: level d of the search from s is
      being taken off the queue. */
  ghost predicate BfsState(m: Matrix, pages: seq<PageContent>, s: nat, degree: nat, d: nat, i: nat,
                           q: seq<(nat, nat)>, found: seq<nat>, vis: set<nat>)
    requires Square(m) && s < MAX_NODES && |pages| == PAGE_COUNT
    reads m
  {
    d <= degree && i <= |Level(m, s, d)| &&
    Frontier(pages, Level(m, s, d), Pending(m, s, d, i), Seen(m, s, d), d < degree, d, i, q, found, vis)
  }

  /** Taking a node of the last level off the queue. */
  lemma FrontierVisit(pages: seq<PageContent>, L: seq<nat>, P: seq<nat>, P': seq<nat>, S: set<nat>,
                      d: nat, i: nat, q: seq<(nat, nat)>, found: seq<nat>, vis: set<nat>,
                      u: nat, i': nat, q': seq<(nat, nat)>, found': seq<nat>)
    requires Nodes(L) && i < |L| && |pages| == PAGE_COUNT
    requires Frontier(pages, L, P, S, false, d, i, q, found, vis)
    requires u == L[i] && i' == i + 1 && q != [] && q' == q[1..]
    requires found' == found + (if IsUser(pages, u + 1) then [u + 1] else [])
    ensures Frontier(pages, L, P', S, false, d, i', q', found', vis)
  {
    TagPop(L, i, d, []);
    assert L[..i + 1][..i] == L[..i];
  }

  /** Taking a node below the last level off the queue and queueing the
      nodes sc it discovers. */
  lemma FrontierExpand(pages: seq<PageContent>, L: seq<nat>, P: seq<nat>, S: set<nat>,
                       d: nat, i: nat, q: seq<(nat, nat)>, found: seq<nat>, vis: set<nat>,
                       du: nat, sc: seq<nat>, i': nat, q': seq<(nat, nat)>, vis': set<nat>)
    requires Nodes(L) && i < |L| && |pages| == PAGE_COUNT
    requires Frontier(pages, L, P, S, true, d, i, q, found, vis)
    requires du == d && i' == i + 1 && q != [] && q' == q[1..] + Tag(sc, du + 1) && vis' == vis + Elems(sc)
    ensures Frontier(pages, L, P + sc, S, true, d, i', q', found, vis')
  {
    TagPop(L, i, d, Tag(P, d + 1));
    TagConcat(P, sc, d + 1);
    ElemsConcat(P, sc);
    assert q[1..] == Tag(L[i + 1..], d) + Tag(P, d + 1);
  }

  lemma BfsStart(m: Matrix, pages: seq<PageContent>, s: nat, degree: nat)
    requires Square(m) && s < MAX_NODES && |pages| == PAGE_COUNT && degree > 0
    ensures BfsState(m, pages, s, degree, 0, 0, [(s, 0)], [], {s})
  {
    assert Level(m, s, 0)[0..] == [s];
    assert Pending(m, s, 0, 0) == [];
    assert Elems([]) == {};
  }

  /** Level d is off the queue: what is left is level d+1. */
  lemma BfsNextLevel(m: Matrix, pages: seq<PageContent>, s: nat, degree: nat, d: nat,
                     q: seq<(nat, nat)>, found: seq<nat>, vis: set<nat>, d': nat, i': nat)
    requires Square(m) && s < MAX_NODES && |pages| == PAGE_COUNT
    requires BfsState(m, pages, s, degree, d, |Level(m, s, d)|, q, found, vis) && q != []
    requires d' == d + 1 && i' == 0
    ensures d < degree && BfsState(m, pages, s, degree, d', i', q, found, vis)
  {
    var L := Level(m, s, d);
    assert L[|L|..] == [];
    PendingDone(m, s, d);
    var L' := Level(m, s, d + 1);
    assert L'[0..] == L';
    assert L'[..0] == [];
    assert Elems([]) == {};
  }

  /** An empty queue holds no node of L, and nothing discovered. */
  lemma FrontierEmpty(pages: seq<PageContent>, L: seq<nat>, P: seq<nat>, S: set<nat>, expanding: bool,
                      d: nat, i: nat, found: seq<nat>, vis: set<nat>)
    requires Nodes(L) && i <= |L| && |pages| == PAGE_COUNT
    requires Frontier(pages, L, P, S, expanding, d, i, [], found, vis)
    ensures i == |L|
    ensures expanding ==> P == [] && found == []
    ensures !expanding ==> found == UsersIn(pages, L)
  {
    assert |Tag(L[i..], d)| == |L| - i;
    if expanding {
      assert |Tag(P, d + 1)| == |P|;
    } else {
      assert L[..i] == L;
    }
  }

  /** While the queue is not empty, some node of L is still on it. */
  lemma FrontierNonEmpty(pages: seq<PageContent>, L: seq<nat>, P: seq<nat>, S: set<nat>, expanding: bool,
                         d: nat, i: nat, q: seq<(nat, nat)>, found: seq<nat>, vis: set<nat>)
    requires Nodes(L) && i <= |L| && |pages| == PAGE_COUNT
    requires Frontier(pages, L, P, S, expanding, d, i, q, found, vis) && q != [] && (i == |L| ==> P == [])
    ensures i < |L|
  {
    assert |q| == |L| - i + (if expanding then |P| else 0);
  }

  /** The queue is empty: the users of level `degree` are collected. */
  lemma BfsDone(m: Matrix, pages: seq<PageContent>, s: nat, degree: nat, d: nat, i: nat,
                found: seq<nat>, vis: set<nat>)
    requires Square(m) && s < MAX_NODES && |pages| == PAGE_COUNT
    requires BfsState(m, pages, s, degree, d, i, [], found, vis)
    ensures found == UsersIn(pages, Level(m, s, degree))
  {
    var L := Level(m, s, d);
    FrontierEmpty(pages, L, Pending(m, s, d, i), Seen(m, s, d), d < degree, d, i, found, vis);
    if d < degree {
      PendingDone(m, s, d);
      assert Level(m, s, d + 1) == [];
      EmptyLevelStays(m, s, d + 1, degree);
      assert UsersIn(pages, Level(m, s, degree)) == [];
    }
  }

  /** The state of the loop of findNthDegreeConnections: the queue of
      (node, degree) pairs, the nodes marked visited, the ids collected. */
  datatype Search = Search(queue: seq<(nat, nat)>, visited: set<nat>, found: seq<nat>)

  predicate SearchOk(st: Search) {
    (forall k :: 0 <= k < |st.queue| ==> st.queue[k].0 < MAX_NODES) &&
    (forall v :: v in st.visited ==> v < MAX_NODES)
  }

  /** The search from s before its first turn. */
  function Start(s: nat): Search {
    Search([(s, 0)], {s}, [])
  }

  /** The visited flags findNthDegreeConnections starts from: all false,
      then the start node's set. */
  function StartFlags(s: nat): (f: seq<bool>)
    requires s < MAX_NODES
    ensures |f| == MAX_NODES
    ensures forall v :: 0 <= v < MAX_NODES ==> (f[v] <==> v in {s})
  {
    seq(MAX_NODES, _ => false)[s := true]
  }

  /** The matrix indices not yet visited. */
  function Unvisited(vis: set<nat>): set<nat> {
    set v | 0 <= v < MAX_NODES && v !in vis
  }

  /** One turn of the loop: the front of the queue is taken off; at the
      requested degree it is collected when it is a user, below it its
      unvisited neighbours are queued with the next degree and marked. */
  function Turn(m: Matrix, pages: seq<PageContent>, degree: nat, st: Search): (r: Search)
    requires Square(m) && |pages| == PAGE_COUNT && SearchOk(st) && st.queue != []
    reads m
    ensures SearchOk(r) && st.visited <= r.visited
    ensures r.visited == st.visited ==> |r.queue| < |st.queue|
  {
    var u := st.queue[0].0;
    var du := st.queue[0].1;
    if du == degree then
      Search(st.queue[1..], st.visited, st.found + (if IsUser(pages, u + 1) then [u + 1] else []))
    else
      var sc := ScanBelow(m, u, st.visited, m.Length1);
      ScanUnvisited(m, u, st.visited, m.Length1);
      TagAt(sc, du + 1);
      Search(st.queue[1..] + Tag(sc, du + 1), st.visited + Elems(sc), st.found)
  }

  lemma {:induction false} TagAt(s: seq<nat>, d: nat)
    ensures forall k :: 0 <= k < |s| ==> Tag(s, d)[k] == (s[k], d)
  {
    if s != [] {
      TagAt(s[1..], d);
    }
  }

  /** The neighbours a scan queues were not visited before it. */
  lemma {:induction false} ScanUnvisited(m: Matrix, u: nat, seen: set<nat>, n: nat)
    requires Square(m) && u < MAX_NODES && n <= MAX_NODES
    ensures forall k :: 0 <= k < |ScanBelow(m, u, seen, n)| ==> ScanBelow(m, u, seen, n)[k] !in seen
    ensures ScanBelow(m, u, seen, n) != [] ==> ScanBelow(m, u, seen, n)[0] !in seen
  {
    if n > 0 {
      ScanUnvisited(m, u, seen, n - 1);
    }
  }

  /** Marking more nodes leaves fewer unvisited. */
  lemma UnvisitedShrinks(a: set<nat>, b: set<nat>)
    requires a <= b && forall v :: v in b ==> v < MAX_NODES
    ensures |Unvisited(b)| <= |Unvisited(a)|
    ensures a != b ==> |Unvisited(b)| < |Unvisited(a)|
  {
    assert Unvisited(b) <= Unvisited(a);
    assert Unvisited(a) == Unvisited(b) + (Unvisited(a) - Unvisited(b));
    if a != b {
      var x :| x in b && x !in a;
      assert x in Unvisited(a) - Unvisited(b);
    }
  }

  lemma TurnCollects(m: Matrix, pages: seq<PageContent>, degree: nat, st: Search)
    requires Square(m) && |pages| == PAGE_COUNT && SearchOk(st) && st.queue != [] && st.queue[0].1 == degree
    ensures Turn(m, pages, degree, st) ==
      Search(st.queue[1..], st.visited,
             st.found + (if IsUser(pages, st.queue[0].0 + 1) then [st.queue[0].0 + 1] else []))
  {
  }

  lemma TurnExpands(m: Matrix, pages: seq<PageContent>, degree: nat, st: Search, u: nat, du: nat)
    requires Square(m) && |pages| == PAGE_COUNT && SearchOk(st) && st.queue != []
    requires st.queue[0] == (u, du) && du != degree
    ensures u < MAX_NODES
    ensures Turn(m, pages, degree, st) ==
      Search(st.queue[1..] + Tag(ScanBelow(m, u, st.visited, m.Length1), du + 1),
             st.visited + Elems(ScanBelow(m, u, st.visited, m.Length1)), st.found)
  {
    assert st.queue[0].0 < MAX_NODES;
    var sc := ScanBelow(m, u, st.visited, m.Length1);
    assert Turn(m, pages, degree, st) == Search(st.queue[1..] + Tag(sc, du + 1), st.visited + Elems(sc), st.found);
  }

  /** What the loop returns when run from st until the queue is empty. */
  function Run(m: Matrix, pages: seq<PageContent>, degree: nat, st: Search): seq<nat>
    requires Square(m) && |pages| == PAGE_COUNT && SearchOk(st)
    reads m
    decreases |Unvisited(st.visited)|, |st.queue|
  {
    if st.queue == [] then st.found
    else
      var r := Turn(m, pages, degree, st);
      UnvisitedShrinks(st.visited, r.visited);
      Run(m, pages, degree, r)
  }
  lemma RunEnds(m: Matrix, pages: seq<PageContent>, degree: nat, st: Search)
    requires Square(m) && |pages| == PAGE_COUNT && SearchOk(st) && st.queue == []
    ensures Run(m, pages, degree, st) == st.found
  {
  }

  /** Where the next turn of the search starts: if level d is off the
      queue, at the start of level d+1. */
  lemma BfsResume(m: Matrix, pages: seq<PageContent>, s: nat, degree: nat, d: nat, i: nat, st: Search)
    returns (d': nat, i': nat)
    requires Square(m) && s < MAX_NODES && |pages| == PAGE_COUNT && st.queue != []
    requires BfsState(m, pages, s, degree, d, i, st.queue, st.found, st.visited)
    ensures BfsState(m, pages, s, degree, d', i', st.queue, st.found, st.visited) && i' < |Level(m, s, d')|
  {
    d', i' := d, i;
    if i == |Level(m, s, d)| {
      BfsNextLevel(m, pages, s, degree, d, st.queue, st.found, st.visited, d + 1, 0);
      d', i' := d + 1, 0;
      PendingDone(m, s, d);
      FrontierNonEmpty(pages, Level(m, s, d'), Pending(m, s, d', i'), Seen(m, s, d'), d' < degree, d', i', st.queue, st.found, st.visited);
    }
  }

  /** A turn at the requested degree is a step of the search through the
      last level. */
  lemma BfsTurnCollect(m: Matrix, pages: seq<PageContent>, s: nat, degree: nat, i: nat, st: Search)
    requires Square(m) && s < MAX_NODES && |pages| == PAGE_COUNT && SearchOk(st) && st.queue != []
    requires BfsState(m, pages, s, degree, degree, i, st.queue, st.found, st.visited) && i < |Level(m, s, degree)|
    ensures var r := Turn(m, pages, degree, st); BfsState(m, pages, s, degree, degree, i + 1, r.queue, r.found, r.visited)
  {
    var L := Level(m, s, degree);
    TagPop(L, i, degree, []);
    TurnCollects(m, pages, degree, st);
    var r := Turn(m, pages, degree, st);
    FrontierVisit(pages, L, Pending(m, s, degree, i), Pending(m, s, degree, i + 1), Seen(m, s, degree),
                  degree, i, st.queue, st.found, st.visited, L[i], i + 1, r.queue, r.found);
  }

  /** A turn below the requested degree is a step of the search through
      level d that queues part of level d+1. */
  lemma BfsTurnExpand(m: Matrix, pages: seq<PageContent>, s: nat, degree: nat, d: nat, i: nat, st: Search)
    requires Square(m) && s < MAX_NODES && |pages| == PAGE_COUNT && SearchOk(st) && st.queue != []
    requires BfsState(m, pages, s, degree, d, i, st.queue, st.found, st.visited) && i < |Level(m, s, d)|
    requires d < degree
    ensures var r := Turn(m, pages, degree, st); BfsState(m, pages, s, degree, d, i + 1, r.queue, r.found, r.visited)
  {
    var L := Level(m, s, d);
    var P := Pending(m, s, d, i);
    TagPop(L, i, d, Tag(P, d + 1));
    TurnExpands(m, pages, degree, st, L[i], d);
    var sc := ScanBelow(m, L[i], st.visited, m.Length1);
    PendingStep(m, s, d, i);
    var r := Turn(m, pages, degree, st);
    FrontierExpand(pages, L, P, Seen(m, s, d), d, i, st.queue, st.found, st.visited, d, sc, i + 1, r.queue, r.visited);
  }

  /** A turn of the loop is a step of the search through the levels. */
  lemma BfsAdvance(m: Matrix, pages: seq<PageContent>, s: nat, degree: nat, d: nat, i: nat, st: Search)
    returns (d': nat, i': nat)
    requires Square(m) && s < MAX_NODES && |pages| == PAGE_COUNT && SearchOk(st) && st.queue != []
    requires BfsState(m, pages, s, degree, d, i, st.queue, st.found, st.visited)
    ensures var r := Turn(m, pages, degree, st); BfsState(m, pages, s, degree, d', i' + 1, r.queue, r.found, r.visited)
  {
    d', i' := BfsResume(m, pages, s, degree, d, i, st);
    if d' == degree {
      BfsTurnCollect(m, pages, s, degree, i', st);
    } else {
      BfsTurnExpand(m, pages, s, degree, d', i', st);
    }
  }

  lemma RunStep(m: Matrix, pages: seq<PageContent>, degree: nat, st: Search)
    requires Square(m) && |pages| == PAGE_COUNT && SearchOk(st) && st.queue != []
    ensures Run(m, pages, degree, st) == Run(m, pages, degree, Turn(m, pages, degree, st))
  {
  }

  /** st is a point of the search from s through its levels. */
  ghost predicate Searching(m: Matrix, pages: seq<PageContent>, s: nat, degree: nat, st: Search)
    requires Square(m) && s < MAX_NODES && |pages| == PAGE_COUNT
    reads m
  {
    exists d: nat, i: nat :: BfsState(m, pages, s, degree, d, i, st.queue, st.found, st.visited)
  }

  /** A turn of the loop keeps the search on its levels. */
  lemma SearchingStep(m: Matrix, pages: seq<PageContent>, s: nat, degree: nat, st: Search)
    requires Square(m) && s < MAX_NODES && |pages| == PAGE_COUNT && SearchOk(st) && st.queue != []
    requires Searching(m, pages, s, degree, st)
    ensures Searching(m, pages, s, degree, Turn(m, pages, degree, st))
  {
    var d: nat, i: nat :| BfsState(m, pages, s, degree, d, i, st.queue, st.found, st.visited);
    var d', i' := BfsAdvance(m, pages, s, degree, d, i, st);
    var r := Turn(m, pages, degree, st);
    assert BfsState(m, pages, s, degree, d', i' + 1, r.queue, r.found, r.visited);
  }

  /** At the end of the search the users of level `degree` are collected. */
  lemma SearchingDone(m: Matrix, pages: seq<PageContent>, s: nat, degree: nat, st: Search)
    requires Square(m) && s < MAX_NODES && |pages| == PAGE_COUNT && st.queue == []
    requires Searching(m, pages, s, degree, st)
    ensures st.found == UsersIn(pages, Level(m, s, degree))
  {
    var d: nat, i: nat :| BfsState(m, pages, s, degree, d, i, st.queue, st.found, st.visited);
    BfsDone(m, pages, s, degree, d, i, st.found, st.visited);
  }

  /** From any point of the search, running the loop to the end collects
      the users of level `degree`. */
  lemma {:induction false} RunFrom(m: Matrix, pages: seq<PageContent>, s: nat, degree: nat, st: Search)
    requires Square(m) && s < MAX_NODES && |pages| == PAGE_COUNT && SearchOk(st)
    requires Searching(m, pages, s, degree, st)
    ensures Run(m, pages, degree, st) == UsersIn(pages, Level(m, s, degree))
    decreases |Unvisited(st.visited)|, |st.queue|
  {
    if st.queue == [] {
      SearchingDone(m, pages, s, degree, st);
    } else {
      SearchingStep(m, pages, s, degree, st);
      var r := Turn(m, pages, degree, st);
      RunStep(m, pages, degree, st);
      UnvisitedShrinks(st.visited, r.visited);
      RunFrom(m, pages, s, degree, r);
    }
  }

  /** The search from s collects exactly the users at distance `degree`
      in breadth-first order. */
  lemma RunFindsLevelUsers(m: Matrix, pages: seq<PageContent>, s: nat, degree: nat)
    requires Square(m) && s < MAX_NODES && |pages| == PAGE_COUNT && degree > 0
    ensures SearchOk(Start(s))
    ensures Run(m, pages, degree, Start(s)) == UsersIn(pages, Level(m, s, degree))
  {
    BfsStart(m, pages, s, degree);
    assert BfsState(m, pages, s, degree, 0, 0, Start(s).queue, Start(s).found, Start(s).visited);
    RunFrom(m, pages, s, degree, Start(s));
  }

  /** What findNthDegreeConnections returns: each id once, and exactly the
      ids of the users whose shortest distance from s is `degree`. */
  lemma NthDegreeMeans(m: Matrix, pages: seq<PageContent>, s: nat, degree: nat)
    requires Square(m) && s < MAX_NODES && |pages| == PAGE_COUNT && degree > 0
    ensures Distinct(UsersIn(pages, Level(m, s, degree)))
    ensures forall id :: id in UsersIn(pages, Level(m, s, degree)) <==>
      1 <= id && id - 1 in Within(m, s, degree) - Within(m, s, degree - 1) && IsUser(pages, id)
  {
    var L := Level(m, s, degree);
    LevelIsDistance(m, s, degree);
    UsersInFacts(pages, L);
  }

  // ---------------------------------------------------------------- findConnectionsAndLikes

  /** The answer of findConnectionsAndLikes: a list of (name, likes) per
      relationship. */
  type Connections = map<string, seq<(string, Int32)>>

  const EMPTY_CONNECTIONS: Connections := map["colleagues" := [], "friends" := []]

  /** The likes counted for node v: over v's neighbours below n that are
      posts, the sum of their "likes", kept in a uint32.  A "type" or a
      "likes" of the wrong kind throws. */
  function PostLikes(pages: seq<PageContent>, adj: Matrix, v: nat, n: nat): Result<Uint32>
    requires |pages| == PAGE_COUNT && Square(adj) && v < MAX_NODES && n <= MAX_NODES
    reads adj
  {
    if n == 0 then Ok(0)
    else
      var acc :- PostLikes(pages, adj, v, n - 1);
      if adj[v, n - 1].None? then Ok(acc)
      else
        var post := NodeOf(AsNode(pages[n])).bag;
        var t := GetProperty(post, "type");
        if t.None? then Ok(acc)
        else
          var ts :- AsString(t.value);
          if ts != "post" then Ok(acc)
          else
            var likes := GetProperty(post, "likes");
            if likes.None? then Ok(acc)
            else
              var x :- AsInt(likes.value);
              Ok((acc + x) % UINT32_LIMIT)
  }

  /** The likes neighbour w of v adds to the count, as an unbounded
      integer: the int "likes" of a neighbour whose "type" is the string
      "post", and nothing otherwise. */
  function LikesOf(pages: seq<PageContent>, adj: Matrix, v: nat, w: nat): int
    requires |pages| == PAGE_COUNT && Square(adj) && v < MAX_NODES && w < MAX_NODES
    reads adj
  {
    var post := NodeOf(AsNode(pages[w + 1])).bag;
    if adj[v, w].None? || GetProperty(post, "type") != Some(StringValue("post")) then 0
    else
      var likes := GetProperty(post, "likes");
      if likes.Some? && likes.value.IntValue? then likes.value.i else 0
  }

  /** The true total of the likes of v's posts below n. */
  function LikesTotal(pages: seq<PageContent>, adj: Matrix, v: nat, n: nat): int
    requires |pages| == PAGE_COUNT && Square(adj) && v < MAX_NODES && n <= MAX_NODES
    reads adj
  {
    if n == 0 then 0 else LikesTotal(pages, adj, v, n - 1) + LikesOf(pages, adj, v, n - 1)
  }

  /** When no exception is thrown, the uint32 counter holds the true total
      modulo 2^32: wrapping at each addition is wrapping once at the end. */
  lemma {:induction false} CountIsTotal(pages: seq<PageContent>, adj: Matrix, v: nat, n: nat)
    requires |pages| == PAGE_COUNT && Square(adj) && v < MAX_NODES && n <= MAX_NODES
    requires PostLikes(pages, adj, v, n).Ok?
    ensures PostLikes(pages, adj, v, n).value == LikesTotal(pages, adj, v, n) % UINT32_LIMIT
  {
    if n > 0 {
      CountIsTotal(pages, adj, v, n - 1);
      var a := LikesTotal(pages, adj, v, n - 1);
      var x := LikesOf(pages, adj, v, n - 1);
      ModAdd(a, x);
    }
  }

  lemma ModAdd(a: int, x: int)
    ensures (a % UINT32_LIMIT + x) % UINT32_LIMIT == (a + x) % UINT32_LIMIT
  {
    assert a == (a / UINT32_LIMIT) * UINT32_LIMIT + a % UINT32_LIMIT;
    assert a % UINT32_LIMIT + x == ((a % UINT32_LIMIT + x) / UINT32_LIMIT) * UINT32_LIMIT + (a % UINT32_LIMIT + x) % UINT32_LIMIT;
  }

  /** An exception in the likes loop is the answer of the loop. */
  lemma {:induction false} PostLikesErrStays(pages: seq<PageContent>, adj: Matrix, v: nat, n: nat, n': nat)
    requires |pages| == PAGE_COUNT && Square(adj) && v < MAX_NODES && n <= n' <= MAX_NODES
    requires PostLikes(pages, adj, v, n).Err?
    ensures PostLikes(pages, adj, v, n') == PostLikes(pages, adj, v, n)
    decreases n' - n
  {
    if n < n' {
      PostLikesErrStays(pages, adj, v, n, n' - 1);
    }
  }

  /** What neighbour v of user u contributes: nothing when it is not a user,
      has no name, or its edge has no relationship; otherwise the
      relationship and the (name, likes) entry.  A property of the wrong
      kind throws, and so does a failed page read. */
  function Connection(pages: seq<PageContent>, adj: Matrix, u: nat, v: nat): Result<Option<(string, (string, Int32))>>
    requires |pages| == PAGE_COUNT && Square(adj) && u < MAX_NODES && v < MAX_NODES
    requires adj[u, v].Some?
    reads adj
  {
    var nb := NodeOf(AsNode(pages[v + 1])).bag;
    var t := GetProperty(nb, "type");
    if t.None? then Ok(None)
    else
      var ts :- AsString(t.value);
      if ts != "user" then Ok(None)
      else
        var name := GetProperty(nb, "name");
        if name.None? then Ok(None)
        else
          var page := Buffer.PageIdOf(adj[u, v].value);
          if page >= |pages| then Err(IoAbort)
          else
            var rel := GetProperty(EdgeOf(AsEdge(pages[page])).bag, "relationship");
            if rel.None? then Ok(None)
            else
              var rs :- AsString(rel.value);
              var likes :- PostLikes(pages, adj, v, MAX_NODES);
              var nm :- AsString(name.value);
              Ok(Some((rs, (nm, ToInt32(likes)))))
  }

  /** The answer with one neighbour's contribution added to its bucket. */
  function AddConnection(acc: Connections, c: Option<(string, (string, Int32))>): (r: Connections)
    requires acc.Keys == {"colleagues", "friends"}
    ensures r.Keys == {"colleagues", "friends"}
  {
    if c.None? then acc
    else if c.value.0 == "colleagues" then acc["colleagues" := acc["colleagues"] + [c.value.1]]
    else if c.value.0 == "friends" then acc["friends" := acc["friends"] + [c.value.1]]
    else acc
  }

  /** A bucket gains exactly the contribution made to it, at its end. */
  lemma AddConnectionHas(acc: Connections, c: Option<(string, (string, Int32))>, b: string)
    requires acc.Keys == {"colleagues", "friends"} && b in acc
    ensures AddConnection(acc, c)[b] == if c.Some? && c.value.0 == b then acc[b] + [c.value.1] else acc[b]
  {
  }

  /** The answer after the neighbours of u below n are examined. */
  function ConnectionsBelow(pages: seq<PageContent>, adj: Matrix, u: nat, n: nat): (r: Result<Connections>)
    requires |pages| == PAGE_COUNT && Square(adj) && u < MAX_NODES && n <= MAX_NODES
    reads adj
    ensures r.Ok? ==> r.value.Keys == {"colleagues", "friends"}
  {
    if n == 0 then Ok(EMPTY_CONNECTIONS)
    else
      var acc :- ConnectionsBelow(pages, adj, u, n - 1);
      if adj[u, n - 1].None? then Ok(acc)
      else
        var c :- Connection(pages, adj, u, n - 1);
        Ok(AddConnection(acc, c))
  }

  /** An entry that neighbour v contributes to a bucket: v is a user with a
      name, its edge from u carries that relationship, and the entry holds
      v's name and the int of its likes. */
  lemma ConnectionMeans(pages: seq<PageContent>, adj: Matrix, u: nat, v: nat, b: string, x: (string, Int32))
    requires |pages| == PAGE_COUNT && Square(adj) && u < MAX_NODES && v < MAX_NODES && adj[u, v].Some?
    requires Connection(pages, adj, u, v) == Ok(Some((b, x)))
    ensures GetProperty(NodeOf(AsNode(pages[v + 1])).bag, "type") == Some(StringValue("user"))
    ensures GetProperty(NodeOf(AsNode(pages[v + 1])).bag, "name") == Some(StringValue(x.0))
    ensures Buffer.PageIdOf(adj[u, v].value) < |pages|
    ensures GetProperty(EdgeOf(AsEdge(pages[Buffer.PageIdOf(adj[u, v].value)])).bag, "relationship") == Some(StringValue(b))
    ensures PostLikes(pages, adj, v, MAX_NODES).Ok? && x.1 == ToInt32(PostLikes(pages, adj, v, MAX_NODES).value)
  {
  }

  /** Neighbour v of u contributes entry x to bucket b. */
  predicate Contributes(pages: seq<PageContent>, adj: Matrix, u: nat, v: nat, b: string, x: (string, Int32))
    requires |pages| == PAGE_COUNT && Square(adj) && u < MAX_NODES && v < MAX_NODES
    reads adj
  {
    adj[u, v].Some? && Connection(pages, adj, u, v) == Ok(Some((b, x)))
  }

  /** The answer built from a sequence of contributions, in order. */
  function Fold(cs: seq<Option<(string, (string, Int32))>>): (r: Connections)
    ensures r.Keys == {"colleagues", "friends"}
  {
    if cs == [] then EMPTY_CONNECTIONS else AddConnection(Fold(cs[..|cs| - 1]), cs[|cs| - 1])
  }

  /** The entries of the contributions to bucket b, in order. */
  function Bucket(cs: seq<Option<(string, (string, Int32))>>, b: string): seq<(string, Int32)> {
    if cs == [] then []
    else
      var c := cs[|cs| - 1];
      Bucket(cs[..|cs| - 1], b) + (if c.Some? && c.value.0 == b then [c.value.1] else [])
  }

  /** Each of the two buckets of the answer lists the contributions to it,
      in order. */
  lemma {:induction false} FoldBuckets(cs: seq<Option<(string, (string, Int32))>>, b: string)
    requires b in {"colleagues", "friends"}
    ensures Fold(cs)[b] == Bucket(cs, b)
  {
    if cs != [] {
      FoldBuckets(cs[..|cs| - 1], b);
      AddConnectionHas(Fold(cs[..|cs| - 1]), cs[|cs| - 1], b);
    }
  }

  lemma {:induction false} BucketHas(cs: seq<Option<(string, (string, Int32))>>, b: string, x: (string, Int32))
    ensures x in Bucket(cs, b) <==> exists k :: 0 <= k < |cs| && cs[k] == Some((b, x))
  {
    if cs != [] {
      var init := cs[..|cs| - 1];
      BucketHas(init, b, x);
      assert forall k :: 0 <= k < |init| ==> init[k] == cs[k];
      if x in Bucket(cs, b) && x !in Bucket(init, b) {
        assert cs[|cs| - 1] == Some((b, x));
      }
    }
  }

  /** What neighbour v contributes when it does not throw. */
  function Outcome(pages: seq<PageContent>, adj: Matrix, u: nat, v: nat): Option<(string, (string, Int32))>
    requires |pages| == PAGE_COUNT && Square(adj) && u < MAX_NODES && v < MAX_NODES
    reads adj
  {
    if adj[u, v].Some? && Connection(pages, adj, u, v).Ok? then Connection(pages, adj, u, v).value else None
  }

  /** The contributions of the neighbours below n, in order. */
  function Outcomes(pages: seq<PageContent>, adj: Matrix, u: nat, n: nat): (r: seq<Option<(string, (string, Int32))>>)
    requires |pages| == PAGE_COUNT && Square(adj) && u < MAX_NODES && n <= MAX_NODES
    reads adj
    ensures |r| == n
  {
    if n == 0 then [] else Outcomes(pages, adj, u, n - 1) + [Outcome(pages, adj, u, n - 1)]
  }

  lemma {:induction false} OutcomesAt(pages: seq<PageContent>, adj: Matrix, u: nat, n: nat)
    requires |pages| == PAGE_COUNT && Square(adj) && u < MAX_NODES && n <= MAX_NODES
    ensures forall k :: 0 <= k < n ==> Outcomes(pages, adj, u, n)[k] == Outcome(pages, adj, u, k)
  {
    if n > 0 {
      OutcomesAt(pages, adj, u, n - 1);
    }
  }

  /** The loop's answer is the fold of the contributions. */
  lemma {:induction false} ConnectionsFold(pages: seq<PageContent>, adj: Matrix, u: nat, n: nat)
    requires |pages| == PAGE_COUNT && Square(adj) && u < MAX_NODES && n <= MAX_NODES
    requires ConnectionsBelow(pages, adj, u, n).Ok?
    ensures ConnectionsBelow(pages, adj, u, n).value == Fold(Outcomes(pages, adj, u, n))
  {
    if n > 0 {
      ConnectionsFold(pages, adj, u, n - 1);
      assert Outcomes(pages, adj, u, n)[..n - 1] == Outcomes(pages, adj, u, n - 1);
    }
  }

  /** In an answer, bucket b holds, in ascending order of neighbour, the
      entries the neighbours of u contribute to it -- exactly those; the two
      buckets are "colleagues" and "friends" and any other relationship is
      dropped. */
  lemma ConnectionsHas(pages: seq<PageContent>, adj: Matrix, u: nat, n: nat, b: string, x: (string, Int32))
    requires |pages| == PAGE_COUNT && Square(adj) && u < MAX_NODES && n <= MAX_NODES
    requires ConnectionsBelow(pages, adj, u, n).Ok? && b in {"colleagues", "friends"}
    ensures ConnectionsBelow(pages, adj, u, n).value[b] == Bucket(Outcomes(pages, adj, u, n), b)
    ensures x in ConnectionsBelow(pages, adj, u, n).value[b] <==>
      exists v :: 0 <= v < n && Contributes(pages, adj, u, v, b, x)
  {
    var cs := Outcomes(pages, adj, u, n);
    ConnectionsFold(pages, adj, u, n);
    FoldBuckets(cs, b);
    BucketHas(cs, b, x);
    OutcomesAt(pages, adj, u, n);
    assert forall v :: 0 <= v < n ==> (cs[v] == Some((b, x)) <==> Contributes(pages, adj, u, v, b, x));
  }

  /** An exception for one neighbour is the answer of the whole loop. */
  lemma {:induction false} ConnectionsErrStays(pages: seq<PageContent>, adj: Matrix, u: nat, n: nat, n': nat)
    requires |pages| == PAGE_COUNT && Square(adj) && u < MAX_NODES && n <= n' <= MAX_NODES
    requires ConnectionsBelow(pages, adj, u, n).Err?
    ensures ConnectionsBelow(pages, adj, u, n') == ConnectionsBelow(pages, adj, u, n)
    decreases n' - n
  {
    if n < n' {
      ConnectionsErrStays(pages, adj, u, n, n' - 1);
    }
  }

  /** An answer is given only when every neighbour was examined without an
      exception. */
  lemma {:induction false} ConnectionsNoThrow(pages: seq<PageContent>, adj: Matrix, u: nat, n: nat, v: nat)
    requires |pages| == PAGE_COUNT && Square(adj) && u < MAX_NODES && n <= MAX_NODES
    requires ConnectionsBelow(pages, adj, u, n).Ok? && v < n && adj[u, v].Some?
    ensures Connection(pages, adj, u, v).Ok?
  {
    if v < n - 1 {
      ConnectionsNoThrow(pages, adj, u, n - 1, v);
    }
  }

  // ---------------------------------------------------------------- the manager

  class GraphManager {
    /** The records, page by page, as read through the buffer manager. */
    var pages: seq<PageContent>
    /** adj_matrix. */
    const adj: Matrix
    var nextNodeId: Uint32
    var nextEdgeId: Uint32

    ghost predicate Valid()
      reads this, adj
    {
      |pages| == PAGE_COUNT && Square(adj) &&
      1 <= nextNodeId <= MAX_NODES + 1 &&
      forall i :: 0 <= i < |pages| ==> RecordOk(pages[i])
    }

    /** A graph manager over a fresh buffer manager: no record, no edge. */
    constructor ()
      ensures Valid() && fresh(adj)
      ensures pages == seq(PAGE_COUNT, _ => Unwritten)
      ensures forall i, j :: 0 <= i < MAX_NODES && 0 <= j < MAX_NODES ==> adj[i, j] == None
      ensures nextNodeId == 1 && nextEdgeId == FIRST_EDGE_ID
    {
      pages := seq(PAGE_COUNT, _ => Unwritten);
      adj := new Option<Uint32>[MAX_NODES, MAX_NODES]((_, _) => None);
      nextNodeId := 1;
      nextEdgeId := FIRST_EDGE_ID;
    }

    /** createNode: `props` is the property map in its iteration order.  The
        node gets the next node id, is written to the page of that id, and
        its id is returned; beyond MAX_NODES nodes nothing is allocated.
        More than MAX_PROPERTY_COUNT properties throw after the id is used
        and the first ones are written. */
    method CreateNode(props: Entries) returns (r: Result<Uint32>)
      requires Valid()
      modifies this
      ensures Valid()
      ensures nextEdgeId == old(nextEdgeId)
      ensures old(nextNodeId) > MAX_NODES ==>
        r == Err(Overflow) && pages == old(pages) && nextNodeId == old(nextNodeId)
      ensures old(nextNodeId) <= MAX_NODES ==>
        nextNodeId == old(nextNodeId) + 1 &&
        pages == old(pages)[old(nextNodeId) := NodePage(SNode(old(nextNodeId), Capped(props)))] &&
        r == if |props| <= MAX_PROPERTY_COUNT then Ok(old(nextNodeId)) else Err(Overflow)
    {
      if nextNodeId > MAX_NODES {
        return Err(Overflow);
      }
      var id := nextNodeId;
      nextNodeId := nextNodeId + 1;
      var e, ok := AddAll(props);
      pages := pages[id := NodePage(SNode(id, e))];
      if !ok {
        return Err(Overflow);
      }
      r := Ok(id);
    }

    /** addNodeProperty: ids from MAX_NODES up are refused (so node 180 is
        refused and id 0 accepted); otherwise the property is added to the
        record on that page, which throws when it is full. */
    method AddNodeProperty(nodeId: Uint32, name: string, value: PropertyValue) returns (r: Result<bool>)
      requires Valid()
      modifies this
      ensures Valid()
      ensures nextNodeId == old(nextNodeId) && nextEdgeId == old(nextEdgeId)
      ensures nodeId >= MAX_NODES ==> r == Ok(false) && pages == old(pages)
      ensures nodeId < MAX_NODES ==>
        var rec := AsNode(old(pages)[nodeId]);
        if |rec.entries| >= MAX_PROPERTY_COUNT then r == Err(Overflow) && pages == old(pages)
        else r == Ok(true) && pages == old(pages)[nodeId := NodePage(SNode(rec.id, rec.entries + [(name, value)]))]
    {
      if nodeId >= MAX_NODES {
        return Ok(false);
      }
      var rec := AsNode(pages[nodeId]);
      var e := AddEntry(rec.entries, name, value);
      if e.Err? {
        return Err(Overflow);
      }
      pages := pages[nodeId := NodePage(SNode(rec.id, e.value))];
      r := Ok(true);
    }

    /** createEdge, with the corrected guard: both ends must be node ids.
        The edge gets the next edge id (a uint32) and is written to that
        page; then adj[source-1][target-1], and for an undirected edge also
        adj[target-1][source-1], is set to its id.  An edge id past the end
        of the file makes the page read fail.  More than
        MAX_PROPERTY_COUNT properties throw with the matrix unchanged. */
    method CreateEdge(source: Uint32, target: Uint32, props: Entries, directed: bool) returns (r: Result<Uint32>)
      requires Valid()
      modifies this, adj
      ensures Valid()
      ensures nextNodeId == old(nextNodeId)
      ensures !EdgeEndsOk(source, target) ==>
        r == Err(OutOfRange) && pages == old(pages) && nextEdgeId == old(nextEdgeId) &&
        forall i, j :: 0 <= i < MAX_NODES && 0 <= j < MAX_NODES ==> adj[i, j] == old(adj[i, j])
      ensures EdgeEndsOk(source, target) ==> nextEdgeId == (old(nextEdgeId) + 1) % UINT32_LIMIT
      ensures EdgeEndsOk(source, target) && Buffer.PageIdOf(old(nextEdgeId)) >= PAGE_COUNT ==>
        r == Err(IoAbort) && pages == old(pages) &&
        forall i, j :: 0 <= i < MAX_NODES && 0 <= j < MAX_NODES ==> adj[i, j] == old(adj[i, j])
      ensures EdgeEndsOk(source, target) && Buffer.PageIdOf(old(nextEdgeId)) < PAGE_COUNT ==>
        pages == old(pages)[Buffer.PageIdOf(old(nextEdgeId)) := EdgePage(SEdge(old(nextEdgeId), source, target, Capped(props)))] &&
        r == (if |props| <= MAX_PROPERTY_COUNT then Ok(old(nextEdgeId)) else Err(Overflow)) &&
        forall i, j :: 0 <= i < MAX_NODES && 0 <= j < MAX_NODES ==>
          adj[i, j] == if r.Ok? && ((i == source - 1 && j == target - 1) || (!directed && i == target - 1 && j == source - 1))
                       then Some(old(nextEdgeId)) else old(adj[i, j])
    {
      if !EdgeEndsOk(source, target) {
        return Err(OutOfRange);
      }
      var id := nextEdgeId;
      nextEdgeId := (nextEdgeId + 1) % UINT32_LIMIT;
      var page := Buffer.PageIdOf(id);
      if page >= |pages| {
        return Err(IoAbort);
      }
      var e, ok := AddAll(props);
      pages := pages[page := EdgePage(SEdge(id, source, target, e))];
      if !ok {
        return Err(Overflow);
      }
      adj[source - 1, target - 1] := Some(id);
      if !directed {
        adj[target - 1, source - 1] := Some(id);
      }
      r := Ok(id);
    }

    /** addEdgeProperty: no check of the id; the property is added to the
        record on the edge's page, which throws when it is full. */
    method AddEdgeProperty(edgeId: Uint32, name: string, value: PropertyValue) returns (r: Result<bool>)
      requires Valid()
      modifies this
      ensures Valid()
      ensures nextNodeId == old(nextNodeId) && nextEdgeId == old(nextEdgeId)
      ensures Buffer.PageIdOf(edgeId) >= PAGE_COUNT ==> r == Err(IoAbort) && pages == old(pages)
      ensures Buffer.PageIdOf(edgeId) < PAGE_COUNT ==>
        var rec := AsEdge(old(pages)[Buffer.PageIdOf(edgeId)]);
        if |rec.entries| >= MAX_PROPERTY_COUNT then r == Err(Overflow) && pages == old(pages)
        else (r == Ok(true) &&
          pages == old(pages)[Buffer.PageIdOf(edgeId) := EdgePage(SEdge(rec.id, rec.source, rec.target, rec.entries + [(name, value)]))])
    {
      var page := Buffer.PageIdOf(edgeId);
      if page >= |pages| {
        return Err(IoAbort);
      }
      var rec := AsEdge(pages[page]);
      var e := AddEntry(rec.entries, name, value);
      if e.Err? {
        return Err(Overflow);
      }
      pages := pages[page := EdgePage(SEdge(rec.id, rec.source, rec.target, e.value))];
      r := Ok(true);
    }
  
    /** The "type" check of findNthDegreeConnections on node v. */
    method IsUserNode(v: nat) returns (b: bool)
      requires Valid() && 1 <= v <= MAX_NODES
      ensures b == IsUser(pages, v)
    {
      assert RecordOk(pages[v]);
      var node := ConvertNode(AsNode(pages[v]));
      var t := GetProperty(node.bag, "type");
      b := t.Some? && Equal(t.value, StringValue("user"));
    }

    /** The scan of findNthDegreeConnections over the neighbours of u, in
        ascending order: each unvisited neighbour is queued with degree d
        and marked visited. `visited` is the search's local flag vector. */
    method Expand(u: nat, d: nat, visited: seq<bool>, q: seq<(nat, nat)>, ghost seen: set<nat>)
      returns (q': seq<(nat, nat)>, visited': seq<bool>)
      requires Square(adj) && u < MAX_NODES && |visited| == MAX_NODES
      requires forall v :: 0 <= v < MAX_NODES ==> (visited[v] <==> v in seen)
      ensures q' == q + Tag(ScanBelow(adj, u, seen, adj.Length1), d)
      ensures |visited'| == MAX_NODES
      ensures forall v :: 0 <= v < MAX_NODES ==> (visited'[v] <==> v in seen + Elems(ScanBelow(adj, u, seen, adj.Length1)))
    {
      q' := q;
      visited' := visited;
      ghost var marked := seen;
      ghost var sc: seq<nat> := [];
      var n: nat := 0;
      while n < MAX_NODES
        invariant 0 <= n <= MAX_NODES && |visited'| == MAX_NODES
        invariant sc == ScanBelow(adj, u, seen, n)
        invariant q' == q + Tag(sc, d)
        invariant marked == seen + Elems(sc)
        invariant forall v :: 0 <= v < MAX_NODES ==> (visited'[v] <==> v in marked)
      {
        ScanStep(adj, u, seen, n, d, q, q', sc, marked);
        if adj[u, n].Some? && !visited'[n] {
          q' := q' + [(n, d)];
          visited' := visited'[n := true];
          marked := marked + {n};
          sc := sc + [n];
        }
        n := n + 1;
      }
    }

    /** One turn of the loop of findNthDegreeConnections. */
    method TakeTurn(degree: nat, visited: seq<bool>, q: seq<(nat, nat)>, found: seq<nat>, ghost vis: set<nat>)
      returns (q': seq<(nat, nat)>, found': seq<nat>, visited': seq<bool>, ghost vis': set<nat>)
      requires Valid() && |visited| == MAX_NODES && SearchOk(Search(q, vis, found)) && q != []
      requires forall v :: 0 <= v < MAX_NODES ==> (visited[v] <==> v in vis)
      ensures Search(q', vis', found') == Turn(adj, pages, degree, Search(q, vis, found))
      ensures |visited'| == MAX_NODES
      ensures forall v :: 0 <= v < MAX_NODES ==> (visited'[v] <==> v in vis')
    {
      ghost var st := Search(q, vis, found);
      var u := q[0].0;
      var du := q[0].1;
      if du == degree {
        var user := IsUserNode(u + 1);
        found' := found + (if user then [u + 1] else []);
        q' := q[1..];
        visited' := visited;
        vis' := vis;
      } else {
        q', visited' := Expand(u, du + 1, visited, q[1..], vis);
        vis' := vis + Elems(ScanBelow(adj, u, vis, adj.Length1));
        found' := found;
        TurnExpands(adj, pages, degree, st, u, du);
      }
    }

    /** findNthDegreeConnections: a breadth-first search from the start
        node that stops expanding at the given degree; the nodes queued
        with that degree whose "type" is "user", in the order they were
        queued. */
    method FindNthDegreeConnections(startNode: nat, degree: nat) returns (r: Result<seq<nat>>)
      requires Valid()
      ensures startNode < 1 || startNode > MAX_NODES ==> r == Err(OutOfRange)
      ensures 1 <= startNode <= MAX_NODES && degree == 0 ==> r == Err(InvalidArgument)
      ensures 1 <= startNode <= MAX_NODES && degree > 0 ==> r == Ok(UsersIn(pages, Level(adj, startNode - 1, degree)))
    {
      if startNode < 1 || startNode > MAX_NODES {
        return Err(OutOfRange);
      }
      if degree == 0 {
        return Err(InvalidArgument);
      }
      var visited := StartFlags(startNode - 1);
      var q: seq<(nat, nat)> := [(startNode - 1, 0)];
      var found: seq<nat> := [];
      ghost var vis: set<nat> := {startNode - 1};
      RunFindsLevelUsers(adj, pages, startNode - 1, degree);
      assert Search(q, vis, found) == Start(startNode - 1);
      ghost var users := UsersIn(pages, Level(adj, startNode - 1, degree));
      while q != []
        invariant SearchOk(Search(q, vis, found))
        invariant |visited| == MAX_NODES
        invariant forall v :: 0 <= v < MAX_NODES ==> (visited[v] <==> v in vis)
        invariant Run(adj, pages, degree, Search(q, vis, found)) == users
        decreases |Unvisited(vis)|, |q|
      {
        ghost var st := Search(q, vis, found);
        q, found, visited, vis := TakeTurn(degree, visited, q, found, vis);
        UnvisitedShrinks(st.visited, vis);
      }
      RunEnds(adj, pages, degree, Search(q, vis, found));
      r := Ok(found);
    }

    /** The likes loop of findConnectionsAndLikes for neighbour v. */
    method CountLikes(v: nat) returns (r: Result<Uint32>)
      requires Valid() && v < MAX_NODES
      ensures r == PostLikes(pages, adj, v, MAX_NODES)
    {
      var likes: Uint32 := 0;
      var n: nat := 0;
      while n < MAX_NODES
        invariant 0 <= n <= MAX_NODES
        invariant PostLikes(pages, adj, v, n) == Ok(likes)
      {
        if adj[v, n].Some? {
          assert RecordOk(pages[n + 1]);
          var post := ConvertNode(AsNode(pages[n + 1]));
          var t := GetProperty(post.bag, "type");
          if t.Some? {
            var ts := AsString(t.value);
            if ts.Err? {
              PostLikesErrStays(pages, adj, v, n + 1, MAX_NODES);
              return Err(ts.error);
            }
            if ts.value == "post" {
              var x := GetProperty(post.bag, "likes");
              if x.Some? {
                var xi := AsInt(x.value);
                if xi.Err? {
                  PostLikesErrStays(pages, adj, v, n + 1, MAX_NODES);
                  return Err(xi.error);
                }
                likes := (likes + xi.value) % UINT32_LIMIT;
              }
            }
          }
        }
        n := n + 1;
      }
      r := Ok(likes);
    }

    /** What neighbour v of u contributes to findConnectionsAndLikes. */
    method Contribution(u: nat, v: nat) returns (c: Result<Option<(string, (string, Int32))>>)
      requires Valid() && u < MAX_NODES && v < MAX_NODES && adj[u, v].Some?
      ensures c == Connection(pages, adj, u, v)
    {
      assert RecordOk(pages[v + 1]);
      var nb := ConvertNode(AsNode(pages[v + 1]));
      var t := GetProperty(nb.bag, "type");
      if t.None? {
        return Ok(None);
      }
      var ts := AsString(t.value);
      if ts.Err? {
        return Err(ts.error);
      }
      if ts.value != "user" {
        return Ok(None);
      }
      var name := GetProperty(nb.bag, "name");
      if name.None? {
        return Ok(None);
      }
      var page := Buffer.PageIdOf(adj[u, v].value);
      if page >= |pages| {
        return Err(IoAbort);
      }
      assert RecordOk(pages[page]);
      var edge := ConvertEdge(AsEdge(pages[page]));
      var rel := GetProperty(edge.bag, "relationship");
      if rel.None? {
        return Ok(None);
      }
      var rs := AsString(rel.value);
      if rs.Err? {
        return Err(rs.error);
      }
      var likes := CountLikes(v);
      if likes.Err? {
        return Err(likes.error);
      }
      var nm := AsString(name.value);
      if nm.Err? {
        return Err(nm.error);
      }
      c := Ok(Some((rs.value, (nm.value, ToInt32(likes.value)))));
    }

    /** printEdges: the lines it prints, in order.  The matrix is scanned
        row by row; a set cell is printed unless the key of its pair, in
        ascending order, is already marked processed, and is then marked. */
    method PrintEdges() returns (lines: seq<EdgeLine>)
      requires Valid()
      ensures lines == EdgeListing(adj)
    {
      var processed: set<(nat, nat)> := {};
      lines := [];
      var i: nat := 0;
      while i < MAX_NODES
        invariant 0 <= i <= MAX_NODES
        invariant lines == RowsBelow(adj, i)
        invariant processed == KeysBelow(adj, i)
      {
        var j: nat := 0;
        while j < MAX_NODES
          invariant 0 <= j <= MAX_NODES
          invariant lines == RowsBelow(adj, i) + RowLines(adj, i, j)
          invariant processed == KeysBelow(adj, i) + RowKeys(adj, i, j)
        {
          if adj[i, j].Some? {
            var edge: (nat, nat) := if i < j then (i, j) else (j, i);
            MarkedUnlessReported(adj, i, j);
            if edge !in processed {
              lines := lines + [EdgeLine(i + 1, j + 1, adj[j, i].Some?)];
              processed := processed + {edge};
            }
          }
          j := j + 1;
        }
        i := i + 1;
      }
    }

    /** One turn of the loop of findConnectionsAndLikes: neighbour n of u
        is examined and its contribution added. */
    method Examine(u: nat, n: nat, acc: Connections) returns (r: Result<Connections>)
      requires Valid() && u < MAX_NODES && n < MAX_NODES
      requires ConnectionsBelow(pages, adj, u, n) == Ok(acc)
      ensures r == ConnectionsBelow(pages, adj, u, n + 1)
    {
      if adj[u, n].None? {
        return Ok(acc);
      }
      var c := Contribution(u, n);
      if c.Err? {
        return Err(c.error);
      }
      r := Ok(AddConnection(acc, c.value));
    }

    /** findConnectionsAndLikes: for each neighbour of the user, in
        ascending order, its contribution to the "colleagues" or the
        "friends" list. */
    method FindConnectionsAndLikes(userId: Uint32) returns (r: Result<Connections>)
      requires Valid()
      ensures userId < 1 || userId > MAX_NODES ==> r == Err(OutOfRange)
      ensures 1 <= userId <= MAX_NODES ==> r == ConnectionsBelow(pages, adj, userId - 1, MAX_NODES)
    {
      if userId < 1 || userId > MAX_NODES {
        return Err(OutOfRange);
      }
      var result := EMPTY_CONNECTIONS;
      var n: nat := 0;
      while n < MAX_NODES
        invariant 0 <= n <= MAX_NODES
        invariant ConnectionsBelow(pages, adj, userId - 1, n) == Ok(result)
      {
        var next := Examine(userId - 1, n, result);
        if next.Err? {
          ConnectionsErrStays(pages, adj, userId - 1, n + 1, MAX_NODES);
          return next;
        }
        result := next.value;
        n := n + 1;
      }
      r := Ok(result);
    }
  }
}
