/** The buffer pool's replacement policy: a recency list, most recent first,
    with at most `cacheSize` entries, and the set of pages it tracks (the
    keys of the source's page-to-list-position map). */
module Lru {
  import opened Common

  /** The pages a list holds. */
  function Elems(s: seq<Uint16>): set<Uint16> {
    set x | x in s
  }

  /** `s` with page `p` taken out. */
  function Without(s: seq<Uint16>, p: Uint16): (r: seq<Uint16>)
    ensures |r| <= |s|
  {
    if s == [] then []
    else if s[0] == p then Without(s[1..], p)
    else [s[0]] + Without(s[1..], p)
  }

  /** The list after evict(): the tail is gone. */
  function DropLast(s: seq<Uint16>): seq<Uint16> {
    if s == [] then [] else s[..|s| - 1]
  }

  /** What evict() returns: the tail, or INVALID for an empty list. */
  function Victim(s: seq<Uint16>): Uint16 {
    if s == [] then INVALID else s[|s| - 1]
  }

  /** The list after touch(p): p is taken out, the tail is evicted when the
      list is then full, and p goes to the head when there is room. */
  function Touched(s: seq<Uint16>, p: Uint16, cap: nat): seq<Uint16> {
    var s1 := Without(s, p);
    var s2 := if |s1| == cap then DropLast(s1) else s1;
    if |s2| < cap then [p] + s2 else s2
  }

  /** The recency list holds each page once and no more than `cap` pages. */
  predicate Bounded(s: seq<Uint16>, cap: nat) {
    Distinct(s) && |s| <= cap
  }

  lemma WithoutFacts(s: seq<Uint16>, p: Uint16)
    ensures Elems(Without(s, p)) == Elems(s) - {p}
    ensures Distinct(s) ==> Distinct(Without(s, p))
    ensures Distinct(s) && p in s ==> |Without(s, p)| == |s| - 1
    ensures p !in s ==> Without(s, p) == s
  {
    WithoutElems(s, p);
    if Distinct(s) {
      WithoutDistinct(s, p);
    }
  }

  lemma {:induction false} WithoutElems(s: seq<Uint16>, p: Uint16)
    ensures Elems(Without(s, p)) == Elems(s) - {p}
    ensures p !in s ==> Without(s, p) == s
    decreases |s|
  {
    if s != [] {
      WithoutElems(s[1..], p);
      assert s == [s[0]] + s[1..];
      assert Elems(s) == {s[0]} + Elems(s[1..]);
      if s[0] != p {
        ElemsCons(s[0], Without(s[1..], p));
      }
    }
  }

  lemma {:induction false} WithoutDistinct(s: seq<Uint16>, p: Uint16)
    requires Distinct(s)
    ensures Distinct(Without(s, p))
    ensures p in s ==> |Without(s, p)| == |s| - 1
    decreases |s|
  {
    if s != [] {
      assert s == [s[0]] + s[1..];
      assert s[0] !in s[1..];
      WithoutDistinct(s[1..], p);
      WithoutElems(s[1..], p);
      if s[0] != p {
        assert s[0] !in Elems(Without(s[1..], p));
        DistinctCons(s[0], Without(s[1..], p));
      } else {
        assert p !in s[1..];
      }
    }
  }

  lemma DropLastFacts(s: seq<Uint16>)
    ensures Distinct(s) ==> Distinct(DropLast(s))
    ensures s != [] ==> |DropLast(s)| == |s| - 1 && s == DropLast(s) + [Victim(s)]
    ensures Elems(DropLast(s)) <= Elems(s)
    ensures s != [] ==> Victim(s) in s
    ensures s == [] ==> Victim(s) == INVALID
  {
    if s != [] {
      assert s == s[..|s| - 1] + [s[|s| - 1]];
    }
  }

  /** touch keeps the list duplicate-free and within capacity, and puts p at
      its head (when the cache has any room at all). */
  lemma TouchKeepsBound(s: seq<Uint16>, p: Uint16, cap: nat)
    requires Bounded(s, cap)
    ensures Bounded(Touched(s, p, cap), cap)
    ensures cap > 0 ==> Touched(s, p, cap)[0] == p
    ensures cap == 0 ==> Touched(s, p, cap) == []
  {
    var s1 := Without(s, p);
    WithoutFacts(s, p);
    var s2 := if |s1| == cap then DropLast(s1) else s1;
    DropLastFacts(s1);
    assert Distinct(s2) && p !in Elems(s2);
    if |s2| < cap {
      DistinctCons(p, s2);
    }
  }

  lemma DistinctCons(p: Uint16, s: seq<Uint16>)
    requires Distinct(s) && p !in s
    ensures Distinct([p] + s)
  {
    var r := [p] + s;
    forall i, j | 0 <= i < j < |r| ensures r[i] != r[j] {
      assert r[j] == s[j - 1];
      if i > 0 {
        assert r[i] == s[i - 1];
      }
    }
  }

  /** The order touch leaves: p first, then the other pages in their old
      order; the old tail is dropped exactly when p was untracked and the
      list was full. */
  lemma TouchOrder(s: seq<Uint16>, p: Uint16, cap: nat)
    requires Bounded(s, cap) && cap > 0
    ensures p in s || |s| < cap ==> Touched(s, p, cap) == [p] + Without(s, p)
    ensures p !in s && |s| == cap ==> Touched(s, p, cap) == [p] + DropLast(s)
    ensures p !in s && |s| == cap ==> Victim(s) !in Touched(s, p, cap)
  {
    WithoutFacts(s, p);
    DropLastFacts(s);
    if p !in s && |s| == cap {
      assert Victim(s) !in DropLast(s);
    }
  }

  /** touch tracks p and at most the pages tracked before. */
  lemma TouchTracks(s: seq<Uint16>, p: Uint16, cap: nat)
    requires Bounded(s, cap)
    ensures Elems(Touched(s, p, cap)) <= Elems(s) + {p}
    ensures cap > 0 ==> p in Touched(s, p, cap)
  {
    var s1 := Without(s, p);
    WithoutFacts(s, p);
    DropLastFacts(s1);
    var s2 := if |s1| == cap then DropLast(s1) else s1;
    assert Elems(s2) <= Elems(s);
    if |s2| < cap {
      ElemsCons(p, s2);
    }
  }

  lemma ElemsCons(p: Uint16, s: seq<Uint16>)
    ensures Elems([p] + s) == {p} + Elems(s)
  {
    forall x | x in Elems([p] + s) ensures x == p || x in Elems(s) {
      var i :| 0 <= i < |[p] + s| && ([p] + s)[i] == x;
      if i > 0 { assert s[i - 1] == x; }
    }
  }

  class LruPolicy {
    /** lruList: most recently used first. */
    var lruList: seq<Uint16>
    /** The keys of the source's map from a page to its list position. */
    var tracked: set<Uint16>
    const cacheSize: nat

    ghost predicate Valid()
      reads this
    {
      Bounded(lruList, cacheSize) && tracked == Elems(lruList)
    }

    constructor (cacheSize: nat)
      ensures Valid() && this.cacheSize == cacheSize
      ensures lruList == [] && tracked == {}
    {
      this.cacheSize := cacheSize;
      lruList := [];
      tracked := {};
    }

    /** LruPolicy::touch: whether p was tracked. */
    method Touch(p: Uint16) returns (found: bool)
      requires Valid()
      modifies this
      ensures Valid()
      ensures found == (p in old(tracked))
      ensures lruList == Touched(old(lruList), p, cacheSize)
    {
      ghost var s := lruList;
      WithoutFacts(lruList, p);
      found := false;
      if p in tracked {
        found := true;
        lruList := Without(lruList, p);
        tracked := tracked - {p};
      }
      assert lruList == Without(s, p);
      if |lruList| == cacheSize {
        var _ := Evict();
      }
      if |lruList| < cacheSize {
        lruList := [p] + lruList;
        tracked := tracked + {p};
      }
      TouchKeepsBound(s, p, cacheSize);
      TouchTracks(s, p, cacheSize);
      assert tracked == Elems(lruList);
    }

    /** LruPolicy::evict: removes and returns the least recently used page,
        or INVALID when nothing is tracked. */
    method Evict() returns (victim: Uint16)
      requires Valid()
      modifies this
      ensures Valid()
      ensures victim == Victim(old(lruList)) && lruList == DropLast(old(lruList))
      ensures tracked == old(tracked) - {victim} || old(lruList) == []
      ensures old(lruList) != [] ==> victim in old(tracked)
    {
      DropLastFacts(lruList);
      victim := INVALID;
      if |lruList| != 0 {
        victim := lruList[|lruList| - 1];
        tracked := tracked - {victim};
        lruList := lruList[..|lruList| - 1];
        assert tracked == Elems(lruList) by {
          assert Elems(old(lruList)) == Elems(lruList) + {victim};
        }
      }
    }
  }
}
