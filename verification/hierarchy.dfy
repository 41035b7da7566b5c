/** The transform hierarchy as a parent map, and `FindCommonRoot`. */
module Hierarchy {
  import opened Unity
  import opened Wrappers

  /** Parent links between scene objects; an object with no entry is a root.
      `rank` witnesses that the links have no cycle: a parent always has a
      smaller rank than its child. */
  datatype Scene = Scene(parent: map<Obj, Obj>, rank: map<Obj, nat>)

  predicate Valid(s: Scene)
  {
    forall o :: o in s.parent ==> o in s.rank && s.parent[o] in s.rank && s.rank[s.parent[o]] < s.rank[o]
  }

  /** `transform.parent`, with None for a root. */
  function Parent(s: Scene, o: Obj): (r: Option<Obj>)
    ensures r.Some? <==> o in s.parent
  {
    if o in s.parent then Some(s.parent[o]) else None
  }

  function Height(s: Scene, o: Obj): (h: nat)
    ensures o !in s.parent ==> h == 0
  {
    if o in s.parent && o in s.rank then s.rank[o] + 1 else 0
  }

  /** The object followed by its ancestors, nearest first. */
  function Chain(s: Scene, o: Obj): (c: seq<Obj>)
    requires Valid(s)
    ensures |c| >= 1 && c[0] == o
    decreases Height(s, o)
  {
    if o in s.parent then [o] + Chain(s, s.parent[o]) else [o]
  }

  /** Consecutive chain entries are child and parent, and the chain ends at a root. */
  lemma {:induction false} ChainLinks(s: Scene, o: Obj)
    requires Valid(s)
    ensures var c := Chain(s, o);
            (forall i :: 0 <= i < |c| - 1 ==> c[i] in s.parent && c[i + 1] == s.parent[c[i]]) &&
            c[|c| - 1] !in s.parent
    decreases Height(s, o)
  {
    if o in s.parent {
      var p := s.parent[o];
      ChainLinks(s, p);
      var c := Chain(s, o);
      var t := Chain(s, p);
      assert c == [o] + t;
      forall i | 0 <= i < |c| - 1
        ensures c[i] in s.parent && c[i + 1] == s.parent[c[i]]
      {
        if i > 0 {
          assert c[i] == t[i - 1] && c[i + 1] == t[i];
        }
      }
    }
  }

  /** The first entry of `c1` that also occurs in `c2`. */
  function NearestCommon(c1: seq<Obj>, c2: seq<Obj>): (r: Option<Obj>)
    ensures r.Some? ==> r.value in c1 && r.value in c2
    ensures r.None? ==> forall a :: a in c1 ==> a !in c2
    ensures r.Some? ==> exists i :: 0 <= i < |c1| && c1[i] == r.value && forall j :: 0 <= j < i ==> c1[j] !in c2
  {
    if |c1| == 0 then None
    else if c1[0] in c2 then Some(c1[0])
    else
      var r := NearestCommon(c1[1..], c2);
      assert forall a :: a in c1 ==> a == c1[0] || a in c1[1..];
      if r.Some? then
        var i :| 0 <= i < |c1[1..]| && c1[1..][i] == r.value && forall j :: 0 <= j < i ==> c1[1..][j] !in c2;
        assert c1[i + 1] == r.value && forall j :: 0 <= j < i + 1 ==> c1[j] !in c2 by {
          forall j | 0 <= j < i + 1 ensures c1[j] !in c2 {
            if j > 0 { assert c1[j] == c1[1..][j - 1]; }
          }
        }
        r
      else r
  }

  /** The nearest ancestor-or-self of `g1` that is also an ancestor-or-self of
      `g2`; None when either is None or they share no ancestor. */
  function CommonRoot(s: Scene, g1: Option<Obj>, g2: Option<Obj>): (r: Option<Obj>)
    requires Valid(s)
    ensures g1.None? || g2.None? ==> r.None?
    ensures r.Some? ==> g1.Some? && g2.Some? && r.value in Chain(s, g1.value) && r.value in Chain(s, g2.value)
    ensures g1.Some? && g2.Some? ==>
              (r.None? <==> forall a :: a in Chain(s, g1.value) ==> a !in Chain(s, g2.value))
  {
    if g1.None? || g2.None? then None else NearestCommon(Chain(s, g1.value), Chain(s, g2.value))
  }

  /** An object is its own common root with itself and with any descendant. */
  lemma CommonRootOfAncestor(s: Scene, g: Obj, a: Obj)
    requires Valid(s) && a in Chain(s, g)
    ensures CommonRoot(s, Some(a), Some(a)) == Some(a)
    ensures CommonRoot(s, Some(a), Some(g)) == Some(a)
  {
  }

  /** `FindCommonRoot`: for each ancestor-or-self of `g1`, nearest first, walk
      the whole chain of `g2` looking for it. */
  method FindCommonRoot(s: Scene, g1: Option<Obj>, g2: Option<Obj>) returns (r: Option<Obj>)
    requires Valid(s)
    ensures r == CommonRoot(s, g1, g2)
    ensures r.Some? ==> exists i :: 0 <= i < |Chain(s, g1.value)| && Chain(s, g1.value)[i] == r.value &&
                          forall j :: 0 <= j < i ==> Chain(s, g1.value)[j] !in Chain(s, g2.value)
  {
    if g1.None? || g2.None? {
      return None;
    }
    var c1 := Chain(s, g1.value);
    var c2 := Chain(s, g2.value);
    ChainLinks(s, g1.value);
    ChainLinks(s, g2.value);
    var t1 := g1;
    ghost var i := 0;
    while t1.Some?
      invariant 0 <= i <= |c1|
      invariant t1 == (if i < |c1| then Some(c1[i]) else None)
      invariant forall j :: 0 <= j < i ==> c1[j] !in c2
      decreases |c1| - i
    {
      var t2 := g2;
      ghost var k := 0;
      while t2.Some?
        invariant 0 <= k <= |c2|
        invariant t2 == (if k < |c2| then Some(c2[k]) else None)
        invariant forall j :: 0 <= j < k ==> c2[j] != t1.value
        decreases |c2| - k
      {
        if t1 == t2 {
          NearestCommonIsFirst(c1, c2, i);
          return t1;
        }
        t2 := Parent(s, t2.value);
        k := k + 1;
      }
      t1 := Parent(s, t1.value);
      i := i + 1;
    }
    assert forall a :: a in c1 ==> a !in c2;
    return None;
  }

  /** The first entry of `c1` found in `c2`, after a prefix with none, is the nearest common one. */
  lemma {:induction false} NearestCommonIsFirst(c1: seq<Obj>, c2: seq<Obj>, i: int)
    requires 0 <= i < |c1| && c1[i] in c2
    requires forall j :: 0 <= j < i ==> c1[j] !in c2
    ensures NearestCommon(c1, c2) == Some(c1[i])
    decreases i
  {
    if i > 0 {
      NearestCommonIsFirst(c1[1..], c2, i - 1);
    }
  }
}
