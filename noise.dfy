/** Stage 3: drop the NOISE points from the working list of points. */
module NoiseRemoval {
  import opened Points

  /** The elements of s that are not in drop, in their original order. */
  function Without(s: seq<nat>, drop: set<nat>): (r: seq<nat>)
    ensures forall x :: x in r <==> x in s && x !in drop
    ensures |r| <= |s|
  {
    if s == [] then []
    else if s[0] in drop then Without(s[1..], drop)
    else [s[0]] + Without(s[1..], drop)
  }

  /** The list's `remove`: delete the first occurrence of x. */
  function RemoveFirst(s: seq<nat>, x: nat): (r: seq<nat>)
    requires x in s
    ensures |r| == |s| - 1
    ensures multiset(r) == multiset(s) - multiset{x}
  {
    if s[0] == x then
      assert s == [s[0]] + s[1..];
      s[1..]
    else
      assert s == [s[0]] + s[1..];
      [s[0]] + RemoveFirst(s[1..], x)
  }

  /** The elements of a list, as a set. */
  ghost function Members(s: seq<nat>): (r: set<nat>)
  {
    set x | x in s
  }

  /** The points labelled NOISE. */
  ghost function NoiseSet(category: seq<Category>): (r: set<nat>)
  {
    set x: nat | x < |category| && category[x] == Noise
  }

  lemma {:induction false} WithoutDistinct(s: seq<nat>, drop: set<nat>)
    requires Distinct(s)
    ensures Distinct(Without(s, drop))
  {
    if s != [] {
      assert Distinct(s[1..]);
      WithoutDistinct(s[1..], drop);
      assert s[0] !in s[1..];
    }
  }

  /** Removing an element that is kept, from a list of distinct points, is the same
      as adding it to the dropped set. */
  lemma {:induction false} RemoveFirstWithout(s: seq<nat>, drop: set<nat>, x: nat)
    requires Distinct(s) && x in Without(s, drop)
    ensures RemoveFirst(Without(s, drop), x) == Without(s, drop + {x})
  {
    assert Distinct(s[1..]);
    if s[0] == x {
      assert x !in s[1..];
      WithoutSame(s[1..], drop, drop + {x});
    } else if s[0] in drop {
      RemoveFirstWithout(s[1..], drop, x);
    } else {
      RemoveFirstWithout(s[1..], drop, x);
    }
  }

  /** Only the dropped elements that occur in the list matter. */
  lemma {:induction false} WithoutSame(s: seq<nat>, drop1: set<nat>, drop2: set<nat>)
    requires forall x :: x in s ==> (x in drop1 <==> x in drop2)
    ensures Without(s, drop1) == Without(s, drop2)
  {
    if s != [] {
      WithoutSame(s[1..], drop1, drop2);
    }
  }

  /** First pass: collect the NOISE points of the list, in list order. */
  method FlagNoise(dpList: seq<nat>, category: array<Category>) returns (flagged: seq<nat>)
    requires Distinct(dpList)
    requires forall k :: 0 <= k < |dpList| ==> dpList[k] < category.Length
    ensures Distinct(flagged)
    ensures forall x :: x in flagged <==> x in dpList && category[x] == Noise
  {
    flagged := [];
    for k := 0 to |dpList|
      invariant Distinct(flagged)
      invariant forall x :: x in flagged <==> x in dpList[..k] && category[x] == Noise
    {
      assert dpList[..k + 1] == dpList[..k] + [dpList[k]];
      if category[dpList[k]] == Noise {
        flagged := flagged + [dpList[k]];
      }
    }
    assert dpList[..|dpList|] == dpList;
  }

  /** Second pass: remove each flagged point from the list. */
  method RemoveEach(dpList: seq<nat>, flagged: seq<nat>) returns (kept: seq<nat>)
    requires Distinct(dpList) && Distinct(flagged)
    requires forall x :: x in flagged ==> x in dpList
    ensures kept == Without(dpList, Members(flagged))
  {
    kept := dpList;
    WithoutNothing(dpList);
    ghost var removed: set<nat> := {};
    for t := 0 to |flagged|
      invariant kept == Without(dpList, removed)
      invariant forall x :: x in removed <==> x in flagged[..t]
    {
      assert flagged[t] !in flagged[..t];
      RemoveFirstWithout(dpList, removed, flagged[t]);
      kept := RemoveFirst(kept, flagged[t]);
      removed := removed + {flagged[t]};
      assert flagged[..t + 1] == flagged[..t] + [flagged[t]];
    }
    assert flagged[..|flagged|] == flagged;
    assert removed == Members(flagged);
  }

  /** Noise removal: the result is the list of CORE and BORDER points in their
      original relative order. */
  method RemoveNoise(dpList: seq<nat>, category: array<Category>) returns (kept: seq<nat>)
    requires Distinct(dpList)
    requires forall k :: 0 <= k < |dpList| ==> dpList[k] < category.Length
    ensures kept == Without(dpList, NoiseSet(category[..]))
    ensures forall x :: x in kept <==> x in dpList && category[x] != Noise
    ensures Distinct(kept)
  {
    var flagged := FlagNoise(dpList, category);
    kept := RemoveEach(dpList, flagged);
    WithoutSame(dpList, Members(flagged), NoiseSet(category[..]));
    WithoutDistinct(dpList, NoiseSet(category[..]));
  }

  lemma {:induction false} WithoutNothing(s: seq<nat>)
    ensures Without(s, {}) == s
  {
    if s != [] {
      WithoutNothing(s[1..]);
    }
  }
}
