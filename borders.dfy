/** Stage 6: attach each BORDER point to the first cluster that holds a CORE point
    within eps of it. */
module Borders {
  import opened Points

  /** Set s holds a CORE point within eps of point b. */
  ghost predicate Hosts(s: set<nat>, b: nat, locs: seq<int>, category: seq<Category>, eps: int)
    requires b < |locs|
  {
    exists c :: c in s && c < |locs| && c < |category| && category[c] == Core && Dist(locs, b, c) <= eps
  }

  /** The index of the first set of the list that hosts b, or |sets| when none does. */
  ghost function FirstHost(sets: seq<set<nat>>, b: nat, locs: seq<int>, category: seq<Category>, eps: int): (r: nat)
    requires b < |locs|
    ensures r <= |sets|
    ensures forall k :: 0 <= k < r ==> !Hosts(sets[k], b, locs, category, eps)
    ensures r < |sets| ==> Hosts(sets[r], b, locs, category, eps)
  {
    if sets == [] then 0
    else if Hosts(sets[0], b, locs, category, eps) then 0
    else 1 + FirstHost(sets[1..], b, locs, category, eps)
  }

  /** The inner loop over one set: look at its members in some order and stop at
      the first CORE point within eps of b. */
  method ScanSet(s: set<nat>, b: nat, locs: seq<int>, category: seq<Category>, eps: int)
    returns (found: bool)
    requires b < |locs|
    ensures found == Hosts(s, b, locs, category, eps)
  {
    var rest := s;
    while rest != {}
      invariant rest <= s
      invariant !Hosts(s - rest, b, locs, category, eps)
      decreases rest
    {
      var element :| element in rest;
      if element < |locs| && element < |category| && category[element] == Core && Dist(locs, b, element) <= eps {
        assert element in s;
        return true;
      }
      rest := rest - {element};
    }
    assert s - rest == s;
    return false;
  }

  /** add_border: the border point joins the first hosting set, and no other set
      changes; when no set hosts it the list is returned as it was. */
  method AddBorder(b: nat, setList: seq<set<nat>>, locs: seq<int>, category: seq<Category>, eps: int)
    returns (r: seq<set<nat>>)
    requires b < |locs|
    ensures |r| == |setList|
    ensures FirstHost(setList, b, locs, category, eps) < |setList| ==>
      r == setList[FirstHost(setList, b, locs, category, eps) := setList[FirstHost(setList, b, locs, category, eps)] + {b}]
    ensures FirstHost(setList, b, locs, category, eps) == |setList| ==> r == setList
  {
    for k := 0 to |setList|
      invariant forall j :: 0 <= j < k ==> !Hosts(setList[j], b, locs, category, eps)
    {
      var found := ScanSet(setList[k], b, locs, category, eps);
      if found {
        FirstHostIsFirst(setList, b, locs, category, eps, k);
        return setList[k := setList[k] + {b}];
      }
    }
    FirstHostIsFirst(setList, b, locs, category, eps, |setList|);
    return setList;
  }

  /** FirstHost is the only index that is a host (or the end of the list) with no
      host before it. */
  lemma FirstHostIsFirst(sets: seq<set<nat>>, b: nat, locs: seq<int>,
                         category: seq<Category>, eps: int, k: nat)
    requires b < |locs| && k <= |sets|
    requires forall j :: 0 <= j < k ==> !Hosts(sets[j], b, locs, category, eps)
    requires k < |sets| ==> Hosts(sets[k], b, locs, category, eps)
    ensures FirstHost(sets, b, locs, category, eps) == k
  {
  }

  /** A point with a CORE point within eps, when the sets hold every CORE point,
      has a hosting set: the attachment always succeeds for a BORDER point. */
  lemma BorderFindsHost(sets: seq<set<nat>>, b: nat, locs: seq<int>,
                        category: seq<Category>, eps: int, c: nat)
    requires b < |locs| && c < |locs| == |category| && category[c] == Core && Dist(locs, b, c) <= eps
    requires forall x :: 0 <= x < |category| && category[x] == Core ==> exists k :: 0 <= k < |sets| && x in sets[k]
    ensures FirstHost(sets, b, locs, category, eps) < |sets|
  {
  }
}
