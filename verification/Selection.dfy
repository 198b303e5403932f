// pkg/version/utils.go: sorting versions and choosing among them.
module Selection {
  import opened Versions

  // ---- Sorting ----

  predicate InOrder(a: Version, b: Version, descending: bool) {
    if descending then a.Compare(b) >= 0 else a.Compare(b) <= 0
  }

  predicate Sorted(s: seq<Version>, descending: bool) {
    forall i, j | 0 <= i < j < |s| :: InOrder(s[i], s[j], descending)
  }

  function Insert(s: seq<Version>, v: Version, descending: bool): seq<Version> {
    if s == [] then [v]
    else if InOrder(v, s[0], descending) then [v] + s
    else [s[0]] + Insert(s[1..], v, descending)
  }

  lemma {:induction false} InsertPermutes(s: seq<Version>, v: Version, descending: bool)
    ensures multiset(Insert(s, v, descending)) == multiset(s) + multiset{v}
  {
    if s != [] && !InOrder(v, s[0], descending) {
      InsertPermutes(s[1..], v, descending);
      assert s == [s[0]] + s[1..];
    }
  }

  lemma OrderFacts(a: Version, b: Version, c: Version, descending: bool)
    ensures InOrder(a, b, descending) && InOrder(b, c, descending) ==> InOrder(a, c, descending)
    ensures InOrder(a, b, descending) || InOrder(b, a, descending)
  {
  }

  lemma HeadFirst(s: seq<Version>, v: Version, descending: bool)
    requires s != [] && Sorted(s, descending) && InOrder(s[0], v, descending)
    ensures forall x | x in Insert(s[1..], v, descending) :: InOrder(s[0], x, descending)
  {
    var rest := Insert(s[1..], v, descending);
    InsertPermutes(s[1..], v, descending);
    forall x | x in rest
      ensures InOrder(s[0], x, descending)
    {
      assert x in multiset(rest);
      if x != v {
        assert x in multiset(s[1..]);
        var i :| 0 < i < |s| && s[i] == x;
      }
    }
  }

  lemma {:induction false} InsertSorts(s: seq<Version>, v: Version, descending: bool)
    requires Sorted(s, descending)
    ensures Sorted(Insert(s, v, descending), descending)
  {
    if s != [] {
      OrderFacts(v, s[0], v, descending);
      if InOrder(v, s[0], descending) {
        forall i | 0 <= i < |s|
          ensures InOrder(v, s[i], descending)
        {
          OrderFacts(v, s[0], s[i], descending);
        }
      } else {
        HeadFirst(s, v, descending);
        InsertSorts(s[1..], v, descending);
      }
    }
  }

  // Any sorted permutation will do: equal triples may come in any order.
  method Sort(versions: seq<Version>, descending: bool) returns (sorted: seq<Version>)
    ensures Sorted(sorted, descending) && multiset(sorted) == multiset(versions)
    ensures forall i, j | 0 <= i < j < |sorted| ::
      if descending then NotBelow(sorted[i], sorted[j]) else NotBelow(sorted[j], sorted[i])
  {
    sorted := [];
    for i := 0 to |versions|
      invariant Sorted(sorted, descending) && multiset(sorted) == multiset(versions[..i])
    {
      assert versions[..i + 1] == versions[..i] + [versions[i]];
      InsertPermutes(sorted, versions[i], descending);
      InsertSorts(sorted, versions[i], descending);
      sorted := Insert(sorted, versions[i], descending);
    }
    assert versions[..|versions|] == versions;
    forall i, j | 0 <= i < j < |sorted|
      ensures if descending then NotBelow(sorted[i], sorted[j]) else NotBelow(sorted[j], sorted[i])
    {
      assert InOrder(sorted[i], sorted[j], descending);
    }
  }

  lemma SameMembers(a: seq<Version>, b: seq<Version>)
    requires multiset(a) == multiset(b)
    ensures forall v :: v in a <==> v in b
  {
    forall v
      ensures v in a <==> v in b
    {
      assert v in a <==> v in multiset(a);
      assert v in b <==> v in multiset(b);
    }
  }

  // ---- Choosing ----

  ghost predicate IsLatest(versions: seq<Version>, v: Version) {
    v in versions && forall a | a in versions :: a.Compare(v) <= 0
  }

  method GetLatestVersion(versions: seq<Version>) returns (v: Version)
    ensures if versions == [] then v == ZERO else IsLatest(versions, v)
    ensures versions != [] ==> v in versions && forall a | a in versions :: NotBelow(v, a)
  {
    if |versions| == 0 {
      return ZERO;
    }
    var sorted := Sort(versions, true);
    SameMembers(sorted, versions);
    v := sorted[0];
    forall a | a in versions
      ensures a.Compare(v) <= 0
    {
      var i :| 0 <= i < |sorted| && sorted[i] == a;
      assert i > 0 ==> InOrder(sorted[0], sorted[i], true);
    }
  }

  method GetOldestVersion(versions: seq<Version>) returns (v: Version)
    ensures if versions == [] then v == ZERO
            else v in versions && forall a | a in versions :: a.Compare(v) >= 0 && NotBelow(a, v)
  {
    if |versions| == 0 {
      return ZERO;
    }
    var sorted := Sort(versions, false);
    SameMembers(sorted, versions);
    v := sorted[0];
    forall a | a in versions
      ensures a.Compare(v) >= 0 && NotBelow(a, v)
    {
      var i :| 0 <= i < |sorted| && sorted[i] == a;
      assert i > 0 ==> InOrder(sorted[0], sorted[i], false);
    }
  }

  ghost predicate HasTriple(versions: seq<Version>, t: Version) {
    exists a | a in versions :: a.SameTriple(t)
  }

  ghost predicate HasCompatible(versions: seq<Version>, t: Version) {
    exists a | a in versions :: a.IsCompatible(t)
  }

  // A member with the target's triple if there is one, else a latest compatible member if there
  // is one, else a latest member.
  ghost predicate IsClosest(target: Version, available: seq<Version>, v: Version) {
    && v in available
    && if HasTriple(available, target) then v.SameTriple(target)
       else if HasCompatible(available, target) then
         v.IsCompatible(target) && forall a | a in available && a.IsCompatible(target) :: a.Compare(v) <= 0
       else forall a | a in available :: a.Compare(v) <= 0
  }

  method FindClosestVersion(target: Version, available: seq<Version>) returns (v: Version)
    ensures if available == [] then v == ZERO else IsClosest(target, available, v)
    ensures HasTriple(available, target) ==>
      exists i | 0 <= i < |available| :: v == available[i] && forall j | 0 <= j < i :: !available[j].SameTriple(target)
    ensures available != [] ==>
      && v in available
      && var same := (a: Version) => (a.major, a.minor, a.patch) == (target.major, target.minor, target.patch);
         var after := (a: Version) => a.major == target.major && NotBelow(a, target);
         if exists a | a in available :: same(a) then same(v)
         else if exists a | a in available :: after(a) then after(v) && forall a | a in available && after(a) :: NotBelow(v, a)
         else forall a | a in available :: NotBelow(v, a)
  {
    if |available| == 0 {
      return ZERO;
    }
    for i := 0 to |available|
      invariant forall j | 0 <= j < i :: !available[j].SameTriple(target)
    {
      if available[i].Compare(target) == 0 {
        CompareIsTotalPreorder(available[i], target, target);
        return available[i];
      }
    }
    var compatible: seq<Version> := [];
    for i := 0 to |available|
      invariant forall a | a in compatible :: a in available && a.IsCompatible(target)
      invariant forall j | 0 <= j < i && available[j].IsCompatible(target) :: available[j] in compatible
    {
      if available[i].IsCompatible(target) {
        compatible := compatible + [available[i]];
      }
    }
    assert !HasTriple(available, target);
    if |compatible| > 0 {
      v := GetLatestVersion(compatible);
      return;
    }
    v := GetLatestVersion(available);
  }

  ghost predicate SameTriples(a: seq<Version>, b: seq<Version>) {
    && (forall v | v in a :: HasTriple(b, v))
    && (forall v | v in b :: HasTriple(a, v))
  }

  lemma TripleFacts(a: Version, b: Version, t: Version)
    requires a.SameTriple(b)
    ensures a.SameTriple(t) <==> b.SameTriple(t)
    ensures a.IsCompatible(t) <==> b.IsCompatible(t)
    ensures a.Compare(t) == b.Compare(t)
  {
  }

  lemma SameTriplesAgree(a: seq<Version>, b: seq<Version>, t: Version)
    requires SameTriples(a, b)
    ensures HasTriple(a, t) ==> HasTriple(b, t)
    ensures HasCompatible(a, t) ==> HasCompatible(b, t)
  {
    if HasTriple(a, t) {
      var x :| x in a && x.SameTriple(t);
      var y :| y in b && y.SameTriple(x);
      assert y.SameTriple(t);
    }
    if HasCompatible(a, t) {
      var x :| x in a && x.IsCompatible(t);
      var y :| y in b && y.SameTriple(x);
      TripleFacts(y, x, t);
    }
  }

  // One of two answers, for lists with the same triples, is never above the other.
  lemma ClosestNotAbove(target: Version, a: seq<Version>, b: seq<Version>, v: Version, w: Version)
    requires SameTriples(a, b) && IsClosest(target, a, v) && IsClosest(target, b, w)
    ensures v.Compare(w) <= 0
  {
    SameTriplesAgree(a, b, target);
    SameTriplesAgree(b, a, target);
    assert HasTriple(b, v);
    var y :| y in b && y.SameTriple(v);
    TripleFacts(y, v, target);
    TripleFacts(y, v, w);
  }

  // The triple of the answer depends only on the set of triples offered.
  lemma ClosestTripleDetermined(target: Version, a: seq<Version>, b: seq<Version>, v: Version, w: Version)
    requires SameTriples(a, b) && IsClosest(target, a, v) && IsClosest(target, b, w)
    ensures v.SameTriple(w)
  {
    ClosestNotAbove(target, a, b, v, w);
    ClosestNotAbove(target, b, a, w, v);
    CompareIsTotalPreorder(v, w, v);
  }

  // Asking again for the answer gives the same triple.
  lemma ClosestIdempotent(target: Version, available: seq<Version>, v: Version, w: Version)
    requires IsClosest(target, available, v) && IsClosest(v, available, w)
    ensures w.SameTriple(v)
  {
    assert v.SameTriple(v);
    assert HasTriple(available, v);
  }

  // ---- Grouping ----

  function OfMajor(versions: seq<Version>, major: int): seq<Version> {
    if versions == [] then []
    else
      var v := versions[|versions| - 1];
      OfMajor(versions[..|versions| - 1], major) + (if v.major == major then [v] else [])
  }

  lemma OfMajorMore(versions: seq<Version>, v: Version, major: int)
    ensures OfMajor(versions + [v], major) == OfMajor(versions, major) + (if v.major == major then [v] else [])
  {
    assert (versions + [v])[..|versions|] == versions;
  }

  // Each version lands in exactly the group of its major, and each group is sorted ascending.
  method GroupVersionsByMajor(versions: seq<Version>) returns (groups: map<int, seq<Version>>)
    ensures forall m :: m in groups <==> exists v | v in versions :: v.major == m
    ensures forall m | m in groups ::
      && (forall i, j | 0 <= i < j < |groups[m]| :: NotBelow(groups[m][j], groups[m][i]))
      && forall v :: multiset(groups[m])[v] == (if v.major == m then multiset(versions)[v] else 0)
  {
    groups := map[];
    for i := 0 to |versions|
      invariant forall m :: m in groups <==> OfMajor(versions[..i], m) != []
      invariant forall m | m in groups :: groups[m] == OfMajor(versions[..i], m)
    {
      var v := versions[i];
      assert versions[..i + 1] == versions[..i] + [v];
      forall m
        ensures OfMajor(versions[..i + 1], m) == OfMajor(versions[..i], m) + (if v.major == m then [v] else [])
      {
        OfMajorMore(versions[..i], v, m);
      }
      groups := groups[v.major := (if v.major in groups then groups[v.major] else []) + [v]];
    }
    assert versions[..|versions|] == versions;
    forall m
      ensures OfMajor(versions, m) != [] <==> exists v | v in versions :: v.major == m
      ensures forall v :: multiset(OfMajor(versions, m))[v] == (if v.major == m then multiset(versions)[v] else 0)
    {
      OfMajorKeeps(versions, m);
    }
    groups := SortGroups(groups);
    forall m, i, j | m in groups && 0 <= i < j < |groups[m]|
      ensures NotBelow(groups[m][j], groups[m][i])
    {
      assert InOrder(groups[m][i], groups[m][j], false);
    }
  }

  lemma {:induction false} OfMajorKeeps(versions: seq<Version>, major: int)
    ensures OfMajor(versions, major) != [] <==> exists v | v in versions :: v.major == major
    ensures forall v :: multiset(OfMajor(versions, major))[v] == (if v.major == major then multiset(versions)[v] else 0)
  {
    if versions != [] {
      var front, last := versions[..|versions| - 1], versions[|versions| - 1];
      assert versions == front + [last];
      OfMajorKeeps(front, major);
    }
  }

  method SortGroups(groups: map<int, seq<Version>>) returns (sorted: map<int, seq<Version>>)
    ensures sorted.Keys == groups.Keys
    ensures forall m | m in groups :: Sorted(sorted[m], false) && multiset(sorted[m]) == multiset(groups[m])
  {
    sorted := groups;
    var todo := groups.Items;
    while todo != {}
      invariant todo <= groups.Items
      invariant sorted.Keys == groups.Keys
      invariant forall m | m in groups && (m, groups[m]) in todo :: sorted[m] == groups[m]
      invariant forall m | m in groups && (m, groups[m]) !in todo ::
        Sorted(sorted[m], false) && multiset(sorted[m]) == multiset(groups[m])
      decreases todo
    {
      var item :| item in todo;
      todo := todo - {item};
      var group := Sort(item.1, false);
      sorted := sorted[item.0 := group];
    }
  }
}
