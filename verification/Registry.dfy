// pkg/version/manager.go: the component registry, its compatibility check, and its critical
// sections interleaved by any number of threads.
module Registry {
  import opened Wrappers
  import opened Versions
  import opened Selection

  datatype VersionConstraint = VersionConstraint(component: string, range: VersionRange, conflicts: seq<Version>)

  datatype Component = Component(name: string, kind: string, supported: seq<Version>, default: Version)

  datatype Meta = Meta(name: string, kind: string, supported: seq<Version>, default: Version, constraints: seq<VersionConstraint>)

  type Constraints = map<string, seq<VersionConstraint>>

  datatype Error = NilComponent | EmptyName | AlreadyRegistered | NotFound | NoVersions | Incompatible

  // The three maps the manager guards with its lock.
  datatype Tables = Tables(components: map<string, Component>, metas: map<string, Meta>, constraints: Constraints)

  // ---- Critical sections ----

  function MetaOf(c: Component): Meta {
    Meta(c.name, c.kind, c.supported, c.default, [])
  }

  function Register(t: Tables, c: Component): Tables {
    t.(components := t.components[c.name := c], metas := t.metas[c.name := MetaOf(c)])
  }

  function Unregister(t: Tables, name: string): Tables {
    Tables(t.components - {name}, t.metas - {name}, t.constraints - {name})
  }

  // The second half of RegisterWithConstraints. The constraint is stored first; without metadata
  // the next statement panics.
  function Constrain(t: Tables, name: string, cs: seq<VersionConstraint>): (Tables, bool) {
    var constraints := t.constraints[name := cs];
    if name in t.metas then
      (t.(constraints := constraints, metas := t.metas[name := t.metas[name].(constraints := cs)]), false)
    else (t.(constraints := constraints), true)
  }

  // ---- Compatibility ----

  // One constraint against an assignment: it binds only if its component is listed.
  predicate Satisfied(c: VersionConstraint, versions: map<string, Version>) {
    c.component in versions ==>
      && InRange(c.range, versions[c.component])
      && forall i | 0 <= i < |c.conflicts| :: !versions[c.component].SameTriple(c.conflicts[i])
  }

  predicate AllSatisfied(cs: seq<VersionConstraint>, versions: map<string, Version>) {
    forall i | 0 <= i < |cs| :: Satisfied(cs[i], versions)
  }

  ghost predicate Compatible(constraints: Constraints, versions: map<string, Version>) {
    forall name | name in versions && name in constraints :: AllSatisfied(constraints[name], versions)
  }

  // A constraint on a listed component, by the numbers.
  ghost predicate Meets(c: VersionConstraint, versions: map<string, Version>)
    requires c.component in versions
  {
    var v := versions[c.component];
    && (|c.range.exact| > 0 ==> exists e | e in c.range.exact :: (e.major, e.minor, e.patch) == (v.major, v.minor, v.patch))
    && (|c.range.exact| == 0 ==> (Unset(c.range.min) || NotBelow(v, c.range.min)) && (Unset(c.range.max) || NotBelow(c.range.max, v)))
    && forall e | e in c.conflicts :: (e.major, e.minor, e.patch) != (v.major, v.minor, v.patch)
  }

  lemma MeetsSatisfies(c: VersionConstraint, versions: map<string, Version>)
    requires c.component in versions
    ensures Satisfied(c, versions) <==> Meets(c, versions)
  {
    var v := versions[c.component];
    RangeByNumbers(c.range, v);
    if i :| 0 <= i < |c.conflicts| && v.SameTriple(c.conflicts[i]) {
      assert c.conflicts[i] in c.conflicts;
    }
  }

  lemma CompatibleByNumbers(constraints: Constraints, versions: map<string, Version>)
    ensures Compatible(constraints, versions) <==>
      forall name, i | name in versions && name in constraints && 0 <= i < |constraints[name]|
                    && constraints[name][i].component in versions :: Meets(constraints[name][i], versions)
  {
    forall c: VersionConstraint | c.component in versions
      ensures Satisfied(c, versions) <==> Meets(c, versions)
    {
      MeetsSatisfies(c, versions);
    }
    if forall name, i | name in versions && name in constraints && 0 <= i < |constraints[name]|
                     && constraints[name][i].component in versions :: Meets(constraints[name][i], versions) {
      forall name | name in versions && name in constraints
        ensures AllSatisfied(constraints[name], versions)
      {
      }
    }
  }

  // Dropping components from the assignment keeps it compatible.
  lemma CompatibleShrinks(constraints: Constraints, versions: map<string, Version>, dropped: set<string>)
    requires Compatible(constraints, versions)
    ensures Compatible(constraints, versions - dropped)
  {
    forall name | name in versions - dropped && name in constraints
      ensures AllSatisfied(constraints[name], versions - dropped)
    {
      assert AllSatisfied(constraints[name], versions);
    }
  }

  // The verdict sees only the numeric triples of the assigned versions.
  lemma CompatibleSeesTriples(constraints: Constraints, v: map<string, Version>, w: map<string, Version>)
    requires v.Keys == w.Keys && forall name | name in v :: v[name].SameTriple(w[name])
    ensures Compatible(constraints, v) <==> Compatible(constraints, w)
  {
    forall c: VersionConstraint
      ensures Satisfied(c, v) <==> Satisfied(c, w)
    {
      if c.component in v {
        RangeSeesTriples(c.range, v[c.component], w[c.component]);
      }
    }
    forall cs
      ensures AllSatisfied(cs, v) <==> AllSatisfied(cs, w)
    {
    }
  }

  // The versions of a list that are compatible with a target, in the list's order.
  function CompatibleIn(versions: seq<Version>, target: Version): seq<Version> {
    if versions == [] then []
    else
      var v := versions[|versions| - 1];
      CompatibleIn(versions[..|versions| - 1], target) + (if v.IsCompatible(target) then [v] else [])
  }

  // No compatible version is dropped or repeated, and no other is listed.
  lemma {:induction false} CompatibleInKeeps(versions: seq<Version>, target: Version, v: Version)
    ensures multiset(CompatibleIn(versions, target))[v] == if v.IsCompatible(target) then multiset(versions)[v] else 0
  {
    if versions != [] {
      CompatibleInKeeps(versions[..|versions| - 1], target, v);
      assert versions == versions[..|versions| - 1] + [versions[|versions| - 1]];
    }
  }

  // The list's order is kept.
  lemma {:induction false} CompatibleInOrder(a: seq<Version>, b: seq<Version>, target: Version)
    ensures CompatibleIn(a + b, target) == CompatibleIn(a, target) + CompatibleIn(b, target)
  {
    if b == [] {
      assert a + b == a;
    } else {
      assert (a + b)[..|a + b| - 1] == a + b[..|b| - 1];
      CompatibleInOrder(a, b[..|b| - 1], target);
    }
  }

  class Manager {
    var components: map<string, Component>
    var componentMeta: map<string, Meta>
    var constraints: Constraints

    function State(): Tables
      reads this
    {
      Tables(components, componentMeta, constraints)
    }

    ghost predicate Valid()
      reads this
    {
      && components.Keys == componentMeta.Keys && constraints.Keys <= components.Keys
      && forall name | name in components :: components[name].name == name
    }

    constructor ()
      ensures Valid() && State() == Tables(map[], map[], map[])
    {
      components, componentMeta, constraints := map[], map[], map[];
    }

    method RegisterComponent(component: Option<Component>) returns (err: Option<Error>)
      requires Valid()
      modifies this
      ensures Valid()
      ensures err == if component.None? then Some(NilComponent)
                     else if component.value.name == "" then Some(EmptyName)
                     else if component.value.name in old(components) then Some(AlreadyRegistered) else None
      ensures err.Some? ==> State() == old(State())
      ensures err.None? ==>
        var c := component.value;
        && components == old(components)[c.name := c]
        && componentMeta == old(componentMeta)[c.name := Meta(c.name, c.kind, c.supported, c.default, [])]
        && constraints == old(constraints)
      ensures err.None? ==> State() == Register(old(State()), component.value)
    {
      if component.None? {
        return Some(NilComponent);
      }
      var name := component.value.name;
      if name == "" {
        return Some(EmptyName);
      }
      if name in components {
        return Some(AlreadyRegistered);
      }
      components := components[name := component.value];
      componentMeta := componentMeta[name := MetaOf(component.value)];
      err := None;
    }

    // Alone, the two halves cannot panic.
    method RegisterWithConstraints(component: Option<Component>, cs: seq<VersionConstraint>) returns (err: Option<Error>)
      requires Valid()
      modifies this
      ensures Valid()
      ensures err == if component.None? then Some(NilComponent)
                     else if component.value.name == "" then Some(EmptyName)
                     else if component.value.name in old(components) then Some(AlreadyRegistered) else None
      ensures err.None? ==>
        var c := component.value;
        && components == old(components)[c.name := c]
        && componentMeta == old(componentMeta)[c.name := Meta(c.name, c.kind, c.supported, c.default, cs)]
        && constraints == old(constraints)[c.name := cs]
      ensures err.None? ==> State() == Constrain(Register(old(State()), component.value), component.value.name, cs).0
      ensures err.Some? ==> State() == old(State())
    {
      err := RegisterComponent(component);
      if err.Some? {
        return;
      }
      var name := component.value.name;
      constraints := constraints[name := cs];
      componentMeta := componentMeta[name := componentMeta[name].(constraints := cs)];
    }

    method UnregisterComponent(name: string) returns (err: Option<Error>)
      requires Valid()
      modifies this
      ensures Valid()
      ensures err == if name in old(components) then None else Some(NotFound)
      ensures err.Some? ==> State() == old(State())
      ensures err.None? ==>
        && components == old(components) - {name} && componentMeta == old(componentMeta) - {name}
        && constraints == old(constraints) - {name}
      ensures err.None? ==> State() == Unregister(old(State()), name)
    {
      if name !in components {
        return Some(NotFound);
      }
      components := components - {name};
      componentMeta := componentMeta - {name};
      constraints := constraints - {name};
      err := None;
    }

    // No error exactly when every listed component's every constraint on a listed component is
    // satisfied, whatever order the assignment is visited in.
    method CheckCompatibility(componentVersions: map<string, Version>) returns (err: Option<Error>)
      ensures err.None? <==>
        forall name, i | name in componentVersions && name in constraints && 0 <= i < |constraints[name]|
                      && constraints[name][i].component in componentVersions ::
          Meets(constraints[name][i], componentVersions)
      ensures err.None? <==> Compatible(constraints, componentVersions)
    {
      CompatibleByNumbers(constraints, componentVersions);
      var todo := componentVersions.Keys;
      while todo != {}
        invariant todo <= componentVersions.Keys
        invariant forall name | name in componentVersions && name !in todo && name in constraints ::
          AllSatisfied(constraints[name], componentVersions)
        decreases todo
      {
        var componentName :| componentName in todo;
        todo := todo - {componentName};
        if componentName !in constraints {
          continue;
        }
        var cs := constraints[componentName];
        for i := 0 to |cs|
          invariant forall j | 0 <= j < i :: Satisfied(cs[j], componentVersions)
        {
          var c := cs[i];
          if c.component in componentVersions {
            var requiredVersion := componentVersions[c.component];
            var contained := RangeContains(c.range, requiredVersion);
            if !contained {
              assert !Satisfied(cs[i], componentVersions);
              return Some(Incompatible);
            }
            for k := 0 to |c.conflicts|
              invariant forall j | 0 <= j < k :: !requiredVersion.SameTriple(c.conflicts[j])
            {
              if requiredVersion.SameTriple(c.conflicts[k]) {
                assert !Satisfied(cs[i], componentVersions);
                return Some(Incompatible);
              }
            }
          }
        }
      }
      err := None;
    }

    method GetCompatibleVersions(name: string, target: Version) returns (r: Result<seq<Version>, Error>)
      ensures r.Failure? <==> name !in components
      ensures r.Success? ==> r.value == CompatibleIn(components[name].supported, target)
    {
      if name !in components {
        return Failure(NotFound);
      }
      var supported := components[name].supported;
      var compatible: seq<Version> := [];
      for i := 0 to |supported|
        invariant compatible == CompatibleIn(supported[..i], target)
      {
        assert supported[..i + 1][..i] == supported[..i];
        if supported[i].IsCompatible(target) {
          compatible := compatible + [supported[i]];
        }
      }
      assert supported[..|supported|] == supported;
      r := Success(compatible);
    }

    // The answer is a latest version, and asking for it leaves the component's own list sorted.
    method GetLatest(name: string) returns (r: Result<Version, Error>)
      requires Valid()
      modifies this`components
      ensures Valid() && components.Keys == old(components.Keys)
      ensures r.Failure? <==> name !in components || old(components)[name].supported == []
      ensures r.Failure? ==> components == old(components)
      ensures r.Success? ==>
        && r.value in old(components)[name].supported
        && (forall v | v in old(components)[name].supported :: NotBelow(r.value, v))
        && Sorted(components[name].supported, true)
        && multiset(components[name].supported) == multiset(old(components)[name].supported)
        && components == old(components)[name := old(components)[name].(supported := components[name].supported)]
    {
      if name !in components {
        return Failure(NotFound);
      }
      var versions := components[name].supported;
      if |versions| == 0 {
        return Failure(NoVersions);
      }
      var sorted := Sort(versions, true);
      components := components[name := components[name].(supported := sorted)];
      SameMembers(sorted, versions);
      forall a | a in versions
        ensures a.Compare(sorted[0]) <= 0
      {
        var i :| 0 <= i < |sorted| && sorted[i] == a;
        assert i > 0 ==> InOrder(sorted[0], sorted[i], true);
      }
      r := Success(sorted[0]);
    }
  }
}
