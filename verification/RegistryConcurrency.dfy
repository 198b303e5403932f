// pkg/version/manager.go under concurrency. Register and Unregister are one critical section each;
// RegisterWithConstraints is two, between which other threads may run.
module RegistryConcurrency {
  import opened Registry

  type Thread = nat

  datatype Pending = Pending(name: string, constraints: seq<VersionConstraint>, since: nat)

  // `since` is the instant the first half ended.
  datatype Event =
    | Registered(name: string, component: Component)
    | Unregistered(name: string)
    | Constrained(name: string, constraints: seq<VersionConstraint>, since: nat, panicked: bool)

  datatype State = State(tables: Tables, pending: map<Thread, Pending>, log: seq<Event>)

  datatype Action =
    | DoRegister(c: Component)
    | StartConstrained(t: Thread, c: Component, constraints: seq<VersionConstraint>)
    | FinishConstrained(t: Thread)
    | DoUnregister(name: string)

  predicate Accepts(t: Tables, c: Component) {
    c.name != "" && c.name !in t.components
  }

  // A call that is refused, or not enabled, changes nothing.
  function Step(s: State, a: Action): State {
    match a
    case DoRegister(c) =>
      if !Accepts(s.tables, c) then s
      else s.(tables := Register(s.tables, c), log := s.log + [Registered(c.name, c)])
    case StartConstrained(t, c, cs) =>
      if t in s.pending || !Accepts(s.tables, c) then s
      else State(Register(s.tables, c), s.pending[t := Pending(c.name, cs, |s.log| + 1)], s.log + [Registered(c.name, c)])
    case FinishConstrained(t) =>
      if t !in s.pending then s
      else
        var p := s.pending[t];
        var (tables, panicked) := Constrain(s.tables, p.name, p.constraints);
        State(tables, s.pending - {t}, s.log + [Constrained(p.name, p.constraints, p.since, panicked)])
    case DoUnregister(name) =>
      if name !in s.tables.components then s
      else s.(tables := Unregister(s.tables, name), log := s.log + [Unregistered(name)])
  }

  function Run(schedule: seq<Action>): State {
    if schedule == [] then State(Tables(map[], map[], map[]), map[], [])
    else Step(Run(schedule[..|schedule| - 1]), schedule[|schedule| - 1])
  }

  predicate RegistersAs(e: Event, name: string) {
    e.Registered? && e.name == name
  }

  predicate Registers(e: Event, name: string) {
    RegistersAs(e, name) || e == Unregistered(name)
  }

  // The last time a name was registered or unregistered, or -1.
  function LastRegistration(log: seq<Event>, name: string): (r: int)
    ensures -1 <= r < |log|
    ensures r >= 0 ==> Registers(log[r], name)
    ensures forall i | r < i < |log| :: !Registers(log[i], name)
  {
    if log == [] then -1
    else if Registers(log[|log| - 1], name) then |log| - 1
    else LastRegistration(log[..|log| - 1], name)
  }

  predicate IsRegistered(log: seq<Event>, name: string) {
    var r := LastRegistration(log, name);
    r >= 0 && RegistersAs(log[r], name)
  }

  predicate ConstrainedAt(log: seq<Event>, name: string, j: int) {
    0 <= j < |log| && log[j].Constrained? && log[j].name == name
  }

  // A second half has run for the name and no removal since.
  ghost predicate IsConstrained(log: seq<Event>, name: string) {
    exists j | ConstrainedAt(log, name, j) :: forall k | j < k < |log| :: log[k] != Unregistered(name)
  }

  lemma OneMore(log: seq<Event>, e: Event, name: string)
    ensures IsRegistered(log + [e], name) <==> if Registers(e, name) then e.Registered? else IsRegistered(log, name)
    ensures IsConstrained(log + [e], name) <==>
      e != Unregistered(name) && (IsConstrained(log, name) || (e.Constrained? && e.name == name))
  {
    var more := log + [e];
    assert more[..|log|] == log;
    if e != Unregistered(name) {
      if IsConstrained(log, name) {
        var j :| ConstrainedAt(log, name, j) && forall k | j < k < |log| :: log[k] != Unregistered(name);
        assert ConstrainedAt(more, name, j);
      } else if e.Constrained? && e.name == name {
        assert ConstrainedAt(more, name, |log|);
      }
    }
    if IsConstrained(more, name) {
      var j :| ConstrainedAt(more, name, j) && forall k | j < k < |more| :: more[k] != Unregistered(name);
      if j < |log| {
        assert more[|log|] != Unregistered(name);
        assert ConstrainedAt(log, name, j);
        forall k | j < k < |log|
          ensures log[k] != Unregistered(name)
        {
          assert more[k] == log[k];
        }
      }
    }
  }

  ghost predicate NameOk(s: State, name: string) {
    && (name in s.tables.components <==> IsRegistered(s.log, name))
    && (name in s.tables.metas <==> IsRegistered(s.log, name))
    && (name in s.tables.constraints <==> IsConstrained(s.log, name))
  }

  lemma NameStep(s: State, a: Action, name: string)
    requires NameOk(s, name)
    ensures NameOk(Step(s, a), name)
  {
    var s' := Step(s, a);
    if s'.log != s.log {
      var e := s'.log[|s.log|];
      assert s'.log == s.log + [e];
      OneMore(s.log, e, name);
    }
  }

  // In every reachable state, for every name: it has a component, and has metadata, exactly when it
  // was registered last and not unregistered since; and it has constraints exactly when a second
  // half has run for it since it was last unregistered.
  lemma {:induction false} TablesFollowHistory(schedule: seq<Action>, name: string)
    ensures NameOk(Run(schedule), name)
  {
    if schedule != [] {
      TablesFollowHistory(schedule[..|schedule| - 1], name);
      NameStep(Run(schedule[..|schedule| - 1]), schedule[|schedule| - 1], name);
    }
  }

  lemma KeysAgree(schedule: seq<Action>)
    ensures Run(schedule).tables.components.Keys == Run(schedule).tables.metas.Keys
  {
    forall name
      ensures name in Run(schedule).tables.components <==> name in Run(schedule).tables.metas
    {
      TablesFollowHistory(schedule, name);
    }
  }

  // ---- What the tables hold ----

  // The last time a second half ran for a name, or -1.
  function LastConstrained(log: seq<Event>, name: string): (j: int)
    ensures -1 <= j < |log|
    ensures j >= 0 ==> ConstrainedAt(log, name, j)
    ensures forall i | j < i < |log| :: !ConstrainedAt(log, name, i)
  {
    if log == [] then -1
    else if ConstrainedAt(log, name, |log| - 1) then |log| - 1
    else
      var j := LastConstrained(log[..|log| - 1], name);
      assert forall i | 0 <= i < |log| - 1 :: ConstrainedAt(log, name, i) == ConstrainedAt(log[..|log| - 1], name, i);
      j
  }

  // The component registered last; the constraints of the last second half; and metadata of that
  // component, with those constraints only if the second half ran after the registration.
  ghost predicate ValuesOk(s: State, name: string) {
    var (r, j) := (LastRegistration(s.log, name), LastConstrained(s.log, name));
    && (name in s.tables.components ==>
          && RegistersAt(s.log, name, r) && s.tables.components[name] == s.log[r].component)
    && (name in s.tables.constraints ==>
          ConstrainedAt(s.log, name, j) && s.tables.constraints[name] == s.log[j].constraints)
    && (name in s.tables.metas ==>
          && RegistersAt(s.log, name, r)
          && var c := s.log[r].component;
             s.tables.metas[name] ==
               Meta(name, c.kind, c.supported, c.default, if j > r then s.log[j].constraints else []))
  }

  predicate RegistersAt(log: seq<Event>, name: string, i: int) {
    0 <= i < |log| && RegistersAs(log[i], name) && log[i].component.name == name
  }

  lemma LastOnes(log: seq<Event>, e: Event, name: string)
    ensures LastRegistration(log + [e], name) == if Registers(e, name) then |log| else LastRegistration(log, name)
    ensures LastConstrained(log + [e], name) == if e.Constrained? && e.name == name then |log| else LastConstrained(log, name)
  {
    assert (log + [e])[..|log|] == log;
  }

  lemma ValuesRegister(s: State, s': State, c: Component, name: string)
    requires ValuesOk(s, name)
    requires s'.tables == Register(s.tables, c) && s'.log == s.log + [Registered(c.name, c)]
    ensures ValuesOk(s', name)
  {
    LastOnes(s.log, Registered(c.name, c), name);
    assert s'.log[|s.log|] == Registered(c.name, c);
  }

  lemma ValuesConstrain(s: State, s': State, n: string, cs: seq<VersionConstraint>, since: nat, name: string)
    requires ValuesOk(s, name)
    requires s'.tables == Constrain(s.tables, n, cs).0
    requires s'.log == s.log + [Constrained(n, cs, since, Constrain(s.tables, n, cs).1)]
    ensures ValuesOk(s', name)
  {
    LastOnes(s.log, Constrained(n, cs, since, Constrain(s.tables, n, cs).1), name);
    assert s'.log[|s.log|].constraints == cs;
  }

  lemma ValuesUnregister(s: State, s': State, n: string, name: string)
    requires ValuesOk(s, name)
    requires s'.tables == Unregister(s.tables, n) && s'.log == s.log + [Unregistered(n)]
    ensures ValuesOk(s', name)
  {
    LastOnes(s.log, Unregistered(n), name);
  }

  lemma ValuesStep(s: State, a: Action, name: string)
    requires ValuesOk(s, name)
    ensures ValuesOk(Step(s, a), name)
  {
    var s' := Step(s, a);
    if s'.log != s.log {
      match a
      case DoRegister(c) => ValuesRegister(s, s', c, name);
      case StartConstrained(_, c, _) => ValuesRegister(s, s', c, name);
      case FinishConstrained(t) =>
        ValuesConstrain(s, s', s.pending[t].name, s.pending[t].constraints, s.pending[t].since, name);
      case DoUnregister(n) => ValuesUnregister(s, s', n, name);
    }
  }

  lemma {:induction false} ValuesFollowHistory(schedule: seq<Action>, name: string)
    ensures ValuesOk(Run(schedule), name)
  {
    if schedule != [] {
      ValuesFollowHistory(schedule[..|schedule| - 1], name);
      ValuesStep(Run(schedule[..|schedule| - 1]), schedule[|schedule| - 1], name);
    }
  }

  // A registration is accepted exactly if the name is not empty and not registered.
  lemma AcceptedIff(schedule: seq<Action>, c: Component)
    ensures var (log, log') := (Run(schedule).log, Run(schedule + [DoRegister(c)]).log);
            && (c.name != "" && !IsRegistered(log, c.name) ==> log' == log + [Registered(c.name, c)])
            && (c.name == "" || IsRegistered(log, c.name) ==> log' == log)
  {
    assert (schedule + [DoRegister(c)])[..|schedule|] == schedule;
    TablesFollowHistory(schedule, c.name);
  }

  // ---- When the second half panics ----

  predicate FirstHalfAt(log: seq<Event>, name: string, since: nat) {
    1 <= since <= |log| && RegistersAs(log[since - 1], name)
  }

  // A second half is preceded by its first half, and panics if its name is not registered when it runs.
  ghost predicate HalfOk(log: seq<Event>, j: nat)
    requires j < |log| && log[j].Constrained?
  {
    FirstHalfAt(log[..j], log[j].name, log[j].since) && (log[j].panicked <==> !IsRegistered(log[..j], log[j].name))
  }

  ghost predicate HalvesOk(s: State) {
    && (forall t | t in s.pending :: FirstHalfAt(s.log, s.pending[t].name, s.pending[t].since))
    && (forall j | 0 <= j < |s.log| && s.log[j].Constrained? :: HalfOk(s.log, j))
  }

  lemma HalvesStep(s: State, a: Action)
    requires HalvesOk(s)
    requires a.FinishConstrained? && a.t in s.pending ==> NameOk(s, s.pending[a.t].name)
    ensures HalvesOk(Step(s, a))
  {
    var s' := Step(s, a);
    forall j | 0 <= j < |s'.log| && s'.log[j].Constrained?
      ensures HalfOk(s'.log, j)
    {
      assert s'.log[..|s.log|] == s.log;
      if j < |s.log| {
        assert s'.log[..j] == s.log[..j] && HalfOk(s.log, j);
      }
    }
  }

  lemma {:induction false} HalvesHold(schedule: seq<Action>)
    ensures HalvesOk(Run(schedule))
  {
    if schedule != [] {
      var s, a := Run(schedule[..|schedule| - 1]), schedule[|schedule| - 1];
      HalvesHold(schedule[..|schedule| - 1]);
      if a.FinishConstrained? && a.t in s.pending {
        TablesFollowHistory(schedule[..|schedule| - 1], s.pending[a.t].name);
      }
      HalvesStep(s, a);
    }
  }

  // Since an instant the name was unregistered and not registered again.
  ghost predicate RemovedSince(log: seq<Event>, name: string, since: nat) {
    exists i | since <= i < |log| :: log[i] == Unregistered(name) && forall k | i < k < |log| :: !RegistersAs(log[k], name)
  }

  lemma RemovedIff(log: seq<Event>, name: string, since: nat)
    requires FirstHalfAt(log, name, since)
    ensures !IsRegistered(log, name) <==> RemovedSince(log, name, since)
  {
    var r := LastRegistration(log, name);
    assert Registers(log[since - 1], name);
    if !IsRegistered(log, name) {
      assert log[r] == Unregistered(name) && since <= r;
    }
    if RemovedSince(log, name, since) {
      var i :| since <= i < |log| && log[i] == Unregistered(name) && forall k | i < k < |log| :: !RegistersAs(log[k], name);
      assert Registers(log[i], name);
    }
  }

  // A second half panics exactly when, since its first half, its name was unregistered and not
  // registered again.
  lemma PanicsIff(schedule: seq<Action>, j: nat)
    requires j < |Run(schedule).log| && Run(schedule).log[j].Constrained?
    ensures var log := Run(schedule).log;
            log[j].panicked <==> RemovedSince(log[..j], log[j].name, log[j].since)
  {
    HalvesHold(schedule);
    var log := Run(schedule).log;
    assert HalfOk(log, j);
    RemovedIff(log[..j], log[j].name, log[j].since);
  }

  // ---- When constraints have lost their component ----

  // The last registration event about the name is an Unregister, and a second half has run for it since.
  ghost predicate Orphaned(log: seq<Event>, name: string) {
    exists i, j | 0 <= i < j < |log| ::
      log[i] == Unregistered(name) && ConstrainedAt(log, name, j) && forall k | i < k < |log| :: !Registers(log[k], name)
  }

  lemma OrphanedIff(log: seq<Event>, name: string)
    requires forall j | ConstrainedAt(log, name, j) :: HalfOk(log, j)
    ensures IsConstrained(log, name) && !IsRegistered(log, name) <==> Orphaned(log, name)
  {
    var r := LastRegistration(log, name);
    if IsConstrained(log, name) && !IsRegistered(log, name) {
      var j :| ConstrainedAt(log, name, j) && forall k | j < k < |log| :: log[k] != Unregistered(name);
      assert HalfOk(log, j);
      assert Registers(log[log[j].since - 1], name);
      assert log[r] == Unregistered(name) && r < j;
    }
    if Orphaned(log, name) {
      var i, j :| 0 <= i < j < |log| && log[i] == Unregistered(name) && ConstrainedAt(log, name, j)
                  && forall k | i < k < |log| :: !Registers(log[k], name);
      assert Registers(log[i], name) && r == i;
      forall k | j < k < |log|
        ensures log[k] != Unregistered(name)
      {
        assert !Registers(log[k], name);
      }
    }
  }

  // In every reachable state, those names have constraints without a component.
  lemma OrphanIff(schedule: seq<Action>, name: string)
    ensures var s := Run(schedule);
            name in s.tables.constraints && name !in s.tables.components <==> Orphaned(s.log, name)
  {
    TablesFollowHistory(schedule, name);
    HalvesHold(schedule);
    OrphanedIff(Run(schedule).log, name);
  }

  ghost predicate UnregisteredBetween(log: seq<Event>, name: string, from: nat, to: nat) {
    exists i | from <= i < to && i < |log| :: log[i] == Unregistered(name)
  }

  // An orphan had an Unregister between the halves, and so had a panic.
  lemma OrphanOverlaps(log: seq<Event>, name: string)
    requires forall j | ConstrainedAt(log, name, j) :: HalfOk(log, j)
    requires Orphaned(log, name)
    ensures exists j | ConstrainedAt(log, name, j) :: UnregisteredBetween(log, name, log[j].since, j)
  {
    var i, j :| 0 <= i < j < |log| && log[i] == Unregistered(name) && ConstrainedAt(log, name, j)
                && forall k | i < k < |log| :: !Registers(log[k], name);
    assert HalfOk(log, j);
    assert Registers(log[log[j].since - 1], name);
    assert log[j].since <= i;
  }

  lemma RemovedOverlaps(log: seq<Event>, name: string, since: nat, j: nat)
    requires j <= |log| && RemovedSince(log[..j], name, since)
    ensures UnregisteredBetween(log, name, since, j)
  {
    var front := log[..j];
    var i :| since <= i < |front| && front[i] == Unregistered(name) && forall k | i < k < |front| :: !RegistersAs(front[k], name);
    assert log[i] == Unregistered(name);
  }

  // In a run where no Unregister(name) falls between the halves of a RegisterWithConstraints(name),
  // nothing panics and only registered components have constraints.
  lemma ConstraintsHaveComponents(schedule: seq<Action>)
    requires var log := Run(schedule).log;
             forall j | 0 <= j < |log| && log[j].Constrained? :: !UnregisteredBetween(log, log[j].name, log[j].since, j)
    ensures var s := Run(schedule);
            && (forall j | 0 <= j < |s.log| && s.log[j].Constrained? :: !s.log[j].panicked)
            && s.tables.constraints.Keys <= s.tables.components.Keys
  {
    var s := Run(schedule);
    HalvesHold(schedule);
    forall j | 0 <= j < |s.log| && s.log[j].Constrained?
      ensures !s.log[j].panicked
    {
      PanicsIff(schedule, j);
      if s.log[j].panicked {
        RemovedOverlaps(s.log, s.log[j].name, s.log[j].since, j);
      }
    }
    forall name | name in s.tables.constraints
      ensures name in s.tables.components
    {
      OrphanIff(schedule, name);
      if Orphaned(s.log, name) {
        OrphanOverlaps(s.log, name);
      }
    }
  }

  // The condition matters: an Unregister between the halves leaves an orphan.
  lemma OrphanExample(c: Component, cs: seq<VersionConstraint>) returns (schedule: seq<Action>)
    requires c.name != ""
    ensures c.name in Run(schedule).tables.constraints && c.name !in Run(schedule).tables.components
  {
    schedule := [StartConstrained(0, c, cs), DoUnregister(c.name), FinishConstrained(0)];
    assert schedule[..3] == schedule && schedule[..2][..1] == schedule[..1] && schedule[..1][..0] == [];
    var s1 := Run(schedule[..1]);
    assert s1 == Step(Run([]), schedule[0]);
    var s2 := Run(schedule[..2]);
    assert s2 == Step(s1, schedule[1]);
    assert Run(schedule) == Step(s2, schedule[2]);
  }

  // If another component takes the name in between, nothing panics: it gets the first one's constraints.
  lemma ReregisteredExample(c: Component, other: Component, cs: seq<VersionConstraint>) returns (schedule: seq<Action>)
    requires c.name != "" && other.name == c.name
    ensures var s := Run(schedule);
            && s.log == [Registered(c.name, c), Unregistered(c.name), Registered(c.name, other),
                         Constrained(c.name, cs, 1, false)]
            && s.tables.components == map[c.name := other] && s.tables.constraints == map[c.name := cs]
  {
    schedule := [StartConstrained(0, c, cs), DoUnregister(c.name), DoRegister(other), FinishConstrained(0)];
    assert schedule[..4] == schedule && schedule[..3][..2] == schedule[..2];
    assert schedule[..2][..1] == schedule[..1] && schedule[..1][..0] == [];
    var s1 := Run(schedule[..1]);
    assert s1 == Step(Run([]), schedule[0]);
    var s2 := Run(schedule[..2]);
    assert s2 == Step(s1, schedule[1]);
    var s3 := Run(schedule[..3]);
    assert s3 == Step(s2, schedule[2]);
    assert Run(schedule) == Step(s3, schedule[3]);
  }
}
