// pkg/version/migration.go: rewriting a record through field mappings, and the reverse mappings.
// Values are an abstract type V with `show` standing for the "string" transform.
module Migration {
  import opened Wrappers

  datatype FieldMapping<V> = FieldMapping(
    fromField: string,
    toField: string,
    transform: string,
    defaultValue: Option<V>,
    required: bool)

  type Mappings<V> = seq<FieldMapping<V>>

  type Record<V> = map<string, V>

  datatype MissingField = MissingField(name: string)

  // Only the "string" transform does anything; "int" and unknown names leave the value alone.
  function TransformValue<V>(show: V -> V, value: V, transform: string): V {
    if transform == "string" then show(value) else value
  }

  // ---- Meaning ----

  // A mapping writes its target if its source is present or it has a default.
  predicate Writes<V>(mapping: FieldMapping<V>, input: Record<V>) {
    mapping.fromField in input || mapping.defaultValue.Some?
  }

  predicate Blocks<V>(mapping: FieldMapping<V>, input: Record<V>) {
    !Writes(mapping, input) && mapping.required
  }

  function Written<V>(show: V -> V, mapping: FieldMapping<V>, input: Record<V>): V
    requires Writes(mapping, input)
  {
    if mapping.fromField in input then TransformValue(show, input[mapping.fromField], mapping.transform)
    else mapping.defaultValue.value
  }

  predicate IsSource<V>(mappings: Mappings<V>, field: string) {
    exists i | 0 <= i < |mappings| :: mappings[i].fromField == field
  }

  predicate IsTarget<V>(mappings: Mappings<V>, field: string) {
    exists i | 0 <= i < |mappings| :: mappings[i].toField == field
  }

  // The last mapping that writes a field, or -1.
  function LastWriter<V>(mappings: Mappings<V>, input: Record<V>, field: string): (r: int)
    ensures -1 <= r < |mappings|
    ensures r >= 0 ==> mappings[r].toField == field && Writes(mappings[r], input)
    ensures forall i | r < i < |mappings| :: !(mappings[i].toField == field && Writes(mappings[i], input))
  {
    if mappings == [] then -1
    else
      var n := |mappings| - 1;
      if mappings[n].toField == field && Writes(mappings[n], input) then n
      else LastWriter(mappings[..n], input, field)
  }

  function Targets<V>(mappings: Mappings<V>): set<string> {
    set i | 0 <= i < |mappings| :: mappings[i].toField
  }

  predicate InResult<V>(mappings: Mappings<V>, input: Record<V>, field: string) {
    (field in input && !IsSource(mappings, field)) || LastWriter(mappings, input, field) >= 0
  }

  // The value of a result field: fields that are no mapping's source are copied last and win.
  function ResultValue<V>(show: V -> V, mappings: Mappings<V>, input: Record<V>, field: string): V
    requires InResult(mappings, input, field)
  {
    if field in input && !IsSource(mappings, field) then input[field]
    else Written(show, mappings[LastWriter(mappings, input, field)], input)
  }

  function Migrated<V>(show: V -> V, mappings: Mappings<V>, input: Record<V>): Record<V> {
    map k | k in input.Keys + Targets(mappings) && InResult(mappings, input, k) :: ResultValue(show, mappings, input, k)
  }

  predicate Succeeds<V>(mappings: Mappings<V>, input: Record<V>) {
    forall i | 0 <= i < |mappings| :: !Blocks(mappings[i], input)
  }

  lemma {:induction false} MigratedKeys<V>(show: V -> V, mappings: Mappings<V>, input: Record<V>, k: string)
    ensures k in Migrated(show, mappings, input) <==> InResult(mappings, input, k)
  {
    if LastWriter(mappings, input, k) >= 0 {
      assert mappings[LastWriter(mappings, input, k)].toField in Targets(mappings);
    }
  }

  // ---- The loops ----

  // The fields written by the mappings, before the unmapped ones are copied.
  ghost predicate WrittenBy<V>(show: V -> V, mappings: Mappings<V>, input: Record<V>, r: Record<V>) {
    && (forall k :: k in r <==> LastWriter(mappings, input, k) >= 0)
    && (forall k | k in r :: r[k] == Written(show, mappings[LastWriter(mappings, input, k)], input))
  }

  lemma WriteOne<V>(show: V -> V, mappings: Mappings<V>, input: Record<V>, r: Record<V>, m: FieldMapping<V>)
    requires WrittenBy(show, mappings, input, r)
    ensures WrittenBy(show, mappings + [m], input, if Writes(m, input) then r[m.toField := Written(show, m, input)] else r)
  {
    var more := mappings + [m];
    assert more[..|mappings|] == mappings;
    forall k
      ensures LastWriter(more, input, k) ==
        if m.toField == k && Writes(m, input) then |mappings| else LastWriter(mappings, input, k)
    {
    }
  }

  method ApplyMappings<V>(show: V -> V, mappings: Mappings<V>, input: Record<V>)
    returns (r: Result<Record<V>, MissingField>)
    ensures r.Success? <==> Succeeds(mappings, input)
    ensures r.Success? ==> WrittenBy(show, mappings, input, r.value)
    ensures r.Failure? ==> exists i | 0 <= i < |mappings| ::
      Blocks(mappings[i], input) && r.error == MissingField(mappings[i].fromField) && Succeeds(mappings[..i], input)
  {
    var result: Record<V> := map[];
    for i := 0 to |mappings|
      invariant Succeeds(mappings[..i], input)
      invariant WrittenBy(show, mappings[..i], input, result)
    {
      var mapping := mappings[i];
      assert mappings[..i + 1] == mappings[..i] + [mapping];
      WriteOne(show, mappings[..i], input, result, mapping);
      if mapping.fromField in input {
        result := result[mapping.toField := TransformValue(show, input[mapping.fromField], mapping.transform)];
      } else if mapping.defaultValue.Some? {
        result := result[mapping.toField := mapping.defaultValue.value];
      } else if mapping.required {
        return Failure(MissingField(mapping.fromField));
      }
    }
    assert mappings[..|mappings|] == mappings;
    r := Success(result);
  }

  // The input is visited in an arbitrary order, which does not show.
  method CopyUnmapped<V>(mappings: Mappings<V>, input: Record<V>, mapped: Record<V>) returns (result: Record<V>)
    ensures result == mapped + map k | k in input && !IsSource(mappings, k) :: input[k]
  {
    result := mapped;
    var todo := input.Keys;
    while todo != {}
      invariant todo <= input.Keys
      invariant result == mapped + map k | k in input && k !in todo && !IsSource(mappings, k) :: input[k]
      decreases todo
    {
      var key :| key in todo;
      todo := todo - {key};
      var mappingExists := false;
      for i := 0 to |mappings|
        invariant !mappingExists
        invariant forall j | 0 <= j < i :: mappings[j].fromField != key
      {
        if mappings[i].fromField == key {
          mappingExists := true;
          break;
        }
      }
      assert mappingExists <==> IsSource(mappings, key);
      if !mappingExists {
        result := result[key := input[key]];
      }
    }
  }

  // A mapping does something for an input if its source is present or it has a default.
  ghost predicate Applies<V>(mapping: FieldMapping<V>, input: Record<V>) {
    mapping.fromField in input || mapping.defaultValue.Some?
  }

  // Mapping i is the last that applies to its target.
  ghost predicate LastApplied<V>(mappings: Mappings<V>, input: Record<V>, i: int) {
    && 0 <= i < |mappings| && Applies(mappings[i], input)
    && forall j | i < j < |mappings| && mappings[j].toField == mappings[i].toField :: !Applies(mappings[j], input)
  }

  lemma LastAppliedWrites<V>(mappings: Mappings<V>, input: Record<V>, i: int)
    requires LastApplied(mappings, input, i)
    ensures LastWriter(mappings, input, mappings[i].toField) == i
  {
    var w := LastWriter(mappings, input, mappings[i].toField);
    assert Writes(mappings[i], input);
    assert w >= i;
  }

  // What the result holds, field by field.
  ghost predicate Holds<V>(show: V -> V, mappings: Mappings<V>, input: Record<V>, out: Record<V>) {
    // Fields that no mapping reads are copied.
    && (forall k | k in input && (forall j | 0 <= j < |mappings| :: mappings[j].fromField != k) ::
          k in out && out[k] == input[k])
    // Any other target holds what the last applicable mapping says: the source, as text if so transformed,
    // or the default.
    && (forall i | LastApplied(mappings, input, i)
                && (mappings[i].toField in input ==> exists j | 0 <= j < |mappings| :: mappings[j].fromField == mappings[i].toField) ::
          && mappings[i].toField in out
          && (mappings[i].fromField in input && mappings[i].transform == "string" ==>
                out[mappings[i].toField] == show(input[mappings[i].fromField]))
          && (mappings[i].fromField in input && mappings[i].transform != "string" ==>
                out[mappings[i].toField] == input[mappings[i].fromField])
          && (mappings[i].fromField !in input ==> Some(out[mappings[i].toField]) == mappings[i].defaultValue))
    // There are no other fields.
    && (forall k | k in out ::
          || (k in input && forall j | 0 <= j < |mappings| :: mappings[j].fromField != k)
          || exists i | 0 <= i < |mappings| :: mappings[i].toField == k && Applies(mappings[i], input))
  }

  lemma MigratedHolds<V>(show: V -> V, mappings: Mappings<V>, input: Record<V>)
    ensures Holds(show, mappings, input, Migrated(show, mappings, input))
  {
    var out := Migrated(show, mappings, input);
    forall k
      ensures k in out <==> InResult(mappings, input, k)
    {
      MigratedKeys(show, mappings, input, k);
    }
    forall i | LastApplied(mappings, input, i)
      ensures LastWriter(mappings, input, mappings[i].toField) == i
    {
      LastAppliedWrites(mappings, input, i);
    }
    forall k | k in out && !(k in input && forall j | 0 <= j < |mappings| :: mappings[j].fromField != k)
      ensures exists i | 0 <= i < |mappings| :: mappings[i].toField == k && Applies(mappings[i], input)
    {
      var w := LastWriter(mappings, input, k);
      assert Applies(mappings[w], input);
    }
  }

  // Fails exactly when some required mapping has neither source nor default, naming the first.
  method MigrateMapData<V>(show: V -> V, mappings: Mappings<V>, input: Record<V>)
    returns (r: Result<Record<V>, MissingField>)
    ensures r.Success? <==> forall i | 0 <= i < |mappings| && mappings[i].required :: Applies(mappings[i], input)
    ensures r.Success? ==> Holds(show, mappings, input, r.value)
    ensures r.Failure? ==> exists i | 0 <= i < |mappings| ::
      && mappings[i].required && !Applies(mappings[i], input) && r.error == MissingField(mappings[i].fromField)
      && forall j | 0 <= j < i && mappings[j].required :: Applies(mappings[j], input)
    ensures r.Success? <==> Succeeds(mappings, input)
    ensures r.Success? ==> r.value == Migrated(show, mappings, input)
  {
    r := ApplyMappings(show, mappings, input);
    BlocksUnlessApplies(mappings, input);
    if r.Success? {
      var result := CopyUnmapped(mappings, input, r.value);
      CopiedIsMigrated(show, mappings, input, r.value, result);
      MigratedHolds(show, mappings, input);
      r := Success(result);
    }
  }

  lemma BlocksUnlessApplies<V>(mappings: Mappings<V>, input: Record<V>)
    ensures forall i | 0 <= i < |mappings| :: Blocks(mappings[i], input) <==> mappings[i].required && !Applies(mappings[i], input)
    ensures Succeeds(mappings, input) <==> forall i | 0 <= i < |mappings| && mappings[i].required :: Applies(mappings[i], input)
  {
  }

  lemma CopiedIsMigrated<V>(show: V -> V, mappings: Mappings<V>, input: Record<V>, mapped: Record<V>, result: Record<V>)
    requires WrittenBy(show, mappings, input, mapped)
    requires result == mapped + map k | k in input && !IsSource(mappings, k) :: input[k]
    ensures result == Migrated(show, mappings, input)
  {
    forall k
      ensures k in Migrated(show, mappings, input) <==> k in result
      ensures k in result ==> Migrated(show, mappings, input)[k] == result[k]
    {
      MigratedKeys(show, mappings, input, k);
    }
  }

  // ---- Reversal ----

  // Sources and targets swap; transforms and defaults are dropped.
  function Reversed<V>(mapping: FieldMapping<V>): FieldMapping<V> {
    FieldMapping(mapping.toField, mapping.fromField, "", None, mapping.required)
  }

  function Reverse<V>(mappings: Mappings<V>): Mappings<V> {
    seq(|mappings|, i requires 0 <= i < |mappings| => Reversed(mappings[i]))
  }

  // Element by element: the names swapped, no transform, no default, required as before.
  ghost predicate AreReversals<V>(reversed: Mappings<V>, mappings: Mappings<V>) {
    |reversed| == |mappings| && forall i | 0 <= i < |mappings| ::
      && reversed[i].fromField == mappings[i].toField && reversed[i].toField == mappings[i].fromField
      && reversed[i].transform == "" && reversed[i].defaultValue == None && reversed[i].required == mappings[i].required
  }

  method ReverseFieldMappings<V>(mappings: Mappings<V>) returns (reversed: array<FieldMapping<V>>)
    ensures fresh(reversed) && reversed[..] == Reverse(mappings)
    ensures AreReversals(reversed[..], mappings)
  {
    reversed := new FieldMapping<V>[|mappings|](i requires 0 <= i < |mappings| => mappings[i]);
    for i := 0 to |mappings|
      invariant forall j | 0 <= j < i :: reversed[j] == Reversed(mappings[j])
    {
      var mapping := mappings[i];
      reversed[i] := FieldMapping(mapping.toField, mapping.fromField, "", None, mapping.required);
    }
  }

  // The derived reverse mappings never fail on a record the forward mappings produced.
  lemma {:induction false} ReverseTotal<V>(show: V -> V, mappings: Mappings<V>, input: Record<V>)
    requires Succeeds(mappings, input)
    ensures Succeeds(Reverse(mappings), Migrated(show, mappings, input))
  {
    forall i | 0 <= i < |mappings|
      ensures !Blocks(Reverse(mappings)[i], Migrated(show, mappings, input))
    {
      assert !Blocks(mappings[i], input);
      MigratedKeys(show, mappings, input, mappings[i].toField);
    }
  }

  // ---- Round trip ----

  predicate LastFrom<V>(mappings: Mappings<V>, i: int) {
    0 <= i < |mappings| && forall j | i < j < |mappings| :: mappings[j].fromField != mappings[i].fromField
  }

  // What the forward mappings must not lose: (1) no unmapped input field shares a name with a
  // target, (2) a mapping whose source is absent has a target nobody writes, (3) the last
  // mapping of a present source finds that source's value under its target.
  ghost predicate Recoverable<V>(show: V -> V, mappings: Mappings<V>, input: Record<V>) {
    && (forall k | k in input && !IsSource(mappings, k) :: !IsTarget(mappings, k))
    && (forall i | 0 <= i < |mappings| && mappings[i].fromField !in input ::
          LastWriter(mappings, input, mappings[i].toField) == -1)
    && (forall i | LastFrom(mappings, i) && mappings[i].fromField in input ::
          var w := LastWriter(mappings, input, mappings[i].toField);
          w >= 0 && Written(show, mappings[w], input) == input[mappings[i].fromField])
  }

  function RoundTrip<V>(show: V -> V, mappings: Mappings<V>, input: Record<V>): Record<V> {
    Migrated(show, Reverse(mappings), Migrated(show, mappings, input))
  }

  // A field of the round trip is an untouched unmapped field, or is carried back by the last
  // mapping from it whose target was produced.
  lemma {:induction false} RoundTripField<V>(show: V -> V, mappings: Mappings<V>, input: Record<V>, k: string)
    ensures var out := Migrated(show, mappings, input);
            var w := LastWriter(Reverse(mappings), out, k);
            var kept := k in input && !IsSource(mappings, k) && !IsTarget(mappings, k);
            && (k in RoundTrip(show, mappings, input) <==> kept || w >= 0)
            && (kept ==> k in RoundTrip(show, mappings, input) && RoundTrip(show, mappings, input)[k] == input[k])
            && (!kept && w >= 0 ==> mappings[w].toField in out && RoundTrip(show, mappings, input)[k] == out[mappings[w].toField])
  {
    var out, back := Migrated(show, mappings, input), Reverse(mappings);
    MigratedKeys(show, back, out, k);
    MigratedKeys(show, mappings, input, k);
    assert IsSource(back, k) <==> IsTarget(mappings, k) by {
      if i :| 0 <= i < |mappings| && mappings[i].toField == k {
        assert back[i].fromField == k;
      }
      if IsSource(back, k) {
        var i :| 0 <= i < |back| && back[i].fromField == k;
        assert mappings[i].toField == k;
      }
    }
  }

  ghost predicate NoUnmappedTarget<V>(mappings: Mappings<V>, input: Record<V>) {
    forall k | k in input && !IsSource(mappings, k) :: !IsTarget(mappings, k)
  }

  // Without collisions a target holds what its last writer wrote.
  lemma TargetValue<V>(show: V -> V, mappings: Mappings<V>, input: Record<V>, i: nat)
    requires NoUnmappedTarget(mappings, input) && i < |mappings|
    ensures var (t, out) := (mappings[i].toField, Migrated(show, mappings, input));
            var w := LastWriter(mappings, input, t);
            && (t in out <==> w >= 0)
            && (w >= 0 ==> out[t] == Written(show, mappings[w], input))
            && (mappings[i].fromField in input ==> w >= 0)
  {
    assert IsTarget(mappings, mappings[i].toField);
    MigratedKeys(show, mappings, input, mappings[i].toField);
  }

  // The reverse of the last mapping from a present field is the one that carries it back.
  lemma CarriedBack<V>(show: V -> V, mappings: Mappings<V>, input: Record<V>, i: nat)
    requires NoUnmappedTarget(mappings, input) && LastFrom(mappings, i) && mappings[i].fromField in input
    ensures LastWriter(Reverse(mappings), Migrated(show, mappings, input), mappings[i].fromField) == i
  {
    TargetValue(show, mappings, input, i);
    var back := Reverse(mappings);
    assert back[i] == Reversed(mappings[i]);
    forall j | i < j < |back|
      ensures back[j].toField != mappings[i].fromField
    {
      assert back[j] == Reversed(mappings[j]);
    }
  }

  lemma {:induction false} LastFromExists<V>(mappings: Mappings<V>, field: string, n: nat) returns (i: nat)
    requires n <= |mappings| && exists j | 0 <= j < n :: mappings[j].fromField == field
    requires forall j | n <= j < |mappings| :: mappings[j].fromField != field
    ensures LastFrom(mappings, i) && mappings[i].fromField == field
  {
    if mappings[n - 1].fromField == field {
      i := n - 1;
    } else {
      i := LastFromExists(mappings, field, n - 1);
    }
  }

  lemma {:induction false} RecoveredField<V>(show: V -> V, mappings: Mappings<V>, input: Record<V>, k: string)
    requires Recoverable(show, mappings, input)
    ensures k in RoundTrip(show, mappings, input) <==> k in input
    ensures k in input ==> RoundTrip(show, mappings, input)[k] == input[k]
  {
    RoundTripField(show, mappings, input, k);
    var out := Migrated(show, mappings, input);
    var w := LastWriter(Reverse(mappings), out, k);
    if k in input && IsSource(mappings, k) {
      var i := LastFromExists(mappings, k, |mappings|);
      CarriedBack(show, mappings, input, i);
      TargetValue(show, mappings, input, i);
    } else if w >= 0 {
      assert Reverse(mappings)[w] == Reversed(mappings[w]);
      TargetValue(show, mappings, input, w);
    }
  }

  lemma {:induction false} RoundTripNecessary<V>(show: V -> V, mappings: Mappings<V>, input: Record<V>)
    requires RoundTrip(show, mappings, input) == input
    ensures Recoverable(show, mappings, input)
  {
    var out, back := Migrated(show, mappings, input), Reverse(mappings);
    forall k | k in input && !IsSource(mappings, k)
      ensures !IsTarget(mappings, k)
    {
      RoundTripField(show, mappings, input, k);
      var w := LastWriter(back, out, k);
      assert w >= 0 ==> back[w] == Reversed(mappings[w]);
    }
    forall i | 0 <= i < |mappings| && mappings[i].fromField !in input
      ensures LastWriter(mappings, input, mappings[i].toField) == -1
    {
      RoundTripField(show, mappings, input, mappings[i].fromField);
      TargetValue(show, mappings, input, i);
      assert back[i] == Reversed(mappings[i]);
    }
    forall i | LastFrom(mappings, i) && mappings[i].fromField in input
      ensures var w := LastWriter(mappings, input, mappings[i].toField);
              w >= 0 && Written(show, mappings[w], input) == input[mappings[i].fromField]
    {
      RoundTripField(show, mappings, input, mappings[i].fromField);
      TargetValue(show, mappings, input, i);
      CarriedBack(show, mappings, input, i);
    }
  }

  // Migrating forward and then with the derived reverse mappings gives the input back exactly
  // when nothing is lost on the way, whatever the mapping list.
  lemma {:induction false} RoundTripIffRecoverable<V>(show: V -> V, mappings: Mappings<V>, input: Record<V>)
    ensures RoundTrip(show, mappings, input) == input <==> Recoverable(show, mappings, input)
  {
    if RoundTrip(show, mappings, input) == input {
      RoundTripNecessary(show, mappings, input);
    }
    if Recoverable(show, mappings, input) {
      forall k
        ensures k in RoundTrip(show, mappings, input) <==> k in input
        ensures k in input ==> RoundTrip(show, mappings, input)[k] == input[k]
      {
        RecoveredField(show, mappings, input, k);
      }
    }
  }

  // In particular: distinct sources, distinct targets, no collision of an unmapped field with a
  // target, no default used and no value changed by its transform. Swaps and longer permutations
  // of field names qualify.
  lemma {:induction false} PermutationsRoundTrip<V>(show: V -> V, mappings: Mappings<V>, input: Record<V>)
    requires forall i, j | 0 <= i < j < |mappings| ::
      mappings[i].fromField != mappings[j].fromField && mappings[i].toField != mappings[j].toField
    requires NoUnmappedTarget(mappings, input)
    requires forall i | 0 <= i < |mappings| ::
      if mappings[i].fromField in input
      then TransformValue(show, input[mappings[i].fromField], mappings[i].transform) == input[mappings[i].fromField]
      else mappings[i].defaultValue.None?
    ensures RoundTrip(show, mappings, input) == input
  {
    forall i | 0 <= i < |mappings|
      ensures LastWriter(mappings, input, mappings[i].toField) == if mappings[i].fromField in input then i else -1
    {
      var w := LastWriter(mappings, input, mappings[i].toField);
      assert w >= 0 ==> mappings[w].toField == mappings[i].toField && w == i;
    }
    RoundTripIffRecoverable(show, mappings, input);
  }

  // Otherwise data is lost: with a renamed to b, an unmapped b overwrites the value carried over from a,
  // and comes back as a.
  lemma CollisionExample<V>(show: V -> V, a: string, b: string, x: V, y: V) returns (mappings: Mappings<V>)
    requires a != b
    ensures mappings == [FieldMapping(a, b, "", None, false)]
    ensures Migrated(show, mappings, map[a := x, b := y]) == map[b := y]
    ensures RoundTrip(show, mappings, map[a := x, b := y]) == map[a := y]
  {
    mappings := [FieldMapping(a, b, "", None, false)];
    var input := map[a := x, b := y];
    var back := Reverse(mappings);
    assert back == [FieldMapping(b, a, "", None, false)];
    assert IsSource(mappings, a) by {
      assert mappings[0].fromField == a;
    }
    assert forall k | k != a :: !IsSource(mappings, k);
    assert Migrated(show, mappings, input) == map[b := y];
    assert IsSource(back, b) by {
      assert back[0].fromField == b;
    }
    assert LastWriter(back, map[b := y], a) == 0;
  }
}
