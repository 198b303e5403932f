// pkg/version/migration.go: the index of migrations under keys built from two version strings.
module Migrator {
  import opened Wrappers
  import opened GoStrings
  import opened Versions
  import opened Migration

  datatype Strategy = NoMigration | Automatic | Custom | Fallback | Unknown

  datatype Error = NilMigration | NoPath | NotSupported | NoCustomFunc | AutomaticFailed | UnknownStrategy | CustomFailed

  type CustomFunc<!V> = (Version, Version, Record<V>) -> Result<Record<V>, Error>

  datatype VersionMigration<!V> = VersionMigration(
    fromVersion: Version,
    toVersion: Version,
    strategy: Strategy,
    fieldMappings: Mappings<V>,
    customFunc: Option<CustomFunc<V>>,
    reversible: bool,
    description: string)

  type Index<!V> = map<string, VersionMigration<V>>

  function KeyOf(from: string, to: string): string {
    from + "-" + to
  }

  function MigrationKey(from: Version, to: Version): string {
    KeyOf(from.ToString(), to.ToString())
  }

  // The derived reverse has no custom function and is not itself reversible.
  function ReverseMigration<V>(m: VersionMigration<V>): VersionMigration<V> {
    VersionMigration(m.toVersion, m.fromVersion, m.strategy, Reverse(m.fieldMappings), None, false,
                     "Reverse migration: " + m.description)
  }

  function Added<V>(index: Index<V>, m: VersionMigration<V>): Index<V> {
    var forward := index[MigrationKey(m.fromVersion, m.toVersion) := m];
    if m.reversible then forward[MigrationKey(m.toVersion, m.fromVersion) := ReverseMigration(m)] else forward
  }

  // The index after any list of additions to an empty one.
  function AddedAll<V>(adds: seq<VersionMigration<V>>): Index<V> {
    if adds == [] then map[] else Added(AddedAll(adds[..|adds| - 1]), adds[|adds| - 1])
  }

  predicate CanMigrate<V>(index: Index<V>, from: Version, to: Version) {
    from.Compare(to) == 0 || MigrationKey(from, to) in index
  }

  function MigrationPath<V>(index: Index<V>, from: Version, to: Version): Result<seq<VersionMigration<V>>, Error> {
    if from.Compare(to) == 0 then Success([])
    else
      var key := MigrationKey(from, to);
      if key in index then Success([index[key]]) else Failure(NoPath)
  }

  function Outcome<V>(show: V -> V, index: Index<V>, from: Version, to: Version, input: Record<V>): Result<Record<V>, Error> {
    if from.Compare(to) == 0 then Success(input)
    else if MigrationKey(from, to) !in index then Failure(NoPath)
    else
      var m := index[MigrationKey(from, to)];
      match m.strategy
      case NoMigration => Failure(NotSupported)
      case Custom => if m.customFunc.None? then Failure(NoCustomFunc) else m.customFunc.value(from, to, input)
      case Unknown => Failure(UnknownStrategy)
      case _ =>
        if Succeeds(m.fieldMappings, input) then Success(Migrated(show, m.fieldMappings, input))
        else Failure(AutomaticFailed)
  }

  // What is stored under the opposite key.
  ghost predicate IsReverse<V>(b: VersionMigration<V>, m: VersionMigration<V>) {
    && b.fromVersion == m.toVersion && b.toVersion == m.fromVersion && b.strategy == m.strategy
    && AreReversals(b.fieldMappings, m.fieldMappings) && b.customFunc.None? && !b.reversible
    && b.description == "Reverse migration: " + m.description
  }

  class Migrator<V> {
    const show: V -> V
    var migrations: Index<V>

    constructor (show: V -> V)
      ensures this.show == show && migrations == map[]
    {
      this.show, migrations := show, map[];
    }

    method AddMigration(migration: Option<VersionMigration<V>>) returns (err: Option<Error>)
      modifies this`migrations
      ensures err == if migration.None? then Some(NilMigration) else None
      ensures migrations == if migration.None? then old(migrations) else Added(old(migrations), migration.value)
      ensures migration.Some? ==>
        var m := migration.value;
        var (forward, back) := (KeyOf(m.fromVersion.ToString(), m.toVersion.ToString()), KeyOf(m.toVersion.ToString(), m.fromVersion.ToString()));
        if !m.reversible then migrations == old(migrations)[forward := m]
        else back in migrations && migrations == old(migrations)[forward := m][back := migrations[back]] && IsReverse(migrations[back], m)
    {
      if migration.None? {
        return Some(NilMigration);
      }
      var m := migration.value;
      migrations := migrations[MigrationKey(m.fromVersion, m.toVersion) := m];
      if m.reversible {
        var reversed := ReverseFieldMappings(m.fieldMappings);
        var reverse := VersionMigration(m.toVersion, m.fromVersion, m.strategy, reversed[..], None, false,
                                        "Reverse migration: " + m.description);
        migrations := migrations[MigrationKey(m.toVersion, m.fromVersion) := reverse];
      }
      err := None;
    }

    method Migrate(from: Version, to: Version, input: Record<V>) returns (r: Result<Record<V>, Error>)
      ensures r == Outcome(show, migrations, from, to, input)
      ensures from.SameTriple(to) ==> r == Success(input)
      ensures !from.SameTriple(to) && KeyOf(from.ToString(), to.ToString()) !in migrations ==> r == Failure(NoPath)
      ensures !from.SameTriple(to) && KeyOf(from.ToString(), to.ToString()) in migrations ==>
        var m := migrations[KeyOf(from.ToString(), to.ToString())];
        && (m.strategy == NoMigration ==> r == Failure(NotSupported))
        && (m.strategy == Unknown ==> r == Failure(UnknownStrategy))
        && (m.strategy == Custom && m.customFunc.None? ==> r == Failure(NoCustomFunc))
        && (m.strategy == Custom && m.customFunc.Some? ==> r == m.customFunc.value(from, to, input))
        && (m.strategy == Automatic || m.strategy == Fallback ==>
              && (r.Success? <==> forall i | 0 <= i < |m.fieldMappings| && m.fieldMappings[i].required :: Applies(m.fieldMappings[i], input))
              && (r.Success? ==> Holds(show, m.fieldMappings, input, r.value))
              && (r.Failure? ==> r.error == AutomaticFailed))
    {
      if from.Compare(to) == 0 {
        return Success(input);
      }
      var key := MigrationKey(from, to);
      if key !in migrations {
        return Failure(NoPath);
      }
      var migration := migrations[key];
      match migration.strategy {
        case NoMigration => r := Failure(NotSupported);
        case Custom =>
          if migration.customFunc.None? {
            return Failure(NoCustomFunc);
          }
          r := migration.customFunc.value(from, to, input);
        case Unknown => r := Failure(UnknownStrategy);
        case _ =>
          var migrated := MigrateMapData(show, migration.fieldMappings, input);
          r := if migrated.Success? then Success(migrated.value) else Failure(AutomaticFailed);
      }
    }
  }

  // ---- Keys ----

  // A key can be taken apart into two non-empty texts in one way only.
  ghost predicate ReadsOneWay(s: string, t: string) {
    forall s', t' | s' != "" && t' != "" && KeyOf(s', t') == KeyOf(s, t) :: s' == s && t' == t
  }

  // No dash in the first text after its first character, none in the second before its last.
  predicate NoInnerDash(s: string, t: string) {
    (forall i | 1 <= i < |s| :: s[i] != '-') && (forall i | 0 <= i < |t| - 1 :: t[i] != '-')
  }

  lemma SplitAtDash(k: string, i: nat)
    requires i < |k| && k[i] == '-'
    ensures KeyOf(k[..i], k[i + 1..]) == k
  {
  }

  lemma OneWayToRead(s: string, t: string, s': string, t': string)
    requires s != "" && t != "" && s' != "" && t' != "" && NoInnerDash(s, t) && KeyOf(s', t') == KeyOf(s, t)
    ensures s' == s && t' == t
  {
    var k := KeyOf(s, t);
    assert forall i | 1 <= i < |s| :: k[i] == s[i] != '-';
    assert forall i | |s| < i < |k| - 1 :: k[i] == t[i - |s| - 1] != '-';
    assert k[|s'|] == '-' && 1 <= |s'| < |k| - 1;
    assert |s'| == |s|;
    assert s == k[..|s|] == s' && t == k[|s| + 1..] == t';
  }

  // Over all non-empty texts, which are the texts of versions.
  lemma KeyUnambiguousIff(s: string, t: string)
    requires s != "" && t != ""
    ensures ReadsOneWay(s, t) <==> NoInnerDash(s, t)
  {
    if NoInnerDash(s, t) {
      forall s', t' | s' != "" && t' != "" && KeyOf(s', t') == KeyOf(s, t)
        ensures s' == s && t' == t
      {
        OneWayToRead(s, t, s', t');
      }
    } else {
      var k := KeyOf(s, t);
      if i :| 1 <= i < |s| && s[i] == '-' {
        SplitAtDash(k, i);
        assert k[..i] != s && k[..i] != "" && k[i + 1..] != "";
      } else {
        var i :| 0 <= i < |t| - 1 && t[i] == '-';
        var j := |s| + 1 + i;
        SplitAtDash(k, j);
        assert k[..j] != s && k[..j] != "" && k[j + 1..] != "";
      }
    }
  }

  // So two pairs of versions share a key whenever a dash can be moved from one text to the other.
  lemma SharedKey(s: string, t: string, u: string)
    requires s != "" && t != "" && u != ""
    ensures MigrationKey(Parse(KeyOf(s, t)), Parse(u)) == MigrationKey(Parse(s), Parse(KeyOf(t, u)))
  {
    ParseThenPrint(s);
    ParseThenPrint(u);
    ParseThenPrint(KeyOf(s, t));
    ParseThenPrint(KeyOf(t, u));
    KeyShift(s, t, u);
  }

  lemma KeyShift(s: string, t: string, u: string)
    ensures KeyOf(KeyOf(s, t), u) == KeyOf(s, KeyOf(t, u))
  {
  }

  predicate StartsWithV(s: string) {
    s != "" && s[0] == 'v'
  }

  // Where only texts of the form "v..." occur, more keys are unambiguous: exactly those of texts that do
  // not contain "-v".
  lemma PrefixedKeyUnambiguousIff(s: string, t: string)
    requires StartsWithV(s) && StartsWithV(t)
    ensures !Contains(s, "-v") && !Contains(t, "-v")
       <==> forall s', t' | StartsWithV(s') && StartsWithV(t') && KeyOf(s', t') == KeyOf(s, t) :: s' == s && t' == t
  {
    if !Contains(s, "-v") && !Contains(t, "-v") {
      forall s', t' | StartsWithV(s') && StartsWithV(t') && KeyOf(s', t') == KeyOf(s, t)
        ensures s' == s && t' == t
      {
        KeySplit(s, t, s', t');
      }
    } else if Contains(s, "-v") {
      var i :| 0 <= i <= |s| && OccursAt(s, "-v", i);
      assert s[i] == s[i..i + |"-v"|][0] && s[i + 1] == s[i..i + |"-v"|][1];
      var s', t' := s[..i], s[i + 1..] + "-" + t;
      assert KeyOf(s', t') == KeyOf(s, t);
      assert StartsWithV(s') && StartsWithV(t') && s' != s;
    } else {
      var i :| 0 <= i <= |t| && OccursAt(t, "-v", i);
      assert t[i] == t[i..i + |"-v"|][0] && t[i + 1] == t[i..i + |"-v"|][1];
      var s', t' := s + "-" + t[..i], t[i + 1..];
      assert KeyOf(s', t') == KeyOf(s, t);
      assert StartsWithV(s') && StartsWithV(t') && s' != s;
    }
  }

  lemma DashVAt(s: string, i: nat)
    requires i + 1 < |s| && s[i] == '-' && s[i + 1] == 'v'
    ensures Contains(s, "-v")
  {
    assert s[i..i + |"-v"|] == "-v";
    assert OccursAt(s, "-v", i);
  }

  lemma KeySplit(s: string, t: string, s': string, t': string)
    requires StartsWithV(s) && StartsWithV(t) && StartsWithV(s') && StartsWithV(t')
    requires !Contains(s, "-v") && !Contains(t, "-v")
    requires KeyOf(s', t') == KeyOf(s, t)
    ensures s' == s && t' == t
  {
    var key := KeyOf(s, t);
    assert key[|s'|] == '-' && key[|s'| + 1] == 'v';
    if |s'| < |s| {
      assert key[|s| + 1] == 'v' && key[|s|] == '-';
      assert |s'| + 1 != |s|;
      DashVAt(s, |s'|);
    } else if |s'| > |s| {
      var i := |s'| - |s| - 1;
      assert t == key[|s| + 1..];
      assert t[0] == 'v' && i > 0;
      DashVAt(t, i);
    } else {
      assert s == key[..|s|] == s' && t == key[|s| + 1..] == t';
    }
  }

  // Versions that their text determines: every parsed one.
  predicate Determined(v: Version) {
    v == Parse(v.ToString())
  }

  predicate Indexable(v: Version) {
    Determined(v) && StartsWithV(v.ToString()) && !Contains(v.ToString(), "-v")
  }

  // A key determines both versions if its texts have no inner dash, or if all texts begin with "v" and
  // none contains "-v".
  lemma KeyInjective(a: Version, b: Version, c: Version, d: Version)
    requires Determined(a) && Determined(b) && Determined(c) && Determined(d)
    requires NoInnerDash(a.ToString(), b.ToString()) || (Indexable(a) && Indexable(b) && Indexable(c) && Indexable(d))
    requires MigrationKey(a, b) == MigrationKey(c, d)
    ensures a == c && b == d
  {
    if NoInnerDash(a.ToString(), b.ToString()) {
      TextNeverEmpty(a);
      TextNeverEmpty(b);
      TextNeverEmpty(c);
      TextNeverEmpty(d);
      OneWayToRead(a.ToString(), b.ToString(), c.ToString(), d.ToString());
    } else {
      KeySplit(a.ToString(), b.ToString(), c.ToString(), d.ToString());
    }
  }

  // Every version made from non-negative numbers and a label free of "-v" that does not start
  // with 'v' is indexable; dash-free labels are among them.
  lemma {:induction false} ConstructedVersionsIndexable(major: nat, minor: nat, patch: nat, tag: string)
    requires IsInt64(major) && IsInt64(minor) && IsInt64(patch)
    requires !StartsWithV(tag) && !Contains(tag, "-v")
    ensures Indexable(NewVersionWithLabel(major, minor, patch, tag))
  {
    PrintThenParse(major, minor, patch, tag);
    PrintedText(major, minor, patch, tag);
    DigitsOnly(major);
    DigitsOnly(minor);
    DigitsOnly(patch);
    DashVOnlyInLabel(Digits(major) + "." + Digits(minor) + "." + Digits(patch), tag);
  }

  lemma DashVOnlyInLabel(body: string, tag: string)
    requires '-' !in body && !StartsWithV(tag) && !Contains(tag, "-v")
    ensures !Contains("v" + WithLabel(body, tag), "-v")
  {
    var s := "v" + WithLabel(body, tag);
    forall i | 0 <= i <= |s|
      ensures !OccursAt(s, "-v", i)
    {
      if OccursAt(s, "-v", i) {
        assert s[i] == s[i..i + |"-v"|][0] && s[i + 1] == s[i..i + |"-v"|][1];
        var j := i - |body| - 2;
        assert i > |body|;
        assert tag == s[|body| + 2..];
        DashVAt(tag, j);
      }
    }
  }

  // ---- Every reachable index ----

  // Every entry sits under the key of its own endpoints, which are good, and, if every addition
  // was reversible, the key of its reverse is taken as well.
  ghost predicate Filed<V>(index: Index<V>, good: Version -> bool, symmetric: bool) {
    forall k | k in index ::
      && k == MigrationKey(index[k].fromVersion, index[k].toVersion)
      && good(index[k].fromVersion) && good(index[k].toVersion)
      && (symmetric ==> MigrationKey(index[k].toVersion, index[k].fromVersion) in index)
  }

  lemma FiledMore<V>(index: Index<V>, m: VersionMigration<V>, good: Version -> bool, symmetric: bool)
    requires Filed(index, good, symmetric)
    requires good(m.fromVersion) && good(m.toVersion) && (symmetric ==> m.reversible)
    ensures Filed(Added(index, m), good, symmetric)
  {
    var added := Added(index, m);
    forall k | k in added
      ensures k == MigrationKey(added[k].fromVersion, added[k].toVersion)
      ensures good(added[k].fromVersion) && good(added[k].toVersion)
      ensures symmetric ==> MigrationKey(added[k].toVersion, added[k].fromVersion) in added
    {
    }
  }

  lemma {:induction false} AlwaysFiled<V>(adds: seq<VersionMigration<V>>, good: Version -> bool, symmetric: bool)
    requires forall m | m in adds :: good(m.fromVersion) && good(m.toVersion) && (symmetric ==> m.reversible)
    ensures Filed(AddedAll(adds), good, symmetric)
  {
    if adds != [] {
      var front, last := adds[..|adds| - 1], adds[|adds| - 1];
      assert forall m | m in front :: m in adds;
      assert last in adds;
      AlwaysFiled(front, good, symmetric);
      FiledMore(AddedAll(front), last, good, symmetric);
    }
  }

  predicate JoinsTexts<V>(path: Result<seq<VersionMigration<V>>, Error>, from: Version, to: Version) {
    path.Success? && path.value != [] ==>
      |path.value| == 1 && path.value[0].fromVersion.ToString() == from.ToString()
                        && path.value[0].toVersion.ToString() == to.ToString()
  }

  predicate AnyVersion(v: Version) {
    true
  }

  lemma EntryTexts<V>(adds: seq<VersionMigration<V>>, key: string)
    requires key in AddedAll(adds)
    ensures var m := AddedAll(adds)[key];
            && m.fromVersion.ToString() != "" && m.toVersion.ToString() != ""
            && KeyOf(m.fromVersion.ToString(), m.toVersion.ToString()) == key
  {
    AlwaysFiled(adds, AnyVersion, false);
    TextNeverEmpty(AddedAll(adds)[key].fromVersion);
    TextNeverEmpty(AddedAll(adds)[key].toVersion);
  }

  lemma SwappedEntry<V>(adds: seq<VersionMigration<V>>, key: string)
    requires key in AddedAll(adds) && forall m | m in adds :: m.reversible
    ensures var m := AddedAll(adds)[key]; KeyOf(m.toVersion.ToString(), m.fromVersion.ToString()) in AddedAll(adds)
  {
    AlwaysFiled(adds, AnyVersion, true);
  }

  function Between<V>(s: string, t: string): VersionMigration<V> {
    VersionMigration(Parse(s), Parse(t), NoMigration, [], None, true, "")
  }

  lemma AddedBetween<V>(s: string, t: string)
    requires s != "" && t != ""
    ensures AddedAll([Between<V>(s, t)]) == Added(map[], Between<V>(s, t))
    ensures Between<V>(s, t).fromVersion.ToString() == s && Between<V>(s, t).toVersion.ToString() == t
    ensures AddedAll([Between<V>(s, t)]).Keys == {KeyOf(s, t), KeyOf(t, s)}
  {
    ParseThenPrint(s);
    ParseThenPrint(t);
    assert AddedAll<V>([]) == map[];
    assert [Between<V>(s, t)][..0] == [];
  }

  // For a request between different triples, whatever was added, a non-empty path joins exactly the two
  // requested texts: this is so exactly when they have no inner dash.
  lemma PathJoinsTextsIff<V(!new)>(from: Version, to: Version)
    requires !from.SameTriple(to)
    ensures (forall adds: seq<VersionMigration<V>> :: JoinsTexts(MigrationPath(AddedAll(adds), from, to), from, to))
       <==> NoInnerDash(from.ToString(), to.ToString())
  {
    var s, t := from.ToString(), to.ToString();
    TextNeverEmpty(from);
    TextNeverEmpty(to);
    KeyUnambiguousIff(s, t);
    if NoInnerDash(s, t) {
      forall adds: seq<VersionMigration<V>>
        ensures JoinsTexts(MigrationPath(AddedAll(adds), from, to), from, to)
      {
        if KeyOf(s, t) in AddedAll(adds) {
          EntryTexts(adds, KeyOf(s, t));
        }
      }
    } else {
      var c, d :| c != "" && d != "" && KeyOf(c, d) == KeyOf(s, t) && !(c == s && d == t);
      var m := Between<V>(c, d).(reversible := false);
      ParseThenPrint(c);
      ParseThenPrint(d);
      assert [m][..0] == [];
      assert AddedAll([m]) == Added(map[], m);
      assert !JoinsTexts(MigrationPath(AddedAll([m]), from, to), from, to);
    }
  }

  // A path exists exactly when CanMigrate says so; a non-empty one is a single migration that joins
  // exactly the two requested versions, if their texts have no inner dash or if all texts are of the
  // second unambiguous kind.
  lemma PathJoinsEndpoints<V>(adds: seq<VersionMigration<V>>, from: Version, to: Version)
    requires Determined(from) && Determined(to)
    requires forall m | m in adds :: Determined(m.fromVersion) && Determined(m.toVersion)
    requires NoInnerDash(from.ToString(), to.ToString())
          || (Indexable(from) && Indexable(to) && forall m | m in adds :: Indexable(m.fromVersion) && Indexable(m.toVersion))
    ensures var path := MigrationPath(AddedAll(adds), from, to);
            && (path.Success? <==> CanMigrate(AddedAll(adds), from, to))
            && (path.Success? && path.value == [] <==> from.SameTriple(to))
            && (path.Success? && path.value != [] ==>
                  |path.value| == 1 && path.value[0].fromVersion == from && path.value[0].toVersion == to)
  {
    AlwaysFiled(adds, Determined, false);
    if !NoInnerDash(from.ToString(), to.ToString()) {
      AlwaysFiled(adds, Indexable, false);
    }
    var index, key := AddedAll(adds), MigrationKey(from, to);
    if key in index {
      KeyInjective(from, to, index[key].fromVersion, index[key].toVersion);
    }
  }

  // A request whose text has an inner dash can be answered with a migration between other versions.
  lemma WrongPath<V>(s: string, t: string, u: string) returns (m: VersionMigration<V>)
    requires s != "" && t != "" && u != ""
    requires !Parse(KeyOf(s, t)).SameTriple(Parse(u))
    ensures m.fromVersion == Parse(s) != Parse(KeyOf(s, t)) && m.toVersion == Parse(KeyOf(t, u)) != Parse(u)
    ensures MigrationPath(AddedAll([m]), Parse(KeyOf(s, t)), Parse(u)) == Success([m])
  {
    m := Between<V>(s, KeyOf(t, u)).(reversible := false);
    SharedKey(s, t, u);
    ParseThenPrint(s);
    ParseThenPrint(u);
    ParseThenPrint(KeyOf(s, t));
    ParseThenPrint(KeyOf(t, u));
    assert [m][..0] == [];
    assert AddedAll([m]) == Added(map[], m);
  }

  // A migration from 1.0.0 to alpha-2.0.0 is the path found from 1.0.0-alpha to 2.0.0.
  lemma WrongPathExample<V>(s: string, t: string, u: string) returns (m: VersionMigration<V>)
    requires s == "1.0.0" && t == "alpha" && u == "2.0.0"
    ensures m.fromVersion == Parse(s) != Parse(KeyOf(s, t)) && m.toVersion == Parse(KeyOf(t, u)) != Parse(u)
    ensures MigrationPath(AddedAll([m]), Parse(KeyOf(s, t)), Parse(u)) == Success([m])
  {
    ExampleTexts(s, t, u);
    m := WrongPath(s, t, u);
  }

  lemma ExampleTexts(s: string, t: string, u: string)
    requires s == "1.0.0" && t == "alpha" && u == "2.0.0"
    ensures s != "" && t != "" && u != "" && u[0] != s[0] && u[0] != t[0]
    ensures !Parse(KeyOf(s, t)).SameTriple(Parse(u))
  {
    assert s == Digits(1) + ".0.0" && u == Digits(2) + ".0.0";
    TwoMajors(1, 2, s, t, u);
  }

  lemma TwoMajors(a: nat, b: nat, s: string, t: string, u: string)
    requires IsInt64(a) && IsInt64(b) && a != b && t != ""
    requires s == Digits(a) + ".0.0" && u == Digits(b) + ".0.0"
    ensures !Parse(KeyOf(s, t)).SameTriple(Parse(u))
  {
    MajorOfText(a, s, t);
    MajorOfText(b, u, "");
    LabelIsKey(s, t, u);
  }

  lemma LabelIsKey(s: string, t: string, u: string)
    requires t != ""
    ensures KeyOf(s, t) == WithLabel(s, t) && u == WithLabel(u, "")
  {
  }

  lemma MajorOfText(major: nat, body: string, tag: string)
    requires IsInt64(major) && body == Digits(major) + ".0.0"
    ensures Parse(WithLabel(body, tag)).major == major
  {
    var zero := Digits(0);
    assert zero == "0";
    DigitsOnly(major);
    DigitsOnly(0);
    AtoiDigits(major);
    AtoiDigits(0);
    assert Digits(major) + "." + zero + "." + zero == body;
    assert IsDigit(Digits(major)[0]);
    ParseBareText(Digits(major), zero, zero, tag);
  }

  // However the key is taken apart, swapping the parts gives the swapped key.
  ghost predicate SwapsTogether(s: string, t: string) {
    forall c, d | c != "" && d != "" && KeyOf(c, d) == KeyOf(s, t) :: KeyOf(d, c) == KeyOf(t, s)
  }

  function Rotated(w: string, n: nat): string
    requires n <= |w|
  {
    w[n..] + w[..n]
  }

  // Two rotations that agree leave a period.
  lemma RotationPeriod(w: string, a: nat, b: nat)
    requires a <= b <= |w| && Rotated(w, a) == Rotated(w, b)
    ensures Rotated(w, b - a) == w
  {
    var period := Rotated(w, b - a);
    forall j | 0 <= j < |w|
      ensures period[j] == w[j]
    {
      var i := if j >= a then j - a else j - a + |w|;
      assert Rotated(w, a)[i] == w[j];
      assert Rotated(w, b)[i] == period[j];
    }
  }

  // Swapping the two sides of a dash rotates the key with a dash at its end.
  lemma SwapRotates(k: string, i: nat)
    requires i < |k| && k[i] == '-'
    ensures KeyOf(k[i + 1..], k[..i]) + "-" == Rotated(k + "-", i + 1)
  {
    var w := k + "-";
    assert w[i + 1..] == k[i + 1..] + "-";
    assert w[..i + 1] == k[..i] + "-";
  }

  lemma SwapAt(s: string, t: string, i: nat)
    requires SwapsTogether(s, t) && 1 <= i < |KeyOf(s, t)| - 1 && KeyOf(s, t)[i] == '-'
    ensures Rotated(KeyOf(s, t) + "-", i + 1) == KeyOf(t, s) + "-"
  {
    var k := KeyOf(s, t);
    SplitAtDash(k, i);
    SwapRotates(k, i);
    assert k[..i] != "" && k[i + 1..] != "";
  }

  // A period of the key with a dash at its end is itself the place of a dash, so it swaps too.
  lemma PeriodEqualsKeys(s: string, t: string, n: nat)
    requires SwapsTogether(s, t) && 2 <= n < |KeyOf(s, t)| && Rotated(KeyOf(s, t) + "-", n) == KeyOf(s, t) + "-"
    ensures KeyOf(s, t) == KeyOf(t, s)
  {
    var k := KeyOf(s, t);
    var w := k + "-";
    assert Rotated(w, n)[|w| - 1] == w[n - 1];
    SwapAt(s, t, n - 1);
    assert w[..|k|] == k && (KeyOf(t, s) + "-")[..|k|] == KeyOf(t, s);
  }

  lemma RotateTwice(w: string)
    requires |w| >= 2 && Rotated(w, 1) == w
    ensures Rotated(w, 2) == w
  {
    forall j | 0 <= j < |w|
      ensures Rotated(w, 2)[j] == w[j]
    {
      assert Rotated(w, 1)[j] == w[j];
      if j + 1 < |w| {
        assert Rotated(w, 1)[j + 1] == w[j + 1];
      } else {
        assert Rotated(w, 1)[0] == w[0];
      }
    }
  }

  // Two places where the key can be taken apart, if they swap into the same key, make it the swapped key.
  lemma TwoSwaps(s: string, t: string, i: nat, j: nat)
    requires SwapsTogether(s, t) && 1 <= i < j < |KeyOf(s, t)| - 1 && KeyOf(s, t)[i] == KeyOf(s, t)[j] == '-'
    ensures KeyOf(s, t) == KeyOf(t, s)
  {
    PeriodOfTwo(s, t, i, j);
    if j - i == 1 {
      RotateTwice(KeyOf(s, t) + "-");
      PeriodEqualsKeys(s, t, 2);
    } else {
      PeriodEqualsKeys(s, t, j - i);
    }
  }

  lemma PeriodOfTwo(s: string, t: string, i: nat, j: nat)
    requires SwapsTogether(s, t) && 1 <= i < j < |KeyOf(s, t)| - 1 && KeyOf(s, t)[i] == KeyOf(s, t)[j] == '-'
    ensures Rotated(KeyOf(s, t) + "-", j - i) == KeyOf(s, t) + "-"
  {
    SwapAt(s, t, i);
    SwapAt(s, t, j);
    RotationPeriod(KeyOf(s, t) + "-", i + 1, j + 1);
  }

  lemma SwapsTogetherIff(s: string, t: string)
    requires s != "" && t != "" && KeyOf(s, t) != KeyOf(t, s)
    ensures SwapsTogether(s, t) <==> NoInnerDash(s, t)
  {
    if NoInnerDash(s, t) {
      forall c, d | c != "" && d != "" && KeyOf(c, d) == KeyOf(s, t)
        ensures KeyOf(d, c) == KeyOf(t, s)
      {
        OneWayToRead(s, t, c, d);
      }
    }
    if SwapsTogether(s, t) {
      var k := KeyOf(s, t);
      forall i | 1 <= i < |s|
        ensures s[i] != '-'
      {
        assert k[i] == s[i] && k[|s|] == '-';
        if s[i] == '-' {
          TwoSwaps(s, t, i, |s|);
        }
      }
      forall i | 0 <= i < |t| - 1
        ensures t[i] != '-'
      {
        assert k[|s| + 1 + i] == t[i] && k[|s|] == '-';
        if t[i] == '-' {
          TwoSwaps(s, t, |s|, |s| + 1 + i);
        }
      }
    }
  }

  // For a request between different triples, CanMigrate is symmetric after every list of reversible
  // additions exactly when the two keys are the same or the texts have no inner dash in either order.
  lemma CanMigrateSymmetricIff<V(!new)>(from: Version, to: Version)
    requires !from.SameTriple(to)
    ensures (forall adds: seq<VersionMigration<V>> | (forall m | m in adds :: m.reversible) ::
              CanMigrate(AddedAll(adds), from, to) <==> CanMigrate(AddedAll(adds), to, from))
       <==> (MigrationKey(from, to) == MigrationKey(to, from)
             || (NoInnerDash(from.ToString(), to.ToString()) && NoInnerDash(to.ToString(), from.ToString())))
  {
    TextNeverEmpty(from);
    TextNeverEmpty(to);
    if MigrationKey(from, to) != MigrationKey(to, from) {
      SwapsTogetherIff(from.ToString(), to.ToString());
      SwapsTogetherIff(to.ToString(), from.ToString());
      if !NoInnerDash(from.ToString(), to.ToString()) {
        OneSided<V>(from, to);
      } else if !NoInnerDash(to.ToString(), from.ToString()) {
        OneSided<V>(to, from);
      } else {
        forall adds: seq<VersionMigration<V>> | (forall m | m in adds :: m.reversible)
          ensures CanMigrate(AddedAll(adds), from, to) <==> CanMigrate(AddedAll(adds), to, from)
        {
          PlainSymmetric(adds, from, to);
          PlainSymmetric(adds, to, from);
        }
      }
    }
  }

  lemma OneSided<V(!new)>(from: Version, to: Version)
    requires !from.SameTriple(to) && !SwapsTogether(from.ToString(), to.ToString())
    requires MigrationKey(from, to) != MigrationKey(to, from)
    ensures exists adds: seq<VersionMigration<V>> ::
      (forall m | m in adds :: m.reversible) && CanMigrate(AddedAll(adds), from, to) && !CanMigrate(AddedAll(adds), to, from)
  {
    var c, d :| c != "" && d != "" && KeyOf(c, d) == MigrationKey(from, to) && KeyOf(d, c) != MigrationKey(to, from);
    AddedBetween<V>(c, d);
    var adds := [Between<V>(c, d)];
    assert MigrationKey(from, to) in AddedAll(adds) && MigrationKey(to, from) !in AddedAll(adds);
    assert from.Compare(to) != 0 && to.Compare(from) != 0;
    assert forall m | m in adds :: m.reversible;
  }

  // A reversible migration between 1.0.0 and alpha-2.0.0 offers the way from 1.0.0-alpha to 2.0.0 but not
  // the way back.
  lemma OneSidedExample<V>(s: string, t: string, u: string) returns (m: VersionMigration<V>)
    requires s == "1.0.0" && t == "alpha" && u == "2.0.0"
    ensures m.reversible && m.fromVersion == Parse(s) && m.toVersion == Parse(KeyOf(t, u))
    ensures CanMigrate(AddedAll([m]), Parse(KeyOf(s, t)), Parse(u))
    ensures !CanMigrate(AddedAll([m]), Parse(u), Parse(KeyOf(s, t)))
  {
    ExampleTexts(s, t, u);
    m := OneWay<V>(s, t, u);
  }

  lemma OneWay<V>(s: string, t: string, u: string) returns (m: VersionMigration<V>)
    requires s != "" && t != "" && u != "" && u[0] != s[0] && u[0] != t[0]
    requires !Parse(KeyOf(s, t)).SameTriple(Parse(u))
    ensures m.reversible && m.fromVersion == Parse(s) && m.toVersion == Parse(KeyOf(t, u))
    ensures CanMigrate(AddedAll([m]), Parse(KeyOf(s, t)), Parse(u))
    ensures !CanMigrate(AddedAll([m]), Parse(u), Parse(KeyOf(s, t)))
  {
    m := Between<V>(s, KeyOf(t, u));
    AddedBetween<V>(s, KeyOf(t, u));
    KeyShift(s, t, u);
    ParseThenPrint(KeyOf(s, t));
    ParseThenPrint(u);
    FirstChars(s, t, u);
  }

  lemma FirstChars(s: string, t: string, u: string)
    requires s != "" && t != "" && u != "" && u[0] != s[0] && u[0] != t[0]
    ensures KeyOf(u, KeyOf(s, t)) !in {KeyOf(s, KeyOf(t, u)), KeyOf(KeyOf(t, u), s)}
  {
    assert KeyOf(u, KeyOf(s, t))[0] == u[0] && KeyOf(s, KeyOf(t, u))[0] == s[0] && KeyOf(KeyOf(t, u), s)[0] == t[0];
  }

  // In particular, if no text of either key has an inner dash, or all texts are of the second kind.
  lemma CanMigrateSymmetric<V>(adds: seq<VersionMigration<V>>, from: Version, to: Version)
    requires forall m | m in adds :: m.reversible
    requires (NoInnerDash(from.ToString(), to.ToString()) && NoInnerDash(to.ToString(), from.ToString()))
          || (Indexable(from) && Indexable(to) && forall m | m in adds :: Indexable(m.fromVersion) && Indexable(m.toVersion))
    ensures CanMigrate(AddedAll(adds), from, to) <==> CanMigrate(AddedAll(adds), to, from)
  {
    if NoInnerDash(from.ToString(), to.ToString()) && NoInnerDash(to.ToString(), from.ToString()) {
      PlainSymmetric(adds, from, to);
      PlainSymmetric(adds, to, from);
    } else {
      AlwaysFiled(adds, Indexable, true);
      PrefixedSymmetric(AddedAll(adds), from, to);
      PrefixedSymmetric(AddedAll(adds), to, from);
    }
  }

  lemma PlainSymmetric<V>(adds: seq<VersionMigration<V>>, from: Version, to: Version)
    requires forall m | m in adds :: m.reversible
    requires NoInnerDash(from.ToString(), to.ToString())
    ensures CanMigrate(AddedAll(adds), from, to) ==> CanMigrate(AddedAll(adds), to, from)
  {
    var key := MigrationKey(from, to);
    if key in AddedAll(adds) {
      EntryTexts(adds, key);
      SwappedEntry(adds, key);
      var m := AddedAll(adds)[key];
      TextNeverEmpty(from);
      TextNeverEmpty(to);
      OneWayToRead(from.ToString(), to.ToString(), m.fromVersion.ToString(), m.toVersion.ToString());
    }
  }

  lemma PrefixedSymmetric<V>(index: Index<V>, from: Version, to: Version)
    requires Filed(index, Indexable, true) && Indexable(from) && Indexable(to)
    ensures CanMigrate(index, from, to) ==> CanMigrate(index, to, from)
  {
    if MigrationKey(from, to) in index {
      var m := index[MigrationKey(from, to)];
      KeyInjective(m.fromVersion, m.toVersion, from, to);
    }
  }

  // ---- There and back ----

  lemma OutcomeByMappings<V>(show: V -> V, index: Index<V>, from: Version, to: Version, x: Record<V>)
    requires !from.SameTriple(to) && MigrationKey(from, to) in index
    requires var m := index[MigrationKey(from, to)]; m.strategy.Automatic? || m.strategy.Fallback?
    ensures var m := index[MigrationKey(from, to)];
            Succeeds(m.fieldMappings, x) ==> Outcome(show, index, from, to, x) == Success(Migrated(show, m.fieldMappings, x))
  {
  }

  lemma BothEntries<V>(index: Index<V>, m: VersionMigration<V>)
    requires m.reversible && MigrationKey(m.fromVersion, m.toVersion) != MigrationKey(m.toVersion, m.fromVersion)
    ensures MigrationKey(m.fromVersion, m.toVersion) in Added(index, m)
    ensures MigrationKey(m.toVersion, m.fromVersion) in Added(index, m)
    ensures Added(index, m)[MigrationKey(m.fromVersion, m.toVersion)] == m
    ensures Added(index, m)[MigrationKey(m.toVersion, m.fromVersion)] == ReverseMigration(m)
  {
  }

  // Two parsed versions with one key in both directions have one triple.
  lemma SameKeysSameTriple(a: Version, b: Version)
    requires Determined(a) && Determined(b) && MigrationKey(a, b) == MigrationKey(b, a)
    ensures a.SameTriple(b)
  {
    TextNeverEmpty(a);
    TextNeverEmpty(b);
    if |a.ToString()| <= |b.ToString()| {
      SwappedTexts(a.ToString(), b.ToString());
    } else {
      SwappedTexts(b.ToString(), a.ToString());
    }
  }

  lemma SwappedTexts(s: string, t: string)
    requires s != "" && |s| <= |t| && KeyOf(s, t) == KeyOf(t, s)
    ensures Parse(s).SameTriple(Parse(t))
  {
    var k := KeyOf(s, t);
    assert s == k[..|s|] && t == k[..|t|];
    if |s| < |t| {
      assert t[|s|] == k[|s|] == '-';
      assert t == KeyOf(s, t[|s| + 1..]);
      DashKeepsTriple(s, t[|s| + 1..]);
    }
  }

  lemma ForwardKeptIff<V>(index: Index<V>, m: VersionMigration<V>)
    requires m.reversible
    ensures Added(index, m)[MigrationKey(m.fromVersion, m.toVersion)] == m
       <==> MigrationKey(m.fromVersion, m.toVersion) != MigrationKey(m.toVersion, m.fromVersion)
  {
  }

  // Once a reversible field-mapping migration has been added, a record that gets through it gets back
  // through the derived reverse, and comes back unchanged exactly when nothing was lost on the way.
  lemma ThereAndBackIff<V>(show: V -> V, index: Index<V>, m: VersionMigration<V>, x: Record<V>)
    requires m.reversible && (m.strategy.Automatic? || m.strategy.Fallback?)
    requires !m.fromVersion.SameTriple(m.toVersion)
    requires (Determined(m.fromVersion) && Determined(m.toVersion))
          || MigrationKey(m.fromVersion, m.toVersion) != MigrationKey(m.toVersion, m.fromVersion)
    requires Succeeds(m.fieldMappings, x)
    ensures var there := Outcome(show, Added(index, m), m.fromVersion, m.toVersion, x);
            && there.Success?
            && var back := Outcome(show, Added(index, m), m.toVersion, m.fromVersion, there.value);
            && back.Success? && (back.value == x <==> Recoverable(show, m.fieldMappings, x))
  {
    if MigrationKey(m.fromVersion, m.toVersion) == MigrationKey(m.toVersion, m.fromVersion) {
      SameKeysSameTriple(m.fromVersion, m.toVersion);
      assert false;
    }
    BothEntries(index, m);
    OutcomeByMappings(show, Added(index, m), m.fromVersion, m.toVersion, x);
    ReverseTotal(show, m.fieldMappings, x);
    OutcomeByMappings(show, Added(index, m), m.toVersion, m.fromVersion, Migrated(show, m.fieldMappings, x));
    RoundTripIffRecoverable(show, m.fieldMappings, x);
  }

  // After a reversible migration between different triples is added, the way back is always offered,
  // but some input gets through it exactly when the strategy works by field mappings.
  lemma ReverseUsableIff<V(!new)>(show: V -> V, index: Index<V>, m: VersionMigration<V>, filler: V)
    requires m.reversible && !m.fromVersion.SameTriple(m.toVersion)
    ensures var added := Added(index, m);
            && CanMigrate(added, m.toVersion, m.fromVersion)
            && ((exists x: Record<V> :: Outcome(show, added, m.toVersion, m.fromVersion, x).Success?)
                  <==> m.strategy.Automatic? || m.strategy.Fallback?)
  {
    var added := Added(index, m);
    var r := added[MigrationKey(m.toVersion, m.fromVersion)];
    assert r == ReverseMigration(m);
    var x: Record<V> := map t | t in Targets(m.fieldMappings) :: filler;
    assert Succeeds(r.fieldMappings, x) by {
      forall i | 0 <= i < |m.fieldMappings|
        ensures r.fieldMappings[i].fromField in x
      {
        assert m.fieldMappings[i].toField in Targets(m.fieldMappings);
      }
    }
    if m.strategy.Automatic? || m.strategy.Fallback? {
      assert Outcome(show, added, m.toVersion, m.fromVersion, x).Success?;
    }
  }
}
