// Two string encodings of pairs, both "first:second": the keys of the compatibility matrix in
// pkg/version/utils.go and the namespaced keys of pkg/dragonfly/utils.go.
module Keys {
  import opened GoStrings

  function MatrixKey(component: string, version: string): string {
    component + ":" + version
  }

  predicate ColonFree(s: string) {
    ':' !in s
  }

  lemma SplitAtColon(a: string, b: string)
    requires ColonFree(a)
    ensures SplitN2(a + ":" + b, ":") == [a, b]
  {
    ContainsChar(a, ':');
    IndexAfter(a, ":", b);
    var s := a + ":" + b;
    assert s[..|a|] == a && s[|a| + 1..] == b;
  }

  lemma SplitPair(s: string)
    ensures |SplitN2(s, ":")| == 2 <==> !ColonFree(s)
    ensures !ColonFree(s) ==> ColonFree(SplitN2(s, ":")[0]) && s == SplitN2(s, ":")[0] + ":" + SplitN2(s, ":")[1]
  {
    ContainsChar(s, ':');
    if !ColonFree(s) {
      var k := Index(s, ":");
      BeforeIndex(s, ":");
      ContainsChar(s[..k], ':');
      assert s[k..k + 1] == ":";
      assert s == s[..k] + s[k..k + 1] + s[k + 1..];
    }
  }

  lemma MatrixKeyInjective(c1: string, v1: string, c2: string, v2: string)
    requires ColonFree(c1) && ColonFree(c2) && MatrixKey(c1, v1) == MatrixKey(c2, v2)
    ensures c1 == c2 && v1 == v2
  {
    SplitAtColon(c1, v1);
    SplitAtColon(c2, v2);
  }

  // Two different component names have versions that share a key exactly when one name followed by a
  // colon begins the other.
  lemma MatrixKeysCollideIff(c1: string, c2: string)
    requires c1 != c2
    ensures (exists v1, v2 :: MatrixKey(c1, v1) == MatrixKey(c2, v2))
       <==> c1 + ":" <= c2 || c2 + ":" <= c1
  {
    if c1 + ":" <= c2 {
      assert c2 == (c1 + ":") + c2[|c1| + 1..];
      assert MatrixKey(c1, c2[|c1| + 1..] + ":") == MatrixKey(c2, "");
    }
    if c2 + ":" <= c1 {
      assert c1 == (c2 + ":") + c1[|c2| + 1..];
      assert MatrixKey(c2, c1[|c2| + 1..] + ":") == MatrixKey(c1, "");
    }
    if v1, v2 :| MatrixKey(c1, v1) == MatrixKey(c2, v2) {
      var k := MatrixKey(c1, v1);
      assert c1 + ":" == k[..|c1| + 1] && c2 + ":" == k[..|c2| + 1];
      assert c1 == k[..|c1|] && c2 == k[..|c2|];
      if |c1| < |c2| {
        assert c1 + ":" == c2[..|c1| + 1];
      } else {
        assert |c2| < |c1|;
        assert c2 + ":" == c1[..|c2| + 1];
      }
    }
  }

  // ---- The compatibility matrix ----

  datatype Entry = Entry(component1: string, version1: string, component2: string, version2: string, compatible: bool)

  type Rows = map<string, map<string, bool>>

  function Set(rows: Rows, e: Entry): Rows {
    var key := MatrixKey(e.component1, e.version1);
    var row := if key in rows then rows[key] else map[];
    rows[key := row[MatrixKey(e.component2, e.version2) := e.compatible]]
  }

  function SetAll(entries: seq<Entry>): Rows {
    if entries == [] then map[] else Set(SetAll(entries[..|entries| - 1]), entries[|entries| - 1])
  }

  predicate IsCompatible(rows: Rows, c1: string, v1: string, c2: string, v2: string) {
    var key, targetKey := MatrixKey(c1, v1), MatrixKey(c2, v2);
    key in rows && targetKey in rows[key] && rows[key][targetKey]
  }

  predicate About(e: Entry, c1: string, v1: string, c2: string, v2: string) {
    e.component1 == c1 && e.version1 == v1 && e.component2 == c2 && e.version2 == v2
  }

  // With colon-free component names the encoding loses nothing: compatible is what the last entry about
  // exactly this quadruple set so.
  lemma {:induction false} MatrixRemembers(entries: seq<Entry>, c1: string, v1: string, c2: string, v2: string)
    requires ColonFree(c1) && ColonFree(c2)
    requires forall i | 0 <= i < |entries| :: ColonFree(entries[i].component1) && ColonFree(entries[i].component2)
    ensures IsCompatible(SetAll(entries), c1, v1, c2, v2) <==>
      exists i | 0 <= i < |entries| ::
        && About(entries[i], c1, v1, c2, v2) && entries[i].compatible
        && forall j | i < j < |entries| :: !About(entries[j], c1, v1, c2, v2)
  {
    if entries != [] {
      var front, e := entries[..|entries| - 1], entries[|entries| - 1];
      MatrixRemembers(front, c1, v1, c2, v2);
      assert forall i | 0 <= i < |front| :: entries[i] == front[i];
      if MatrixKey(e.component1, e.version1) == MatrixKey(c1, v1) {
        MatrixKeyInjective(e.component1, e.version1, c1, v1);
      }
      if MatrixKey(e.component2, e.version2) == MatrixKey(c2, v2) {
        MatrixKeyInjective(e.component2, e.version2, c2, v2);
      }
    }
  }

  // How often a version is listed under a component.
  function Listed(result: map<string, seq<string>>, component: string, version: string): nat {
    if component in result then multiset(result[component])[version] else 0
  }

  class CompatibilityMatrix {
    var rows: Rows

    constructor ()
      ensures rows == map[]
    {
      rows := map[];
    }

    method SetCompatible(component1: string, version1: string, component2: string, version2: string, compatible: bool)
      modifies this
      ensures rows == Set(old(rows), Entry(component1, version1, component2, version2, compatible))
    {
      var key, targetKey := MatrixKey(component1, version1), MatrixKey(component2, version2);
      if key !in rows {
        rows := rows[key := map[]];
      }
      rows := rows[key := rows[key][targetKey := compatible]];
    }

    // Under a colon-free component, a version is listed once if it is compatible and not at all
    // otherwise; nothing is listed under any other name.
    method GetCompatibleVersions(component: string, version: string) returns (result: map<string, seq<string>>)
      ensures forall c, v ::
        Listed(result, c, v) == (if ColonFree(c) && IsCompatible(rows, component, version, c, v) then 1 else 0)
    {
      result := map[];
      var key := MatrixKey(component, version);
      if key !in rows {
        return;
      }
      var todo := rows[key].Keys;
      while todo != {}
        invariant todo <= rows[key].Keys
        invariant forall c, v ::
          Listed(result, c, v) ==
          (if ColonFree(c) && IsCompatible(rows, component, version, c, v) && MatrixKey(c, v) !in todo then 1 else 0)
        decreases todo
      {
        var targetKey :| targetKey in todo;
        ghost var before, rest := result, todo;
        todo := todo - {targetKey};
        if rows[key][targetKey] {
          var parts := SplitN2(targetKey, ":");
          SplitPair(targetKey);
          if |parts| == 2 {
            result := result[parts[0] := (if parts[0] in result then result[parts[0]] else []) + [parts[1]]];
            ListOne(before, result, parts[0], parts[1]);
            KeysOfPair(targetKey, parts[0], parts[1]);
          } else {
            NoPair(targetKey);
          }
        }
      }
    }
  }

  lemma ListOne(before: map<string, seq<string>>, after: map<string, seq<string>>, c: string, v: string)
    requires after == before[c := (if c in before then before[c] else []) + [v]]
    ensures forall c', v' :: Listed(after, c', v') == Listed(before, c', v') + (if c' == c && v' == v then 1 else 0)
  {
  }

  lemma KeysOfPair(k: string, c: string, v: string)
    requires ColonFree(c) && k == c + ":" + v
    ensures forall c', v' | ColonFree(c') :: MatrixKey(c', v') == k <==> c' == c && v' == v
  {
    forall c', v' | ColonFree(c')
      ensures MatrixKey(c', v') == k <==> c' == c && v' == v
    {
      if MatrixKey(c', v') == MatrixKey(c, v) {
        MatrixKeyInjective(c', v', c, v);
      }
    }
  }

  lemma NoPair(k: string)
    requires ColonFree(k)
    ensures forall c, v :: MatrixKey(c, v) != k
  {
    forall c, v
      ensures MatrixKey(c, v) != k
    {
      assert MatrixKey(c, v)[|c|] == ':';
    }
  }

  // ---- Namespaced keys ----

  function BuildRedisKey(namespace: string, key: string): string {
    if namespace == "" then key else namespace + ":" + key
  }

  function SplitRedisKey(fullKey: string): (string, string) {
    var parts := SplitN2(fullKey, ":");
    if |parts| == 2 then (parts[0], parts[1]) else ("", fullKey)
  }

  // Splitting undoes building exactly when the namespace has no colon and, if it is empty, neither
  // has the key.
  lemma RedisRoundTripIff(namespace: string, key: string)
    ensures SplitRedisKey(BuildRedisKey(namespace, key)) == (namespace, key)
       <==> ColonFree(namespace) && (namespace != "" || ColonFree(key))
  {
    SplitPair(BuildRedisKey(namespace, key));
    if namespace != "" && ColonFree(namespace) {
      SplitAtColon(namespace, key);
    }
  }
}
