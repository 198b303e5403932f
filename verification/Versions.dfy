// pkg/version/version.go: versions, their text form, their order, and version ranges.
module Versions {
  import opened Wrappers
  import opened GoStrings

  datatype Version = Version(text: string, major: int, minor: int, patch: int, preLabel: string) {
    function ToString(): string {
      if text != "" then text
      else Triple(major, minor, patch) + (if preLabel != "" then "-" + preLabel else "")
    }

    predicate IsZero() {
      text == "" && major == 0 && minor == 0 && patch == 0
    }

    function Compare(other: Version): int {
      if major != other.major then (if major < other.major then -1 else 1)
      else if minor != other.minor then (if minor < other.minor then -1 else 1)
      else if patch != other.patch then (if patch < other.patch then -1 else 1)
      else 0
    }

    predicate SameTriple(other: Version) {
      major == other.major && minor == other.minor && patch == other.patch
    }

    predicate IsCompatible(other: Version) {
      major == other.major && Compare(other) >= 0
    }

    predicate IsMajorBreaking(other: Version) {
      major > other.major
    }

    predicate IsMinorUpgrade(other: Version) {
      major == other.major && minor > other.minor
    }

    predicate IsPatchUpgrade(other: Version) {
      major == other.major && minor == other.minor && patch > other.patch
    }
  }

  const ZERO := Version("", 0, 0, 0, "")
  const DEFAULT := Version("v1.0.0", 1, 0, 0, "")

  // "v%d.%d.%d"
  function Triple(major: int, minor: int, patch: int): string {
    "v" + Itoa(major) + "." + Itoa(minor) + "." + Itoa(patch)
  }

  function NewVersionWithLabel(major: int, minor: int, patch: int, preLabel: string): Version {
    var base := Triple(major, minor, patch);
    Version(if preLabel != "" then base + "-" + preLabel else base, major, minor, patch, preLabel)
  }

  function NewVersion(major: int, minor: int, patch: int): Version {
    Version(Triple(major, minor, patch), major, minor, patch, "")
  }

  // ---- Order ----

  // Compare is a three-way total preorder whose classes are the numeric triples:
  // labels and text never matter.
  lemma CompareIsTotalPreorder(a: Version, b: Version, c: Version)
    ensures a.Compare(b) == -b.Compare(a)
    ensures a.Compare(b) == 0 <==> a.SameTriple(b)
    ensures a.Compare(b) <= 0 && b.Compare(c) <= 0 ==> a.Compare(c) <= 0
    ensures a.Compare(b) <= 0 && b.Compare(c) < 0 ==> a.Compare(c) < 0
    ensures b.SameTriple(c) ==> a.Compare(b) == a.Compare(c)
  {
  }

  // It is the lexicographic order of major, minor and patch.
  lemma CompareIsLexicographic(a: Version, b: Version)
    ensures -1 <= a.Compare(b) <= 1
    ensures a.Compare(b) > 0 <==>
      || a.major > b.major
      || (a.major == b.major && a.minor > b.minor)
      || (a.major == b.major && a.minor == b.minor && a.patch > b.patch)
    ensures a.Compare(b) == 0 <==> a.major == b.major && a.minor == b.minor && a.patch == b.patch
    ensures a.IsMajorBreaking(b) ==> a.major > b.major
    ensures a.IsMinorUpgrade(b) ==> a.major == b.major && a.minor > b.minor
    ensures a.IsPatchUpgrade(b) ==> a.major == b.major && a.minor == b.minor && a.patch > b.patch
    ensures a.IsCompatible(b) <==> a.major == b.major && (a.minor > b.minor || (a.minor == b.minor && a.patch >= b.patch))
  {
  }

  // A version is zero if it has no text and the numbers of the zero version; its label does not count.
  lemma ZeroIgnoresLabel(v: Version)
    ensures v.IsZero() <==> v == ZERO.(preLabel := v.preLabel)
  {
  }

  // Going up is exactly one kind of upgrade; otherwise it is none.
  lemma UpgradeKindsPartitionCompare(v: Version, other: Version)
    ensures v.Compare(other) > 0 <==> v.IsMajorBreaking(other) || v.IsMinorUpgrade(other) || v.IsPatchUpgrade(other)
    ensures !(v.IsMajorBreaking(other) && v.IsMinorUpgrade(other))
    ensures !(v.IsMinorUpgrade(other) && v.IsPatchUpgrade(other))
    ensures !(v.IsMajorBreaking(other) && v.IsPatchUpgrade(other))
    ensures v.IsCompatible(other) <==> v.SameTriple(other) || v.IsMinorUpgrade(other) || v.IsPatchUpgrade(other)
  {
  }

  // ---- Parsing ----

  function LowerAscii(c: char): char {
    if 'A' <= c <= 'Z' then (c as int + 32) as char else c
  }

  predicate EqualsIgnoringCase(s: string, lower: string) {
    |s| == |lower| && forall i | 0 <= i < |s| :: LowerAscii(s[i]) == lower[i]
  }

  predicate IsKeyword(s: string) {
    EqualsIgnoringCase(s, "latest") || EqualsIgnoringCase(s, "current")
  }

  // A numeric segment; a missing or malformed one counts as zero.
  function Segment(parts: seq<string>, i: nat): int {
    if i < |parts| && Atoi(parts[i]).Some? then Atoi(parts[i]).value else 0
  }

  // The meaning of ParseVersion.
  function Parse(s: string): Version {
    if s == "" then ZERO
    else if IsKeyword(s) then Version(s, 0, 0, 0, "")
    else
      var dashed := SplitN2(TrimPrefix(s, "v"), "-");
      var parts := SplitOn(dashed[0], ".");
      if Atoi(parts[0]).None? then Version(s, 0, 0, 0, "")
      else Version(s, Segment(parts, 0), Segment(parts, 1), Segment(parts, 2),
                   if |dashed| == 2 then dashed[1] else "")
  }

  method ParseVersion(version: string) returns (v: Version)
    ensures v == Parse(version)
  {
    if version == "" {
      return ZERO;
    }
    if IsKeyword(version) {
      return Version(version, 0, 0, 0, "");
    }
    var cleanVersion := TrimPrefix(version, "v");
    var preLabel := "";
    if Contains(cleanVersion, "-") {
      var halves := SplitN2(cleanVersion, "-");
      cleanVersion := halves[0];
      preLabel := halves[1];
    }
    var parts := Split(cleanVersion, ".");
    var major, minor, patch := 0, 0, 0;
    if |parts| > 0 {
      var n := Atoi(parts[0]);
      if n.None? {
        return Version(version, 0, 0, 0, "");
      }
      major := n.value;
    }
    if |parts| > 1 {
      var n := Atoi(parts[1]);
      minor := if n.None? then 0 else n.value;
    }
    if |parts| > 2 {
      var n := Atoi(parts[2]);
      patch := if n.None? then 0 else n.value;
    }
    v := Version(version, major, minor, patch, preLabel);
  }

  // ---- What is parsed from which text ----

  // The text spells a word in any mixture of cases.
  predicate Spells(s: string, lower: string, upper: string)
    requires |lower| == |upper|
  {
    |s| == |lower| && forall i | 0 <= i < |s| :: s[i] == lower[i] || s[i] == upper[i]
  }

  lemma KeywordSpelled(s: string)
    ensures IsKeyword(s) <==> Spells(s, "latest", "LATEST") || Spells(s, "current", "CURRENT")
  {
    LowerSpells(s, "latest", "LATEST");
    LowerSpells(s, "current", "CURRENT");
  }

  lemma LowerSpells(s: string, lower: string, upper: string)
    requires |lower| == |upper|
    requires forall i | 0 <= i < |lower| :: 'a' <= lower[i] <= 'z' && upper[i] as int == lower[i] as int - 32
    ensures EqualsIgnoringCase(s, lower) <==> Spells(s, lower, upper)
  {
    if |s| == |lower| {
      forall i | 0 <= i < |s|
        ensures LowerAscii(s[i]) == lower[i] <==> s[i] == lower[i] || s[i] == upper[i]
      {
      }
    }
  }

  // The two keywords, in any case, are versions without numbers and label.
  lemma KeywordsParse(s: string)
    requires Spells(s, "latest", "LATEST") || Spells(s, "current", "CURRENT")
    ensures Parse(s) == Version(s, 0, 0, 0, "")
  {
    KeywordSpelled(s);
  }

  lemma {:induction false} JoinedDashFree(pieces: seq<string>)
    requires pieces != [] && forall i | 0 <= i < |pieces| :: '-' !in pieces[i]
    ensures '-' !in Join(pieces, ".")
  {
    if |pieces| > 1 {
      JoinedDashFree(pieces[1..]);
    }
  }

  // The text of the pieces joined by dots, with the leading "v" or without, and with a label or without.
  function Assembled(pieces: seq<string>, preLabel: Option<string>, prefixed: bool): string
    requires pieces != []
  {
    var body := Join(pieces, ".");
    (if prefixed then "v" else "") + (if preLabel.Some? then body + "-" + preLabel.value else body)
  }

  // Every such text, unless it is a keyword or a bare text that begins with "v" itself: a number that is
  // absent or unreadable counts as zero, except that without a readable first one nothing is read.
  lemma ParseReadsPieces(pieces: seq<string>, preLabel: Option<string>, prefixed: bool)
    requires pieces != [] && forall i | 0 <= i < |pieces| :: '-' !in pieces[i] && '.' !in pieces[i]
    requires var s := Assembled(pieces, preLabel, prefixed);
             !prefixed ==> (s == "" || s[0] != 'v') && !Spells(s, "latest", "LATEST") && !Spells(s, "current", "CURRENT")
    ensures var (s, n) := (Assembled(pieces, preLabel, prefixed), |pieces|);
            var v := Parse(s);
            && v.text == s
            && (Atoi(pieces[0]).None? ==> (v.major, v.minor, v.patch, v.preLabel) == (0, 0, 0, ""))
            && (Atoi(pieces[0]).Some? ==>
                  && v.major == Atoi(pieces[0]).value
                  && (n > 1 && Atoi(pieces[1]).Some? ==> v.minor == Atoi(pieces[1]).value)
                  && (n <= 1 || Atoi(pieces[1]).None? ==> v.minor == 0)
                  && (n > 2 && Atoi(pieces[2]).Some? ==> v.patch == Atoi(pieces[2]).value)
                  && (n <= 2 || Atoi(pieces[2]).None? ==> v.patch == 0)
                  && v.preLabel == if preLabel.Some? then preLabel.value else "")
  {
    var s, body := Assembled(pieces, preLabel, prefixed), Join(pieces, ".");
    var clean := if preLabel.Some? then body + "-" + preLabel.value else body;
    JoinedDashFree(pieces);
    ContainsChar(body, '-');
    forall p | p in pieces
      ensures !Contains(p, ".")
    {
      ContainsChar(p, '.');
    }
    SplitJoin(pieces, ".");
    CleanText(clean, prefixed);
    SplitOff(body, preLabel);
    KeywordSpelled(s);
    if s == "" {
      EmptyPieces(pieces);
    }
  }

  lemma EmptyPieces(pieces: seq<string>)
    requires pieces != [] && Join(pieces, ".") == ""
    ensures pieces[0] == "" && Atoi(pieces[0]).None?
  {
  }

  lemma CleanText(clean: string, prefixed: bool)
    requires !prefixed ==> clean == "" || clean[0] != 'v'
    ensures TrimPrefix((if prefixed then "v" else "") + clean, "v") == clean
    ensures prefixed ==> !IsKeyword("v" + clean)
  {
    if prefixed {
      VPrefix(clean);
    } else {
      assert "" + clean == clean;
      assert clean != "" ==> clean[0..1] == [clean[0]];
    }
  }

  lemma SplitOff(body: string, preLabel: Option<string>)
    requires !Contains(body, "-")
    ensures SplitN2(if preLabel.Some? then body + "-" + preLabel.value else body, "-")
         == if preLabel.Some? then [body, preLabel.value] else [body]
  {
    if preLabel.Some? {
      IndexAfter(body, "-", preLabel.value);
      var s := body + "-" + preLabel.value;
      assert s[..|body|] == body && s[|body| + 1..] == preLabel.value;
    }
  }

  // ---- Round trips ----

  // Only the empty string parses to a zero version, so validation never rejects anything else;
  // and only it fails to print as it was read.
  lemma ParseThenPrint(s: string)
    ensures Parse(s).IsZero() <==> s == ""
    ensures Parse(s).ToString() == s <==> s != ""
  {
  }

  lemma TextNeverEmpty(v: Version)
    ensures v.ToString() != ""
  {
  }

  // A dash never reaches a number, so no parsed number is negative.
  lemma ParsedNumbersNonNegative(s: string)
    ensures Parse(s).major >= 0 && Parse(s).minor >= 0 && Parse(s).patch >= 0
  {
    var clean := TrimPrefix(s, "v");
    var body := SplitN2(clean, "-")[0];
    if Contains(clean, "-") {
      BeforeIndex(clean, "-");
    }
    var parts := SplitOn(body, ".");
    forall i | 0 <= i < |parts|
      ensures '-' !in parts[i]
    {
      SplitPieces(body, ".", parts[i]);
      ContainsChar(parts[i], '-');
      ContainsChar(body, '-');
    }
  }

  lemma SplitThree(a: string, b: string, c: string)
    requires !Contains(a, ".") && !Contains(b, ".") && !Contains(c, ".")
    ensures SplitOn(a + "." + b + "." + c, ".") == [a, b, c]
  {
    var pieces := [a, b, c];
    assert pieces[1..] == [b, c] && pieces[1..][1..] == [c];
    assert Join([c], ".") == c;
    assert Join([b, c], ".") == b + "." + c;
    assert a + "." + (b + "." + c) == a + "." + b + "." + c;
    SplitJoin(pieces, ".");
  }

  function WithLabel(body: string, preLabel: string): string {
    if preLabel == "" then body else body + "-" + preLabel
  }

  lemma SplitLabel(body: string, preLabel: string)
    requires !Contains(body, "-")
    ensures SplitN2(WithLabel(body, preLabel), "-") == if preLabel == "" then [body] else [body, preLabel]
  {
    if preLabel != "" {
      IndexAfter(body, "-", preLabel);
      var s := body + "-" + preLabel;
      assert s[..|body|] == body && s[|body| + 1..] == preLabel;
    }
  }

  lemma VPrefix(clean: string)
    ensures TrimPrefix("v" + clean, "v") == clean
    ensures !IsKeyword("v" + clean)
  {
    assert ("v" + clean)[0..1] == "v";
    assert ("v" + clean)[0] == 'v';
  }

  lemma BodyDashFree(a: string, b: string, c: string)
    requires '-' !in a && '-' !in b && '-' !in c
    ensures !Contains(a + "." + b + "." + c, "-")
  {
    ContainsChar(a + "." + b + "." + c, '-');
  }

  lemma BodyPieces(a: string, b: string, c: string, preLabel: string)
    requires '-' !in a && '-' !in b && '-' !in c && '.' !in a && '.' !in b && '.' !in c
    ensures var dashed := SplitN2(WithLabel(a + "." + b + "." + c, preLabel), "-");
            SplitOn(dashed[0], ".") == [a, b, c] && (if |dashed| == 2 then dashed[1] else "") == preLabel
  {
    BodyDashFree(a, b, c);
    SplitLabel(a + "." + b + "." + c, preLabel);
    ContainsChar(a, '.');
    ContainsChar(b, '.');
    ContainsChar(c, '.');
    SplitThree(a, b, c);
  }

  lemma ParsePieces(s: string, a: string, b: string, c: string, preLabel: string)
    requires s != "" && !IsKeyword(s)
    requires var dashed := SplitN2(TrimPrefix(s, "v"), "-");
             SplitOn(dashed[0], ".") == [a, b, c] && (if |dashed| == 2 then dashed[1] else "") == preLabel
    requires Atoi(a).Some? && Atoi(b).Some? && Atoi(c).Some?
    ensures Parse(s) == Version(s, Atoi(a).value, Atoi(b).value, Atoi(c).value, preLabel)
  {
  }

  lemma ParseText(a: string, b: string, c: string, preLabel: string)
    requires '-' !in a && '-' !in b && '-' !in c && '.' !in a && '.' !in b && '.' !in c
    requires Atoi(a).Some? && Atoi(b).Some? && Atoi(c).Some?
    ensures var s := "v" + WithLabel(a + "." + b + "." + c, preLabel);
            Parse(s) == Version(s, Atoi(a).value, Atoi(b).value, Atoi(c).value, preLabel)
  {
    var clean := WithLabel(a + "." + b + "." + c, preLabel);
    VPrefix(clean);
    BodyPieces(a, b, c, preLabel);
    ParsePieces("v" + clean, a, b, c, preLabel);
  }

  lemma NoPrefix(s: string)
    requires s != "" && IsDigit(s[0])
    ensures TrimPrefix(s, "v") == s && !IsKeyword(s)
  {
    assert s[0..1] == [s[0]];
  }

  // The same without the leading "v".
  lemma ParseBareText(a: string, b: string, c: string, preLabel: string)
    requires '-' !in a && '-' !in b && '-' !in c && '.' !in a && '.' !in b && '.' !in c
    requires a != "" && IsDigit(a[0])
    requires Atoi(a).Some? && Atoi(b).Some? && Atoi(c).Some?
    ensures var s := WithLabel(a + "." + b + "." + c, preLabel);
            Parse(s) == Version(s, Atoi(a).value, Atoi(b).value, Atoi(c).value, preLabel)
  {
    var s := WithLabel(a + "." + b + "." + c, preLabel);
    assert s[0] == a[0];
    NoPrefix(s);
    BodyPieces(a, b, c, preLabel);
    ParsePieces(s, a, b, c, preLabel);
  }

  lemma DigitsOnly(n: nat)
    ensures '-' !in Digits(n) && '.' !in Digits(n)
  {
    assert AllDigits(Digits(n));
  }

  lemma Reassociate(a: string, b: string, c: string, preLabel: string)
    ensures "v" + a + "." + b + "." + c == "v" + (a + "." + b + "." + c)
    ensures "v" + a + "." + b + "." + c + "-" + preLabel == "v" + (a + "." + b + "." + c + "-" + preLabel)
  {
  }

  lemma PrintedText(major: nat, minor: nat, patch: nat, preLabel: string)
    ensures NewVersionWithLabel(major, minor, patch, preLabel).ToString()
         == "v" + WithLabel(Digits(major) + "." + Digits(minor) + "." + Digits(patch), preLabel)
  {
    Reassociate(Digits(major), Digits(minor), Digits(patch), preLabel);
  }

  // What is printed: the text a version has, or else what the constructor would have given it.
  lemma PrintsAs(v: Version)
    ensures v.text != "" ==> v.ToString() == v.text
    ensures v.text == "" ==> v.ToString() == NewVersionWithLabel(v.major, v.minor, v.patch, v.preLabel).text
    ensures var body := Itoa(v.major) + "." + Itoa(v.minor) + "." + Itoa(v.patch);
            NewVersionWithLabel(v.major, v.minor, v.patch, v.preLabel).text ==
              "v" + (if v.preLabel == "" then body else body + "-" + v.preLabel)
  {
    Reassociate(Itoa(v.major), Itoa(v.minor), Itoa(v.patch), v.preLabel);
  }

  // The printed text, whatever the label, is read back as the three numbers and the label.
  lemma {:induction false} PrintThenParse(major: nat, minor: nat, patch: nat, preLabel: string)
    requires IsInt64(major) && IsInt64(minor) && IsInt64(patch)
    ensures Parse(NewVersionWithLabel(major, minor, patch, preLabel).ToString())
         == NewVersionWithLabel(major, minor, patch, preLabel)
  {
    var (a, b, c) := (Digits(major), Digits(minor), Digits(patch));
    DigitsOnly(major);
    DigitsOnly(minor);
    DigitsOnly(patch);
    AtoiDigits(major);
    AtoiDigits(minor);
    AtoiDigits(patch);
    ParseText(a, b, c, preLabel);
    PrintedText(major, minor, patch, preLabel);
  }

  // Over all 64-bit numbers and all labels, printing then parsing gives the version back
  // exactly when no number is negative.
  lemma {:induction false} PrintThenParseIff(major: int, minor: int, patch: int, preLabel: string)
    requires IsInt64(major) && IsInt64(minor) && IsInt64(patch)
    ensures Parse(NewVersionWithLabel(major, minor, patch, preLabel).ToString())
         == NewVersionWithLabel(major, minor, patch, preLabel)
       <==> major >= 0 && minor >= 0 && patch >= 0
  {
    if major >= 0 && minor >= 0 && patch >= 0 {
      PrintThenParse(major, minor, patch, preLabel);
    } else {
      ParsedNumbersNonNegative(NewVersionWithLabel(major, minor, patch, preLabel).ToString());
    }
  }

  // A version made without a label is one made with the empty label.
  lemma Unlabelled(major: int, minor: int, patch: int)
    ensures NewVersion(major, minor, patch) == NewVersionWithLabel(major, minor, patch, "")
  {
  }

  lemma NewVersionPrintThenParseIff(major: int, minor: int, patch: int)
    requires IsInt64(major) && IsInt64(minor) && IsInt64(patch)
    ensures Parse(NewVersion(major, minor, patch).ToString()) == NewVersion(major, minor, patch)
       <==> major >= 0 && minor >= 0 && patch >= 0
  {
    Unlabelled(major, minor, patch);
    PrintThenParseIff(major, minor, patch, "");
  }

  // ---- What decides the numbers ----

  function Body(s: string): string {
    SplitN2(TrimPrefix(s, "v"), "-")[0]
  }

  function Numbers(body: string): (int, int, int) {
    var parts := SplitOn(body, ".");
    if Atoi(parts[0]).None? then (0, 0, 0) else (Segment(parts, 0), Segment(parts, 1), Segment(parts, 2))
  }

  lemma FirstPiece(s: string, sep: string)
    requires |sep| == 1 && s != "" && s[0] != sep[0]
    ensures SplitOn(s, sep)[0] != "" && SplitOn(s, sep)[0][0] == s[0]
    ensures SplitN2(s, sep)[0] != "" && SplitN2(s, sep)[0][0] == s[0]
  {
    if Contains(s, sep) {
      var k := Index(s, sep);
      assert s[k] == s[k..k + |sep|][0];
    }
  }

  lemma KeywordHasNoNumber(s: string)
    requires IsKeyword(s)
    ensures Numbers(Body(s)) == (0, 0, 0)
  {
    assert LowerAscii(s[0]) == 'l' || LowerAscii(s[0]) == 'c';
    assert s[0..1] == [s[0]];
    assert TrimPrefix(s, "v") == s;
    FirstPiece(s, "-");
    FirstPiece(Body(s), ".");
    var part := SplitOn(Body(s), ".")[0];
    assert part[0..1] == [s[0]] && !IsDigit(part[0]);
  }

  // The numbers of a text are those of what comes before its first dash.
  lemma NumbersOfBody(s: string)
    requires s != ""
    ensures var v := Parse(s); (v.major, v.minor, v.patch) == Numbers(Body(s))
  {
    if IsKeyword(s) {
      KeywordHasNoNumber(s);
    }
  }

  lemma FirstPart(s: string, rest: string)
    ensures SplitN2(s + "-" + rest, "-")[0] == SplitN2(s, "-")[0]
  {
    var longer := s + "-" + rest;
    if Contains(s, "-") {
      var k := Index(s, "-");
      forall i | 0 <= i <= k
        ensures OccursAt(longer, "-", i) <==> OccursAt(s, "-", i)
      {
        assert k + 1 <= |s| && longer[i..i + 1] == s[i..i + 1];
      }
      IndexUnique(longer, "-", k);
      assert longer[..k] == s[..k];
    } else {
      IndexAfter(s, "-", rest);
      assert longer[..|s|] == s;
    }
  }

  lemma TrimmedFirst(s: string, rest: string)
    requires s != ""
    ensures TrimPrefix(s + "-" + rest, "v") == TrimPrefix(s, "v") + "-" + rest
  {
    assert (s + "-" + rest)[0..1] == s[0..1];
  }

  // So appending a dash and anything after it never changes them.
  lemma DashKeepsTriple(s: string, rest: string)
    requires s != ""
    ensures Parse(s + "-" + rest).SameTriple(Parse(s))
  {
    NumbersOfBody(s);
    NumbersOfBody(s + "-" + rest);
    TrimmedFirst(s, rest);
    FirstPart(TrimPrefix(s, "v"), rest);
  }

  // ---- Ranges ----

  datatype VersionRange = VersionRange(min: Version, max: Version, exact: seq<Version>)

  // A non-empty list of exact versions overrides the bounds; a zero bound is no bound.
  predicate InRange(r: VersionRange, v: Version) {
    if r.exact != [] then exists e | e in r.exact :: v.SameTriple(e)
    else (r.min.IsZero() || v.Compare(r.min) >= 0) && (r.max.IsZero() || v.Compare(r.max) <= 0)
  }

  // The same, by the numbers.
  predicate Within(v: Version, r: VersionRange) {
    if |r.exact| > 0 then exists i | 0 <= i < |r.exact| ::
        v.major == r.exact[i].major && v.minor == r.exact[i].minor && v.patch == r.exact[i].patch
    else (Unset(r.min) || NotBelow(v, r.min)) && (Unset(r.max) || NotBelow(r.max, v))
  }

  predicate Unset(bound: Version) {
    bound.text == "" && bound.major == 0 && bound.minor == 0 && bound.patch == 0
  }

  predicate NotBelow(a: Version, b: Version) {
    || a.major > b.major
    || (a.major == b.major && a.minor > b.minor)
    || (a.major == b.major && a.minor == b.minor && a.patch >= b.patch)
  }

  lemma RangeByNumbers(r: VersionRange, v: Version)
    ensures InRange(r, v) <==> Within(v, r)
  {
    if r.exact != [] {
      if e :| e in r.exact && v.SameTriple(e) {
        var i :| 0 <= i < |r.exact| && r.exact[i] == e;
      }
      if i :| 0 <= i < |r.exact| && v.major == r.exact[i].major && v.minor == r.exact[i].minor && v.patch == r.exact[i].patch {
        assert v.SameTriple(r.exact[i]);
      }
    }
  }

  method RangeContains(r: VersionRange, version: Version) returns (b: bool)
    ensures b == InRange(r, version)
    ensures b <==> Within(version, r)
  {
    RangeByNumbers(r, version);
    if |r.exact| > 0 {
      for i := 0 to |r.exact|
        invariant forall j | 0 <= j < i :: !version.SameTriple(r.exact[j])
      {
        if r.exact[i].SameTriple(version) {
          assert version.SameTriple(r.exact[i]);
          return true;
        }
      }
      return false;
    }
    if !r.min.IsZero() && version.Compare(r.min) < 0 {
      return false;
    }
    if !r.max.IsZero() && version.Compare(r.max) > 0 {
      return false;
    }
    b := true;
  }

  // Membership sees only the numeric triple.
  lemma RangeSeesTriples(r: VersionRange, v: Version, w: Version)
    requires v.SameTriple(w)
    ensures InRange(r, v) <==> InRange(r, w)
  {
  }
}
