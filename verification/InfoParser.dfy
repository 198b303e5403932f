// pkg/dragonfly/utils.go: the INFO text and its map of sections.
module InfoParser {
  import opened GoStrings

  type Fields = map<string, string>
  type Info = map<string, Fields>

  const SEPARATOR := "\r\n"
  const HEADER := "# "

  // ---- Meaning of a text ----

  datatype Line = Blank | Header(name: string) | Field(key: string, value: string) | Other

  function Classify(raw: string): Line {
    var line := TrimSpace(raw);
    if line == "" then Blank
    else if HasPrefix(line, HEADER) then Header(TrimSpace(TrimPrefix(line, HEADER)))
    else
      var parts := SplitN2(line, ":");
      if |parts| == 2 then Field(TrimSpace(parts[0]), TrimSpace(parts[1])) else Other
  }

  function ClassifyAll(raws: seq<string>): (lines: seq<Line>)
    ensures |lines| == |raws|
  {
    if raws == [] then [] else [Classify(raws[0])] + ClassifyAll(raws[1..])
  }

  lemma {:induction false} ClassifyAt(raws: seq<string>, i: nat)
    requires i < |raws|
    ensures ClassifyAll(raws)[i] == Classify(raws[i])
  {
    if i > 0 {
      ClassifyAt(raws[1..], i - 1);
    }
  }

  lemma {:induction false} ClassifyConcat(a: seq<string>, b: seq<string>)
    ensures ClassifyAll(a + b) == ClassifyAll(a) + ClassifyAll(b)
  {
    if a == [] {
      assert a + b == b;
    } else {
      assert (a + b)[1..] == a[1..] + b;
      ClassifyConcat(a[1..], b);
    }
  }

  datatype Parsed = Parsed(info: Info, current: string)

  const NOTHING := Parsed(map[], "")

  // A header opens (or reopens, empty) its section; a field goes to the current section.
  function Read(p: Parsed, line: Line): Parsed {
    match line
    case Header(name) => Parsed(p.info[name := map[]], name)
    case Field(key, value) =>
      if p.current == "" then p
      else
        var fields := if p.current in p.info then p.info[p.current] else map[];
        p.(info := p.info[p.current := fields[key := value]])
    case _ => p
  }

  function ReadAll(p: Parsed, lines: seq<Line>): Parsed
    decreases |lines|
  {
    if lines == [] then p else ReadAll(Read(p, lines[0]), lines[1..])
  }

  function Parse(text: string): Info {
    ReadAll(NOTHING, ClassifyAll(SplitOn(text, SEPARATOR))).info
  }

  lemma {:induction false} ReadAppend(p: Parsed, a: seq<Line>, b: seq<Line>)
    ensures ReadAll(p, a + b) == ReadAll(ReadAll(p, a), b)
    decreases |a|
  {
    if a == [] {
      assert a + b == b;
    } else {
      assert (a + b)[1..] == a[1..] + b;
      ReadAppend(Read(p, a[0]), a[1..], b);
    }
  }

  // ---- What any text can produce ----

  // Keys and values are trimmed and stay on one line, keys hold no colon, and no field can be
  // mistaken for a header.
  predicate WellFormedField(key: string, value: string) {
    && Trimmed(key) && Trimmed(value)
    && !Contains(key, ":") && !HasPrefix(key, HEADER)
    && !Contains(key, SEPARATOR) && !Contains(value, SEPARATOR)
  }

  predicate WellFormedName(name: string) {
    name != "" && Trimmed(name) && !Contains(name, SEPARATOR)
  }

  ghost predicate WellFormedSection(name: string, fields: Fields) {
    WellFormedName(name) && forall key | key in fields :: WellFormedField(key, fields[key])
  }

  ghost predicate WellFormed(info: Info) {
    forall name | name in info :: WellFormedSection(name, info[name])
  }

  ghost predicate ParsedOk(p: Parsed) {
    WellFormed(p.info) && (p.current != "" ==> p.current in p.info)
  }

  lemma PieceFree(s: string, sub: string)
    requires Contains(s, sub) && !Contains(s, SEPARATOR)
    ensures !Contains(sub, SEPARATOR)
  {
    if Contains(sub, SEPARATOR) {
      ContainsTrans(s, sub, SEPARATOR);
    }
  }

  lemma SliceContained(s: string, lo: nat, hi: nat)
    requires lo <= hi <= |s|
    ensures Contains(s, s[lo..hi])
  {
    assert OccursAt(s, s[lo..hi], lo);
  }

  lemma HeaderLine(line: string)
    requires Trimmed(line) && HasPrefix(line, HEADER) && !Contains(line, SEPARATOR)
    ensures WellFormedName(TrimSpace(TrimPrefix(line, HEADER)))
  {
    var rest := TrimPrefix(line, HEADER);
    assert line[0..2] == HEADER;
    assert line[1] == line[0..2][1] == ' ';
    assert rest == line[2..|line|] && rest[|rest| - 1] == line[|line| - 1];
    SliceContained(line, 2, |line|);
    PieceFree(line, rest);
    PieceFree(rest, TrimSpace(rest));
  }

  lemma PrefixOfPrefix(a: string, b: string, p: string)
    requires a <= b && HasPrefix(a, p)
    ensures HasPrefix(b, p)
  {
    assert b[0..|p|] == a[0..|p|];
  }

  lemma KeyNoHeader(line: string, before: string)
    requires Trimmed(line) && before <= line && !HasPrefix(line, HEADER)
    ensures !HasPrefix(TrimSpace(before), HEADER)
  {
    if HasPrefix(TrimSpace(before), HEADER) {
      assert before != "" && before[0] == line[0];
      PrefixOfPrefix(TrimSpace(before), line, HEADER);
    }
  }

  lemma TrimmedPiece(line: string, lo: nat, hi: nat)
    requires lo <= hi <= |line| && !Contains(line, SEPARATOR)
    ensures !Contains(TrimSpace(line[lo..hi]), SEPARATOR)
  {
    SliceContained(line, lo, hi);
    PieceFree(line, line[lo..hi]);
    PieceFree(line[lo..hi], TrimSpace(line[lo..hi]));
  }

  lemma KeyColonFree(line: string)
    requires Contains(line, ":")
    ensures !Contains(TrimSpace(line[..Index(line, ":")]), ":")
  {
    var before := line[..Index(line, ":")];
    BeforeIndex(line, ":");
    if Contains(TrimSpace(before), ":") {
      ContainsTrans(before, TrimSpace(before), ":");
    }
  }

  lemma FieldLine(line: string)
    requires Trimmed(line) && !HasPrefix(line, HEADER) && !Contains(line, SEPARATOR) && Contains(line, ":")
    ensures var k := Index(line, ":");
            WellFormedField(TrimSpace(line[..k]), TrimSpace(line[k + 1..]))
  {
    var k := Index(line, ":");
    var before, after := line[..k], line[k + 1..];
    assert line[0..k] == before && line[k + 1..|line|] == after;
    TrimmedPiece(line, 0, k);
    TrimmedPiece(line, k + 1, |line|);
    KeyColonFree(line);
    KeyNoHeader(line, before);
  }

  ghost predicate LineOk(line: Line) {
    && (line.Header? ==> WellFormedName(line.name))
    && (line.Field? ==> WellFormedField(line.key, line.value))
  }

  lemma ClassifyOk(raw: string)
    requires !Contains(raw, SEPARATOR)
    ensures LineOk(Classify(raw))
  {
    var line := TrimSpace(raw);
    PieceFree(raw, line);
    if line != "" {
      if HasPrefix(line, HEADER) {
        HeaderLine(line);
      } else if Contains(line, ":") {
        FieldLine(line);
      }
    }
  }

  lemma {:induction false} ReadAllOk(p: Parsed, lines: seq<Line>)
    requires ParsedOk(p) && forall i | 0 <= i < |lines| :: LineOk(lines[i])
    ensures ParsedOk(ReadAll(p, lines))
    decreases |lines|
  {
    if lines != [] {
      ReadOk(p, lines[0]);
      ReadAllOk(Read(p, lines[0]), lines[1..]);
    }
  }

  lemma ReadOk(p: Parsed, line: Line)
    requires ParsedOk(p) && LineOk(line)
    ensures ParsedOk(Read(p, line))
  {
  }

  lemma LinesOk(text: string)
    ensures forall i | 0 <= i < |SplitOn(text, SEPARATOR)| :: LineOk(ClassifyAll(SplitOn(text, SEPARATOR))[i])
  {
    var raws := SplitOn(text, SEPARATOR);
    forall i | 0 <= i < |raws|
      ensures LineOk(ClassifyAll(raws)[i])
    {
      SplitPieces(text, SEPARATOR, raws[i]);
      ClassifyOk(raws[i]);
      ClassifyAt(raws, i);
    }
  }

  // Whatever the text, the result is well formed.
  lemma ParseWellFormed(text: string)
    ensures WellFormed(Parse(text))
  {
    LinesOk(text);
    ReadAllOk(NOTHING, ClassifyAll(SplitOn(text, SEPARATOR)));
  }

  lemma ReadNext(lines: seq<Line>, i: nat)
    requires i < |lines|
    ensures ReadAll(NOTHING, lines[..i + 1]) == Read(ReadAll(NOTHING, lines[..i]), lines[i])
  {
    ReadAppend(NOTHING, lines[..i], [lines[i]]);
    assert lines[..i + 1] == lines[..i] + [lines[i]];
    assert ReadAll(ReadAll(NOTHING, lines[..i]), [lines[i]]) == Read(ReadAll(NOTHING, lines[..i]), lines[i]);
  }

  lemma CurrentIsOpen(text: string, i: nat)
    requires i <= |SplitOn(text, SEPARATOR)|
    ensures var p := ReadAll(NOTHING, ClassifyAll(SplitOn(text, SEPARATOR))[..i]);
            p.current != "" ==> p.current in p.info
  {
    LinesOk(text);
    ReadAllOk(NOTHING, ClassifyAll(SplitOn(text, SEPARATOR))[..i]);
  }

  // The loop never writes to a section that has no map.
  method ParseDragonflyInfo(text: string) returns (result: Info)
    ensures result == Parse(text)
  {
    result := map[];
    var currentSection := "";
    var lines := Split(text, SEPARATOR);
    ghost var meant := ClassifyAll(lines);
    for i := 0 to |lines|
      invariant Parsed(result, currentSection) == ReadAll(NOTHING, meant[..i])
    {
      CurrentIsOpen(text, i);
      ReadNext(meant, i);
      ClassifyAt(lines, i);
      var line := TrimSpace(lines[i]);
      if line == "" {
        continue;
      }
      if HasPrefix(line, HEADER) {
        currentSection := TrimSpace(TrimPrefix(line, HEADER));
        result := result[currentSection := map[]];
        continue;
      }
      var parts := SplitN2(line, ":");
      if |parts| == 2 && currentSection != "" {
        var key, value := TrimSpace(parts[0]), TrimSpace(parts[1]);
        result := result[currentSection := result[currentSection][key := value]];
      }
    }
    assert meant[..|lines|] == meant;
  }

  // ---- What a text says ----

  lemma BlankLine(raw: string)
    requires AllSpace(raw)
    ensures Classify(raw) == Blank
  {
    TrimSpaceOf(raw, "", "");
    assert raw + "" + "" == raw;
  }

  lemma OtherLine(before: string, line: string, after: string)
    requires AllSpace(before) && AllSpace(after) && Trimmed(line) && line != ""
    requires !HasPrefix(line, HEADER) && ':' !in line
    ensures Classify(before + line + after) == Other
  {
    TrimSpaceOf(before, line, after);
    ContainsChar(line, ':');
  }

  lemma HeaderLineReads(before: string, pad: string, name: string, after: string)
    requires AllSpace(before) && AllSpace(pad) && AllSpace(after) && Trimmed(name) && name != ""
    ensures Classify(before + (HEADER + pad + name) + after) == Header(name)
  {
    var line := HEADER + pad + name;
    assert line[0] == '#' && line[|line| - 1] == name[|name| - 1];
    TrimSpaceOf(before, line, after);
    HeaderRest(pad + name);
    assert line == HEADER + (pad + name);
    TrimSpaceOf(pad, name, "");
    assert pad + name + "" == pad + name;
  }

  lemma HeaderRest(rest: string)
    ensures HasPrefix(HEADER + rest, HEADER) && TrimPrefix(HEADER + rest, HEADER) == rest
  {
    assert (HEADER + rest)[0..2] == HEADER && (HEADER + rest)[2..] == rest;
  }

  lemma ColonSplit(left: string, right: string)
    requires ':' !in left
    ensures SplitN2(left + ":" + right, ":") == [left, right]
  {
    ContainsChar(left, ':');
    IndexAfter(left, ":", right);
    var line := left + ":" + right;
    assert line[..|left|] == left && line[|left| + 1..] == right;
  }

  lemma TrimSides(key: string, pad: string, value: string)
    requires AllSpace(pad) && Trimmed(key) && Trimmed(value)
    ensures TrimSpace(key + pad) == key && TrimSpace(pad + value) == value
  {
    TrimSpaceOf("", key, pad);
    TrimSpaceOf(pad, value, "");
    assert "" + key + pad == key + pad && pad + value + "" == pad + value;
  }

  // A field is what stands around the first colon, without white space around either.
  lemma FieldLineReads(before: string, key: string, pad: string, value: string, after: string)
    requires AllSpace(before) && AllSpace(pad) && AllSpace(after) && Trimmed(key) && Trimmed(value) && key != "" && value != ""
    requires ':' !in key && !HasPrefix(key + pad, HEADER)
    ensures Classify(before + (key + pad + ":" + (pad + value)) + after) == Field(key, value)
  {
    var line := key + pad + ":" + (pad + value);
    assert line[0] == key[0] && line[|line| - 1] == value[|value| - 1];
    TrimSpaceOf(before, line, after);
    ColonSplit(key + pad, pad + value);
    TrimSides(key, pad, value);
    ColonLineNoHeader(key + pad, pad + value);
  }

  // The section open after some lines: that of the last header, or none.
  function OpenSection(lines: seq<Line>): string {
    if lines == [] then ""
    else
      var last := lines[|lines| - 1];
      if last.Header? then last.name else OpenSection(lines[..|lines| - 1])
  }

  // Line i gives the key in a section that is not opened again later.
  predicate GivesField(lines: seq<Line>, name: string, key: string, i: int) {
    && 0 <= i < |lines| && lines[i].Field? && lines[i].key == key
    && name != "" && OpenSection(lines[..i]) == name
    && forall j | i < j < |lines| :: lines[j] != Header(name)
  }

  // The sections are those that some header names; each holds the fields of its last opening, the last
  // one of each key.
  ghost predicate Says(lines: seq<Line>, info: Info) {
    && (forall name :: name in info <==> Header(name) in lines)
    && (forall name, key :: SaysField(lines, info, name, key))
  }

  ghost predicate SaysField(lines: seq<Line>, info: Info, name: string, key: string) {
    && (name in info && key in info[name] ==> exists i :: GivesField(lines, name, key, i))
    && (forall i | GivesField(lines, name, key, i) :: name in info && key in info[name])
    && (forall i | GivesField(lines, name, key, i) && (forall j | i < j < |lines| :: !GivesField(lines, name, key, j)) ::
          name in info && key in info[name] && info[name][key] == lines[i].value)
  }

  lemma GivesMore(lines: seq<Line>, line: Line, name: string, key: string, i: int)
    ensures GivesField(lines + [line], name, key, i) <==>
      if i == |lines| then line.Field? && line.key == key && name != "" && OpenSection(lines) == name
      else GivesField(lines, name, key, i) && line != Header(name)
  {
    var more := lines + [line];
    assert more[|lines|] == line && more[..|lines|] == lines;
    if 0 <= i < |lines| {
      assert more[..i] == lines[..i] && more[i] == lines[i];
      assert forall j | 0 <= j < |lines| :: more[j] == lines[j];
    }
  }

  lemma SaysFieldMore(lines: seq<Line>, line: Line, p: Parsed, name: string, key: string)
    requires SaysField(lines, p.info, name, key) && p.current == OpenSection(lines)
    requires p.current != "" ==> p.current in p.info
    ensures SaysField(lines + [line], Read(p, line).info, name, key)
  {
    var more, info := lines + [line], Read(p, line).info;
    forall i
      ensures GivesField(more, name, key, i) <==>
        if i == |lines| then line.Field? && line.key == key && name != "" && OpenSection(lines) == name
        else GivesField(lines, name, key, i) && line != Header(name)
    {
      GivesMore(lines, line, name, key, i);
    }
    if line.Field? && name == p.current != "" && key == line.key {
      assert GivesField(more, name, key, |lines|);
      assert more[|lines|] == line;
    } else if line != Header(name) {
      assert name in info && key in info[name] <==> name in p.info && key in p.info[name];
      KeptField(lines, line, name, key);
    }
  }

  lemma KeptField(lines: seq<Line>, line: Line, name: string, key: string)
    requires forall i :: GivesField(lines + [line], name, key, i) <==> GivesField(lines, name, key, i)
    ensures forall i | GivesField(lines, name, key, i) :: (lines + [line])[i] == lines[i]
  {
  }

  lemma NamesMore(lines: seq<Line>, line: Line, p: Parsed, name: string)
    requires name in p.info <==> Header(name) in lines
    requires p.current != "" ==> p.current in p.info
    ensures name in Read(p, line).info <==> Header(name) in lines + [line]
  {
  }

  lemma SaysMore(lines: seq<Line>, line: Line, p: Parsed)
    requires Says(lines, p.info) && p.current == OpenSection(lines) && ParsedOk(p)
    ensures Says(lines + [line], Read(p, line).info) && Read(p, line).current == OpenSection(lines + [line])
  {
    assert (lines + [line])[..|lines|] == lines;
    forall name
      ensures name in Read(p, line).info <==> Header(name) in lines + [line]
    {
      NamesMore(lines, line, p, name);
    }
    forall name, key
      ensures SaysField(lines + [line], Read(p, line).info, name, key)
    {
      assert SaysField(lines, p.info, name, key);
      SaysFieldMore(lines, line, p, name, key);
    }
  }

  lemma {:induction false} ReadSays(lines: seq<Line>)
    requires forall i | 0 <= i < |lines| :: LineOk(lines[i])
    ensures Says(lines, ReadAll(NOTHING, lines).info) && ReadAll(NOTHING, lines).current == OpenSection(lines)
  {
    if lines != [] {
      var front, last := lines[..|lines| - 1], lines[|lines| - 1];
      assert lines == front + [last];
      ReadSays(front);
      ReadAllOk(NOTHING, front);
      ReadNext(lines, |front|);
      assert lines[..|front|] == front && lines[..|front| + 1] == lines;
      SaysMore(front, last, ReadAll(NOTHING, front));
    }
  }

  // What the result of any text holds.
  lemma ParseSays(text: string)
    ensures Says(ClassifyAll(SplitOn(text, SEPARATOR)), Parse(text))
  {
    LinesOk(text);
    ReadSays(ClassifyAll(SplitOn(text, SEPARATOR)));
  }

  // ---- Rendering ----

  datatype Section = Section(name: string, fields: seq<(string, string)>)

  function FieldLines(fields: seq<(string, string)>): seq<string> {
    seq(|fields|, i requires 0 <= i < |fields| => fields[i].0 + ":" + fields[i].1)
  }

  function SectionLines(s: Section): seq<string> {
    [HEADER + s.name] + FieldLines(s.fields)
  }

  function Lines(sections: seq<Section>): seq<string> {
    if sections == [] then [] else SectionLines(sections[0]) + Lines(sections[1..])
  }

  // Every line ends with the separator.
  function Render(sections: seq<Section>): string {
    Join(Lines(sections) + [""], SEPARATOR)
  }

  predicate Distinct<T(==)>(s: seq<T>) {
    forall i, j | 0 <= i < j < |s| :: s[i] != s[j]
  }

  function Names(sections: seq<Section>): seq<string> {
    seq(|sections|, i requires 0 <= i < |sections| => sections[i].name)
  }

  function Keys(fields: seq<(string, string)>): seq<string> {
    seq(|fields|, i requires 0 <= i < |fields| => fields[i].0)
  }

  // The section's fields, each once, in any order.
  ghost predicate ListsFields(fields: seq<(string, string)>, m: Fields) {
    && Distinct(Keys(fields))
    && (forall k :: k in m <==> k in Keys(fields))
    && (forall i | 0 <= i < |fields| :: fields[i].0 in m && m[fields[i].0] == fields[i].1)
  }

  // The map's sections, each once, in any order.
  ghost predicate Lists(sections: seq<Section>, info: Info) {
    && Distinct(Names(sections))
    && (forall n :: n in info <==> n in Names(sections))
    && (forall i | 0 <= i < |sections| :: sections[i].name in info && ListsFields(sections[i].fields, info[sections[i].name]))
  }

  function AddFields(m: Fields, fields: seq<(string, string)>): Fields
    decreases |fields|
  {
    if fields == [] then m else AddFields(m[fields[0].0 := fields[0].1], fields[1..])
  }

  function AddSections(info: Info, sections: seq<Section>): Info
    decreases |sections|
  {
    if sections == [] then info
    else AddSections(info[sections[0].name := AddFields(map[], sections[0].fields)], sections[1..])
  }

  lemma ClassifyHeader(name: string)
    requires WellFormedName(name)
    ensures Classify(HEADER + name) == Header(name)
  {
    var line := HEADER + name;
    assert line[0] == '#' && line[|line| - 1] == name[|name| - 1];
    assert Trimmed(line);
    assert line[0..2] == HEADER && line[2..] == name;
  }

  lemma ColonLineNoHeader(key: string, value: string)
    requires !HasPrefix(key, HEADER)
    ensures !HasPrefix(key + ":" + value, HEADER)
  {
    var line := key + ":" + value;
    if |key| >= 2 {
      assert line[0..2] == key[0..2];
    } else if |line| >= 2 {
      assert line[0..2][|key|] == ':';
    }
  }

  lemma ColonLineTrimmed(key: string, value: string)
    requires Trimmed(key) && Trimmed(value)
    ensures Trimmed(key + ":" + value)
  {
    var line := key + ":" + value;
    assert line[0] == if key == "" then ':' else key[0];
    assert line[|line| - 1] == if value == "" then ':' else value[|value| - 1];
  }

  lemma {:induction false} ClassifyField(key: string, value: string)
    requires WellFormedField(key, value)
    ensures Classify(key + ":" + value) == Field(key, value)
  {
    var line := key + ":" + value;
    ColonLineTrimmed(key, value);
    ColonLineNoHeader(key, value);
    IndexAfter(key, ":", value);
    assert SplitN2(line, ":") == [key, value] by {
      assert line[..|key|] == key && line[|key| + 1..] == value;
    }
  }

  ghost predicate FieldsOk(fields: seq<(string, string)>) {
    forall i | 0 <= i < |fields| :: WellFormedField(fields[i].0, fields[i].1)
  }

  function FieldsMeant(fields: seq<(string, string)>): seq<Line> {
    seq(|fields|, i requires 0 <= i < |fields| => Field(fields[i].0, fields[i].1))
  }

  function LinesMeant(sections: seq<Section>): seq<Line> {
    if sections == [] then []
    else [Header(sections[0].name)] + FieldsMeant(sections[0].fields) + LinesMeant(sections[1..])
  }

  lemma {:induction false} ReadFields(p: Parsed, fields: seq<(string, string)>)
    requires p.current != "" && p.current in p.info
    ensures ReadAll(p, FieldsMeant(fields)) == p.(info := p.info[p.current := AddFields(p.info[p.current], fields)])
    decreases |fields|
  {
    if fields == [] {
      assert p.info[p.current := p.info[p.current]] == p.info;
    } else {
      var lines := FieldsMeant(fields);
      assert lines[1..] == FieldsMeant(fields[1..]);
      var p' := Read(p, lines[0]);
      ReadFields(p', fields[1..]);
      var m := AddFields(p'.info[p.current], fields[1..]);
      assert p'.info[p.current := m] == p.info[p.current := m];
    }
  }

  ghost predicate SectionsOk(sections: seq<Section>) {
    forall i | 0 <= i < |sections| :: WellFormedName(sections[i].name) && FieldsOk(sections[i].fields)
  }

  lemma {:induction false} ReadSections(p: Parsed, sections: seq<Section>)
    requires forall i | 0 <= i < |sections| :: sections[i].name != ""
    ensures ReadAll(p, LinesMeant(sections)).info == AddSections(p.info, sections)
    decreases |sections|
  {
    if sections != [] {
      var s := sections[0];
      var p1 := Parsed(p.info[s.name := map[]], s.name);
      ReadFields(p1, s.fields);
      var own := [Header(s.name)] + FieldsMeant(s.fields);
      assert own[1..] == FieldsMeant(s.fields);
      assert ReadAll(p, own).info == p.info[s.name := AddFields(map[], s.fields)];
      ReadAppend(p, own, LinesMeant(sections[1..]));
      ReadSections(ReadAll(p, own), sections[1..]);
    }
  }

  lemma {:induction false} FieldsClassified(fields: seq<(string, string)>)
    requires FieldsOk(fields)
    ensures ClassifyAll(FieldLines(fields)) == FieldsMeant(fields)
  {
    forall i | 0 <= i < |fields|
      ensures ClassifyAll(FieldLines(fields))[i] == FieldsMeant(fields)[i]
    {
      ClassifyAt(FieldLines(fields), i);
      ClassifyField(fields[i].0, fields[i].1);
    }
  }

  lemma SectionClassified(s: Section)
    requires WellFormedName(s.name) && FieldsOk(s.fields)
    ensures ClassifyAll(SectionLines(s)) == [Header(s.name)] + FieldsMeant(s.fields)
  {
    ClassifyHeader(s.name);
    FieldsClassified(s.fields);
    assert SectionLines(s)[1..] == FieldLines(s.fields);
  }

  lemma {:induction false} LinesClassified(sections: seq<Section>)
    requires SectionsOk(sections)
    ensures ClassifyAll(Lines(sections)) == LinesMeant(sections)
  {
    if sections != [] {
      SectionClassified(sections[0]);
      ClassifyConcat(SectionLines(sections[0]), Lines(sections[1..]));
      LinesClassified(sections[1..]);
    }
  }

  // A line that joins two separator-free halves with a colon is separator-free.
  lemma ColonLineFree(key: string, value: string)
    requires !Contains(key, SEPARATOR) && !Contains(value, SEPARATOR)
    ensures !Contains(key + ":" + value, SEPARATOR)
  {
    var line := key + ":" + value;
    forall i | 0 <= i <= |line|
      ensures !OccursAt(line, SEPARATOR, i)
    {
      if i + 2 <= |key| {
        assert line[i..i + 2] == key[i..i + 2];
        assert !OccursAt(key, SEPARATOR, i);
      } else if i > |key| && i + 2 <= |line| {
        assert line[i..i + 2] == value[i - |key| - 1..i - |key| + 1];
        assert !OccursAt(value, SEPARATOR, i - |key| - 1);
      } else if i + 2 <= |line| {
        assert line[i..i + 2][|key| - i] == ':';
      }
    }
  }

  lemma HeaderFree(name: string)
    requires !Contains(name, SEPARATOR)
    ensures !Contains(HEADER + name, SEPARATOR)
  {
    var line := HEADER + name;
    forall i | 0 <= i <= |line|
      ensures !OccursAt(line, SEPARATOR, i)
    {
      if 2 <= i && i + 2 <= |line| {
        assert line[i..i + 2] == name[i - 2..i];
        assert !OccursAt(name, SEPARATOR, i - 2);
      } else if i + 2 <= |line| {
        assert line[i] == HEADER[i] && HEADER[i] != SEPARATOR[0];
        assert line[i..i + 2][0] == line[i];
      }
    }
  }

  lemma {:induction false} RenderedLinesFree(sections: seq<Section>)
    requires SectionsOk(sections)
    ensures forall l | l in Lines(sections) :: !Contains(l, SEPARATOR)
  {
    if sections != [] {
      var s := sections[0];
      HeaderFree(s.name);
      forall i | 0 <= i < |s.fields|
        ensures !Contains(FieldLines(s.fields)[i], SEPARATOR)
      {
        ColonLineFree(s.fields[i].0, s.fields[i].1);
      }
      RenderedLinesFree(sections[1..]);
    }
  }

  lemma SeparatorUnbordered()
    ensures Unbordered(SEPARATOR)
  {
    assert SEPARATOR[..1][0] == '\r' && SEPARATOR[1..][0] == '\n';
  }

  lemma RenderedSplit(sections: seq<Section>)
    requires SectionsOk(sections)
    ensures SplitOn(Render(sections), SEPARATOR) == Lines(sections) + [""]
  {
    RenderedLinesFree(sections);
    SeparatorUnbordered();
    var lines := Lines(sections) + [""];
    assert forall l | l in lines :: l in Lines(sections) || l == "";
    SplitJoin(lines, SEPARATOR);
  }

  lemma {:induction false} ParseRendered(sections: seq<Section>)
    requires SectionsOk(sections)
    ensures Parse(Render(sections)) == AddSections(map[], sections)
  {
    RenderedSplit(sections);
    LinesClassified(sections);
    ClassifyConcat(Lines(sections), [""]);
    assert ClassifyAll([""]) == [Blank];
    ReadAppend(NOTHING, LinesMeant(sections), [Blank]);
    ReadSections(NOTHING, sections);
  }

  // ---- The maps the parser inverts ----

  lemma {:induction false} AddedFields(m: Fields, fields: seq<(string, string)>, k: string)
    requires Distinct(Keys(fields))
    ensures k in AddFields(m, fields) <==> k in m || k in Keys(fields)
    ensures k in m && k !in Keys(fields) ==> AddFields(m, fields)[k] == m[k]
    ensures forall i | 0 <= i < |fields| && fields[i].0 == k ::
      k in AddFields(m, fields) && AddFields(m, fields)[k] == fields[i].1
    decreases |fields|
  {
    if fields != [] {
      var keys := Keys(fields);
      assert Keys(fields[1..]) == keys[1..];
      assert keys == [keys[0]] + keys[1..];
      AddedFields(m[fields[0].0 := fields[0].1], fields[1..], k);
    }
  }

  lemma {:induction false} AddedSections(info: Info, sections: seq<Section>, n: string)
    requires Distinct(Names(sections))
    ensures n in AddSections(info, sections) <==> n in info || n in Names(sections)
    ensures n in info && n !in Names(sections) ==> AddSections(info, sections)[n] == info[n]
    ensures forall i | 0 <= i < |sections| && sections[i].name == n ::
      n in AddSections(info, sections) && AddSections(info, sections)[n] == AddFields(map[], sections[i].fields)
    decreases |sections|
  {
    if sections != [] {
      var names := Names(sections);
      assert Names(sections[1..]) == names[1..];
      assert names == [names[0]] + names[1..];
      AddedSections(info[sections[0].name := AddFields(map[], sections[0].fields)], sections[1..], n);
    }
  }

  lemma ListedFields(fields: seq<(string, string)>, m: Fields)
    requires ListsFields(fields, m)
    ensures AddFields(map[], fields) == m
  {
    forall k
      ensures k in AddFields(map[], fields) <==> k in m
      ensures k in m ==> AddFields(map[], fields)[k] == m[k]
    {
      AddedFields(map[], fields, k);
      if k in m {
        var i :| 0 <= i < |fields| && Keys(fields)[i] == k;
        assert fields[i].0 == k;
      }
    }
  }

  lemma ListedSections(sections: seq<Section>, info: Info)
    requires Lists(sections, info)
    ensures AddSections(map[], sections) == info
  {
    forall n
      ensures n in AddSections(map[], sections) <==> n in info
      ensures n in info ==> AddSections(map[], sections)[n] == info[n]
    {
      AddedSections(map[], sections, n);
      if n in info {
        var i :| 0 <= i < |sections| && Names(sections)[i] == n;
        assert sections[i].name == n;
        ListedFields(sections[i].fields, info[n]);
      }
    }
  }

  lemma ListedOk(sections: seq<Section>, info: Info)
    requires Lists(sections, info) && WellFormed(info)
    ensures SectionsOk(sections)
  {
    forall i | 0 <= i < |sections|
      ensures WellFormedName(sections[i].name) && FieldsOk(sections[i].fields)
    {
      assert WellFormedSection(sections[i].name, info[sections[i].name]);
    }
  }

  // Rendered with its sections and fields in any order, a map is parsed back exactly when it is
  // well formed; so the well-formed maps are exactly the results the parser can give.
  lemma ParseInvertsRenderIff(sections: seq<Section>, info: Info)
    requires Lists(sections, info)
    ensures Parse(Render(sections)) == info <==> WellFormed(info)
  {
    ParseWellFormed(Render(sections));
    if WellFormed(info) {
      ListedOk(sections, info);
      ParseRendered(sections);
      ListedSections(sections, info);
    }
  }
}
