// pkg/version/detector.go: finding the requested version of a request.
module Detection {
  import opened Wrappers
  import opened GoStrings
  import opened Versions

  datatype Method = AcceptHeader | APIVersionHeader | XAPIVersionHeader | QueryParameter | URLPath | ContextValue | Default

  datatype ContextEntry = IsVersion(version: Version) | IsString(s: string) | IsOther

  type Context = map<string, ContextEntry>

  // An absent header or parameter reads as the empty string.
  datatype Request = Request(accept: string, apiVersion: string, xApiVersion: string, query: map<string, string>, path: string, context: Context)

  datatype DetectionResult = DetectionResult(version: Version, method_: Method, source: string)

  const CONTEXT_KEY := "api_version"

  function SetVersionInContext(ctx: Context, v: Version): Context {
    ctx[CONTEXT_KEY := IsVersion(v)]
  }

  // A zero version is a miss.
  function NonZero(v: Version, source: string): Option<(Version, string)> {
    if v.IsZero() then None else Some((v, source))
  }

  // The path without its leading slash, cut at slashes; empty for an empty path.
  function PathParts(path: string): seq<string> {
    var p := TrimPrefix(path, "/");
    if p == "" then [] else SplitOn(p, "/")
  }

  // The position of the pipeline segment: after a version prefix if there is one.
  function PipelineStart(path: string): nat {
    var parts := PathParts(path);
    if |parts| > 0 && HasPrefix(parts[0], "v") then 1 else 0
  }

  function ExtractPipelineFromPath(path: string): string {
    var parts := PathParts(path);
    if |parts| > PipelineStart(path) then parts[PipelineStart(path)] else ""
  }

  lemma UpToPlus(version: string, rest: string)
    requires '+' !in version && (rest == "" || rest[0] == '+')
    ensures SplitOn(version + rest, "+")[0] == version
  {
    ContainsChar(version, '+');
    if rest == "" {
      assert version + rest == version;
    } else {
      assert version + rest == version + "+" + rest[1..];
      IndexAfter(version, "+", rest[1..]);
    }
  }

  lemma Slashless(first: string, rest: string, slash: bool)
    requires first != "" && first[0] != '/'
    ensures TrimPrefix((if slash then "/" else "") + (first + rest), "/") == first + rest
  {
    var path := (if slash then "/" else "") + (first + rest);
    assert path[0..1] == if slash then "/" else [first[0]];
  }

  lemma FirstTwo(first: string, second: string, tail: string)
    requires '/' !in first && '/' !in second && (tail == "" || tail[0] == '/')
    ensures var parts := SplitOn(first + "/" + (second + tail), "/");
            |parts| >= 2 && parts[0] == first && parts[1] == second
  {
    var s := first + "/" + (second + tail);
    ContainsChar(first, '/');
    IndexAfter(first, "/", second + tail);
    assert s[..|first|] == first && s[|first| + 1..] == second + tail;
    ContainsChar(second, '/');
    if tail == "" {
      assert second + tail == second;
    } else {
      assert second + tail == second + "/" + tail[1..];
      IndexAfter(second, "/", tail[1..]);
    }
  }

  lemma FirstParts(first: string, second: string, tail: string, slash: bool)
    requires first != "" && '/' !in first && '/' !in second && (tail == "" || tail[0] == '/')
    ensures var parts := PathParts((if slash then "/" else "") + first + "/" + (second + tail));
            |parts| >= 2 && parts[0] == first && parts[1] == second
  {
    var rest := "/" + (second + tail);
    FirstTwo(first, second, tail);
    Slashless(first, rest, slash);
    Regroup(first, second, tail, slash);
  }

  lemma Regroup(first: string, second: string, tail: string, slash: bool)
    ensures first + ("/" + (second + tail)) == first + "/" + (second + tail)
    ensures (if slash then "/" else "") + (first + ("/" + (second + tail)))
         == (if slash then "/" else "") + first + "/" + (second + tail)
  {
  }

  class Detector {
    var defaultVersion: Version
    var enabledMethods: seq<Method>
    var acceptHeaderPrefix: string
    var queryParamName: string
    var contextKey: string

    constructor ()
      ensures defaultVersion == DEFAULT && contextKey == CONTEXT_KEY == "api_version"
      ensures DEFAULT.text == "v1.0.0" && (DEFAULT.major, DEFAULT.minor, DEFAULT.patch, DEFAULT.preLabel) == (1, 0, 0, "")
      ensures acceptHeaderPrefix == "application/vnd.api.v" && queryParamName == "version"
      ensures enabledMethods == [AcceptHeader, APIVersionHeader, XAPIVersionHeader, QueryParameter, URLPath, ContextValue, Default]
    {
      defaultVersion, acceptHeaderPrefix, queryParamName, contextKey := DEFAULT, "application/vnd.api.v", "version", CONTEXT_KEY;
      enabledMethods := [AcceptHeader, APIVersionHeader, XAPIVersionHeader, QueryParameter, URLPath, ContextValue, Default];
    }

    function FromAccept(accept: string): Option<(Version, string)>
      reads this
    {
      if accept == "" || !Contains(accept, acceptHeaderPrefix) then None
      else
        var parts := Split(accept, acceptHeaderPrefix);
        if |parts| > 1 then NonZero(Parse("v" + SplitOn(parts[1], "+")[0]), accept) else None
    }

    function FromText(s: string): Option<(Version, string)> {
      if s == "" then None else NonZero(Parse(s), s)
    }

    function FromPath(path: string): Option<(Version, string)> {
      var parts := PathParts(path);
      if |parts| > 0 && HasPrefix(parts[0], "v") then NonZero(Parse(parts[0]), parts[0]) else None
    }

    function FromContext(ctx: Context): Option<(Version, string)>
      reads this
    {
      if contextKey !in ctx then None
      else
        match ctx[contextKey]
        case IsVersion(v) => NonZero(v, contextKey)
        case IsString(s) => FromText(s)
        case IsOther => None
    }

    // What one method finds in a request; Default finds nothing.
    function Find(m: Method, r: Request): Option<(Version, string)>
      reads this
    {
      match m
      case AcceptHeader => FromAccept(r.accept)
      case APIVersionHeader => FromText(r.apiVersion)
      case XAPIVersionHeader => FromText(r.xApiVersion)
      case QueryParameter => FromText(if queryParamName in r.query then r.query[queryParamName] else "")
      case URLPath => FromPath(r.path)
      case ContextValue => FromContext(r.context)
      case Default => None
    }

    // The answer is what the earliest enabled method with a find finds, else the default. A Default
    // entry anywhere in the list never cuts the search short.
    ghost predicate IsDetected(r: Request, d: DetectionResult)
      reads this
    {
      if forall m | m in enabledMethods :: Find(m, r).None?
      then d == DetectionResult(defaultVersion, Default, "default_version")
      else exists i | 0 <= i < |enabledMethods| ::
          && Find(enabledMethods[i], r) == Some((d.version, d.source)) && d.method_ == enabledMethods[i]
          && forall j | 0 <= j < i :: Find(enabledMethods[j], r).None?
    }

    method DetectFromHTTPRequest(r: Request) returns (d: DetectionResult)
      ensures IsDetected(r, d)
    {
      for i := 0 to |enabledMethods|
        invariant forall j | 0 <= j < i :: Find(enabledMethods[j], r).None?
      {
        var m := enabledMethods[i];
        var found := Find(m, r);
        if found.Some? {
          assert m in enabledMethods && !Find(m, r).None?;
          return DetectionResult(found.value.0, m, found.value.1);
        }
      }
      d := DetectionResult(defaultVersion, Default, "default_version");
    }

    function DetectFromContext(ctx: Context): DetectionResult
      reads this
    {
      var found := FromContext(ctx);
      if found.Some? then DetectionResult(found.value.0, ContextValue, found.value.1)
      else DetectionResult(defaultVersion, Default, "default_version")
    }

    // Which text each method reads its version from, and what it names as the source.
    lemma HeadersRead(r: Request)
      ensures Find(APIVersionHeader, r) == if r.apiVersion != "" then Some((Parse(r.apiVersion), r.apiVersion)) else None
      ensures Find(XAPIVersionHeader, r) == if r.xApiVersion != "" then Some((Parse(r.xApiVersion), r.xApiVersion)) else None
    {
      TextReads(r.apiVersion);
      TextReads(r.xApiVersion);
    }

    lemma QueryReads(r: Request)
      ensures queryParamName in r.query && r.query[queryParamName] != "" ==>
        Find(QueryParameter, r) == Some((Parse(r.query[queryParamName]), r.query[queryParamName]))
      ensures queryParamName !in r.query || r.query[queryParamName] == "" ==> Find(QueryParameter, r) == None
    {
      TextReads(if queryParamName in r.query then r.query[queryParamName] else "");
    }

    lemma AcceptIsRead(r: Request)
      ensures Find(AcceptHeader, r) == FromAccept(r.accept)
    {
    }

    lemma PathIsRead(r: Request)
      ensures Find(URLPath, r) == FromPath(r.path)
    {
    }

    lemma ContextIsRead(r: Request)
      ensures Find(ContextValue, r) == FromContext(r.context) && Find(Default, r) == None
    {
    }

    lemma TextReads(s: string)
      ensures FromText(s) == if s != "" then Some((Parse(s), s)) else None
    {
      ParseThenPrint(s);
    }

    // What is detected from a context: a version that is not zero, a text that is not empty, or the default.
    lemma ContextReads(ctx: Context, v: Version, s: string)
      ensures contextKey in ctx && ctx[contextKey] == IsVersion(v) && !v.IsZero() ==>
        DetectFromContext(ctx) == DetectionResult(v, ContextValue, contextKey)
      ensures contextKey in ctx && ctx[contextKey] == IsString(s) && s != "" ==>
        DetectFromContext(ctx) == DetectionResult(Parse(s), ContextValue, s)
      ensures (contextKey !in ctx || ctx[contextKey] == IsOther || ctx[contextKey] == IsString("")
               || (ctx[contextKey] == IsVersion(v) && v.IsZero())) ==>
        DetectFromContext(ctx) == DetectionResult(defaultVersion, Default, "default_version")
    {
      ParseThenPrint(s);
    }

    // In an Accept header the version is the text between the prefix and the next plus sign or the end.
    lemma AcceptReads(before: string, version: string, rest: string)
      requires Unbordered(acceptHeaderPrefix) && !Contains(before, acceptHeaderPrefix)
      requires !Contains(version + rest, acceptHeaderPrefix)
      requires '+' !in version && (rest == "" || rest[0] == '+')
      ensures var accept := before + acceptHeaderPrefix + (version + rest);
              FromAccept(accept) == Some((Parse("v" + version), accept))
    {
      var tail := version + rest;
      var accept := before + acceptHeaderPrefix + tail;
      assert OccursAt(accept, acceptHeaderPrefix, |before|);
      var pieces := [before, tail];
      assert Join(pieces[1..], acceptHeaderPrefix) == tail;
      assert Join(pieces, acceptHeaderPrefix) == accept;
      SplitJoin(pieces, acceptHeaderPrefix);
      UpToPlus(version, rest);
      ParseThenPrint("v" + version);
    }

    // The first two segments of a path, with or without a leading slash.
    lemma PathReads(first: string, second: string, tail: string, slash: bool)
      requires first != "" && '/' !in first && '/' !in second && (tail == "" || tail[0] == '/')
      ensures var path := (if slash then "/" else "") + first + "/" + (second + tail);
              if first[0] == 'v' then FromPath(path) == Some((Parse(first), first)) && ExtractPipelineFromPath(path) == second
              else FromPath(path) == None && ExtractPipelineFromPath(path) == first
    {
      var path := (if slash then "/" else "") + first + "/" + (second + tail);
      FirstParts(first, second, tail, slash);
      PathFindsIff(path);
      assert first[0..1] == [first[0]];
    }

    // A text source finds something exactly when it is present; so only the empty string misses.
    lemma TextFindsIff(s: string)
      ensures FromText(s).Some? <==> s != ""
    {
      ParseThenPrint(s);
    }

    // The Accept header finds something exactly when it contains the configured prefix with
    // something to split at: always, unless the prefix is empty and the header a single character.
    lemma AcceptFindsIff(accept: string)
      ensures FromAccept(accept).Some? <==>
        accept != "" && Contains(accept, acceptHeaderPrefix) && (acceptHeaderPrefix != "" || |accept| > 1)
    {
      if accept != "" && Contains(accept, acceptHeaderPrefix) {
        var parts := Split(accept, acceptHeaderPrefix);
        if acceptHeaderPrefix != "" {
          assert |parts| > 1;
        }
        if |parts| > 1 {
          ParseThenPrint("v" + SplitOn(parts[1], "+")[0]);
        }
      }
    }

    // Path detection finds something exactly when the pipeline extraction skips a segment, and it
    // reads the version from the segment that is skipped.
    lemma PathFindsIff(path: string)
      ensures var (found, parts, pipeline) := (FromPath(path), PathParts(path), ExtractPipelineFromPath(path));
              && (found.Some? <==> |parts| > 0 && HasPrefix(parts[0], "v"))
              && (found.Some? ==> found.value == (Parse(parts[0]), parts[0]))
              && (found.Some? ==> pipeline == if |parts| > 1 then parts[1] else "")
              && (found.None? ==> pipeline == if |parts| > 0 then parts[0] else "")
    {
      if PipelineStart(path) == 1 {
        ParseThenPrint(PathParts(path)[0]);
      }
    }

    // The middleware stores the detected version in the context. A detector reading the middleware's
    // key then detects that very version from the new context, for every request and default.
    lemma MiddlewareRoundTrip(r: Request, d: DetectionResult)
      requires IsDetected(r, d) && contextKey == CONTEXT_KEY
      ensures DetectFromContext(SetVersionInContext(r.context, d.version)).version == d.version
    {
      if d.version.IsZero() && !(forall m | m in enabledMethods :: Find(m, r).None?) {
        var i :| 0 <= i < |enabledMethods| && Find(enabledMethods[i], r) == Some((d.version, d.source));
        FindsNonZero(enabledMethods[i], r);
      }
    }

    lemma FindsNonZero(m: Method, r: Request)
      ensures Find(m, r).Some? ==> !Find(m, r).value.0.IsZero()
    {
    }

    // With any other key the middleware's version is invisible.
    lemma OtherKeyIgnoresMiddleware(ctx: Context, v: Version)
      requires contextKey != CONTEXT_KEY
      ensures DetectFromContext(SetVersionInContext(ctx, v)) == DetectFromContext(ctx)
    {
    }
  }
}
