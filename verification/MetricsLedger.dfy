// pkg/dragonfly/metrics.go: the command ledger. Each method is one critical section of m.mu.
// The ghost field `log` holds the commands recorded since the last Reset; every counter is a
// 64-bit count of something in it.
module MetricsLedger {
  import opened Wrappers
  import opened GoStrings
  import opened Extrema

  datatype Category = Timeout | Connection | Protocol | Uncategorized

  datatype Sample = Sample(command: string, duration: int, error: Option<Category>)

  // The first matching word decides.
  function CategoryOf(text: string): Category {
    if Contains(text, "timeout") then Timeout
    else if Contains(text, "connection") then Connection
    else if Contains(text, "protocol") then Protocol
    else Uncategorized
  }

  // The category of the first word that occurs.
  predicate Names(text: string, c: Category) {
    && (c == Timeout <==> Contains(text, "timeout"))
    && (c == Connection <==> !Contains(text, "timeout") && Contains(text, "connection"))
    && (c == Protocol <==> !Contains(text, "timeout") && !Contains(text, "connection") && Contains(text, "protocol"))
  }

  // What a call of RecordCommand records.
  predicate Records(x: Sample, command: string, duration: int, err: Option<string>) {
    && x.command == command && x.duration == duration
    && (x.error.Some? <==> err.Some?) && (err.Some? ==> Names(err.value, x.error.value))
  }

  function SampleOf(command: string, duration: int, err: Option<string>): Sample {
    Sample(command, duration, if err.None? then None else Some(CategoryOf(err.value)))
  }

  // ---- Tallies over the log ----

  type Weight = Sample -> int

  function One(x: Sample): int {
    1
  }

  function Duration(x: Sample): int {
    x.duration
  }

  function Failed(x: Sample): int {
    if x.error.Some? then 1 else 0
  }

  function InCategory(c: Category): Weight {
    (x: Sample) => if x.error == Some(c) then 1 else 0
  }

  // Total weight of the logged samples of the given commands.
  function Tally(log: seq<Sample>, commands: set<string>, w: Weight): int {
    if log == [] then 0
    else
      var x := log[|log| - 1];
      Tally(log[..|log| - 1], commands, w) + (if x.command in commands then w(x) else 0)
  }

  function Total(log: seq<Sample>, w: Weight): int {
    if log == [] then 0 else Total(log[..|log| - 1], w) + w(log[|log| - 1])
  }

  predicate Covers(commands: set<string>, log: seq<Sample>) {
    forall i | 0 <= i < |log| :: log[i].command in commands
  }

  lemma TallyMore(log: seq<Sample>, x: Sample, commands: set<string>, w: Weight)
    ensures Tally(log + [x], commands, w) == Tally(log, commands, w) + (if x.command in commands then w(x) else 0)
    ensures Total(log + [x], w) == Total(log, w) + w(x)
  {
    assert (log + [x])[..|log|] == log;
  }

  lemma {:induction false} TallySplit(log: seq<Sample>, commands: set<string>, c: string, w: Weight)
    requires c in commands
    ensures Tally(log, commands, w) == Tally(log, commands - {c}, w) + Tally(log, {c}, w)
  {
    if log != [] {
      TallySplit(log[..|log| - 1], commands, c, w);
    }
  }

  lemma {:induction false} TallyCovered(log: seq<Sample>, commands: set<string>, w: Weight)
    requires Covers(commands, log)
    ensures Tally(log, commands, w) == Total(log, w)
  {
    if log != [] {
      TallyCovered(log[..|log| - 1], commands, w);
    }
  }

  lemma {:induction false} TallyEmpty(log: seq<Sample>, w: Weight)
    ensures Tally(log, {}, w) == 0
  {
    if log != [] {
      TallyEmpty(log[..|log| - 1], w);
    }
  }

  lemma WrapSum(a: int, b: int)
    ensures Wrap64(Wrap64(a) + Wrap64(b)) == Wrap64(a + b)
    ensures Wrap64(a + Wrap64(b)) == Wrap64(a + b)
  {
    WrapAdd(a, Wrap64(b));
    WrapAdd(b, a);
  }

  lemma TallyOneMore(log: seq<Sample>, done: set<string>, c: string, w: Weight)
    requires c !in done
    ensures Wrap64(Wrap64(Tally(log, done, w)) + Wrap64(Tally(log, {c}, w))) == Wrap64(Tally(log, done + {c}, w))
  {
    TallySplit(log, done + {c}, c, w);
    assert done + {c} - {c} == done;
    WrapSum(Tally(log, done, w), Tally(log, {c}, w));
  }

  // A map of wrapping counters, one per command.
  ghost predicate Counts(m: map<string, int>, log: seq<Sample>, w: Weight) {
    forall c | c in m :: m[c] == Wrap64(Tally(log, {c}, w))
  }

  lemma {:induction false} TallyUnseen(log: seq<Sample>, commands: set<string>, c: string, w: Weight)
    requires Covers(commands, log) && c !in commands
    ensures Tally(log, {c}, w) == 0
  {
    if log != [] {
      TallyUnseen(log[..|log| - 1], commands, c, w);
    }
  }

  // The counter of a command, created at zero when it is new, plus d.
  function Bumped(m: map<string, int>, command: string, d: int): map<string, int> {
    m[command := Wrap64((if command in m then m[command] else 0) + d)]
  }

  function Known(m: map<string, int>, command: string): map<string, int> {
    if command in m then m else m[command := 0]
  }

  lemma CountsBumped(m: map<string, int>, log: seq<Sample>, x: Sample, w: Weight)
    requires Counts(m, log, w) && Covers(m.Keys, log)
    ensures Counts(Bumped(m, x.command, w(x)), log + [x], w)
    ensures w(x) == 0 ==> Counts(Known(m, x.command), log + [x], w)
  {
    if x.command !in m {
      TallyUnseen(log, m.Keys, x.command, w);
    }
    forall c
      ensures Tally(log + [x], {c}, w) == Tally(log, {c}, w) + (if c == x.command then w(x) else 0)
    {
      TallyMore(log, x, {c}, w);
    }
    WrapAdd(Tally(log, {x.command}, w), w(x));
  }

  lemma CountsZero(m: map<string, int>, w: Weight)
    requires forall c | c in m :: m[c] == 0
    ensures Counts(m, [], w)
  {
  }

  lemma {:induction false} TotalOne(log: seq<Sample>)
    ensures Total(log, One) == |log|
  {
    if log != [] {
      TotalOne(log[..|log| - 1]);
    }
  }

  ghost function SumValues(m: map<string, int>): int
    decreases m.Keys
  {
    if m == map[] then 0
    else
      var c :| c in m;
      assert (m - {c}).Keys == m.Keys - {c};
      SumValues(m - {c}) + m[c]
  }

  // Counters that wrap each on its own still add up, modulo 2^64, to the wrapped total.
  lemma {:induction false} CountersAddUp(m: map<string, int>, log: seq<Sample>, w: Weight)
    requires Counts(m, log, w)
    ensures Wrap64(SumValues(m)) == Wrap64(Tally(log, m.Keys, w))
    decreases m.Keys
  {
    if m == map[] {
      assert m.Keys == {};
      TallyEmpty(log, w);
    } else {
      var c :| c in m && SumValues(m) == SumValues(m - {c}) + m[c];
      var rest := m - {c};
      assert rest.Keys == m.Keys - {c} && rest.Keys + {c} == m.Keys;
      CountersAddUp(rest, log, w);
      TallyOneMore(log, rest.Keys, c, w);
      WrapAdd(SumValues(rest), m[c]);
    }
  }

  // ---- The durations ----

  function Durations(log: seq<Sample>): seq<int> {
    seq(|log|, i requires 0 <= i < |log| => log[i].duration)
  }

  // ---- The ledger ----

  datatype Ledger = Ledger(
    counts: map<string, int>,
    durations: map<string, int>,
    errors: map<string, int>,
    minLatency: int,
    maxLatency: int,
    totalLatency: int,
    latencyCount: int,
    totalErrors: int,
    timeoutErrors: int,
    connectionErrors: int,
    protocolErrors: int)

  function Zeros(commands: set<string>): map<string, int> {
    map c | c in commands :: 0
  }

  function Empty(known: set<string>): Ledger {
    Ledger(Zeros(known), Zeros(known), Zeros(known), 0, 0, 0, 0, 0, 0, 0, 0)
  }

  function Plus(total: int, more: bool): int {
    if more then Wrap64(total + 1) else total
  }

  function Recorded(l: Ledger, x: Sample): Ledger {
    Ledger(
      Bumped(l.counts, x.command, 1),
      Bumped(l.durations, x.command, x.duration),
      if x.error.Some? then Bumped(l.errors, x.command, 1) else Known(l.errors, x.command),
      NextMin(l.minLatency, x.duration),
      NextMax(l.maxLatency, x.duration),
      Wrap64(l.totalLatency + x.duration),
      Wrap64(l.latencyCount + 1),
      Plus(l.totalErrors, x.error.Some?),
      Plus(l.timeoutErrors, x.error == Some(Timeout)),
      Plus(l.connectionErrors, x.error == Some(Connection)),
      Plus(l.protocolErrors, x.error == Some(Protocol)))
  }

  // The ledger after a Reset that knew these commands and then this log.
  function LedgerOf(known: set<string>, log: seq<Sample>): Ledger {
    if log == [] then Empty(known) else Recorded(LedgerOf(known, log[..|log| - 1]), log[|log| - 1])
  }

  lemma LedgerMore(known: set<string>, log: seq<Sample>, x: Sample)
    ensures LedgerOf(known, log + [x]) == Recorded(LedgerOf(known, log), x)
  {
    assert (log + [x])[..|log|] == log;
  }

  // A known command with an error is bumped once, whether or not it was just created.
  lemma RecordedIs(l: Ledger, l': Ledger, x: Sample)
    requires l'.counts == Bumped(l.counts, x.command, 1) && l'.durations == Bumped(l.durations, x.command, x.duration)
    requires l'.errors == if x.error.Some? then Bumped(Known(l.errors, x.command), x.command, 1) else Known(l.errors, x.command)
    requires l'.minLatency == NextMin(l.minLatency, x.duration) && l'.maxLatency == NextMax(l.maxLatency, x.duration)
    requires l'.totalLatency == Wrap64(l.totalLatency + x.duration) && l'.latencyCount == Wrap64(l.latencyCount + 1)
    requires l'.totalErrors == Plus(l.totalErrors, x.error.Some?)
    requires l'.timeoutErrors == Plus(l.timeoutErrors, x.error == Some(Timeout))
    requires l'.connectionErrors == Plus(l.connectionErrors, x.error == Some(Connection))
    requires l'.protocolErrors == Plus(l.protocolErrors, x.error == Some(Protocol))
    ensures l' == Recorded(l, x)
  {
    assert Bumped(Known(l.errors, x.command), x.command, 1) == Bumped(l.errors, x.command, 1);
  }

  // Integer division truncates toward zero: the remainder is short of the divisor and has the sign of the
  // dividend.
  function GoDiv(a: int, b: int): (q: int)
    requires b != 0
    ensures b > 0 && a >= 0 ==> q * b <= a < q * b + b
    ensures b > 0 && a < 0 ==> q * b - b < a <= q * b
  {
    if a >= 0 then a / b else -((-a) / b)
  }

  datatype CommandMetrics = CommandMetrics(count: int, totalDuration: int, averageDuration: int, errors: int, errorRate: real)

  datatype Snapshot = Snapshot(
    commands: map<string, CommandMetrics>,
    averageLatency: int,
    minLatency: int,
    maxLatency: int,
    totalErrors: int,
    timeoutErrors: int,
    connectionErrors: int,
    protocolErrors: int)

  function MetricsOf(count: int, duration: int, errors: int): CommandMetrics
    requires count != 0
  {
    CommandMetrics(count, duration, GoDiv(duration, count), errors, errors as real / count as real)
  }

  // A snapshot divides the totals by the counts; commands without a count are left out.
  function SnapshotOf(l: Ledger): Snapshot
    requires l.counts.Keys == l.durations.Keys == l.errors.Keys
  {
    var commands := map c | c in l.counts && l.counts[c] != 0 ::
        MetricsOf(l.counts[c], l.durations[c], l.errors[c]);
    if l.latencyCount > 0 then
      Snapshot(commands, GoDiv(l.totalLatency, l.latencyCount), l.minLatency, l.maxLatency,
               l.totalErrors, l.timeoutErrors, l.connectionErrors, l.protocolErrors)
    else
      Snapshot(commands, 0, 0, 0, l.totalErrors, l.timeoutErrors, l.connectionErrors, l.protocolErrors)
  }

  // ---- What the ledger means ----

  lemma {:induction false} SameKeys(known: set<string>, log: seq<Sample>)
    ensures var l := LedgerOf(known, log); l.counts.Keys == l.durations.Keys == l.errors.Keys
  {
    if log != [] {
      SameKeys(known, log[..|log| - 1]);
    }
  }

  // The three maps share their keys, which include every recorded command, and each of their
  // counters is the tally of its command.
  lemma {:induction false} CommandCounters(known: set<string>, log: seq<Sample>)
    ensures var l := LedgerOf(known, log);
            && l.counts.Keys == l.durations.Keys == l.errors.Keys && Covers(l.counts.Keys, log)
            && Counts(l.counts, log, One) && Counts(l.durations, log, Duration) && Counts(l.errors, log, Failed)
  {
    if log == [] {
      CountsZero(Zeros(known), One);
      CountsZero(Zeros(known), Duration);
      CountsZero(Zeros(known), Failed);
    } else {
      var front, x := log[..|log| - 1], log[|log| - 1];
      assert log == front + [x];
      CommandCounters(known, front);
      var l := LedgerOf(known, front);
      CountsBumped(l.counts, front, x, One);
      CountsBumped(l.durations, front, x, Duration);
      CountsBumped(l.errors, front, x, Failed);
    }
  }

  lemma {:induction false} LatencyTotals(known: set<string>, log: seq<Sample>)
    ensures var l := LedgerOf(known, log);
            l.totalLatency == Wrap64(Total(log, Duration)) && l.latencyCount == Wrap64(|log|)
    ensures var l := LedgerOf(known, log);
            l.minLatency == FoldMin(Durations(log)) && l.maxLatency == FoldMax(Durations(log))
  {
    if log != [] {
      var front, d := log[..|log| - 1], Durations(log);
      LatencyTotals(known, front);
      assert d[..|d| - 1] == Durations(front);
      WrapAdd(Total(front, Duration), log[|log| - 1].duration);
      WrapAdd(|front|, 1);
    }
  }

  lemma {:induction false} ErrorTotals(known: set<string>, log: seq<Sample>)
    ensures var l := LedgerOf(known, log);
            && l.totalErrors == Wrap64(Total(log, Failed))
            && l.timeoutErrors == Wrap64(Total(log, InCategory(Timeout)))
            && l.connectionErrors == Wrap64(Total(log, InCategory(Connection)))
            && l.protocolErrors == Wrap64(Total(log, InCategory(Protocol)))
  {
    if log != [] {
      var front := log[..|log| - 1];
      ErrorTotals(known, front);
      WrapAdd(Total(front, Failed), 1);
      WrapAdd(Total(front, InCategory(Timeout)), 1);
      WrapAdd(Total(front, InCategory(Connection)), 1);
      WrapAdd(Total(front, InCategory(Protocol)), 1);
    }
  }

  lemma {:induction false} CategoriesWithinErrors(log: seq<Sample>)
    ensures 0 <= Total(log, InCategory(Timeout)) && 0 <= Total(log, InCategory(Connection))
    ensures 0 <= Total(log, InCategory(Protocol))
    ensures Total(log, InCategory(Timeout)) + Total(log, InCategory(Connection)) + Total(log, InCategory(Protocol))
         <= Total(log, Failed) <= |log|
  {
    if log != [] {
      CategoriesWithinErrors(log[..|log| - 1]);
    }
  }

  // The maps add up to the totals, modulo 2^64, after any commands whatever.
  lemma LedgerBalances(known: set<string>, log: seq<Sample>)
    ensures var l := LedgerOf(known, log);
            && Wrap64(SumValues(l.counts)) == l.latencyCount
            && Wrap64(SumValues(l.durations)) == l.totalLatency
            && Wrap64(SumValues(l.errors)) == l.totalErrors
  {
    var l := LedgerOf(known, log);
    CommandCounters(known, log);
    LatencyTotals(known, log);
    ErrorTotals(known, log);
    CountersAddUp(l.counts, log, One);
    CountersAddUp(l.durations, log, Duration);
    CountersAddUp(l.errors, log, Failed);
    TallyCovered(log, l.counts.Keys, One);
    TallyCovered(log, l.counts.Keys, Duration);
    TallyCovered(log, l.counts.Keys, Failed);
    TotalOne(log);
  }

  lemma TotalCommands(known: set<string>, log: seq<Sample>)
    ensures var l := LedgerOf(known, log);
            && Counts(l.counts, log, One)
            && l.latencyCount == Wrap64(|log|) == Wrap64(Tally(log, l.counts.Keys, One))
  {
    CommandCounters(known, log);
    LatencyTotals(known, log);
    TallyCovered(log, LedgerOf(known, log).counts.Keys, One);
    TotalOne(log);
  }

  // While fewer than 2^63 commands were recorded, no error counter has wrapped and the
  // categories account for at most the errors.
  lemma CategoriesBounded(known: set<string>, log: seq<Sample>)
    requires IsInt64(|log|)
    ensures var l := LedgerOf(known, log);
            && 0 <= l.timeoutErrors && 0 <= l.connectionErrors && 0 <= l.protocolErrors
            && l.timeoutErrors + l.connectionErrors + l.protocolErrors <= l.totalErrors <= l.latencyCount
  {
    CategoriesWithinErrors(log);
    ErrorTotals(known, log);
    LatencyTotals(known, log);
    forall n | 0 <= n <= |log|
      ensures Wrap64(n) == n
    {
      WrapInRange(n);
    }
  }

  predicate AllPositive(log: seq<Sample>) {
    forall i | 0 <= i < |log| :: log[i].duration > 0
  }

  lemma ProductStep(a: int, n: int, b: int)
    requires b == 0 || b == 1
    ensures a * (n + b) == a * n + (if b == 1 then a else 0)
  {
  }

  // Any selection of samples has a total between min and max times its size.
  lemma {:induction false} TallyBounds(log: seq<Sample>, commands: set<string>, lo: int, hi: int)
    requires 0 < lo && forall i | 0 <= i < |log| :: lo <= log[i].duration <= hi
    ensures var n := Tally(log, commands, One);
            && 0 <= n <= |log| && lo * n <= Tally(log, commands, Duration) <= hi * n
            && Tally(log, commands, Duration) <= Total(log, Duration)
  {
    if log != [] {
      var front, last := log[..|log| - 1], log[|log| - 1];
      TallyBounds(front, commands, lo, hi);
      var more := if last.command in commands then 1 else 0;
      assert Tally(log, commands, One) == Tally(front, commands, One) + more;
      ProductStep(lo, Tally(front, commands, One), more);
      ProductStep(hi, Tally(front, commands, One), more);
    }
  }

  // Truncated division by a positive number keeps lower bounds, and upper ones that are not negative.
  lemma DivideBounds(total: int, n: int, lo: int, hi: int)
    requires n > 0
    ensures lo * n <= total ==> lo <= GoDiv(total, n)
    ensures total <= hi * n && 0 <= hi ==> GoDiv(total, n) <= hi
    ensures 0 < lo <= GoDiv(total, n) ==> lo * n <= total
  {
    var q := GoDiv(total, n);
    assert (q + 1) * n == q * n + n;
    Ordered(lo, q + 1, n);
    Ordered(q, lo, n);
    Ordered(hi, q, n);
    Ordered(q, 1, n);
  }

  // Products with a positive factor order as their other factors.
  lemma Ordered(a: int, b: int, n: int)
    requires n > 0
    ensures a < b <==> a * n < b * n
  {
    if a < b {
      assert b * n - a * n == (b - a) * n > 0;
    } else {
      assert a * n - b * n == (a - b) * n >= 0;
    }
  }

  lemma ExtremaBound(known: set<string>, log: seq<Sample>)
    requires AllPositive(log) && log != []
    ensures var l := LedgerOf(known, log);
            0 < l.minLatency && forall i | 0 <= i < |log| :: l.minLatency <= log[i].duration <= l.maxLatency
  {
    LatencyTotals(known, log);
    var d := Durations(log);
    MinRightIff(d);
    MaxRightIff(d);
    assert d[0] > 0;
    forall i | 0 <= i < |log|
      ensures Least(d) <= log[i].duration <= Greatest(d)
    {
      assert d[i] in d;
    }
  }

  lemma {:induction false} TotalBounds(log: seq<Sample>, lo: int, hi: int)
    requires forall i | 0 <= i < |log| :: lo <= log[i].duration <= hi
    ensures lo * |log| <= Total(log, Duration) <= hi * |log|
  {
    if log != [] {
      TotalBounds(log[..|log| - 1], lo, hi);
      ProductStep(lo, |log| - 1, 1);
      ProductStep(hi, |log| - 1, 1);
    }
  }

  lemma DurationsBetween(log: seq<Sample>)
    requires log != []
    ensures var d := Durations(log); forall i | 0 <= i < |log| :: Least(d) <= log[i].duration <= Greatest(d)
  {
    var d := Durations(log);
    forall i | 0 <= i < |log|
      ensures Least(d) <= log[i].duration <= Greatest(d)
    {
      assert d[i] in d;
    }
  }

  lemma LeastAfterZero(d: seq<int>)
    requires d != [] && Least(d) == 0 && d[|d| - 1] != 0
    ensures LastZero(d) + 1 < |d| && Least(d[LastZero(d) + 1..]) > 0
  {
    AfterLastZero(d, LastZero(d), Least(d[LastZero(d) + 1..]));
  }

  lemma AfterLastZero(d: seq<int>, z: nat, x: int)
    requires z < |d| && (forall i | z < i < |d| :: d[i] != 0) && x in d[z + 1..]
    ensures x != 0 && x in d
  {
    var j :| 0 <= j < |d[z + 1..]| && d[z + 1..][j] == x;
    assert d[z + 1 + j] == x;
  }

  lemma MinReachedIff(d: seq<int>, n: int, total: int)
    requires d != [] && n > 0 && Least(d) * n <= total
    ensures FoldMin(d) <= GoDiv(total, n) <==>
      Least(d) != 0 || d[|d| - 1] == 0 || Least(d[LastZero(d) + 1..]) * n <= total
  {
    FoldMinIs(d);
    DivideBounds(total, n, FoldMin(d), 0);
    if Least(d) == 0 && d[|d| - 1] != 0 {
      LeastAfterZero(d);
    }
  }

  lemma MaxNotExceeded(d: seq<int>, n: int, total: int)
    requires d != [] && n > 0 && total <= Greatest(d) * n
    ensures GoDiv(total, n) <= FoldMax(d)
  {
    MaxRightIff(d);
    Ordered(Greatest(d), 0, n);
    DivideBounds(total, n, 0, FoldMax(d));
  }

  // With a sum that has not overflowed, a non-empty snapshot's average never exceeds its max. It reaches
  // its min exactly unless a zero was forgotten and the least duration after the last zero is above
  // the true average.
  lemma AverageIff(known: set<string>, log: seq<Sample>)
    requires log != [] && IsInt64(|log|) && IsInt64(Total(log, Duration))
    ensures var l := LedgerOf(known, log); l.counts.Keys == l.durations.Keys == l.errors.Keys
    ensures var (s, d) := (SnapshotOf(LedgerOf(known, log)), Durations(log));
            && s.averageLatency <= s.maxLatency
            && (s.minLatency <= s.averageLatency <==>
                  Least(d) != 0 || d[|d| - 1] == 0 || Least(d[LastZero(d) + 1..]) * |d| <= Total(log, Duration))
  {
    var d, n, total := Durations(log), |log|, Total(log, Duration);
    SameKeys(known, log);
    LatencyTotals(known, log);
    WrapInRange(n);
    WrapInRange(total);
    DurationsBetween(log);
    TotalBounds(log, Least(d), Greatest(d));
    MinReachedIff(d, n, total);
    MaxNotExceeded(d, n, total);
  }

  lemma OverallAverage(known: set<string>, log: seq<Sample>)
    requires AllPositive(log) && log != [] && IsInt64(|log|) && IsInt64(Total(log, Duration))
    ensures var l := LedgerOf(known, log); l.counts.Keys == l.durations.Keys == l.errors.Keys
    ensures var (l, s) := (LedgerOf(known, log), SnapshotOf(LedgerOf(known, log)));
            && s.minLatency == l.minLatency && s.maxLatency == l.maxLatency
            && s.minLatency <= s.averageLatency <= s.maxLatency
  {
    AverageIff(known, log);
    LatencyTotals(known, log);
    WrapInRange(|log|);
    var d := Durations(log);
    assert Least(d) in d;
  }

  lemma TallyInRange(log: seq<Sample>, c: string, lo: int, hi: int)
    requires 0 < lo && forall i | 0 <= i < |log| :: lo <= log[i].duration <= hi
    requires IsInt64(|log|) && IsInt64(Total(log, Duration))
    ensures Wrap64(Tally(log, {c}, One)) == Tally(log, {c}, One) >= 0
    ensures Wrap64(Tally(log, {c}, Duration)) == Tally(log, {c}, Duration)
    ensures Tally(log, {c}, One) != 0 ==> lo <= GoDiv(Tally(log, {c}, Duration), Tally(log, {c}, One)) <= hi
  {
    TallyBounds(log, {c}, lo, hi);
    var n, t := Tally(log, {c}, One), Tally(log, {c}, Duration);
    assert 0 <= lo * n;
    WrapInRange(n);
    WrapInRange(t);
    if n != 0 {
      DivideBounds(t, n, lo, hi);
    }
  }

  lemma CommandAverage(known: set<string>, log: seq<Sample>, l: Ledger, c: string)
    requires AllPositive(log) && log != [] && IsInt64(|log|) && IsInt64(Total(log, Duration))
    requires l == LedgerOf(known, log) && c in l.counts && c in l.durations && l.counts[c] != 0
    ensures l.minLatency <= GoDiv(l.durations[c], l.counts[c]) <= l.maxLatency
  {
    ExtremaBound(known, log);
    TallyInRange(log, c, l.minLatency, l.maxLatency);
    CommandCounters(known, log);
  }

  // With positive durations whose sum has not overflowed, every snapshot over at least one command
  // has min <= average <= max, overall and for every command it lists.
  lemma SnapshotAverages(known: set<string>, log: seq<Sample>)
    requires AllPositive(log) && log != [] && IsInt64(|log|) && IsInt64(Total(log, Duration))
    ensures var l := LedgerOf(known, log);
            && l.counts.Keys == l.durations.Keys == l.errors.Keys
            && var s := SnapshotOf(l);
            && s.minLatency <= s.averageLatency <= s.maxLatency
            && forall c | c in s.commands :: s.minLatency <= s.commands[c].averageDuration <= s.maxLatency
  {
    var l := LedgerOf(known, log);
    SameKeys(known, log);
    OverallAverage(known, log);
    forall c | c in l.counts && l.counts[c] != 0
      ensures l.minLatency <= GoDiv(l.durations[c], l.counts[c]) <= l.maxLatency
    {
      CommandAverage(known, log, l, c);
    }
  }

  lemma {:induction false} FailedWithinOne(log: seq<Sample>, commands: set<string>)
    ensures 0 <= Tally(log, commands, Failed) <= Tally(log, commands, One) <= |log|
  {
    if log != [] {
      FailedWithinOne(log[..|log| - 1], commands);
    }
  }

  lemma RateInUnit(errors: int, count: int)
    requires 0 <= errors <= count && count > 0
    ensures 0.0 <= errors as real / count as real <= 1.0
  {
  }

  // While fewer than 2^63 commands were recorded, every command listed has an error rate from 0 to 1.
  lemma ErrorRatesInUnit(known: set<string>, log: seq<Sample>)
    requires IsInt64(|log|)
    ensures var l := LedgerOf(known, log);
            && l.counts.Keys == l.durations.Keys == l.errors.Keys
            && forall c | c in SnapshotOf(l).commands :: 0.0 <= SnapshotOf(l).commands[c].errorRate <= 1.0
  {
    var l := LedgerOf(known, log);
    CommandCounters(known, log);
    forall c | c in l.counts && l.counts[c] != 0
      ensures 0.0 <= l.errors[c] as real / l.counts[c] as real <= 1.0
    {
      FailedWithinOne(log, {c});
      WrapInRange(Tally(log, {c}, Failed));
      WrapInRange(Tally(log, {c}, One));
      RateInUnit(l.errors[c], l.counts[c]);
    }
  }

  // What a snapshot shows of the commands recorded since the last Reset.
  ghost predicate Shows(s: Snapshot, log: seq<Sample>) {
    && s.totalErrors == Wrap64(Total(log, Failed))
    && s.timeoutErrors == Wrap64(Total(log, InCategory(Timeout)))
    && s.connectionErrors == Wrap64(Total(log, InCategory(Connection)))
    && s.protocolErrors == Wrap64(Total(log, InCategory(Protocol)))
    && (Wrap64(|log|) > 0 ==>
          && s.averageLatency == GoDiv(Wrap64(Total(log, Duration)), Wrap64(|log|))
          && s.minLatency == FoldMin(Durations(log)) && s.maxLatency == FoldMax(Durations(log)))
    && (Wrap64(|log|) <= 0 ==> s.averageLatency == s.minLatency == s.maxLatency == 0)
    && (forall c :: c in s.commands <==> Wrap64(Tally(log, {c}, One)) != 0)
    && (forall c | c in s.commands :: ShowsCommand(s.commands[c], log, c))
  }

  ghost predicate ShowsCommand(m: CommandMetrics, log: seq<Sample>, c: string) {
    && m.count == Wrap64(Tally(log, {c}, One)) != 0
    && m.totalDuration == Wrap64(Tally(log, {c}, Duration))
    && m.averageDuration == GoDiv(m.totalDuration, m.count)
    && m.errors == Wrap64(Tally(log, {c}, Failed))
    && m.errorRate == m.errors as real / m.count as real
  }

  lemma Listed(known: set<string>, log: seq<Sample>, c: string)
    ensures var counts := LedgerOf(known, log).counts;
            (c in counts && counts[c] != 0 <==> Wrap64(Tally(log, {c}, One)) != 0)
  {
    CommandCounters(known, log);
    var counts := LedgerOf(known, log).counts;
    if c !in counts {
      TallyUnseen(log, counts.Keys, c, One);
    }
  }

  lemma CommandShown(known: set<string>, log: seq<Sample>, c: string)
    requires c in LedgerOf(known, log).counts && LedgerOf(known, log).counts[c] != 0
    ensures var l := LedgerOf(known, log);
            && c in l.durations && c in l.errors
            && ShowsCommand(MetricsOf(l.counts[c], l.durations[c], l.errors[c]), log, c)
  {
    CommandCounters(known, log);
  }

  lemma SnapshotShows(known: set<string>, log: seq<Sample>)
    ensures var l := LedgerOf(known, log);
            l.counts.Keys == l.durations.Keys == l.errors.Keys && Shows(SnapshotOf(l), log)
  {
    var l := LedgerOf(known, log);
    SameKeys(known, log);
    ErrorTotals(known, log);
    LatencyTotals(known, log);
    forall c
      ensures c in SnapshotOf(l).commands <==> Wrap64(Tally(log, {c}, One)) != 0
      ensures c in SnapshotOf(l).commands ==> ShowsCommand(SnapshotOf(l).commands[c], log, c)
    {
      Listed(known, log, c);
      if c in l.counts && l.counts[c] != 0 {
        CommandShown(known, log, c);
      }
    }
  }

  // ---- Substring search ----

  method FindSubstring(s: string, substr: string) returns (found: bool)
    ensures found <==> Contains(s, substr)
  {
    var i := 0;
    while i <= |s| - |substr|
      invariant 0 <= i && forall j | 0 <= j < i :: !OccursAt(s, substr, j)
    {
      if s[i..i + |substr|] == substr {
        assert OccursAt(s, substr, i);
        return true;
      }
      i := i + 1;
    }
    found := false;
  }

  method ContainsText(s: string, substr: string) returns (found: bool)
    ensures found <==> Contains(s, substr)
  {
    if |s| < |substr| {
      return false;
    }
    if s == substr {
      assert OccursAt(s, substr, 0);
      return true;
    }
    if |s| == |substr| {
      return false;
    }
    if s[..|substr|] == substr {
      assert OccursAt(s, substr, 0);
      return true;
    }
    if s[|s| - |substr|..] == substr {
      assert OccursAt(s, substr, |s| - |substr|);
      return true;
    }
    found := FindSubstring(s, substr);
  }

  class Metrics {
    var commandCounts: map<string, int>
    var commandDurations: map<string, int>
    var commandErrors: map<string, int>
    var minLatency: int
    var maxLatency: int
    var totalLatency: int
    var latencyCount: int
    var totalErrors: int
    var timeoutErrors: int
    var connectionErrors: int
    var protocolErrors: int
    ghost var known: set<string>
    ghost var log: seq<Sample>

    function State(): Ledger
      reads this
    {
      Ledger(commandCounts, commandDurations, commandErrors, minLatency, maxLatency, totalLatency, latencyCount,
             totalErrors, timeoutErrors, connectionErrors, protocolErrors)
    }

    ghost predicate Valid()
      reads this
    {
      State() == LedgerOf(known, log)
    }

    constructor ()
      ensures Valid() && log == []
    {
      commandCounts, commandDurations, commandErrors := map[], map[], map[];
      minLatency, maxLatency, totalLatency, latencyCount := 0, 0, 0, 0;
      totalErrors, timeoutErrors, connectionErrors, protocolErrors := 0, 0, 0, 0;
      known, log := {}, [];
    }

    method CompareAndSwapMin(current: int, x: int) returns (swapped: bool)
      modifies this`minLatency
      ensures swapped == (old(minLatency) == current)
      ensures minLatency == if swapped then x else old(minLatency)
    {
      swapped := minLatency == current;
      if swapped {
        minLatency := x;
      }
    }

    method CompareAndSwapMax(current: int, x: int) returns (swapped: bool)
      modifies this`maxLatency
      ensures swapped == (old(maxLatency) == current)
      ensures maxLatency == if swapped then x else old(maxLatency)
    {
      swapped := maxLatency == current;
      if swapped {
        maxLatency := x;
      }
    }

    // Under the mutex each loop body runs once.
    method UpdateLatency(latencyNs: int)
      modifies this`minLatency, this`maxLatency, this`totalLatency, this`latencyCount
      ensures totalLatency == Wrap64(old(totalLatency) + latencyNs)
      ensures latencyCount == Wrap64(old(latencyCount) + 1)
      ensures minLatency == NextMin(old(minLatency), latencyNs)
      ensures maxLatency == NextMax(old(maxLatency), latencyNs)
    {
      totalLatency := Wrap64(totalLatency + latencyNs);
      latencyCount := Wrap64(latencyCount + 1);
      var swapped := false;
      while !swapped
        modifies this`minLatency
        invariant minLatency == if swapped then NextMin(old(minLatency), latencyNs) else old(minLatency)
        decreases !swapped
      {
        var current := minLatency;
        if current != 0 && current <= latencyNs {
          break;
        }
        swapped := CompareAndSwapMin(current, latencyNs);
      }
      swapped := false;
      while !swapped
        modifies this`maxLatency
        invariant maxLatency == if swapped then NextMax(old(maxLatency), latencyNs) else old(maxLatency)
        decreases !swapped
      {
        var current := maxLatency;
        if current >= latencyNs {
          break;
        }
        swapped := CompareAndSwapMax(current, latencyNs);
      }
    }

    method CategorizeError(text: string)
      modifies this`timeoutErrors, this`connectionErrors, this`protocolErrors
      ensures timeoutErrors == Plus(old(timeoutErrors), CategoryOf(text) == Timeout)
      ensures connectionErrors == Plus(old(connectionErrors), CategoryOf(text) == Connection)
      ensures protocolErrors == Plus(old(protocolErrors), CategoryOf(text) == Protocol)
      ensures Names(text, CategoryOf(text))
    {
      var found := ContainsText(text, "timeout");
      if found {
        timeoutErrors := Wrap64(timeoutErrors + 1);
        return;
      }
      found := ContainsText(text, "connection");
      if found {
        connectionErrors := Wrap64(connectionErrors + 1);
        return;
      }
      found := ContainsText(text, "protocol");
      if found {
        protocolErrors := Wrap64(protocolErrors + 1);
      }
    }

    method CountCommand(command: string, duration: int)
      requires commandCounts.Keys == commandDurations.Keys == commandErrors.Keys
      modifies this`commandCounts, this`commandDurations, this`commandErrors
      ensures commandCounts == Bumped(old(commandCounts), command, 1)
      ensures commandDurations == Bumped(old(commandDurations), command, duration)
      ensures commandErrors == Known(old(commandErrors), command)
    {
      if command !in commandCounts {
        commandCounts := commandCounts[command := 0];
        commandDurations := commandDurations[command := 0];
        commandErrors := commandErrors[command := 0];
      }
      commandCounts := commandCounts[command := Wrap64(commandCounts[command] + 1)];
      commandDurations := commandDurations[command := Wrap64(commandDurations[command] + duration)];
    }

    method CountError(command: string, err: Option<string>)
      requires command in commandErrors
      modifies this`commandErrors, this`totalErrors, this`timeoutErrors, this`connectionErrors, this`protocolErrors
      ensures commandErrors == if err.Some? then Bumped(old(commandErrors), command, 1) else old(commandErrors)
      ensures totalErrors == Plus(old(totalErrors), err.Some?)
      ensures timeoutErrors == Plus(old(timeoutErrors), err.Some? && CategoryOf(err.value) == Timeout)
      ensures connectionErrors == Plus(old(connectionErrors), err.Some? && CategoryOf(err.value) == Connection)
      ensures protocolErrors == Plus(old(protocolErrors), err.Some? && CategoryOf(err.value) == Protocol)
    {
      if err.Some? {
        commandErrors := commandErrors[command := Wrap64(commandErrors[command] + 1)];
        totalErrors := Wrap64(totalErrors + 1);
        CategorizeError(err.value);
      }
    }

    method UpdateCounters(command: string, duration: int, err: Option<string>)
      requires commandCounts.Keys == commandDurations.Keys == commandErrors.Keys
      modifies this
      ensures State() == Recorded(old(State()), SampleOf(command, duration, err))
      ensures known == old(known) && log == old(log)
    {
      CountCommand(command, duration);
      UpdateLatency(duration);
      CountError(command, err);
      RecordedIs(old(State()), State(), SampleOf(command, duration, err));
    }

    method RecordCommand(command: string, duration: int, err: Option<string>)
      requires Valid()
      modifies this
      ensures Valid() && known == old(known) && log == old(log) + [SampleOf(command, duration, err)]
      ensures Records(log[|log| - 1], command, duration, err)
    {
      SameKeys(known, log);
      LedgerMore(known, log, SampleOf(command, duration, err));
      UpdateCounters(command, duration, err);
      log := log + [SampleOf(command, duration, err)];
    }

    method ResetCommands()
      requires commandCounts.Keys == commandDurations.Keys == commandErrors.Keys
      modifies this`commandCounts, this`commandDurations, this`commandErrors
      ensures commandCounts == commandDurations == commandErrors == Zeros(old(commandCounts.Keys))
    {
      var todo := commandCounts.Keys;
      while todo != {}
        invariant todo <= commandCounts.Keys
        invariant commandCounts.Keys == commandDurations.Keys == commandErrors.Keys == old(commandCounts.Keys)
        invariant forall c | c in commandCounts && c !in todo ::
          commandCounts[c] == 0 && commandDurations[c] == 0 && commandErrors[c] == 0
        decreases todo
      {
        var command :| command in todo;
        todo := todo - {command};
        commandCounts := commandCounts[command := 0];
        commandDurations := commandDurations[command := 0];
        commandErrors := commandErrors[command := 0];
      }
    }

    // Known commands stay known, with zero counts.
    method Reset()
      requires Valid()
      modifies this
      ensures Valid() && log == [] && known == old(commandCounts.Keys)
    {
      SameKeys(known, log);
      ghost var commands := commandCounts.Keys;
      ResetCommands();
      minLatency, maxLatency, totalLatency, latencyCount := 0, 0, 0, 0;
      totalErrors, timeoutErrors, connectionErrors, protocolErrors := 0, 0, 0, 0;
      known, log := commands, [];
    }

    method SnapshotCommands() returns (commands: map<string, CommandMetrics>)
      requires commandCounts.Keys == commandDurations.Keys == commandErrors.Keys
      ensures commands == SnapshotOf(State()).commands
    {
      commands := map[];
      var todo := commandCounts.Keys;
      while todo != {}
        invariant todo <= commandCounts.Keys
        invariant commands == map c | c in commandCounts && c !in todo && commandCounts[c] != 0 ::
          MetricsOf(commandCounts[c], commandDurations[c], commandErrors[c])
        decreases todo
      {
        var c :| c in todo;
        todo := todo - {c};
        var count := commandCounts[c];
        if count != 0 {
          var errorRate := commandErrors[c] as real / count as real;
          commands := commands[c :=
            CommandMetrics(count, commandDurations[c], GoDiv(commandDurations[c], count), commandErrors[c], errorRate)];
        }
      }
    }

    method TakeSnapshot() returns (s: Snapshot)
      requires Valid()
      ensures commandCounts.Keys == commandDurations.Keys == commandErrors.Keys
      ensures s == SnapshotOf(State())
      ensures Shows(s, log)
    {
      SameKeys(known, log);
      SnapshotShows(known, log);
      var average, min, max := 0, 0, 0;
      if latencyCount > 0 {
        average, min, max := GoDiv(totalLatency, latencyCount), minLatency, maxLatency;
      }
      var commands := SnapshotCommands();
      s := Snapshot(commands, average, min, max, totalErrors, timeoutErrors, connectionErrors, protocolErrors);
    }

    // Summing the per-command counters gives the number of recorded commands.
    method GetTotalCommands() returns (total: int)
      requires Valid()
      ensures total == latencyCount == Wrap64(|log|)
    {
      total := 0;
      var todo, done := commandCounts.Keys, {};
      TotalCommands(known, log);
      TallyEmpty(log, One);
      while todo != {}
        invariant todo !! done && todo + done == commandCounts.Keys
        invariant total == Wrap64(Tally(log, done, One))
        decreases todo
      {
        var c :| c in todo;
        TallyOneMore(log, done, c, One);
        todo, done := todo - {c}, done + {c};
        total := Wrap64(total + commandCounts[c]);
      }
      assert done == commandCounts.Keys;
    }

    // The average of the durations recorded since the last Reset, in 64-bit arithmetic.
    method GetAverageLatency() returns (average: int)
      requires Valid()
      ensures average == if Wrap64(|log|) == 0 then 0 else GoDiv(Wrap64(Total(log, Duration)), Wrap64(|log|))
    {
      LatencyTotals(known, log);
      average := if latencyCount == 0 then 0 else GoDiv(totalLatency, latencyCount);
    }
  }
}
