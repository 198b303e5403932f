// pkg/dragonfly/metrics.go, updateLatency: compare-and-swap loops on minLatency and maxLatency.
// Call i records latency lat[i]. One step of a call is one atomic operation, and a schedule names
// the call that moves next, in any order and for any number of calls; a name that is no call's skips.
module LatencyCas {
  import opened GoStrings
  import opened Extrema

  datatype Pc =
    | AddTotal
    | AddCount
    | LoadMin
    | SwapMin(seen: int, version: nat)
    | LoadMax
    | SwapMax(seen: int, version: nat)
    | Done

  // minSwaps and maxSwaps count the successful swaps, minFails[i] and maxFails[i] the failed ones
  // of call i; a pending swap remembers how many had succeeded when it loaded.
  datatype State = State(
    total: int,
    count: int,
    min: int,
    max: int,
    pcs: seq<Pc>,
    minSwaps: nat,
    maxSwaps: nat,
    minFails: seq<nat>,
    maxFails: seq<nat>)

  function Step(lat: seq<int>, s: State, i: nat): State
    requires |lat| == |s.pcs| == |s.minFails| == |s.maxFails|
  {
    if i >= |lat| then s else
    match s.pcs[i]
    case AddTotal => s.(total := Wrap64(s.total + lat[i]), pcs := s.pcs[i := AddCount])
    case AddCount => s.(count := Wrap64(s.count + 1), pcs := s.pcs[i := LoadMin])
    case LoadMin =>
      if s.min != 0 && s.min <= lat[i] then s.(pcs := s.pcs[i := LoadMax])
      else s.(pcs := s.pcs[i := SwapMin(s.min, s.minSwaps)])
    case SwapMin(seen, _) =>
      if s.min == seen then s.(min := lat[i], minSwaps := s.minSwaps + 1, pcs := s.pcs[i := LoadMax])
      else s.(minFails := s.minFails[i := s.minFails[i] + 1], pcs := s.pcs[i := LoadMin])
    case LoadMax =>
      if s.max >= lat[i] then s.(pcs := s.pcs[i := Done])
      else s.(pcs := s.pcs[i := SwapMax(s.max, s.maxSwaps)])
    case SwapMax(seen, _) =>
      if s.max == seen then s.(max := lat[i], maxSwaps := s.maxSwaps + 1, pcs := s.pcs[i := Done])
      else s.(maxFails := s.maxFails[i := s.maxFails[i] + 1], pcs := s.pcs[i := LoadMax])
    case Done => s
  }

  function Start(n: nat): State {
    State(0, 0, 0, 0, seq(n, _ => AddTotal), 0, 0, seq(n, _ => 0), seq(n, _ => 0))
  }

  function Run(lat: seq<int>, schedule: seq<nat>): (s: State)
    ensures |s.pcs| == |s.minFails| == |s.maxFails| == |lat|
  {
    if schedule == [] then Start(|lat|)
    else Step(lat, Run(lat, schedule[..|schedule| - 1]), schedule[|schedule| - 1])
  }

  predicate AllPositive(lat: seq<int>) {
    forall i | 0 <= i < |lat| :: lat[i] > 0
  }

  // ---- Counting the calls that are past a point ----

  predicate Counted(pc: Pc) {
    !pc.AddTotal? && !pc.AddCount?
  }

  predicate PastMin(pc: Pc) {
    pc.LoadMax? || pc.SwapMax? || pc.Done?
  }

  predicate Finished(pc: Pc) {
    pc.Done?
  }

  function SumAdded(lat: seq<int>, pcs: seq<Pc>): int
    requires |lat| == |pcs|
  {
    if lat == [] then 0
    else SumAdded(lat[1..], pcs[1..]) + (if pcs[0].AddTotal? then 0 else lat[0])
  }

  function CountIf(pcs: seq<Pc>, p: Pc -> bool): (n: nat)
    ensures n <= |pcs|
    ensures (exists i | 0 <= i < |pcs| :: !p(pcs[i])) ==> n < |pcs|
    ensures (forall i | 0 <= i < |pcs| :: p(pcs[i])) ==> n == |pcs|
  {
    if pcs == [] then 0
    else
      var rest := CountIf(pcs[1..], p);
      assert forall i | 0 <= i < |pcs| :: i == 0 || pcs[i] == pcs[1..][i - 1];
      rest + (if p(pcs[0]) then 1 else 0)
  }

  lemma {:induction false} CountUpdate(pcs: seq<Pc>, p: Pc -> bool, i: nat, pc: Pc)
    requires i < |pcs|
    ensures CountIf(pcs[i := pc], p)
         == CountIf(pcs, p) - (if p(pcs[i]) then 1 else 0) + (if p(pc) then 1 else 0)
  {
    if i == 0 {
      assert pcs[0 := pc][1..] == pcs[1..];
    } else {
      assert pcs[i := pc][1..] == pcs[1..][i - 1 := pc];
      CountUpdate(pcs[1..], p, i - 1, pc);
    }
  }

  lemma {:induction false} SumUpdate(lat: seq<int>, pcs: seq<Pc>, i: nat, pc: Pc)
    requires i < |lat| == |pcs|
    ensures SumAdded(lat, pcs[i := pc])
         == SumAdded(lat, pcs) - (if pcs[i].AddTotal? then 0 else lat[i]) + (if pc.AddTotal? then 0 else lat[i])
  {
    if i == 0 {
      assert pcs[0 := pc][1..] == pcs[1..];
    } else {
      assert pcs[i := pc][1..] == pcs[1..][i - 1 := pc];
      SumUpdate(lat[1..], pcs[1..], i - 1, pc);
    }
  }

  lemma {:induction false} NothingAdded(lat: seq<int>, n: nat)
    requires |lat| == n
    ensures SumAdded(lat, seq(n, _ => AddTotal)) == 0
    ensures forall p: Pc -> bool | !p(AddTotal) :: CountIf(seq(n, _ => AddTotal), p) == 0
  {
    if n > 0 {
      assert seq(n, _ => AddTotal)[1..] == seq(n - 1, _ => AddTotal);
      NothingAdded(lat[1..], n - 1);
    }
  }

  // ---- Invariants of every schedule ----

  ghost predicate SumsOk(lat: seq<int>, s: State)
    requires |lat| == |s.pcs|
  {
    s.total == Wrap64(SumAdded(lat, s.pcs)) && s.count == Wrap64(CountIf(s.pcs, Counted))
  }

  // min is 0 or the least latency of the calls past their min loop.
  ghost predicate MinOk(lat: seq<int>, s: State)
    requires |lat| == |s.pcs|
  {
    && (s.min == 0 || exists i | 0 <= i < |lat| :: lat[i] == s.min)
    && (forall i | 0 <= i < |lat| && PastMin(s.pcs[i]) :: 0 < s.min <= lat[i])
    && 0 <= s.min
    && (forall i | 0 <= i < |lat| && s.pcs[i].SwapMin? :: s.pcs[i].seen == 0 || lat[i] < s.pcs[i].seen)
  }

  // max is 0 or the greatest latency of the calls past their max loop.
  ghost predicate MaxOk(lat: seq<int>, s: State)
    requires |lat| == |s.pcs|
  {
    && (s.max == 0 || exists i | 0 <= i < |lat| :: lat[i] == s.max)
    && (forall i | 0 <= i < |lat| && s.pcs[i].Done? :: lat[i] <= s.max)
    && 0 <= s.max
    && (forall i | 0 <= i < |lat| && s.pcs[i].SwapMax? :: s.pcs[i].seen < lat[i])
  }

  // A least latency other than 0 stays once its call is past the min loop, whatever the others are.
  ghost predicate LeastOk(lat: seq<int>, s: State)
    requires |lat| == |s.pcs|
  {
    && (s.min == 0 || s.min in lat)
    && (forall i | 0 <= i < |lat| && s.pcs[i].SwapMin? :: s.pcs[i].seen == 0 || lat[i] < s.pcs[i].seen)
    && (lat != [] && Least(lat) != 0 ==>
          forall i | 0 <= i < |lat| && PastMin(s.pcs[i]) && lat[i] == Least(lat) :: s.min == Least(lat))
  }

  // A swap fails only if another succeeded since the load, and only a call leaving its loop succeeds.
  ghost predicate CallOk(n: nat, s: State, i: nat)
    requires i < |s.pcs| == |s.minFails| == |s.maxFails|
  {
    && (s.pcs[i].SwapMin? ==> s.minFails[i] <= s.pcs[i].version <= s.minSwaps
                              && (s.pcs[i].version == s.minSwaps ==> s.pcs[i].seen == s.min))
    && (s.pcs[i].SwapMax? ==> s.maxFails[i] <= s.pcs[i].version <= s.maxSwaps
                              && (s.pcs[i].version == s.maxSwaps ==> s.pcs[i].seen == s.max))
    && (!PastMin(s.pcs[i]) ==> s.minFails[i] <= s.minSwaps)
    && (!s.pcs[i].Done? ==> s.maxFails[i] <= s.maxSwaps)
    && s.minFails[i] < n && s.maxFails[i] < n
  }

  ghost predicate RetriesOk(lat: seq<int>, s: State)
    requires |lat| == |s.pcs| == |s.minFails| == |s.maxFails|
  {
    && s.minSwaps <= CountIf(s.pcs, PastMin)
    && s.maxSwaps <= CountIf(s.pcs, Finished)
    && forall i | 0 <= i < |lat| :: CallOk(|lat|, s, i)
  }

  lemma AddStep(lat: seq<int>, s: State, i: nat)
    requires i < |lat| == |s.pcs| == |s.minFails| == |s.maxFails| && SumsOk(lat, s)
    requires s.pcs[i].AddTotal? || s.pcs[i].AddCount?
    ensures SumsOk(lat, Step(lat, s, i))
  {
    var pc := if s.pcs[i].AddTotal? then AddCount else LoadMin;
    assert Step(lat, s, i).pcs == s.pcs[i := pc];
    SumUpdate(lat, s.pcs, i, pc);
    CountUpdate(s.pcs, Counted, i, pc);
    WrapAdd(SumAdded(lat, s.pcs), lat[i]);
    WrapAdd(CountIf(s.pcs, Counted), 1);
  }

  lemma SumsStep(lat: seq<int>, s: State, i: nat)
    requires i < |lat| == |s.pcs| == |s.minFails| == |s.maxFails| && SumsOk(lat, s)
    ensures SumsOk(lat, Step(lat, s, i))
  {
    if s.pcs[i].AddTotal? || s.pcs[i].AddCount? {
      AddStep(lat, s, i);
    } else {
      var s' := Step(lat, s, i);
      assert s'.pcs == s.pcs[i := s'.pcs[i]];
      SumUpdate(lat, s.pcs, i, s'.pcs[i]);
      CountUpdate(s.pcs, Counted, i, s'.pcs[i]);
    }
  }

  lemma MinStep(lat: seq<int>, s: State, i: nat)
    requires AllPositive(lat)
    requires i < |lat| == |s.pcs| == |s.minFails| == |s.maxFails| && MinOk(lat, s)
    ensures MinOk(lat, Step(lat, s, i))
  {
  }

  lemma MaxStep(lat: seq<int>, s: State, i: nat)
    requires i < |lat| == |s.pcs| == |s.minFails| == |s.maxFails| && MaxOk(lat, s)
    ensures MaxOk(lat, Step(lat, s, i))
  {
  }

  lemma LeastStep(lat: seq<int>, s: State, i: nat)
    requires i < |lat| == |s.pcs| == |s.minFails| == |s.maxFails| && LeastOk(lat, s)
    ensures LeastOk(lat, Step(lat, s, i))
  {
    assert lat[i] in lat && Least(lat) <= lat[i];
  }

  lemma SwapsStep(lat: seq<int>, s: State, i: nat)
    requires i < |lat| == |s.pcs| == |s.minFails| == |s.maxFails| && RetriesOk(lat, s)
    ensures var s' := Step(lat, s, i);
            s'.minSwaps <= CountIf(s'.pcs, PastMin) && s'.maxSwaps <= CountIf(s'.pcs, Finished)
  {
    var s' := Step(lat, s, i);
    assert s'.pcs == s.pcs[i := s'.pcs[i]];
    CountUpdate(s.pcs, PastMin, i, s'.pcs[i]);
    CountUpdate(s.pcs, Finished, i, s'.pcs[i]);
  }

  lemma MoverOk(lat: seq<int>, s: State, i: nat)
    requires i < |lat| == |s.pcs| == |s.minFails| == |s.maxFails| && CallOk(|lat|, s, i)
    requires !PastMin(s.pcs[i]) ==> s.minSwaps < |lat|
    requires !Finished(s.pcs[i]) ==> s.maxSwaps < |lat|
    ensures CallOk(|lat|, Step(lat, s, i), i)
  {
  }

  lemma OtherOk(lat: seq<int>, s: State, i: nat, j: nat)
    requires i < |lat| == |s.pcs| == |s.minFails| == |s.maxFails|
    requires j < |lat| && j != i && CallOk(|lat|, s, j)
    ensures CallOk(|lat|, Step(lat, s, i), j)
  {
  }

  lemma RetriesStep(lat: seq<int>, s: State, i: nat)
    requires i < |lat| == |s.pcs| == |s.minFails| == |s.maxFails| && RetriesOk(lat, s)
    ensures RetriesOk(lat, Step(lat, s, i))
  {
    SwapsStep(lat, s, i);
    forall j | 0 <= j < |lat|
      ensures CallOk(|lat|, Step(lat, s, i), j)
    {
      if j == i {
        MoverOk(lat, s, i);
      } else {
        OtherOk(lat, s, i, j);
      }
    }
  }

  // The most own steps call i can have taken, by its point and failures.
  function MostSteps(s: State, i: nat): nat
    requires i < |s.pcs| == |s.minFails| == |s.maxFails|
  {
    var inMin := 2 + 2 * s.minFails[i];
    var inMax := inMin + 2 + 2 * s.maxFails[i];
    match s.pcs[i]
    case AddTotal => 0
    case AddCount => 1
    case LoadMin => inMin
    case SwapMin(_, _) => inMin + 1
    case LoadMax => inMax
    case SwapMax(_, _) => inMax + 1
    case Done => inMax + 2
  }

  function Turns(schedule: seq<nat>, i: nat): nat {
    if schedule == [] then 0
    else Turns(schedule[..|schedule| - 1], i) + (if schedule[|schedule| - 1] == i then 1 else 0)
  }

  lemma {:induction false} RunInv(lat: seq<int>, schedule: seq<nat>)
    ensures SumsOk(lat, Run(lat, schedule)) && RetriesOk(lat, Run(lat, schedule))
    ensures MaxOk(lat, Run(lat, schedule)) && LeastOk(lat, Run(lat, schedule))
    ensures AllPositive(lat) ==> MinOk(lat, Run(lat, schedule))
  {
    if schedule == [] {
      NothingAdded(lat, |lat|);
    } else {
      var s, i := Run(lat, schedule[..|schedule| - 1]), schedule[|schedule| - 1];
      RunInv(lat, schedule[..|schedule| - 1]);
      if i < |lat| {
        SumsStep(lat, s, i);
        RetriesStep(lat, s, i);
        MaxStep(lat, s, i);
        LeastStep(lat, s, i);
        if AllPositive(lat) {
          MinStep(lat, s, i);
        }
      }
    }
  }

  // ---- What the loops guarantee ----

  lemma MaxMoves(lat: seq<int>, s: State, i: nat)
    requires |lat| == |s.pcs| == |s.minFails| == |s.maxFails| && MaxOk(lat, s)
    ensures var s' := Step(lat, s, i); s.max <= s'.max && (s'.maxSwaps > s.maxSwaps ==> s'.max > s.max)
  {
  }

  lemma MinMoves(lat: seq<int>, s: State, i: nat)
    requires |lat| == |s.pcs| == |s.minFails| == |s.maxFails| && AllPositive(lat) && MinOk(lat, s)
    ensures var s' := Step(lat, s, i);
            && (s.min != 0 ==> 0 < s'.min <= s.min)
            && (s'.minSwaps > s.minSwaps ==> s.min == 0 || s'.min < s.min)
  {
  }

  // One step: max never falls, and min of positive latencies, once set, never rises and is never unset.
  lemma StepMonotone(lat: seq<int>, schedule: seq<nat>, i: nat)
    ensures var (s, s') := (Run(lat, schedule), Run(lat, schedule + [i]));
            && s.max <= s'.max && (s'.maxSwaps > s.maxSwaps ==> s'.max > s.max)
            && (AllPositive(lat) ==>
                  && (s.min != 0 ==> 0 < s'.min <= s.min)
                  && (s'.minSwaps > s.minSwaps ==> s.min == 0 || s'.min < s.min))
  {
    RunOne(lat, schedule, i);
    RunInv(lat, schedule);
    MaxMoves(lat, Run(lat, schedule), i);
    if AllPositive(lat) {
      MinMoves(lat, Run(lat, schedule), i);
    }
  }

  // Over any stretch of a run.
  lemma {:induction false} RunMonotone(lat: seq<int>, schedule: seq<nat>, more: seq<nat>)
    ensures var (s, s') := (Run(lat, schedule), Run(lat, schedule + more));
            s.max <= s'.max && (AllPositive(lat) && s.min != 0 ==> 0 < s'.min <= s.min)
    decreases |more|
  {
    if more == [] {
      assert schedule + more == schedule;
      RunInv(lat, schedule);
    } else {
      var front, i := schedule + more[..|more| - 1], more[|more| - 1];
      assert schedule + more == front + [i];
      RunMonotone(lat, schedule, more[..|more| - 1]);
      StepMonotone(lat, front, i);
    }
  }

  function Sum(lat: seq<int>): int {
    if lat == [] then 0 else Sum(lat[1..]) + lat[0]
  }

  lemma {:induction false} AllAdded(lat: seq<int>, pcs: seq<Pc>)
    requires |lat| == |pcs| && forall i | 0 <= i < |pcs| :: pcs[i].Done?
    ensures SumAdded(lat, pcs) == Sum(lat)
  {
    if lat != [] {
      AllAdded(lat[1..], pcs[1..]);
    }
  }

  predicate AllDone(lat: seq<int>, schedule: seq<nat>) {
    forall i | 0 <= i < |lat| :: Run(lat, schedule).pcs[i].Done?
  }

  lemma DoneMax(lat: seq<int>, s: State)
    requires lat != [] && |lat| == |s.pcs| && MaxOk(lat, s) && forall i | 0 <= i < |s.pcs| :: s.pcs[i].Done?
    ensures s.max == if Greatest(lat) >= 0 then Greatest(lat) else 0
  {
    var g :| 0 <= g < |lat| && lat[g] == Greatest(lat);
    assert s.pcs[g].Done?;
    if s.max != 0 {
      var i :| 0 <= i < |lat| && lat[i] == s.max;
      assert lat[i] in lat;
    }
  }

  lemma DoneLeast(lat: seq<int>, s: State)
    requires lat != [] && |lat| == |s.pcs| && LeastOk(lat, s) && forall i | 0 <= i < |s.pcs| :: s.pcs[i].Done?
    ensures s.min in lat && (Least(lat) != 0 ==> s.min == Least(lat))
  {
    var m :| 0 <= m < |lat| && lat[m] == Least(lat);
    assert PastMin(s.pcs[m]);
  }

  // When every call has finished, no update is lost, whatever the latencies: total and count are those
  // of all of them, max is the greatest (or 0 if that is negative), and min is the least, except that
  // if the least is 0 it can be any of them.
  lemma QuiescentExact(lat: seq<int>, schedule: seq<nat>)
    requires AllDone(lat, schedule)
    ensures var s := Run(lat, schedule);
            && s.total == Wrap64(Sum(lat)) && s.count == Wrap64(|lat|)
            && (lat != [] ==>
                  && s.max == (if Greatest(lat) >= 0 then Greatest(lat) else 0)
                  && s.min in lat && (Least(lat) != 0 ==> s.min == Least(lat)))
  {
    RunInv(lat, schedule);
    var s := Run(lat, schedule);
    assert forall i | 0 <= i < |s.pcs| :: s.pcs[i] == Run(lat, schedule).pcs[i];
    AllAdded(lat, s.pcs);
    if lat != [] {
      DoneMax(lat, s);
      DoneLeast(lat, s);
    }
  }

  // ---- Calls that run one after another ----

  function Turn(i: nat): seq<nat> {
    [i, i, i, i, i, i]
  }

  function Serial(order: seq<nat>): seq<nat> {
    if order == [] then [] else Serial(order[..|order| - 1]) + Turn(order[|order| - 1])
  }

  lemma RunOne(lat: seq<int>, schedule: seq<nat>, i: nat)
    ensures Run(lat, schedule + [i]) == Step(lat, Run(lat, schedule), i)
  {
    assert (schedule + [i])[..|schedule|] == schedule;
  }

  lemma RunThree(lat: seq<int>, schedule: seq<nat>, i: nat)
    ensures Run(lat, schedule + [i, i, i]) == Step(lat, Step(lat, Step(lat, Run(lat, schedule), i), i), i)
  {
    RunOne(lat, schedule, i);
    RunOne(lat, schedule + [i], i);
    RunOne(lat, schedule + [i] + [i], i);
    assert schedule + [i, i, i] == schedule + [i] + [i] + [i];
  }

  // A whole call left alone does one step of the folds.
  lemma TurnRuns(lat: seq<int>, schedule: seq<nat>, i: nat)
    requires i < |lat| && Run(lat, schedule).pcs[i].AddTotal?
    ensures var (s, s') := (Run(lat, schedule), Run(lat, schedule + Turn(i)));
            s'.pcs == s.pcs[i := Done] && s'.min == NextMin(s.min, lat[i]) && s'.max == NextMax(s.max, lat[i])
  {
    var s := Run(lat, schedule);
    var middle := Run(lat, schedule + [i, i, i]);
    RunThree(lat, schedule, i);
    RunThree(lat, schedule + [i, i, i], i);
    assert schedule + Turn(i) == schedule + [i, i, i] + [i, i, i];
    assert middle.pcs == s.pcs[i := middle.pcs[i]];
    assert middle.min == s.min && middle.max == s.max;
    assert middle.pcs[i] == if s.min != 0 && s.min <= lat[i] then LoadMax else SwapMin(s.min, s.minSwaps);
  }

  predicate Below(order: seq<nat>, n: nat) {
    forall k | 0 <= k < |order| :: order[k] < n
  }

  // The latencies of the calls, in their order.
  function Picked(lat: seq<int>, order: seq<nat>): seq<int>
    requires Below(order, |lat|)
  {
    seq(|order|, k requires 0 <= k < |order| => lat[order[k]])
  }

  predicate Distinct(order: seq<nat>) {
    forall i, j | 0 <= i < j < |order| :: order[i] != order[j]
  }

  // So the loops refine the sequential folds.
  lemma {:induction false} SerialRunFolds(lat: seq<int>, order: seq<nat>)
    requires Distinct(order) && Below(order, |lat|)
    ensures var s := Run(lat, Serial(order));
            && (forall i | 0 <= i < |lat| :: s.pcs[i] == if i in order then Done else AddTotal)
            && s.min == FoldMin(Picked(lat, order)) && s.max == FoldMax(Picked(lat, order))
  {
    if order != [] {
      var front, last := order[..|order| - 1], order[|order| - 1];
      assert order == front + [last] && last !in front;
      SerialRunFolds(lat, front);
      TurnRuns(lat, Serial(front), last);
      var d := Picked(lat, order);
      assert d[..|d| - 1] == Picked(lat, front) && d[|d| - 1] == lat[last];
    }
  }

  // The numbers below n that are not to be skipped, in order.
  function Others(n: nat, skip: set<nat>): (order: seq<nat>)
    ensures Below(order, n) && Distinct(order)
    ensures forall i: nat :: i in order <==> i < n && i !in skip
  {
    if n == 0 then []
    else
      var rest := Others(n - 1, skip);
      if n - 1 in skip then rest else rest + [n - 1]
  }

  lemma {:induction false} FoldNotNegative(d: seq<int>)
    requires forall i | 0 <= i < |d| :: d[i] >= 0
    ensures FoldMin(d) >= 0
  {
    if d != [] {
      FoldNotNegative(d[..|d| - 1]);
    }
  }

  // If the least latency is 0, any latency v can be the one left as minimum: its call runs last, after
  // the one that recorded the 0.
  lemma AnyMinAttained(lat: seq<int>, v: int) returns (schedule: seq<nat>)
    requires lat != [] && Least(lat) == 0 && v in lat
    ensures AllDone(lat, schedule) && Run(lat, schedule).min == v
  {
    var z: nat :| z < |lat| && lat[z] == 0;
    var i: nat :| i < |lat| && lat[i] == v;
    forall j | 0 <= j < |lat|
      ensures lat[j] >= 0
    {
      assert lat[j] in lat;
    }
    if v == 0 {
      schedule := LastOne(lat, Others(|lat|, {z}), z);
    } else {
      var rest := Others(|lat|, {z, i});
      FoldNotNegative(Picked(lat, rest));
      FoldLast(lat, rest, z);
      schedule := LastOne(lat, rest + [z], i);
    }
  }

  lemma LastOne(lat: seq<int>, rest: seq<nat>, i: nat) returns (schedule: seq<nat>)
    requires i < |lat| && Below(rest, |lat|) && Distinct(rest)
    requires forall j: nat :: j in rest <==> j < |lat| && j != i
    requires forall j | 0 <= j < |lat| :: lat[j] >= 0
    requires lat[i] == 0 || FoldMin(Picked(lat, rest)) == 0
    ensures AllDone(lat, schedule) && Run(lat, schedule).min == lat[i]
  {
    schedule := Serial(rest + [i]);
    assert forall k | 0 <= k < |rest| :: rest[k] in rest;
    SerialRunFolds(lat, rest + [i]);
    FoldNotNegative(Picked(lat, rest));
    FoldLast(lat, rest, i);
    forall j | 0 <= j < |lat|
      ensures Run(lat, schedule).pcs[j].Done?
    {
      assert j in rest + [i];
    }
  }

  lemma FoldLast(lat: seq<int>, order: seq<nat>, i: nat)
    requires i < |lat| && Below(order, |lat|)
    ensures FoldMin(Picked(lat, order + [i])) == NextMin(FoldMin(Picked(lat, order)), lat[i])
  {
    var d := Picked(lat, order + [i]);
    assert d[..|d| - 1] == Picked(lat, order);
  }

  // What the minimum can be when all calls have finished: the least latency, or, if that is 0, any of them.
  lemma QuiescentMinIff(lat: seq<int>, v: int)
    requires lat != []
    ensures (exists schedule :: AllDone(lat, schedule) && Run(lat, schedule).min == v)
       <==> if Least(lat) != 0 then v == Least(lat) else v in lat
  {
    if schedule :| AllDone(lat, schedule) && Run(lat, schedule).min == v {
      QuiescentExact(lat, schedule);
    }
    if Least(lat) != 0 {
      var schedule := AllInOrder(lat);
      QuiescentExact(lat, schedule);
    } else if v in lat {
      var schedule := AnyMinAttained(lat, v);
    }
  }

  lemma AllInOrder(lat: seq<int>) returns (schedule: seq<nat>)
    ensures AllDone(lat, schedule)
  {
    var order := Others(|lat|, {});
    schedule := Serial(order);
    SerialRunFolds(lat, order);
  }

  // No call retries a swap as often as there are calls, on any schedule and any latencies.
  lemma RetriesBounded(lat: seq<int>, schedule: seq<nat>, i: nat)
    requires i < |lat|
    ensures Run(lat, schedule).minFails[i] < |lat| && Run(lat, schedule).maxFails[i] < |lat|
  {
    RunInv(lat, schedule);
    assert CallOk(|lat|, Run(lat, schedule), i);
  }

  lemma {:induction false} TurnsBounded(lat: seq<int>, schedule: seq<nat>, i: nat)
    requires i < |lat|
    ensures var s := Run(lat, schedule);
            !s.pcs[i].Done? ==> Turns(schedule, i) <= MostSteps(s, i)
  {
    if schedule != [] {
      TurnsBounded(lat, schedule[..|schedule| - 1], i);
    }
  }

  // So a call that has had 4n + 2 turns among n calls has finished, however the others interleave.
  lemma EveryCallFinishes(lat: seq<int>, schedule: seq<nat>, i: nat)
    requires i < |lat|
    requires Turns(schedule, i) >= 4 * |lat| + 2
    ensures Run(lat, schedule).pcs[i].Done?
  {
    RetriesBounded(lat, schedule, i);
    TurnsBounded(lat, schedule, i);
  }
}
