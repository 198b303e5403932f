// pkg/dragonfly/errors.go and the retry loop of pkg/dragonfly/utils.go.
module Retry {
  import opened Wrappers
  import opened GoStrings

  datatype Kind = ConnectionError | TimeoutError | AuthError | ClusterError | ProtocolError | MetricsError | HealthCheckError

  // An error and what it unwraps to: nothing, one error, or several. The predicates look for pointers, so a typed error stored by
  // value is never recognised.
  datatype Err =
    | Plain(message: string)
    | Typed(kind: Kind, byPointer: bool, message: string, cause: Option<Err>)
    | Wrapped(context: string, inner: Err)
    | Joined(inners: seq<Err>)

  // ---- Classification ----

  // errors.As for a pointer to the given kind.
  predicate Is(err: Err, kind: Kind) {
    match err
    case Plain(_) => false
    case Typed(k, byPointer, _, cause) => (byPointer && k == kind) || (cause.Some? && Is(cause.value, kind))
    case Wrapped(_, inner) => Is(inner, kind)
    case Joined(inners) => exists i | 0 <= i < |inners| :: Is(inners[i], kind)
  }

  // The kinds found by pointer anywhere along the unwrapping chain or tree.
  function Kinds(err: Err): set<Kind> {
    match err
    case Plain(_) => {}
    case Typed(k, byPointer, _, cause) =>
      (if byPointer then {k} else {}) + (if cause.Some? then Kinds(cause.value) else {})
    case Wrapped(_, inner) => Kinds(inner)
    case Joined(inners) => set i, k | 0 <= i < |inners| && k in Kinds(inners[i]) :: k
  }

  predicate IsTemporary(err: Err) {
    Is(err, ConnectionError) || Is(err, TimeoutError) || Is(err, ClusterError)
  }

  predicate ShouldRetry(err: Option<Err>, attempt: int, maxRetries: int) {
    if err.None? then false
    else if attempt >= maxRetries then false
    else if Is(err.value, AuthError) then false
    else if Is(err.value, ProtocolError) then false
    else IsTemporary(err.value)
  }

  function WrapError(err: Option<Err>, context: string): Option<Err> {
    if err.None? then None else Some(Wrapped(context, err.value))
  }

  lemma {:induction false} IsReadsTheChain(err: Err, kind: Kind)
    ensures Is(err, kind) <==> kind in Kinds(err)
  {
    match err
    case Plain(_) =>
    case Typed(_, _, _, cause) =>
      if cause.Some? {
        IsReadsTheChain(cause.value, kind);
      }
    case Wrapped(_, inner) => IsReadsTheChain(inner, kind);
    case Joined(inners) =>
      forall i | 0 <= i < |inners|
        ensures Is(inners[i], kind) <==> kind in Kinds(inners[i])
      {
        IsReadsTheChain(inners[i], kind);
      }
  }

  // What an error unwraps to.
  function Causes(err: Err): seq<Err> {
    match err
    case Plain(_) => []
    case Typed(_, _, _, cause) => if cause.Some? then [cause.value] else []
    case Wrapped(_, inner) => [inner]
    case Joined(inners) => inners
  }

  // The error reached by unwrapping step by step, choosing one cause each time.
  function Reached(err: Err, path: seq<nat>): Option<Err>
    decreases |path|
  {
    if path == [] then Some(err)
    else if path[0] < |Causes(err)| then Reached(Causes(err)[path[0]], path[1..]) else None
  }

  ghost predicate Finds(err: Err, path: seq<nat>, kind: Kind) {
    var e := Reached(err, path);
    e.Some? && e.value.Typed? && e.value.byPointer && e.value.kind == kind
  }

  // A predicate holds exactly if unwrapping can reach a pointer to an error of its kind.
  lemma {:induction false} IsFinds(err: Err, kind: Kind)
    ensures Is(err, kind) <==> exists path :: Finds(err, path, kind)
    decreases err
  {
    var causes := Causes(err);
    forall i | 0 <= i < |causes|
      ensures Is(causes[i], kind) <==> exists path :: Finds(causes[i], path, kind)
      ensures Is(causes[i], kind) ==> exists path :: Finds(err, path, kind)
    {
      CauseSmaller(err, i);
      IsFinds(causes[i], kind);
      if path :| Finds(causes[i], path, kind) {
        assert ([i] + path)[1..] == path;
        assert Finds(err, [i] + path, kind);
      }
    }
    if path :| Finds(err, path, kind) {
      if path != [] {
        assert Finds(causes[path[0]], path[1..], kind);
      }
      OwnOrCause(err, kind);
    }
    OwnOrCause(err, kind);
    if err.Typed? && err.byPointer && err.kind == kind {
      assert Finds(err, [], kind);
    }
  }

  lemma CauseSmaller(err: Err, i: nat)
    requires i < |Causes(err)|
    ensures Causes(err)[i] < err
  {
  }

  lemma OwnOrCause(err: Err, kind: Kind)
    ensures Is(err, kind) <==>
      || (err.Typed? && err.byPointer && err.kind == kind)
      || exists i | 0 <= i < |Causes(err)| :: Is(Causes(err)[i], kind)
  {
    match err
    case Typed(_, _, _, cause) =>
      if cause.Some? {
        assert Causes(err)[0] == cause.value;
      }
    case Wrapped(_, inner) => assert Causes(err)[0] == inner;
    case Joined(inners) => assert forall i | 0 <= i < |inners| :: Causes(err)[i] == inners[i];
    case Plain(_) =>
  }

  // Retried: an error with attempts left, some temporary kind on its chain, and neither an
  // authentication nor a protocol error anywhere on it.
  lemma ShouldRetryReadsTheChain(err: Option<Err>, attempt: int, maxRetries: int)
    ensures ShouldRetry(err, attempt, maxRetries) <==>
      && err.Some? && attempt < maxRetries
      && Kinds(err.value) !! {AuthError, ProtocolError}
      && !(Kinds(err.value) !! {ConnectionError, TimeoutError, ClusterError})
  {
    if err.Some? {
      forall k
        ensures Is(err.value, k) <==> k in Kinds(err.value)
      {
        IsReadsTheChain(err.value, k);
      }
      assert Kinds(err.value) !! {ConnectionError, TimeoutError, ClusterError} <==> !IsTemporary(err.value);
    }
  }

  function WrapAll(err: Option<Err>, contexts: seq<string>): Option<Err> {
    if contexts == [] then err else WrapError(WrapAll(err, contexts[1..]), contexts[0])
  }

  // Adding context, any number of times, never changes the decision.
  lemma {:induction false} WrappingKeepsRetry(err: Option<Err>, contexts: seq<string>, attempt: int, maxRetries: int)
    ensures WrapAll(err, contexts).None? <==> err.None?
    ensures err.Some? ==> Kinds(WrapAll(err, contexts).value) == Kinds(err.value)
    ensures ShouldRetry(WrapAll(err, contexts), attempt, maxRetries) == ShouldRetry(err, attempt, maxRetries)
  {
    if contexts != [] {
      WrappingKeepsRetry(err, contexts[1..], attempt, maxRetries);
    }
    ShouldRetryReadsTheChain(err, attempt, maxRetries);
    ShouldRetryReadsTheChain(WrapAll(err, contexts), attempt, maxRetries);
  }

  // The message: each context, a colon and a blank before what it wraps.
  function Message(err: Err): string {
    match err
    case Plain(message) => message
    case Typed(_, _, message, _) => message
    case Wrapped(context, inner) => context + ": " + Message(inner)
    case Joined(inners) => Lines(inners)
  }

  function Lines(errs: seq<Err>): string {
    if errs == [] then "" else if |errs| == 1 then Message(errs[0]) else Message(errs[0]) + "\n" + Lines(errs[1..])
  }

  // Every wrapping adds its context in front of the message, the first of the list outermost.
  lemma {:induction false} WrappingAddsContexts(err: Err, contexts: seq<string>)
    ensures WrapAll(Some(err), contexts).Some?
    ensures Message(WrapAll(Some(err), contexts).value) == Join(contexts + [Message(err)], ": ")
  {
    if contexts == [] {
      assert contexts + [Message(err)] == [Message(err)];
    } else {
      WrappingAddsContexts(err, contexts[1..]);
      assert (contexts + [Message(err)])[1..] == contexts[1..] + [Message(err)];
    }
  }

  // ---- The loop ----

  datatype RetryError = Last(err: Err) | MaxRetriesExceeded(cause: Option<Err>)

  function Pow2(n: nat): nat {
    if n == 0 then 1 else 2 * Pow2(n - 1)
  }

  // The delay after k doublings in 64 bits.
  function Delay(initialDelay: int, k: nat): int {
    if k == 0 then initialDelay else Wrap64(Delay(initialDelay, k - 1) * 2)
  }

  // Sleeping for a negative time is not sleeping.
  function Sleep(d: int): int {
    if d > 0 then d else 0
  }

  // Total sleep before the n-th call, counting from 1.
  function Slept(initialDelay: int, n: nat): int {
    if n <= 1 then 0 else Slept(initialDelay, n - 1) + Sleep(Delay(initialDelay, n - 2))
  }

  lemma WrapDouble(a: int)
    ensures Wrap64(Wrap64(a) * 2) == Wrap64(a * 2)
  {
    WrapAdd(a, Wrap64(a));
    WrapAdd(a, a);
  }

  // The delay after k doublings with unbounded integers.
  function Doubled(initialDelay: int, k: nat): int {
    if k == 0 then initialDelay else 2 * Doubled(initialDelay, k - 1)
  }

  lemma {:induction false} DoubledIs(initialDelay: int, k: nat)
    ensures Doubled(initialDelay, k) == initialDelay * Pow2(k)
  {
    if k > 0 {
      DoubledIs(initialDelay, k - 1);
      assert initialDelay * (2 * Pow2(k - 1)) == 2 * (initialDelay * Pow2(k - 1));
    }
  }

  lemma {:induction false} DelayIs(initialDelay: int, k: nat)
    requires IsInt64(initialDelay)
    ensures Delay(initialDelay, k) == Wrap64(Doubled(initialDelay, k))
  {
    if k > 0 {
      DelayIs(initialDelay, k - 1);
      WrapDouble(Doubled(initialDelay, k - 1));
    }
  }

  // fn(k) is the outcome of the k-th call. With maxRetries >= 0 the last return is unreachable: the
  // loop ends at the first call that succeeds or may not be retried, with that call's own outcome.
  method RetryWithBackoff(fn: nat -> Option<Err>, maxRetries: int, initialDelay: int)
    returns (result: Option<RetryError>, calls: nat, slept: int)
    requires IsInt64(maxRetries) && IsInt64(initialDelay)
    ensures maxRetries < 0 ==> calls == 0 && slept == 0 && result == Some(MaxRetriesExceeded(None))
    ensures maxRetries >= 0 ==>
      && 1 <= calls <= maxRetries + 1
      && (forall k: nat | k < calls - 1 :: ShouldRetry(fn(k), k, maxRetries))
      && !ShouldRetry(fn(calls - 1), calls - 1, maxRetries)
      && result == (if fn(calls - 1).None? then None else Some(Last(fn(calls - 1).value)))
      && slept == Slept(initialDelay, calls)
  {
    var delay := initialDelay;
    var lastErr: Option<Err> := None;
    calls, slept := 0, 0;
    var attempt := 0;
    while attempt <= maxRetries
      invariant 0 <= attempt && (maxRetries >= 0 ==> attempt <= maxRetries) && calls == attempt
      invariant attempt > 0 ==> maxRetries >= 0
      invariant forall k: nat | k < calls :: ShouldRetry(fn(k), k, maxRetries)
      invariant slept == Slept(initialDelay, calls)
      invariant delay == Delay(initialDelay, if attempt == 0 then 0 else attempt - 1)
      invariant attempt == 0 ==> lastErr.None?
      decreases maxRetries - attempt
    {
      if attempt > 0 {
        slept := slept + Sleep(delay);
        delay := Wrap64(delay * 2);
      }
      var err := fn(attempt);
      calls := calls + 1;
      if err.Some? {
        lastErr := err;
        if !ShouldRetry(err, attempt, maxRetries) {
          return Some(Last(err.value)), calls, slept;
        }
        attempt := attempt + 1;
        continue;
      }
      return None, calls, slept;
    }
    result := Some(MaxRetriesExceeded(lastErr));
  }

  lemma {:induction false} SleptDoubled(initialDelay: nat, n: nat)
    requires n >= 1 && IsInt64(initialDelay)
    ensures Slept(initialDelay, n) <= Doubled(initialDelay, n - 1) - initialDelay
    ensures Slept(initialDelay, n) == Doubled(initialDelay, n - 1) - initialDelay
       <==> n == 1 || Doubled(initialDelay, n - 2) <= MAX_INT64
    ensures 0 <= Doubled(initialDelay, n - 1)
  {
    if n > 1 {
      SleptDoubled(initialDelay, n - 1);
      DelayIs(initialDelay, n - 2);
      WrapNotAbove(Doubled(initialDelay, n - 2));
    }
  }

  // The sleeps before n calls add up to initialDelay * (2^(n-1) - 1) exactly when there is only one call,
  // or the delay is not negative and the last of them has not overflowed.
  lemma SleptIff(initialDelay: int, n: nat)
    requires n >= 1 && IsInt64(initialDelay)
    ensures Slept(initialDelay, n) == initialDelay * (Pow2(n - 1) - 1)
       <==> n == 1 || (initialDelay >= 0 && initialDelay * Pow2(n - 2) <= MAX_INT64)
  {
    if n > 1 && initialDelay < 0 {
      NeverNegative(initialDelay, n);
      Pow2Positive(n - 2);
      NegativeProduct(initialDelay, Pow2(n - 1) - 1);
    } else if n > 1 {
      SleptDoubled(initialDelay, n);
      DoubledIs(initialDelay, n - 2);
      DoubledLess(initialDelay, n - 1);
    } else {
      assert Pow2(n - 1) - 1 == 0;
    }
  }

  lemma DoubledLess(initialDelay: int, k: nat)
    ensures initialDelay * (Pow2(k) - 1) == Doubled(initialDelay, k) - initialDelay
  {
    DoubledIs(initialDelay, k);
  }

  // In general the sleep before the next call is the delay doubled so often in 64 bits, if that is positive.
  lemma SleptNext(initialDelay: int, n: nat)
    requires n >= 1 && IsInt64(initialDelay)
    ensures var delay := Wrap64(initialDelay * Pow2(n - 1));
            Slept(initialDelay, n + 1) == Slept(initialDelay, n) + (if delay > 0 then delay else 0)
    ensures Slept(initialDelay, 1) == 0
  {
    DelayIs(initialDelay, n - 1);
    DoubledIs(initialDelay, n - 1);
  }

  lemma {:induction false} NeverNegative(initialDelay: int, n: nat)
    ensures Slept(initialDelay, n) >= 0
  {
    if n > 1 {
      NeverNegative(initialDelay, n - 1);
    }
  }

  lemma {:induction false} Pow2Positive(n: nat)
    ensures Pow2(n) >= 1
  {
    if n > 0 {
      Pow2Positive(n - 1);
    }
  }

  lemma NegativeProduct(a: int, b: int)
    requires a < 0 < b
    ensures a * b < 0
  {
    assert (-a) * b > 0;
  }

  lemma WrapNotAbove(d: nat)
    ensures Wrap64(d) <= d && (Wrap64(d) == d <==> d <= MAX_INT64)
  {
  }

  // ---- Unit scaling ----

  function Pow1024(n: nat): nat {
    if n == 0 then 1 else 1024 * Pow1024(n - 1)
  }

  const UNITS := "KMGTPE"

  // What is printed: a number of bytes, or a number of units with the unit's letter.
  datatype Size = Bytes(bytes: int) | Scaled(value: real, unit: char)

  // From one unit up, the largest unit not above the size is used; for every 64-bit size its index is
  // in bounds and the divisor does not overflow.
  method FormatBytes(bytes: int) returns (size: Size)
    requires IsInt64(bytes)
    ensures bytes < 1024 <==> size.Bytes?
    ensures size.Bytes? ==> size.bytes == bytes
    ensures size.Scaled? ==> 1.0 <= size.value < 1024.0
    ensures size.Scaled? ==> exists exp: nat ::
      exp < |UNITS| && size.unit == UNITS[exp] && IsInt64(Pow1024(exp + 1)) && size.value * Pow1024(exp + 1) as real == bytes as real
  {
    if bytes < 1024 {
      return Bytes(bytes);
    }
    var exp, div := 0, 1024;
    var n := bytes / 1024;
    while n >= 1024
      invariant exp >= 0 && div == Pow1024(exp + 1)
      invariant 1 <= n && n * div <= bytes < (n + 1) * div
      decreases n
    {
      ScaleStep(bytes, n, div);
      div := div * 1024;
      exp := exp + 1;
      n := n / 1024;
    }
    LastScale(bytes, n, div);
    SixUnitsSuffice(exp, bytes);
    Quotient(bytes, div);
    size := Scaled(bytes as real / div as real, UNITS[exp]);
  }

  lemma Quotient(bytes: int, div: int)
    requires 0 < div <= bytes < 1024 * div
    ensures var q := bytes as real / div as real; 1.0 <= q < 1024.0 && q * div as real == bytes as real
  {
    var q := bytes as real / div as real;
    assert q * div as real == bytes as real;
    RealOrdered(q, 1.0, div as real);
    RealOrdered(q, 1024.0, div as real);
  }

  lemma RealOrdered(a: real, b: real, n: real)
    requires n > 0.0
    ensures a < b <==> a * n < b * n
  {
    if a < b {
      assert b * n - a * n == (b - a) * n > 0.0;
    } else {
      assert a * n - b * n == (a - b) * n >= 0.0;
    }
  }

  lemma MulLe(a: nat, b: nat, n: nat)
    requires a <= b
    ensures a * n <= b * n
  {
    assert b * n == a * n + (b - a) * n && 0 <= (b - a) * n;
  }

  lemma ScaleStep(bytes: int, n: nat, div: nat)
    requires n * div <= bytes < (n + 1) * div
    ensures (n / 1024) * (div * 1024) <= bytes < (n / 1024 + 1) * (div * 1024)
  {
    var q := n / 1024;
    MulLe(q * 1024, n, div);
    MulLe(n + 1, (q + 1) * 1024, div);
    assert (q * 1024) * div == q * (div * 1024);
    assert ((q + 1) * 1024) * div == (q + 1) * (div * 1024);
  }

  lemma LastScale(bytes: int, n: nat, div: nat)
    requires 1 <= n < 1024 && n * div <= bytes < (n + 1) * div
    ensures div <= bytes < 1024 * div
  {
    assert n * div == div + (n - 1) * div && 0 <= (n - 1) * div;
    assert 1024 * div == (n + 1) * div + (1023 - n) * div && 0 <= (1023 - n) * div;
  }

  lemma SixUnitsSuffice(exp: nat, bytes: int)
    requires Pow1024(exp + 1) <= bytes <= MAX_INT64
    ensures exp < |UNITS|
  {
    if exp >= 6 {
      PowMonotone(7, exp + 1);
    }
  }

  lemma {:induction false} PowMonotone(a: nat, b: nat)
    requires a <= b
    ensures 1 <= Pow1024(a) <= Pow1024(b)
    decreases b
  {
    if a < b {
      PowMonotone(a, b - 1);
    } else if a > 0 {
      PowMonotone(a - 1, b - 1);
    }
  }
}
