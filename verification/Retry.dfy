/** Uploading with retries and a payment retry inside each attempt. */
module Retry {
  import opened Wrappers

  /** A PUT's outcome: a parsed descriptor, an HTTP error status, or a network or parse error. */
  datatype Answer = Accepted | Status(code: nat) | Broken

  /** What the world does in one attempt. */
  datatype Attempt = Attempt(first: Answer, payOk: bool, second: Answer)

  datatype Action = Put(paid: bool, answer: Answer) | Pay(ok: bool) | Sleep(seconds: U64)

  datatype Result = Success | PaymentRequired | PaymentFailed | ServerError(status: nat) | OtherError

  datatype Outcome = Returned(result: Result) | Unreachable

  predicate IsRetryableStatus(status: nat) {
    status == 429 || status == 500 || status == 502 || status == 503 || status == 504
  }

  function ToResult(a: Answer): Result {
    match a
    case Accepted => Success
    case Status(code) => if code == 402 then PaymentRequired else ServerError(code)
    case Broken => OtherError
  }

  predicate MayRetry(r: Result) {
    match r
    case ServerError(status) => IsRetryableStatus(status)
    case OtherError => true
    case _ => false
  }

  function Pow2(n: nat): (p: nat)
    ensures p >= 1
  {
    if n == 0 then 1 else 2 * Pow2(n - 1)
  }

  lemma {:induction false} Pow2Grows(n: nat)
    requires n <= 63
    ensures Pow2(n) <= 0x8000_0000_0000_0000
    decreases 63 - n
  {
    if n < 63 { Pow2Grows(n + 1); } else { assert Pow2(63) == 0x8000_0000_0000_0000 by { Pow2At63(); } }
  }

  lemma {:induction false} Pow2Add(a: nat, b: nat)
    ensures Pow2(a + b) == Pow2(a) * Pow2(b)
    decreases a
  {
    if a == 0 {
    } else {
      Pow2Add(a - 1, b);
      assert Pow2(a + b) == 2 * Pow2(a - 1 + b);
    }
  }

  lemma Pow2At63()
    ensures Pow2(63) == 0x8000_0000_0000_0000
  {
    assert Pow2(7) == 0x80 && Pow2(8) == 0x100;
    Pow2Add(8, 8);
    Pow2Add(16, 16);
    Pow2Add(32, 16);
    Pow2Add(48, 8);
    Pow2Add(56, 7);
  }

  /** `1u64 << (attempt - 1)` in a release build: the shift amount is taken modulo 64. */
  function Delay(attempt: nat): U64
    requires attempt >= 1
  {
    Pow2Grows((attempt - 1) % 64);
    Pow2((attempt - 1) % 64)
  }

  // ---------- The loop, as what it does ----------

  function AttemptLog(w: Attempt): seq<Action> {
    if w.first != Status(402) then [Put(false, w.first)]
    else if !w.payOk then [Put(false, w.first), Pay(false)]
    else [Put(false, w.first), Pay(true), Put(true, w.second)]
  }

  function AttemptResult(w: Attempt): Result {
    if w.first != Status(402) then ToResult(w.first)
    else if !w.payOk then PaymentFailed
    else ToResult(w.second)
  }

  /** The error arms of the match: give up, or sleep and go round again. */
  predicate Again(world: seq<Attempt>, attempt: nat, maxAttempts: nat)
    requires 1 <= attempt <= |world|
  {
    MayRetry(ResultOf(world, attempt)) && attempt < maxAttempts
  }

  function ResultOf(world: seq<Attempt>, attempt: nat): Result
    requires 1 <= attempt <= |world|
  {
    AttemptResult(world[attempt - 1])
  }

  datatype Trace = Trace(actions: seq<Action>, outcome: Outcome)

  /** The loop from attempt `attempt` on; `world[k - 1]` is what happens in attempt `k`. */
  function Retried(world: seq<Attempt>, maxAttempts: nat, attempt: nat): Trace
    requires 1 <= attempt && maxAttempts <= |world|
    decreases maxAttempts + 1 - attempt
  {
    if attempt > maxAttempts then Trace([], Unreachable)
    else
      var w := world[attempt - 1];
      if Again(world, attempt, maxAttempts) then
        var rest := Retried(world, maxAttempts, attempt + 1);
        Trace(AttemptLog(w) + [Sleep(Delay(attempt))] + rest.actions, rest.outcome)
      else Trace(AttemptLog(w), Returned(AttemptResult(w)))
  }

  class Uploader {
    /** Everything done so far, in order. */
    var log: seq<Action>

    constructor ()
      ensures log == []
    {
      log := [];
    }

    method UploadBlobWithPayment(w: Attempt) returns (result: Result)
      modifies this
      ensures log == old(log) + AttemptLog(w) && result == AttemptResult(w)
    {
      log := log + [Put(false, w.first)];
      result := ToResult(w.first);
      if result.PaymentRequired? {
        log := log + [Pay(w.payOk)];
        if !w.payOk { return PaymentFailed; }
        log := log + [Put(true, w.second)];
        result := ToResult(w.second);
      }
    }

    method UploadWithRetry(world: seq<Attempt>, maxAttempts: U32) returns (outcome: Outcome)
      requires maxAttempts <= |world|
      modifies this
      ensures
        var trace := Retried(world, maxAttempts, 1);
        log == old(log) + trace.actions && outcome == trace.outcome
    {
      var attempt := 1;
      hide AttemptLog, AttemptResult, Delay;
      ghost var trace := Retried(world, maxAttempts, 1);
      while attempt <= maxAttempts
        invariant attempt >= 1
        invariant
          var rest := Retried(world, maxAttempts, attempt);
          old(log) + trace.actions == log + rest.actions && trace.outcome == rest.outcome
      {
        ghost var before := log;
        var e := UploadBlobWithPayment(world[attempt - 1]);
        if e == Success { return Returned(e); }
        var retry := match e
          case ServerError(status) => IsRetryableStatus(status) && attempt < maxAttempts
          case PaymentRequired | PaymentFailed => false
          case _ => attempt < maxAttempts;
        if !retry { return Returned(e); }
        var delay := Delay(attempt);
        log := log + [Sleep(delay)];
        ghost var rest := Retried(world, maxAttempts, attempt + 1).actions;
        Chain(before, AttemptLog(world[attempt - 1]), Sleep(delay), rest);
        attempt := attempt + 1;
      }
      return Unreachable;
    }
  }

  lemma Chain(before: seq<Action>, log: seq<Action>, sleep: Action, rest: seq<Action>)
    ensures before + (log + [sleep] + rest) == before + log + [sleep] + rest
  {
  }

  // ---------- What the loop guarantees ----------

  datatype Kind = Puts | Pays | Seconds

  function Measure(a: Action, kind: Kind): nat {
    match a
    case Put(_, _) => if kind == Puts then 1 else 0
    case Pay(_) => if kind == Pays then 1 else 0
    case Sleep(seconds) => if kind == Seconds then seconds else 0
  }

  /** How many PUTs, how many payments, or how many seconds slept. */
  function Count(actions: seq<Action>, kind: Kind): nat {
    if actions == [] then 0 else Measure(actions[0], kind) + Count(actions[1..], kind)
  }

  lemma {:induction false} CountConcat(a: seq<Action>, b: seq<Action>, kind: Kind)
    ensures Count(a + b, kind) == Count(a, kind) + Count(b, kind)
  {
    hide Measure;
    if a == [] {
      assert [] + b == b;
    } else {
      assert (a + b)[1..] == a[1..] + b && (a + b)[0] == a[0];
      CountConcat(a[1..], b, kind);
    }
  }

  /** Attempt `k` is the last one. */
  ghost predicate EndsAt(world: seq<Attempt>, maxAttempts: nat, k: nat)
    requires maxAttempts <= |world|
  {
    && 1 <= k <= maxAttempts && !Again(world, k, maxAttempts)
    && forall j :: 1 <= j < k ==> Again(world, j, maxAttempts)
  }

  /** The number of attempts from `attempt` to `k` that were first answered 402. */
  function Demands(world: seq<Attempt>, attempt: nat, k: nat): nat
    requires 1 <= attempt && k <= |world|
    decreases k + 1 - attempt
  {
    if attempt > k then 0
    else (if world[attempt - 1].first == Status(402) then 1 else 0) + Demands(world, attempt + 1, k)
  }

  /** The delays before attempts `attempt + 1` to `k`. */
  function Waits(attempt: nat, k: nat): nat
    requires 1 <= attempt
    decreases k - attempt
  {
    if attempt >= k then 0 else Delay(attempt) + Waits(attempt + 1, k)
  }

  lemma CountOne(a: Action, kind: Kind)
    ensures Count([a], kind) == Measure(a, kind)
  {
    assert [a][1..] == [];
  }

  lemma AttemptCount(w: Attempt)
    ensures 1 <= Count(AttemptLog(w), Puts) <= 2
    ensures Count(AttemptLog(w), Pays) == if w.first == Status(402) then 1 else 0
    ensures Count(AttemptLog(w), Seconds) == 0
  {
    var put, pay, paid := Put(false, w.first), Pay(w.payOk), Put(true, w.second);
    forall kind: Kind
      ensures Count([put, pay], kind) == Measure(put, kind) + Measure(pay, kind)
      ensures Count([put, pay, paid], kind) == Measure(put, kind) + Measure(pay, kind) + Measure(paid, kind)
    {
      CountOne(put, kind);
      CountOne(pay, kind);
      CountOne(paid, kind);
      CountConcat([put], [pay], kind);
      CountConcat([put, pay], [paid], kind);
      assert [put] + [pay] == [put, pay] && [put, pay] + [paid] == [put, pay, paid];
    }
    forall kind: Kind ensures Count([put], kind) == Measure(put, kind) {
      CountOne(put, kind);
    }
  }

  lemma CountRound(w: seq<Action>, seconds: U64, rest: seq<Action>, kind: Kind)
    ensures Count(w + [Sleep(seconds)] + rest, kind)
      == Count(w, kind) + (if kind == Seconds then seconds else 0) + Count(rest, kind)
  {
    CountOne(Sleep(seconds), kind);
    CountConcat(w, [Sleep(seconds)], kind);
    CountConcat(w + [Sleep(seconds)], rest, kind);
  }

  lemma {:induction false} RetriedFrom(world: seq<Attempt>, maxAttempts: nat, attempt: nat, k: nat)
    requires 1 <= attempt <= k && maxAttempts <= |world| && EndsAt(world, maxAttempts, k)
    ensures
      var trace := Retried(world, maxAttempts, attempt);
      && trace.outcome == Returned(ResultOf(world, k))
      && k + 1 - attempt <= Count(trace.actions, Puts) <= 2 * (k + 1 - attempt)
      && Count(trace.actions, Pays) == Demands(world, attempt, k) && Count(trace.actions, Seconds) == Waits(attempt, k)
    decreases k - attempt
  {
    var w := world[attempt - 1];
    AttemptCount(w);
    hide AttemptLog, AttemptResult, Delay, Count, MayRetry;
    if attempt < k {
      assert Again(world, attempt, maxAttempts);
      RetriedFrom(world, maxAttempts, attempt + 1, k);
      var rest := Retried(world, maxAttempts, attempt + 1).actions;
      CountRound(AttemptLog(w), Delay(attempt), rest, Puts);
      CountRound(AttemptLog(w), Delay(attempt), rest, Pays);
      CountRound(AttemptLog(w), Delay(attempt), rest, Seconds);
    }
  }

  lemma {:induction false} FindEnd(world: seq<Attempt>, maxAttempts: nat, attempt: nat) returns (k: nat)
    requires 1 <= attempt <= maxAttempts <= |world|
    requires forall j :: 1 <= j < attempt ==> Again(world, j, maxAttempts)
    ensures EndsAt(world, maxAttempts, k)
    decreases maxAttempts - attempt
  {
    if Again(world, attempt, maxAttempts) { k := FindEnd(world, maxAttempts, attempt + 1); } else { k := attempt; }
  }

  lemma {:induction false} WaitsDouble(attempt: nat, k: nat)
    requires 1 <= attempt <= k <= 65
    ensures Waits(attempt, k) + Pow2(attempt - 1) == Pow2(k - 1)
    decreases k - attempt
  {
    hide Delay, Pow2;
    if attempt < k {
      WaitsDouble(attempt + 1, k);
      DelayIs(attempt);
      Doubled(attempt - 1);
      assert (attempt - 1) % 64 == attempt - 1;
    }
  }

  /**
   * The loop ends at one attempt `k`, with that attempt's result, after at most two PUTs an attempt and one payment for
   * each attempt answered 402; it has slept 2^(k-1) - 1 seconds exactly when the shift has not wrapped.
   */
  lemma RetryBounds(world: seq<Attempt>, maxAttempts: nat) returns (k: nat)
    requires 1 <= maxAttempts <= |world|
    ensures EndsAt(world, maxAttempts, k)
    ensures
      var trace := Retried(world, maxAttempts, 1);
      && trace.outcome == Returned(ResultOf(world, k))
      && k <= Count(trace.actions, Puts) <= 2 * k
      && Count(trace.actions, Pays) == Demands(world, 1, k) <= k
      && (Count(trace.actions, Seconds) == Pow2(k - 1) - 1 <==> k <= 65)
  {
    k := FindEnd(world, maxAttempts, 1);
    RetriedFrom(world, maxAttempts, 1, k);
    DemandsBound(world, 1, k);
    if k <= 65 { WaitsDouble(1, k); } else { WaitsWrap(k); }
  }

  lemma {:induction false} DemandsBound(world: seq<Attempt>, attempt: nat, k: nat)
    requires 1 <= attempt && k <= |world|
    ensures attempt <= k ==> Demands(world, attempt, k) <= k + 1 - attempt
    decreases k + 1 - attempt
  {
    if attempt <= k { DemandsBound(world, attempt + 1, k); }
  }

  lemma {:induction false} WaitsExtend(attempt: nat, k: nat)
    requires 1 <= attempt <= k
    ensures Waits(attempt, k + 1) == Waits(attempt, k) + Delay(k)
    decreases k - attempt
  {
    if attempt < k { WaitsExtend(attempt + 1, k); }
  }

  /** Past 65 attempts the delays start again at one second and the sum falls behind. */
  lemma {:induction false} WaitsWrap(k: nat)
    requires k > 65
    ensures Waits(1, k) < Pow2(k - 1) - 1
    decreases k
  {
    hide Waits, Delay, Pow2;
    WaitsExtend(1, k - 1);
    DelayIs(k - 1);
    Doubled(k - 2);
    if k == 66 {
      WaitsDouble(1, k - 1);
      Pow2Mono(1, k - 2);
      Doubled(0);
    } else {
      WaitsWrap(k - 1);
      Pow2Below(k - 2);
    }
  }

  lemma DelayIs(attempt: nat)
    requires attempt >= 1
    ensures Delay(attempt) == Pow2((attempt - 1) % 64)
  {
  }

  lemma Doubled(n: nat)
    ensures Pow2(n + 1) == 2 * Pow2(n)
    ensures n == 0 ==> Pow2(n) == 1
  {
  }

  /** A wrapped delay is never longer than the unwrapped one. */
  lemma {:induction false} Pow2Below(n: nat)
    ensures Pow2(n % 64) <= Pow2(n)
  {
    Pow2Mono(n % 64, n);
  }

  lemma {:induction false} Pow2Mono(a: nat, b: nat)
    requires a <= b
    ensures Pow2(a) <= Pow2(b)
  {
    if a < b { Pow2Mono(a, b - 1); }
  }

  /** An answer after which nothing may be sent. */
  predicate Final(a: Action) {
    match a
    case Put(_, Accepted) => true
    case Put(paid, Status(code)) => code !in {429, 500, 502, 503, 504} && (paid || code != 402)
    case Put(_, Broken) => false
    case Pay(ok) => !ok
    case Sleep(_) => false
  }

  ghost predicate WellBehaved(actions: seq<Action>) {
    && (forall i :: 0 <= i < |actions| && Final(actions[i]) ==> i == |actions| - 1)
    && (forall i :: 0 <= i < |actions| && actions[i].Pay? ==> i > 0 && actions[i - 1] == Put(false, Status(402)))
    && (forall i :: 0 <= i < |actions| && actions[i].Put? && actions[i].paid ==> i > 0 && actions[i - 1] == Pay(true))
  }

  /** Nothing follows a success or a final error, a payment only follows a 402, and a paid PUT only follows a payment. */
  lemma {:induction false} RetryIsWellBehaved(world: seq<Attempt>, maxAttempts: nat, attempt: nat)
    requires 1 <= attempt && maxAttempts <= |world|
    ensures WellBehaved(Retried(world, maxAttempts, attempt).actions)
    decreases maxAttempts + 1 - attempt
  {
    if attempt <= maxAttempts {
      var w := world[attempt - 1];
      if Again(world, attempt, maxAttempts) {
        RetryIsWellBehaved(world, maxAttempts, attempt + 1);
        Prepend(AttemptLog(w), Sleep(Delay(attempt)), Retried(world, maxAttempts, attempt + 1).actions);
      }
    }
  }

  lemma Prepend(log: seq<Action>, sleep: Action, rest: seq<Action>)
    requires WellBehaved(log) && WellBehaved(rest) && sleep.Sleep? && (forall i :: 0 <= i < |log| ==> !Final(log[i]))
    ensures WellBehaved(log + [sleep] + rest)
  {
  }

  /** The final `unreachable!` is reached exactly when no attempt is allowed. */
  lemma UnreachableIff(world: seq<Attempt>, maxAttempts: nat)
    requires maxAttempts <= |world|
    ensures Retried(world, maxAttempts, 1).outcome == Unreachable <==> maxAttempts == 0
  {
    if maxAttempts >= 1 { var k := RetryBounds(world, maxAttempts); }
  }

  /** What was answered last in an attempt: the paid PUT's answer after a payment, else the first PUT's. */
  predicate LastAnswer(w: Attempt, a: Answer) {
    (w.first == a && a != Status(402)) || (w.first == Status(402) && w.payOk && w.second == a)
  }

  /** An attempt failed transiently: on the network, in parsing, or with one of the five statuses. */
  predicate FailedTransiently(w: Attempt) {
    || LastAnswer(w, Broken)
    || LastAnswer(w, Status(429)) || LastAnswer(w, Status(500)) || LastAnswer(w, Status(502))
    || LastAnswer(w, Status(503)) || LastAnswer(w, Status(504))
  }

  /** What an attempt comes to, in terms of what the server and the wallet did. */
  lemma AttemptMeans(w: Attempt)
    ensures AttemptResult(w) == Success <==> LastAnswer(w, Accepted)
    ensures AttemptResult(w) == PaymentFailed <==> w.first == Status(402) && !w.payOk
    ensures AttemptResult(w) == PaymentRequired <==> LastAnswer(w, Status(402))
    ensures AttemptResult(w) == OtherError <==> LastAnswer(w, Broken)
    ensures forall code :: AttemptResult(w) == ServerError(code) <==> code != 402 && LastAnswer(w, Status(code))
    ensures MayRetry(AttemptResult(w)) <==> FailedTransiently(w)
  {
  }

  /** Attempt `k` succeeds and every earlier one failed transiently. */
  ghost predicate FirstSuccess(world: seq<Attempt>, k: nat) {
    1 <= k <= |world| && LastAnswer(world[k - 1], Accepted) && forall j :: 0 <= j < k - 1 ==> FailedTransiently(world[j])
  }

  lemma Modulo(n: nat)
    ensures (n + 64) % 64 == n % 64
    ensures (n + 1) % 64 != 0 ==> (n + 1) % 64 == n % 64 + 1
    ensures (1 - 1) % 64 == 0
  {
  }

  /** The delays start at one second, double up to the 64th attempt, and then start again. */
  lemma DelaysRepeat(attempt: nat)
    requires attempt >= 1
    ensures Delay(1) == 1 && Delay(attempt + 64) == Delay(attempt)
    ensures attempt % 64 != 0 ==> Delay(attempt + 1) == 2 * Delay(attempt)
  {
    hide Delay, Pow2;
    DelayIs(1);
    DelayIs(attempt);
    DelayIs(attempt + 1);
    DelayIs(attempt + 64);
    Doubled(0);
    Doubled((attempt - 1) % 64);
    Modulo(attempt - 1);
  }

  /** The call succeeds exactly when one of its allowed attempts does and every earlier one failed transiently. */
  lemma SucceedsIff(world: seq<Attempt>, maxAttempts: nat)
    requires 1 <= maxAttempts <= |world|
    ensures Retried(world, maxAttempts, 1).outcome == Returned(Success) <==>
      exists k :: 1 <= k <= maxAttempts && FirstSuccess(world, k)
  {
    var k := RetryBounds(world, maxAttempts);
    forall j | 0 <= j < |world|
      ensures ResultOf(world, j + 1) == Success <==> LastAnswer(world[j], Accepted)
      ensures MayRetry(ResultOf(world, j + 1)) <==> FailedTransiently(world[j])
    {
      AttemptMeans(world[j]);
    }
    hide AttemptResult, MayRetry, FailedTransiently, LastAnswer, Retried;
    forall j | 0 <= j < k - 1 ensures FailedTransiently(world[j]) {
      assert Again(world, j + 1, maxAttempts);
    }
    if ResultOf(world, k) == Success {
      assert FirstSuccess(world, k);
    } else {
      forall i | 1 <= i <= maxAttempts ensures !FirstSuccess(world, i) {
        if k < i {
          assert !Again(world, k, maxAttempts) && !MayRetry(ResultOf(world, k));
          assert !FailedTransiently(world[k - 1]);
        } else if i < k {
          assert FailedTransiently(world[i - 1]) && MayRetry(ResultOf(world, i));
          Transient(world[i - 1]);
        }
      }
    }
  }

  /** A transient failure is no success. */
  lemma Transient(w: Attempt)
    requires FailedTransiently(w)
    ensures !LastAnswer(w, Accepted)
  {
  }
}
