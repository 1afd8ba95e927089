/** The two bounded retry loops: outbound HTTP calls with their response bodies, and gRPC calls. */
module Retry {
  import opened Results
  import opened Ordered

  // ---------------------------------------------------------------- the common shape

  /** Why a context or a call ended: cancelled by the caller, or anything else, such as its deadline. */
  datatype Cause = Canceled | OtherCause

  /** Whether the context ends in the wait after an attempt, and why. */
  type Waits = nat -> Option<Cause>

  /**
   * The attempt after which a retry loop leaves: the outcome is final, the attempts are used up, or the
   * context ends in the wait.
   */
  function LastAttempt(max: nat, final: nat -> bool, ends: Waits, k: nat): (n: nat)
    requires 1 <= k <= max
    ensures k <= n <= max && (final(n) || n == max || ends(n).Some?)
    ensures forall j: nat :: k <= j < n ==> !final(j) && !ends(j).Some?
    decreases max - k
  {
    if final(k) || k == max || ends(k).Some? then k else LastAttempt(max, final, ends, k + 1)
  }

  lemma {:induction false} LastAttemptSame(max: nat, f: nat -> bool, g: nat -> bool, ends: Waits, k: nat)
    requires 1 <= k <= max
    requires forall j: nat :: k <= j <= max ==> f(j) == g(j)
    ensures LastAttempt(max, f, ends, k) == LastAttempt(max, g, ends, k)
    decreases max - k
  {
    if !(f(k) || k == max || ends(k).Some?) { LastAttemptSame(max, f, g, ends, k + 1); }
  }

  // ---------------------------------------------------------------- HTTP

  const IDEMPOTENT_9110 := {"GET", "HEAD", "OPTIONS", "TRACE", "PUT", "DELETE"}

  predicate RetryableMethod(verb: string, hasKey: bool) {
    verb == "GET" || verb == "HEAD" || verb == "OPTIONS" || verb == "PUT" || verb == "DELETE" || hasKey
  }

  predicate RetryableStatus(status: int) { status == 429 || status == 502 || status == 503 || status == 504 }

  /** What one request yields; a response can come together with an error. */
  datatype Exchange = Exchange(response: Option<int>, error: Option<Cause>) {
    predicate Failed() { error.Some? }
  }

  datatype HttpResult =
    | Returned(attempt: nat, response: Option<int>)
    | CallFailed(attempt: nat, cause: Cause)
    | WaitEnded(attempt: nat, cause: Cause)
    | BadPath
    | BadRequest
    | Exhausted
    | BreakerOpen

  /** The result, the number of requests sent, and the attempts whose response bodies were closed, in order. */
  datatype HttpRun = HttpRun(result: HttpResult, sent: nat, closed: seq<nat>)

  predicate Settles(x: Exchange) { !x.Failed() && (x.response.None? || !RetryableStatus(x.response.value)) }

  function Settled(exchanges: nat -> Exchange): nat -> bool { (k: nat) => Settles(exchanges(k)) }

  /** The attempts up to `n` that brought a response. */
  function Obtained(exchanges: nat -> Exchange, n: nat): seq<nat> {
    if n == 0 then [] else Obtained(exchanges, n - 1) + if exchanges(n).response.Some? then [n] else []
  }

  function MaxAttempts(verb: string, hasKey: bool, configured: int): int {
    if RetryableMethod(verb, hasKey) then configured else 1
  }

  /** A call with a usable path and request. */
  function Call(max: int, exchanges: nat -> Exchange, ends: Waits): HttpRun {
    if max < 1 then HttpRun(Exhausted, 0, [])
    else
      var n := LastAttempt(max, Settled(exchanges), ends, 1);
      if Settles(exchanges(n)) || (n == max && !exchanges(n).Failed())
      then HttpRun(Returned(n, exchanges(n).response), n, Obtained(exchanges, n - 1))
      else if n == max then HttpRun(CallFailed(n, exchanges(n).error.value), n, Obtained(exchanges, n - 1))
      else HttpRun(WaitEnded(n, ends(n).value), n, Obtained(exchanges, n))
  }

  /** What a call comes to, with checks of path and request in front. */
  function Outcome(verb: string, hasKey: bool, pathIsRelative: bool, requestBuilds: bool, configured: int,
                   exchanges: nat -> Exchange, ends: Waits): HttpRun {
    if !pathIsRelative then HttpRun(BadPath, 0, [])
    else if !requestBuilds && MaxAttempts(verb, hasKey, configured) >= 1 then HttpRun(BadRequest, 0, [])
    else Call(MaxAttempts(verb, hasKey, configured), exchanges, ends)
  }

  /**
   * `exchanges(k)` is what the k-th request yields and `ends(k)` whether and why the context ends in
   * the wait after it.
   */
  method DoWithRetry(verb: string, hasKey: bool, pathIsRelative: bool, requestBuilds: bool, configured: int,
                     exchanges: nat -> Exchange, ends: Waits) returns (run: HttpRun)
    ensures run == Outcome(verb, hasKey, pathIsRelative, requestBuilds, configured, exchanges, ends)
  {
    hide RetryableMethod, RetryableStatus;
    if !pathIsRelative { return HttpRun(BadPath, 0, []); }
    var maxAttempts := 1;
    if RetryableMethod(verb, hasKey) { maxAttempts := configured; }
    var closed: seq<nat> := [];
    var attempt: nat := 1;
    while attempt <= maxAttempts
      invariant attempt > 1 ==> requestBuilds && attempt <= maxAttempts
      invariant closed == Obtained(exchanges, attempt - 1)
      invariant 1 <= attempt <= maxAttempts ==> LastAttempt(maxAttempts, Settled(exchanges), ends, attempt)
                                                == LastAttempt(maxAttempts, Settled(exchanges), ends, 1)
      decreases maxAttempts - attempt
    {
      if !requestBuilds { return HttpRun(BadRequest, 0, []); }
      var x := exchanges(attempt);
      if !x.Failed() && (x.response.None? || !RetryableStatus(x.response.value) || attempt == maxAttempts) {
        return HttpRun(Returned(attempt, x.response), attempt, closed);
      }
      if x.Failed() && attempt == maxAttempts { return HttpRun(CallFailed(attempt, x.error.value), attempt, closed); }
      if x.response.Some? { closed := closed + [attempt]; }
      if attempt < maxAttempts {
        if ends(attempt).Some? { return HttpRun(WaitEnded(attempt, ends(attempt).value), attempt, closed); }
      }
      attempt := attempt + 1;
    }
    return HttpRun(Exhausted, 0, []);
  }

  lemma {:induction false} ObtainedExactly(exchanges: nat -> Exchange, n: nat)
    ensures Distinct(Obtained(exchanges, n))
    ensures forall k :: k in Obtained(exchanges, n) <==> 1 <= k <= n && exchanges(k).response.Some?
  {
    if n > 0 { ObtainedExactly(exchanges, n - 1); }
  }

  /** Every response obtained is closed once, except the one handed to the caller, which is not closed. */
  predicate Balanced(run: HttpRun, exchanges: nat -> Exchange) {
    && Distinct(run.closed)
    && (forall k <- run.closed :: 1 <= k <= run.sent && exchanges(k).response.Some?)
    && (forall k :: 1 <= k <= run.sent && exchanges(k).response.Some? ==>
          (k in run.closed <==> !(run.result.Returned? && run.result.attempt == k)))
  }

  /** Every attempt before the last was to be repeated, and the last yields an error together with a response. */
  ghost predicate EndsWithBoth(max: int, exchanges: nat -> Exchange, ends: Waits) {
    && max >= 1 && exchanges(max).Failed() && exchanges(max).response.Some?
    && forall k: nat :: 1 <= k < max ==> !Settles(exchanges(k)) && ends(k).None?
  }

  /**
   * Bodies are accounted for exactly unless the last allowed attempt is made and yields an error
   * together with a response.
   */
  lemma BodiesBalanceExactly(max: int, exchanges: nat -> Exchange, ends: Waits)
    ensures Balanced(Call(max, exchanges, ends), exchanges) <==> !EndsWithBoth(max, exchanges, ends)
  {
    var run := Call(max, exchanges, ends);
    if max >= 1 {
      ObtainedExactly(exchanges, run.sent);
      ObtainedExactly(exchanges, run.sent - 1);
      FailsExactly(max, exchanges, ends);
    }
  }

  /** The call fails at its last allowed attempt exactly when that one errs and all before were to be repeated. */
  lemma FailsExactly(max: int, exchanges: nat -> Exchange, ends: Waits)
    requires max >= 1
    ensures Call(max, exchanges, ends).result.CallFailed? <==>
      exchanges(max).Failed() && forall k: nat :: 1 <= k < max ==> !Settles(exchanges(k)) && ends(k).None?
    ensures Call(max, exchanges, ends).result.CallFailed? ==> Call(max, exchanges, ends).sent == max
  {
    var n := LastAttempt(max, Settled(exchanges), ends, 1);
    forall k: nat | 1 <= k < n ensures !Settles(exchanges(k)) && ends(k).None? {
      assert !Settled(exchanges)(k);
    }
    assert n < max ==> Settled(exchanges)(n) || ends(n).Some?;
  }

  /** An error with a response at the only attempt: the loop neither returns nor closes that response. */
  lemma UnclosedBody(cause: Cause)
    ensures var exchanges := (k: nat) => Exchange(Some(302), Some(cause));
      !Balanced(Call(1, exchanges, (k: nat) => None), exchanges)
  {
    BodiesBalanceExactly(1, (k: nat) => Exchange(Some(302), Some(cause)), (k: nat) => None);
  }

  /** The bounds of the loop: attempts, who may retry, where it stops, and that it does not fall through. */
  lemma RetriesAreBounded(verb: string, hasKey: bool, configured: int, exchanges: nat -> Exchange, ends: Waits)
    requires configured >= 1
    ensures var run := Call(MaxAttempts(verb, hasKey, configured), exchanges, ends);
      && 1 <= run.sent <= configured && run.result != Exhausted
      && (run.sent > 1 ==> hasKey || verb in IDEMPOTENT_9110)
      && (forall k: nat :: 1 <= k < run.sent ==> !Settles(exchanges(k)) && !ends(k).Some?)
      && (Settles(exchanges(run.sent)) ==> run.result == Returned(run.sent, exchanges(run.sent).response))
      && (run.result.WaitEnded? ==> ends(run.sent) == Some(run.result.cause) && run.sent < configured)
  {
    var max := MaxAttempts(verb, hasKey, configured);
    var n := LastAttempt(max, Settled(exchanges), ends, 1);
    forall k: nat | 1 <= k < n ensures !Settles(exchanges(k)) && !ends(k).Some? {
      assert !Settled(exchanges)(k);
    }
  }

  /** The request is worth repeating: it erred, or was answered 429, 502, 503 or 504. */
  predicate ToRepeat(x: Exchange) {
    x.error.Some? || (x.response.Some? && x.response.value in {429, 502, 503, 504})
  }

  /** The first `j` requests are to be repeated and none of the waits after them is cut short. */
  ghost predicate RepeatsUpTo(exchanges: nat -> Exchange, ends: Waits, j: nat) {
    forall k: nat :: 1 <= k <= j ==> ToRepeat(exchanges(k)) && ends(k).None?
  }

  /**
   * Which requests are sent and what comes of it. A verb other than the five without a key is sent once.
   * Otherwise the next request is sent exactly when all before it were to be repeated, their waits elapsed
   * and attempts are left. What need not be repeated is returned at once; the last allowed attempt returns
   * its response or its error whatever it is; an attempt that is to be repeated ends with the context.
   */
  lemma RetriesExactly(verb: string, hasKey: bool, configured: int, exchanges: nat -> Exchange, ends: Waits)
    requires configured >= 1
    ensures var run := Outcome(verb, hasKey, true, true, configured, exchanges, ends);
      var max := if verb in {"GET", "HEAD", "OPTIONS", "PUT", "DELETE"} || hasKey then configured else 1;
      && 1 <= run.sent <= max
      && (forall j: nat :: j < max ==> (run.sent > j <==> RepeatsUpTo(exchanges, ends, j)))
      && var last := exchanges(run.sent);
         if !ToRepeat(last) || (run.sent == max && last.error.None?)
         then run.result == Returned(run.sent, last.response)
         else if run.sent == max then run.result == CallFailed(max, last.error.value)
         else ends(run.sent).Some? && run.result == WaitEnded(run.sent, ends(run.sent).value)
  {
    var max := MaxAttempts(verb, hasKey, configured);
    var n := LastAttempt(max, Settled(exchanges), ends, 1);
    forall k: nat ensures Settled(exchanges)(k) <==> !ToRepeat(exchanges(k)) {}
    assert Outcome(verb, hasKey, true, true, configured, exchanges, ends).sent == n;
    assert RepeatsUpTo(exchanges, ends, n - 1);
    assert n < max ==> !ToRepeat(exchanges(n)) || ends(n).Some?;
  }

  /** Nothing is sent for a path that is not relative or a request that cannot be built, whatever is configured. */
  lemma UnsendableIsNotSent(verb: string, hasKey: bool, pathIsRelative: bool, requestBuilds: bool, configured: int,
                            exchanges: nat -> Exchange, ends: Waits)
    requires configured >= 1
    ensures var run := Outcome(verb, hasKey, pathIsRelative, requestBuilds, configured, exchanges, ends);
      && (run.sent >= 1 <==> pathIsRelative && requestBuilds)
      && (run.sent == 0 ==> run.closed == [] && (run.result == BadPath || run.result == BadRequest))
      && (run.result == BadPath <==> !pathIsRelative)
  {
  }

  /** No breaker, one that lets the call through, or one that does not. */
  datatype Breaker = Absent | Admitting | Refusing

  /** What the breaker enters for a call; an excluded one counts neither way. */
  datatype Tally = Nothing | Success | Failure | Excluded

  /** What the guarded call hands to the breaker: a retryable status is passed as an error that carries its response. */
  datatype Guarded = Passed(run: HttpRun) | StatusFailure(run: HttpRun)

  /** The call came to its end with an error, whose cause is the caller's cancellation. */
  predicate CanceledRun(run: HttpRun) {
    (run.result.CallFailed? || run.result.WaitEnded?) && run.result.cause == Canceled
  }

  predicate RetryableReturn(run: HttpRun) {
    run.result.Returned? && run.result.response.Some? && RetryableStatus(run.result.response.value)
  }

  /**
   * The breaker counts errors and handed-out retryable statuses as failures, leaves cancelled calls
   * uncounted, and hands the very response out that the call returned.
   */
  method Execute(breaker: Breaker, verb: string, hasKey: bool, pathIsRelative: bool, requestBuilds: bool,
                 configured: int, exchanges: nat -> Exchange, ends: Waits) returns (run: HttpRun, tally: Tally)
    ensures run == if breaker.Refusing? then HttpRun(BreakerOpen, 0, [])
                   else Outcome(verb, hasKey, pathIsRelative, requestBuilds, configured, exchanges, ends)
    ensures !breaker.Admitting? <==> tally == Nothing
    ensures breaker.Admitting? ==>
      (tally == Success <==>
        run.result.Returned? && !(run.result.response.Some? && run.result.response.value in {429, 502, 503, 504}))
    ensures breaker.Admitting? ==>
      (tally == Excluded <==>
        (exists k :: run.result == CallFailed(k, Canceled) || run.result == WaitEnded(k, Canceled)))
  {
    if breaker.Refusing? { return HttpRun(BreakerOpen, 0, []), Nothing; }
    run := DoWithRetry(verb, hasKey, pathIsRelative, requestBuilds, configured, exchanges, ends);
    if breaker.Absent? { return run, Nothing; }
    var guarded := if RetryableReturn(run) then StatusFailure(run) else Passed(run);
    if guarded.StatusFailure? {
      tally := Failure;
    } else if run.result.Returned? {
      tally := Success;
    } else {
      tally := if CanceledRun(run) then Excluded else Failure;
    }
    run := guarded.run;
  }

  // ---------------------------------------------------------------- gRPC

  datatype Code = OK | Unavailable | ResourceExhausted | OtherCode(value: int)

  datatype GrpcResult = Status(code: Code) | GrpcWaitEnded(cause: Cause)

  predicate Transient(code: Code) { code.Unavailable? || code.ResourceExhausted? }

  function Conclusive(codes: nat -> Code): nat -> bool { (k: nat) => !Transient(codes(k)) }

  function GrpcCall(max: int, codes: nat -> Code, ends: Waits): (GrpcResult, nat) {
    if max < 1 then (Status(OK), 0)
    else
      var n := LastAttempt(max, Conclusive(codes), ends, 1);
      (if !Transient(codes(n)) || n == max then Status(codes(n)) else GrpcWaitEnded(ends(n).value), n)
  }

  /** An idempotency key or a matching pattern allows retries; `matches` is the path matcher. */
  method RetryGrpcMethod(hasKey: bool, name: string, patterns: seq<string>, matches: (string, string) -> bool)
    returns (r: bool)
    ensures r <==> hasKey || exists p <- patterns :: matches(p, name)
  {
    if hasKey { return true; }
    for i := 0 to |patterns|
      invariant forall k :: 0 <= k < i ==> !matches(patterns[k], name)
    {
      if matches(patterns[i], name) { return true; }
    }
    return false;
  }

  method RetryInterceptor(retryable: bool, max: int, codes: nat -> Code, ends: Waits)
    returns (r: GrpcResult, calls: nat)
    ensures (r, calls) == if retryable then GrpcCall(max, codes, ends) else (Status(codes(1)), 1)
  {
    if !retryable { return Status(codes(1)), 1; }
    var err := OK;
    var attempt: nat := 1;
    while attempt <= max
      invariant attempt == 1 ==> err == OK
      invariant attempt >= 1 && (attempt > 1 ==> err == codes(attempt - 1) && attempt <= max + 1)
      invariant 1 <= attempt <= max ==> LastAttempt(max, Conclusive(codes), ends, attempt)
                                        == LastAttempt(max, Conclusive(codes), ends, 1)
      invariant attempt == max + 1 && max >= 1 ==> LastAttempt(max, Conclusive(codes), ends, 1) == max
      decreases max - attempt
    {
      err := codes(attempt);
      if err != Code.Unavailable && err != Code.ResourceExhausted { return Status(err), attempt; }
      if attempt < max {
        if ends(attempt).Some? { return GrpcWaitEnded(ends(attempt).value), attempt; }
      }
      attempt := attempt + 1;
    }
    return Status(err), attempt - 1;
  }

  /** The interceptor calls at most `max` times and only skips the call, reporting success, for a limit below one. */
  lemma GrpcIsBounded(max: int, codes: nat -> Code, ends: Waits)
    ensures var (r, calls) := GrpcCall(max, codes, ends);
      && (calls == 0 <==> max < 1) && (max >= 1 ==> calls <= max)
      && (max < 1 ==> r == Status(OK))
      && (calls >= 1 && r.Status? ==> r.code == codes(calls))
      && (calls >= 1 && r.Status? && Transient(r.code) ==> calls == max)
      && (forall k: nat :: 1 <= k < calls ==> Transient(codes(k)) && !ends(k).Some?)
  {
    if max >= 1 {
      var n := LastAttempt(max, Conclusive(codes), ends, 1);
      forall k: nat | 1 <= k < n ensures Transient(codes(k)) && !ends(k).Some? {
        assert !Conclusive(codes)(k);
      }
    }
  }

  /** The first `j` calls are unavailable or exhausted, and none of the waits after them is cut short. */
  ghost predicate UnavailableUpTo(codes: nat -> Code, ends: Waits, j: nat) {
    forall k: nat :: 1 <= k <= j ==>
      (codes(k) == Code.Unavailable || codes(k) == Code.ResourceExhausted) && ends(k).None?
  }

  /**
   * The next call is made exactly when all before it were unavailable or exhausted, their waits elapsed and
   * attempts are left; any other code, and the last allowed call, is handed out as it is.
   */
  lemma GrpcRetriesExactly(max: int, codes: nat -> Code, ends: Waits)
    requires max >= 1
    ensures var (r, calls) := GrpcCall(max, codes, ends);
      && 1 <= calls <= max
      && (forall j: nat :: j < max ==> (calls > j <==> UnavailableUpTo(codes, ends, j)))
      && var last := codes(calls);
         if calls == max || (last != Code.Unavailable && last != Code.ResourceExhausted) then r == Status(last)
         else ends(calls).Some? && r == GrpcWaitEnded(ends(calls).value)
  {
    var n := LastAttempt(max, Conclusive(codes), ends, 1);
    forall k: nat
      ensures Conclusive(codes)(k) <==> codes(k) != Code.Unavailable && codes(k) != Code.ResourceExhausted
    {
    }
    assert UnavailableUpTo(codes, ends, n - 1);
    assert n < max ==> Conclusive(codes)(n) || ends(n).Some?;
  }

  /** The two loops make the same number of attempts when each outcome is final for both or for neither. */
  lemma LoopsAgree(max: int, exchanges: nat -> Exchange, codes: nat -> Code, ends: Waits)
    requires forall k: nat :: 1 <= k <= max ==> (Settles(exchanges(k)) <==> !Transient(codes(k)))
    ensures Call(max, exchanges, ends).sent == GrpcCall(max, codes, ends).1
    ensures Call(max, exchanges, ends).result.WaitEnded? <==> GrpcCall(max, codes, ends).0.GrpcWaitEnded?
  {
    if max >= 1 { LastAttemptSame(max, Settled(exchanges), Conclusive(codes), ends, 1); }
  }
}
