/** Running a request against leased accounts with retries (products/dispatch.go). */
module Dispatch {
  import opened Wrappers

  datatype Lease = Lease(token: string, mode: int)

  datatype Reservation<+E> = ReserveError(error: E) | NoAccount | Leased(lease: Lease)

  datatype Event = Reserved(lease: Lease) | Ran(lease: Lease) | Released(lease: Lease)
                 | FeedbackSent(token: string, kind: string, mode: int)

  /** `AfterLoop` marks the statement behind the loop, which answers like `NoAccounts`. */
  datatype Outcome<+T, +E> = Success(value: T) | ReserveFailed(error: E) | NoAccounts | RunFailed(error: E) | AfterLoop

  /** The caller's options and the world it meets: the directory's answer to the k-th reservation given
      the excluded tokens, and the result of the k-th run. */
  datatype Env<!T, !E> = Env(
    maxAttempts: int,
    statusCodes: seq<int>,
    statusOf: E -> Option<int>,
    retryable: Option<E -> bool>,
    feedback: Option<Option<E> -> string>,
    reserve: (nat, seq<string>) -> Reservation<E>,
    run: (nat, Lease) -> Result<T, E>)
  {
    function MaxAttempts(): (n: nat)
      ensures n >= 1
    {
      if maxAttempts <= 0 then 1 else maxAttempts
    }

    /** The retry policy's own table: an upstream status among the listed ones, with attempts left. */
    predicate PolicyRetries(err: E, attempt: nat) {
      attempt + 1 < maxAttempts && statusOf(err).Some? && statusOf(err).value in statusCodes
    }

    predicate ShouldRetry(err: E, attempt: nat) {
      attempt + 1 < MaxAttempts()
      && if retryable.Some? then retryable.value(err) else PolicyRetries(err, attempt)
    }

    /** The feedback event of one attempt, if the caller wants one sent. */
    function FeedbackOf(lease: Lease, result: Result<T, E>): seq<Event> {
      if feedback.None? then []
      else
        var kind := feedback.value(if result.Ok? then None else Some(result.error));
        if kind == "" then [] else [FeedbackSent(lease.token, kind, lease.mode)]
    }
  }

  /** What one attempt does with its lease: run, give it back, report. */
  function AttemptEvents<T, E>(env: Env<T, E>, lease: Lease, result: Result<T, E>): seq<Event> {
    [Reserved(lease), Ran(lease), Released(lease)] + env.FeedbackOf(lease, result)
  }

  method RunAttempt<T, E>(env: Env<T, E>, attempt: nat, lease: Lease) returns (events: seq<Event>, result: Result<T, E>)
    ensures result == env.run(attempt, lease) && events == AttemptEvents(env, lease, result)
  {
    events := [Reserved(lease)];
    result := env.run(attempt, lease);
    events := events + [Ran(lease)];
    events := events + [Released(lease)];
    events := events + env.FeedbackOf(lease, result);
  }

  /** The trace and outcome from a given attempt on. */
  function DispatchFrom<T, E>(env: Env<T, E>, attempt: nat, excluded: seq<string>): (r: (seq<Event>, Outcome<T, E>))
    decreases env.MaxAttempts() - attempt
  {
    if attempt >= env.MaxAttempts() then ([], AfterLoop)
    else
      match env.reserve(attempt, excluded)
      case ReserveError(e) => ([], ReserveFailed(e))
      case NoAccount => ([], NoAccounts)
      case Leased(lease) =>
        var result := env.run(attempt, lease);
        var now := AttemptEvents(env, lease, result);
        if result.Ok? then (now, Success(result.value))
        else if !env.ShouldRetry(result.error, attempt) then (now, RunFailed(result.error))
        else
          var (later, outcome) := DispatchFrom(env, attempt + 1, excluded + [lease.token]);
          (now + later, outcome)
  }

  /** The whole dispatch, once the attempts before this one have left the trace. */
  ghost predicate Resumes<T, E>(env: Env<T, E>, trace: seq<Event>, attempt: nat, excluded: seq<string>) {
    var (later, outcome) := DispatchFrom(env, attempt, excluded);
    DispatchFrom(env, 0, []) == (trace + later, outcome)
  }

  lemma ResumesAtStart<T, E>(env: Env<T, E>)
    ensures Resumes(env, [], 0, [])
  {
    var all := DispatchFrom(env, 0, []).0;
    assert [] + all == all;
  }

  /** Where the dispatch stands after one more attempt. */
  lemma ResumesOn<T, E>(env: Env<T, E>, trace: seq<Event>, attempt: nat, excluded: seq<string>)
    requires Resumes(env, trace, attempt, excluded) && attempt < env.MaxAttempts()
    ensures match env.reserve(attempt, excluded)
      case ReserveError(e) => DispatchFrom(env, 0, []) == (trace, ReserveFailed(e))
      case NoAccount => DispatchFrom(env, 0, []) == (trace, NoAccounts)
      case Leased(lease) =>
        var result := env.run(attempt, lease);
        var trace' := trace + AttemptEvents(env, lease, result);
        if result.Ok? then DispatchFrom(env, 0, []) == (trace', Success(result.value))
        else if !env.ShouldRetry(result.error, attempt) then DispatchFrom(env, 0, []) == (trace', RunFailed(result.error))
        else Resumes(env, trace', attempt + 1, excluded + [lease.token])
  {
    hide AttemptEvents;
    assert trace + [] == trace;
    var answer := env.reserve(attempt, excluded);
    if answer.Leased? {
      var now := AttemptEvents(env, answer.lease, env.run(attempt, answer.lease));
      var later := DispatchFrom(env, attempt + 1, excluded + [answer.lease.token]).0;
      assert trace + (now + later) == trace + now + later;
    }
  }

  lemma ResumesAtEnd<T, E>(env: Env<T, E>, trace: seq<Event>, attempt: nat, excluded: seq<string>)
    requires Resumes(env, trace, attempt, excluded) && attempt >= env.MaxAttempts()
    ensures DispatchFrom(env, 0, []) == (trace, AfterLoop)
  {
    assert trace + [] == trace;
  }

  method RunAccountDispatch<T, E>(env: Env<T, E>) returns (trace: seq<Event>, outcome: Outcome<T, E>)
    ensures (trace, outcome) == DispatchFrom(env, 0, [])
  {
    hide Resumes, DispatchFrom, AttemptEvents;
    trace := [];
    var excluded := [];
    var attempt: nat := 0;
    ResumesAtStart(env);
    while attempt < env.MaxAttempts()
      invariant attempt <= env.MaxAttempts() && Resumes(env, trace, attempt, excluded)
    {
      ResumesOn(env, trace, attempt, excluded);
      var answer := env.reserve(attempt, excluded);
      if answer.ReserveError? {
        return trace, ReserveFailed(answer.error);
      }
      if answer.NoAccount? {
        return trace, NoAccounts;
      }
      var lease := answer.lease;
      var events, result := RunAttempt(env, attempt, lease);
      trace := trace + events;
      if result.Ok? {
        return trace, Success(result.value);
      }
      if !env.ShouldRetry(result.error, attempt) {
        return trace, RunFailed(result.error);
      }
      excluded := excluded + [lease.token];
      attempt := attempt + 1;
    }
    ResumesAtEnd(env, trace, attempt, excluded);
    outcome := AfterLoop;
  }

  // ---- When an attempt is repeated ----------------------------------------

  /** An error worth another attempt: the caller's own verdict if it gave one, and else that the upstream
      answered with one of the listed statuses. */
  ghost predicate WorthRetrying<T, E>(env: Env<T, E>, err: E) {
    match env.retryable
    case Some(verdict) => verdict(err)
    case None => exists k :: 0 <= k < |env.statusCodes| && env.statusOf(err) == Some(env.statusCodes[k])
  }

  /** An attempt that failed with this error is followed by another. */
  ghost predicate Repeats<T, E>(env: Env<T, E>, err: E, attempt: nat) {
    attempt + 1 < env.maxAttempts && WorthRetrying(env, err)
  }

  lemma RepeatsIs<T, E>(env: Env<T, E>, err: E, attempt: nat)
    ensures env.ShouldRetry(err, attempt) <==> Repeats(env, err, attempt)
  {
    if env.retryable.None? && env.statusOf(err).Some? && env.statusOf(err).value in env.statusCodes {
      var k :| 0 <= k < |env.statusCodes| && env.statusCodes[k] == env.statusOf(err).value;
    }
  }

  /** The trace of one attempt: the lease is taken, used and given back, and then the caller's feedback kind,
      unless it has none to give, is sent for the account. */
  ghost predicate AttemptTraceIs<T, E>(env: Env<T, E>, lease: Lease, error: Option<E>, now: seq<Event>) {
    var kind := match env.feedback case None => "" case Some(kindOf) => kindOf(error);
    now == if kind == "" then [Reserved(lease), Ran(lease), Released(lease)]
           else [Reserved(lease), Ran(lease), Released(lease), FeedbackSent(lease.token, kind, lease.mode)]
  }

  /** What a dispatch does from any attempt on. Without a lease it ends there. A result ends it. A failure worth
      retrying with attempts left is followed by the dispatch with that token excluded as well; any other
      failure, and any failure of the last attempt, ends it with its error. */
  lemma AttemptDecides<T, E>(env: Env<T, E>, attempt: nat, excluded: seq<string>) returns (now: seq<Event>)
    requires attempt == 0 || attempt < env.maxAttempts
    ensures match env.reserve(attempt, excluded)
      case ReserveError(e) => DispatchFrom(env, attempt, excluded) == ([], ReserveFailed(e))
      case NoAccount => DispatchFrom(env, attempt, excluded) == ([], NoAccounts)
      case Leased(lease) =>
        var result := env.run(attempt, lease);
        && AttemptTraceIs(env, lease, if result.Ok? then None else Some(result.error), now)
        && match result
           case Ok(v) => DispatchFrom(env, attempt, excluded) == (now, Success(v))
           case Err(e) =>
             if Repeats(env, e, attempt) then
               var (later, outcome) := DispatchFrom(env, attempt + 1, excluded + [lease.token]);
               DispatchFrom(env, attempt, excluded) == (now + later, outcome)
             else DispatchFrom(env, attempt, excluded) == (now, RunFailed(e))
  {
    now := [];
    var answer := env.reserve(attempt, excluded);
    if answer.Leased? {
      var result := env.run(attempt, answer.lease);
      now := AttemptEvents(env, answer.lease, result);
      if result.Err? {
        RepeatsIs(env, result.error, attempt);
      }
    }
  }

  // ---- Leases in a trace --------------------------------------------------

  /** Follows a trace with at most one lease in hand: a reserve needs empty hands, a run and a release
      need the lease they name. None when the trace breaks that. */
  function Held(trace: seq<Event>, held: Option<Lease>): Option<Option<Lease>> {
    if trace == [] then Some(held)
    else match trace[0]
      case Reserved(l) => if held == None then Held(trace[1..], Some(l)) else None
      case Ran(l) => if held == Some(l) then Held(trace[1..], held) else None
      case Released(l) => if held == Some(l) then Held(trace[1..], None) else None
      case FeedbackSent(_, _, _) => if held == None then Held(trace[1..], held) else None
  }

  function Tokens(trace: seq<Event>): seq<string> {
    if trace == [] then []
    else (if trace[0].Reserved? then [trace[0].lease.token] else []) + Tokens(trace[1..])
  }

  lemma {:induction false} HeldConcat(a: seq<Event>, b: seq<Event>, held: Option<Lease>)
    requires Held(a, held).Some?
    ensures Held(a + b, held) == Held(b, Held(a, held).value)
  {
    if a == [] {
      assert a + b == b;
    } else {
      assert (a + b)[1..] == a[1..] + b;
      var next := match a[0]
        case Reserved(l) => Some(l)
        case Released(_) => None
        case _ => held;
      HeldConcat(a[1..], b, next);
    }
  }

  lemma {:induction false} TokensConcat(a: seq<Event>, b: seq<Event>)
    ensures Tokens(a + b) == Tokens(a) + Tokens(b)
  {
    if a == [] {
      assert a + b == b;
    } else {
      assert (a + b)[1..] == a[1..] + b;
      TokensConcat(a[1..], b);
    }
  }

  /** One attempt's events hold and give back exactly its own lease. */
  lemma AttemptTrace<T, E>(env: Env<T, E>, lease: Lease, result: Result<T, E>)
    ensures var now := AttemptEvents(env, lease, result);
      && Held(now, None) == Some(None) && Tokens(now) == [lease.token]
  {
    var f := env.FeedbackOf(lease, result);
    var now := [Reserved(lease), Ran(lease), Released(lease)] + f;
    assert now[1..] == [Ran(lease), Released(lease)] + f;
    assert now[1..][1..] == [Released(lease)] + f;
    assert now[1..][1..][1..] == f;
    assert f != [] ==> f[1..] == [];
    assert Held(f, None) == Some(None) && Tokens(f) == [];
    assert Held(now[1..][1..], Some(lease)) == Held(f, None);
    assert Held(now[1..], Some(lease)) == Held(now[1..][1..], Some(lease));
    assert Tokens(now[1..][1..]) == [] && Tokens(now[1..]) == [];
  }

  /** Each successful reserve is followed by exactly one release, of the same lease, before the next
      reserve or the return. */
  lemma {:induction false} EveryLeaseReturned<T, E>(env: Env<T, E>, attempt: nat, excluded: seq<string>)
    ensures Held(DispatchFrom(env, attempt, excluded).0, None) == Some(None)
    decreases env.MaxAttempts() - attempt
  {
    if attempt < env.MaxAttempts() {
      var answer := env.reserve(attempt, excluded);
      if answer.Leased? {
        var lease := answer.lease;
        var result := env.run(attempt, lease);
        AttemptTrace(env, lease, result);
        if result.Err? && env.ShouldRetry(result.error, attempt) {
          EveryLeaseReturned(env, attempt + 1, excluded + [lease.token]);
          HeldConcat(AttemptEvents(env, lease, result),
                     DispatchFrom(env, attempt + 1, excluded + [lease.token]).0, None);
        }
      }
    }
  }

  ghost predicate Distinct(s: seq<string>) {
    forall i, j :: 0 <= i < j < |s| ==> s[i] != s[j]
  }

  /** No attempt of the dispatch from here on is answered with an excluded token. */
  ghost predicate Honoured<T, E>(env: Env<T, E>, attempt: nat, excluded: seq<string>)
    decreases env.MaxAttempts() - attempt
  {
    attempt < env.MaxAttempts() && env.reserve(attempt, excluded).Leased? ==>
      var lease := env.reserve(attempt, excluded).lease;
      var result := env.run(attempt, lease);
      && lease.token !in excluded
      && (result.Err? && env.ShouldRetry(result.error, attempt) ==> Honoured(env, attempt + 1, excluded + [lease.token]))
  }

  /** Attempts stay within the limit, and a directory that honours exclusion is never asked to use one
      token twice. */
  lemma {:induction false} TokensDistinct<T, E>(env: Env<T, E>, attempt: nat, excluded: seq<string>)
    requires attempt <= env.MaxAttempts()
    ensures |Tokens(DispatchFrom(env, attempt, excluded).0)| <= env.MaxAttempts() - attempt
    ensures Honoured(env, attempt, excluded) ==>
      && Distinct(Tokens(DispatchFrom(env, attempt, excluded).0))
      && forall tok :: tok in Tokens(DispatchFrom(env, attempt, excluded).0) ==> tok !in excluded
    decreases env.MaxAttempts() - attempt
  {
    if attempt < env.MaxAttempts() {
      var answer := env.reserve(attempt, excluded);
      if answer.Leased? {
        var lease := answer.lease;
        var result := env.run(attempt, lease);
        var now := AttemptEvents(env, lease, result);
        AttemptTrace(env, lease, result);
        if result.Err? && env.ShouldRetry(result.error, attempt) {
          TokensDistinct(env, attempt + 1, excluded + [lease.token]);
          var later := DispatchFrom(env, attempt + 1, excluded + [lease.token]).0;
          TokensConcat(now, later);
          assert Tokens(DispatchFrom(env, attempt, excluded).0) == [lease.token] + Tokens(later);
          if Honoured(env, attempt, excluded) {
            assert lease.token in excluded + [lease.token];
            assert forall tok :: tok in excluded ==> tok in excluded + [lease.token];
          }
        }
      }
    }
  }

  /** The statement behind the loop is never reached: the last attempt never asks for another. */
  lemma {:induction false} AfterLoopUnreachable<T, E>(env: Env<T, E>, attempt: nat, excluded: seq<string>)
    requires attempt < env.MaxAttempts()
    ensures DispatchFrom(env, attempt, excluded).1 != AfterLoop
    decreases env.MaxAttempts() - attempt
  {
    var answer := env.reserve(attempt, excluded);
    if answer.Leased? {
      var result := env.run(attempt, answer.lease);
      if result.Err? && env.ShouldRetry(result.error, attempt) {
        AfterLoopUnreachable(env, attempt + 1, excluded + [answer.lease.token]);
      }
    }
  }

  /** One attempt that failed and was worth retrying. */
  ghost predicate Retries<T, E>(env: Env<T, E>, tried: seq<string>, token: string) {
    var k := |tried|;
    var answer := env.reserve(k, tried);
    answer.Leased? && answer.lease.token == token
    && env.run(k, answer.lease).Err? && Repeats(env, env.run(k, answer.lease).error, k)
  }

  /** The tokens tried before attempt k of a dispatch in which every earlier attempt was retried. */
  ghost predicate RetriedUpTo<T, E>(env: Env<T, E>, tokens: seq<string>) {
    tokens == [] ||
    var k := |tokens| - 1;
    RetriedUpTo(env, tokens[..k]) && Retries(env, tokens[..k], tokens[k])
  }

  lemma RetryStep<T, E>(env: Env<T, E>, tried: seq<string>, token: string)
    requires RetriedUpTo(env, tried) && |tried| < env.MaxAttempts() && Retries(env, tried, token)
    ensures RetriedUpTo(env, tried + [token]) && |tried| + 1 < env.MaxAttempts()
    ensures DispatchFrom(env, |tried|, tried).1 == DispatchFrom(env, |tried| + 1, tried + [token]).1
  {
    hide AttemptEvents, WorthRetrying;
    var k := |tried|;
    RepeatsIs(env, env.run(k, env.reserve(k, tried).lease).error, k);
    assert (tried + [token])[..|tried|] == tried;
  }

  /** What the outcome of a dispatch says of its last attempt, made after the tokens in `last`. */
  ghost predicate EndsWith<T, E>(env: Env<T, E>, last: seq<string>, outcome: Outcome<T, E>) {
    var k := |last|;
    var answer := env.reserve(k, last);
    match outcome
    case Success(v) => answer.Leased? && env.run(k, answer.lease) == Ok(v)
    case RunFailed(e) => answer.Leased? && env.run(k, answer.lease) == Err(e) && !Repeats(env, e, k)
    case ReserveFailed(e) => answer == ReserveError(e)
    case NoAccounts => answer == NoAccount
    case AfterLoop => false
  }

  lemma LastAttempt<T, E>(env: Env<T, E>, tried: seq<string>)
    requires |tried| < env.MaxAttempts() && forall token :: !Retries(env, tried, token)
    ensures EndsWith(env, tried, DispatchFrom(env, |tried|, tried).1)
  {
    hide AttemptEvents;
    var answer := env.reserve(|tried|, tried);
    if answer.Leased? {
      assert !Retries(env, tried, answer.lease.token);
      var result := env.run(|tried|, answer.lease);
      if result.Err? {
        RepeatsIs(env, result.error, |tried|);
      }
    }
  }

  /** How a dispatch ends, and after which attempt: every attempt before it failed and was worth
      retrying, and the last one succeeded, failed for good, or found no account. */
  lemma {:induction false} HowItEnds<T, E>(env: Env<T, E>, tried: seq<string>) returns (last: seq<string>)
    requires RetriedUpTo(env, tried) && |tried| < env.MaxAttempts()
    ensures RetriedUpTo(env, last) && |last| < env.MaxAttempts() && tried <= last
    ensures EndsWith(env, last, DispatchFrom(env, |tried|, tried).1)
    decreases env.MaxAttempts() - |tried|
  {
    hide RetriedUpTo, DispatchFrom, Retries, EndsWith;
    if token :| Retries(env, tried, token) {
      RetryStep(env, tried, token);
      last := HowItEnds(env, tried + [token]);
    } else {
      last := tried;
      LastAttempt(env, tried);
    }
  }
}
