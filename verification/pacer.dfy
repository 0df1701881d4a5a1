/** The console model pacer (console_rate_limit.go): one lock and one next-allowed time per model.
    Times are nanoseconds; a model nobody has paced yet is free from time zero. */
module Pacer {
  import opened Wrappers

  datatype Outcome = Granted | Busy | Cancelled

  /** What a caller holding the model's lock decides at time `now`, having asked at `start`. */
  datatype Decision = GrantNow | Sleep(until: int) | Reject

  function Decide(next: int, start: int, now: int, maxWait: int): Decision {
    if next <= now then GrantNow
    else if maxWait > 0 && next - now > maxWait - (now - start) then Reject
    else Sleep(next)
  }

  /** A caller that must sleep is admitted exactly when its grant is planned within its maximum wait. */
  lemma AdmittedWithinWait(next: int, start: int, now: int, maxWait: int)
    ensures Decide(next, start, now, maxWait).Sleep? <==> next > now && (maxWait <= 0 || next <= start + maxWait)
    ensures Decide(next, start, now, maxWait).Reject? <==> next > now && maxWait > 0 && next > start + maxWait
    ensures Decide(next, start, now, maxWait).GrantNow? <==> next <= now
  {
  }

  /** How a call's way to the model's lock ends: its context ends at the lock of the queue itself, before the
      model has a state, or at the model's lock; it waits there too long; or it gets the lock at a time. */
  datatype Locking = EndedEarly | Ended | TimedOut | Got(at: int)

  class PacerQueue {
    var states: map<string, int>

    constructor ()
      ensures states == map[]
    {
      states := map[];
    }

    function Next(model: string): int
      reads this
    {
      if model in states then states[model] else 0
    }

    method State(model: string)
      modifies this
      ensures model in states && states == old(states)[model := old(Next(model))]
    {
      if model !in states {
        states := states[model := 0];
      }
    }

    /** One call of `Wait`, given what happens to it on the way to the lock and, if it sleeps, when it wakes,
        or that it is cancelled. Only a positive maximum wait sets a timer, and a sleeper wakes no earlier
        than planned. */
    method Wait(model: string, interval: int, maxWait: int, start: int, lock: Locking, wake: Option<int>)
      returns (outcome: Outcome, ghost grant: int)
      requires lock.Got? ==> start <= lock.at
      requires lock.TimedOut? ==> maxWait > 0
      requires wake.Some? ==> Next(model) <= wake.value
      modifies this
      ensures interval <= 0 ==> outcome == Granted && states == old(states)
      ensures interval > 0 ==> (model in states <==> model in old(states) || lock != EndedEarly)
      ensures forall m :: m != model ==> Next(m) == old(Next(m))
      ensures interval > 0 && outcome == Granted ==> old(Next(model)) <= grant && Next(model) == grant + interval
      ensures outcome != Granted ==> Next(model) == old(Next(model))
      ensures interval > 0 ==> (outcome == Busy <==>
        lock.TimedOut? || (lock.Got? && Decide(old(Next(model)), start, lock.at, maxWait).Reject?))
      ensures interval > 0 ==> (outcome == Cancelled <==>
        lock.Ended? || lock.EndedEarly?
        || (lock.Got? && Decide(old(Next(model)), start, lock.at, maxWait).Sleep? && wake.None?))
      ensures interval > 0 && outcome == Granted ==>
        lock.Got? && grant == if old(Next(model)) <= lock.at then lock.at else wake.GetOr(start)
    {
      if interval <= 0 {
        return Granted, start;
      }
      if lock.EndedEarly? {
        return Cancelled, start;
      }
      State(model);
      if lock.Ended? {
        return Cancelled, start;
      }
      if lock.TimedOut? {
        return Busy, start;
      }
      var now := lock.at;
      if states[model] > now {
        if maxWait > 0 && states[model] - now > maxWait - (now - start) {
          return Busy, now;
        }
        if wake.None? {
          return Cancelled, now;
        }
        now := wake.value;
      }
      states := states[model := now + interval];
      return Granted, now;
    }

    /** Pushes the next grant out, once it has the lock; it never pulls it in. It waits without a timer. */
    method Delay(model: string, delay: int, lock: Locking) returns (ok: bool)
      requires !lock.TimedOut?
      modifies this
      ensures ok <==> delay <= 0 || lock.Got?
      ensures delay <= 0 ==> states == old(states)
      ensures delay > 0 && lock.Got? ==> model in states && Next(model) == Max(old(Next(model)), lock.at + delay)
      ensures !ok ==> Next(model) == old(Next(model))
      ensures forall m :: m != model ==> Next(m) == old(Next(m))
    {
      if delay <= 0 {
        return true;
      }
      if lock.EndedEarly? {
        return false;
      }
      State(model);
      if lock.Ended? {
        return false;
      }
      if lock.at + delay > states[model] {
        states := states[model := lock.at + delay];
      }
      return true;
    }
  }

  // ---- Interleaved callers ------------------------------------------------

  /** A caller waits for a model's lock, sleeps while holding it, or holds it about to delay. */
  datatype Pc = Idle
              | Queued(model: string, maxWait: int, start: int)
              | Sleeping(model: string, until: int)
              | Delaying(model: string, delay: int)

  /** Grant times and delay ends are kept as history, per model, in the order they happen. */
  datatype Sys = Sys(clock: int, next: map<string, int>, holder: map<string, nat>, pcs: map<nat, Pc>,
                     grants: map<string, seq<int>>, delayEnds: map<string, seq<int>>)
  {
    function At(t: nat): Pc {
      if t in pcs then pcs[t] else Idle
    }

    function Next(m: string): int {
      if m in next then next[m] else 0
    }

    function Grants(m: string): seq<int> {
      if m in grants then grants[m] else []
    }

    function Ends(m: string): seq<int> {
      if m in delayEnds then delayEnds[m] else []
    }
  }

  datatype Event =
    | Tick(now: int)
    | Ask(t: nat, model: string, maxWait: int)
    | Timeout(t: nat)
    | Lock(t: nat)
    | Wake(t: nat)
    | Cancel(t: nat)
    | AskDelay(t: nat, model: string, delay: int)
    | FinishDelay(t: nat)
    | DropDelay(t: nat)

  /** The state after a grant of model m to caller t. */
  function Grant(s: Sys, t: nat, m: string, interval: int): Sys {
    s.(next := s.next[m := s.clock + interval], grants := s.grants[m := s.Grants(m) + [s.clock]],
       holder := s.holder - {m}, pcs := s.pcs[t := Idle])
  }

  /** The state after a queued caller got the lock and decided. */
  function Locked(a: Sys, t: nat, interval: int): Sys
    requires a.At(t).Queued?
  {
    var m := a.At(t).model;
    match Decide(a.Next(m), a.At(t).start, a.clock, a.At(t).maxWait)
    case GrantNow => Grant(a, t, m, interval)
    case Reject => a.(pcs := a.pcs[t := Idle])
    case Sleep(until) => a.(holder := a.holder[m := t], pcs := a.pcs[t := Sleeping(m, until)])
  }

  /** One step, with a fixed positive interval per model. Timers never fire early: a sleeper wakes only
      once the clock has reached its planned time. */
  ghost predicate Step(interval: string -> int, a: Sys, e: Event, b: Sys) {
    match e
    case Tick(now) => now >= a.clock && b == a.(clock := now)
    case Ask(t, m, maxWait) => a.At(t) == Idle && b == a.(pcs := a.pcs[t := Queued(m, maxWait, a.clock)])
    case Timeout(t) => a.At(t).Queued? && b == a.(pcs := a.pcs[t := Idle])
    case Lock(t) =>
      && a.At(t).Queued? && a.At(t).model !in a.holder
      && b == Locked(a, t, interval(a.At(t).model))
    case Wake(t) =>
      a.At(t).Sleeping? && a.At(t).until <= a.clock && b == Grant(a, t, a.At(t).model, interval(a.At(t).model))
    case Cancel(t) =>
      a.At(t).Sleeping? && b == a.(holder := a.holder - {a.At(t).model}, pcs := a.pcs[t := Idle])
    case AskDelay(t, m, delay) =>
      a.At(t) == Idle && delay > 0 && b == a.(pcs := a.pcs[t := Delaying(m, delay)])
    case FinishDelay(t) =>
      && a.At(t).Delaying? && a.At(t).model !in a.holder
      && var m := a.At(t).model;
      var end := a.clock + a.At(t).delay;
      b == a.(next := a.next[m := Max(a.Next(m), end)], delayEnds := a.delayEnds[m := a.Ends(m) + [end]],
              pcs := a.pcs[t := Idle])
    case DropDelay(t) => a.At(t).Delaying? && b == a.(pcs := a.pcs[t := Idle])
  }

  ghost predicate Paced(s: seq<int>, gap: int) {
    forall k :: 0 < k < |s| ==> s[k] >= s[k - 1] + gap
  }

  ghost predicate AllUpTo(s: seq<int>, limit: int) {
    forall k :: 0 <= k < |s| ==> s[k] <= limit
  }

  /** The next-allowed time is past every grant by the interval and past every completed delay. */
  ghost predicate OnPace(gap: int, s: Sys, m: string) {
    Paced(s.Grants(m), gap) && AllUpTo(s.Grants(m), s.Next(m) - gap) && AllUpTo(s.Ends(m), s.Next(m))
  }

  /** A sleeper holds its model's lock and sleeps until exactly the next-allowed time. */
  ghost predicate Sleepers(s: Sys) {
    forall t: nat {:trigger s.At(t)} :: s.At(t).Sleeping? ==>
      s.At(t).model in s.holder && s.holder[s.At(t).model] == t && s.At(t).until == s.Next(s.At(t).model)
  }

  ghost predicate Inv(interval: string -> int, s: Sys) {
    Sleepers(s) && forall m {:trigger OnPace(interval(m), s, m)} :: OnPace(interval(m), s, m)
  }

  /** A model none of whose history changed stays on pace. */
  lemma SamePace(gap: int, a: Sys, b: Sys, m: string)
    requires OnPace(gap, a, m)
    requires b.Next(m) == a.Next(m) && b.Grants(m) == a.Grants(m) && b.Ends(m) == a.Ends(m)
    ensures OnPace(gap, b, m)
  {
  }

  /** A grant at or past the next-allowed time keeps the pace. */
  lemma GrantPace(gap: int, a: Sys, t: nat, m: string, x: string)
    requires gap > 0 && OnPace(gap, a, x) && a.Next(m) <= a.clock
    ensures OnPace(gap, Grant(a, t, m, gap), x)
  {
    if x != m {
      SamePace(gap, a, Grant(a, t, m, gap), x);
    }
  }

  lemma GrantSleepers(a: Sys, t: nat, m: string, gap: int)
    requires Sleepers(a) && (m in a.holder ==> a.holder[m] == t)
    ensures Sleepers(Grant(a, t, m, gap))
  {
    var b := Grant(a, t, m, gap);
    forall u: nat | b.At(u).Sleeping?
      ensures b.At(u).model in b.holder && b.holder[b.At(u).model] == u && b.At(u).until == b.Next(b.At(u).model)
    {
      assert u != t && b.At(u) == a.At(u);
    }
  }

  lemma StepSleepers(interval: string -> int, a: Sys, e: Event, b: Sys)
    requires Sleepers(a) && Step(interval, a, e, b)
    ensures Sleepers(b)
  {
    if e.Wake? || (e.Lock? && Decide(a.Next(a.At(e.t).model), a.At(e.t).start, a.clock, a.At(e.t).maxWait).GrantNow?) {
      assert a.At(e.t).Sleeping? || a.At(e.t).Queued?;
      GrantSleepers(a, e.t, a.At(e.t).model, interval(a.At(e.t).model));
    } else {
      forall u: nat | b.At(u).Sleeping?
        ensures b.At(u).model in b.holder && b.holder[b.At(u).model] == u && b.At(u).until == b.Next(b.At(u).model)
      {
        assert (!e.Tick? && u == e.t) || b.At(u) == a.At(u);
        assert a.At(u).Sleeping? || (e.Lock? && u == e.t);
      }
    }
  }

  lemma StepPace(interval: string -> int, a: Sys, e: Event, b: Sys, x: string)
    requires (forall m :: interval(m) > 0) && Sleepers(a) && OnPace(interval(x), a, x) && Step(interval, a, e, b)
    ensures OnPace(interval(x), b, x)
  {
    if e.Wake? || (e.Lock? && Decide(a.Next(a.At(e.t).model), a.At(e.t).start, a.clock, a.At(e.t).maxWait).GrantNow?) {
      var m := a.At(e.t).model;
      assert a.Next(m) <= a.clock;
      if m == x {
        GrantPace(interval(x), a, e.t, m, x);
      } else {
        SamePace(interval(x), a, b, x);
      }
    } else if e.FinishDelay? && a.At(e.t).model == x {
      assert b.Grants(x) == a.Grants(x) && b.Ends(x) == a.Ends(x) + [a.clock + a.At(e.t).delay];
    } else {
      SamePace(interval(x), a, b, x);
    }
  }

  lemma StepInv(interval: string -> int, a: Sys, e: Event, b: Sys)
    requires (forall m :: interval(m) > 0) && Inv(interval, a) && Step(interval, a, e, b)
    ensures Inv(interval, b)
  {
    StepSleepers(interval, a, e, b);
    forall x ensures OnPace(interval(x), b, x) {
      StepPace(interval, a, e, b, x);
    }
  }

  ghost predicate Initial(s: Sys) {
    s.next == map[] && s.holder == map[] && s.pcs == map[] && s.grants == map[] && s.delayEnds == map[]
  }

  ghost predicate IsRun(interval: string -> int, states: seq<Sys>, events: seq<Event>) {
    && |states| == |events| + 1
    && forall k :: 0 <= k < |events| ==> Step(interval, states[k], events[k], states[k + 1])
  }

  lemma {:induction false} RunInv(interval: string -> int, states: seq<Sys>, events: seq<Event>, k: nat)
    requires (forall m :: interval(m) > 0) && IsRun(interval, states, events) && Initial(states[0]) && k < |states|
    ensures Inv(interval, states[k])
  {
    if k > 0 {
      RunInv(interval, states, events, k - 1);
      StepInv(interval, states[k - 1], events[k - 1], states[k]);
    }
  }

  lemma {:induction false} PacedSpan(s: seq<int>, gap: int)
    requires s != [] && Paced(s, gap)
    ensures s[|s| - 1] - s[0] >= (|s| - 1) * gap
  {
    if |s| > 1 {
      var t := s[..|s| - 1];
      PacedSpan(t, gap);
      assert (|s| - 1) * gap == (|s| - 2) * gap + gap;
    }
  }

  /** The rate bound: along any run, k grants of one model span at least (k - 1) intervals. */
  lemma RateBound(interval: string -> int, states: seq<Sys>, events: seq<Event>, model: string, i: nat, j: nat)
    requires (forall m :: interval(m) > 0) && IsRun(interval, states, events) && Initial(states[0])
    requires var g := states[|events|].Grants(model); i <= j < |g|
    ensures var g := states[|events|].Grants(model); g[j] - g[i] >= (j - i) * interval(model)
  {
    RunInv(interval, states, events, |events|);
    assert OnPace(interval(model), states[|events|], model);
    var g := states[|events|].Grants(model);
    var window := g[i..j + 1];
    assert Paced(window, interval(model)) by {
      forall k | 0 < k < |window| ensures window[k] >= window[k - 1] + interval(model) {
        assert window[k] == g[i + k] && window[k - 1] == g[i + k - 1];
      }
    }
    PacedSpan(window, interval(model));
  }

  /** No grant of a model comes before the end of any delay of it that had completed by then, and a
      grant is never before the model's next-allowed time. */
  lemma GrantsRespectDelays(interval: string -> int, a: Sys, e: Event, b: Sys, model: string, k: nat)
    requires (forall m :: interval(m) > 0) && Inv(interval, a) && Step(interval, a, e, b)
    requires |b.Grants(model)| > |a.Grants(model)| && k < |a.Ends(model)|
    ensures b.Grants(model) == a.Grants(model) + [a.clock] && a.Next(model) <= a.clock
    ensures a.Ends(model)[k] <= a.clock
  {
    assert OnPace(interval(model), a, model);
    if e.Wake? {
      assert a.At(e.t).until == a.Next(a.At(e.t).model);
    }
  }

  /** Rejections, timeouts and cancellations, of a wait or a delay, leave every next-allowed time as it was. */
  lemma RefusalsChangeNothing(interval: string -> int, a: Sys, e: Event, b: Sys)
    requires Step(interval, a, e, b)
    requires e.Timeout? || e.Cancel? || e.DropDelay?
          || (e.Lock? && Decide(a.Next(a.At(e.t).model), a.At(e.t).start, a.clock, a.At(e.t).maxWait).Reject?)
    ensures b.next == a.next && b.grants == a.grants
  {
  }
}
