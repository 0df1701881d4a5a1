/** Interleaved callers of the clearance directory: single-flight refreshes and the circuit breaker,
    over every run of lookups, waits, refreshes, reloads, feedback and scheduled refreshes. */
module ProxyRuns {
  import opened Wrappers
  import opened ProxyModel

  /** Where a caller stands. A winner refreshes, has recorded the answer, has dropped the event from the
      directory, and then closes it. */
  datatype Pc = Idle
              | Waiting(key: Key, event: nat)
              | Refreshing(key: Key, event: nat)
              | Recorded(key: Key, event: nat)
              | Dropped(key: Key, event: nat)
  {
    predicate Owns(e: nat) {
      (Refreshing? || Recorded? || Dropped?) && event == e
    }

    /** In the provider call or not yet out of the directory's books. */
    predicate InFlight(k: Key) {
      (Refreshing? || Recorded?) && key == k
    }
  }

  /** The directory, the callers, and the history: events closed, who won each event, and each key's
      last uncleared failure. */
  datatype Sys = Sys(dir: Dir, pcs: map<nat, Pc>, nextEvent: nat, closed: set<nat>, clock: int,
                     owner: map<nat, nat>, lastFailure: map<Key, int>)
  {
    function At(t: nat): Pc {
      if t in pcs then pcs[t] else Idle
    }

    function Go(t: nat, pc: Pc): Sys {
      this.(pcs := pcs[t := pc])
    }
  }

  datatype Event =
    | Ask(t: nat, key: Key, now1: int, now2: int, answer: Answer)
    | GiveUp(t: nat)
    | Provide(t: nat, provided: Provided, now1: int, now2: int)
    | Drop(t: nat)
    | Close(t: nat)
    | Scheduled(key: Key, provided: Provided, now1: int, now2: int)
    | Reconfigure(valid: set<string>, mode: Mode)
    | Challenge(key: Key)
    | InvalidateAllBundles

  function NextPc(key: Key, a: Answer): Pc {
    match a
    case WaitOn(e) => Waiting(key, e)
    case Win(e) => Refreshing(key, e)
    case _ => Idle
  }

  /** The last failure of a key that no success and no key-dropping reload has cleared since. */
  function NoteProvided(lastFailure: map<Key, int>, key: Key, p: Provided, now: int): map<Key, int> {
    match p
    case ProviderError => lastFailure
    case NoBundle(_) => lastFailure[key := now]
    case Built(_) => lastFailure - {key}
  }

  /** One step at nondecreasing clock readings, under one backoff configuration. A waiter asks again
      once its event is closed; a caller may give up waiting. */
  ghost predicate Step(c: Backoff, a: Sys, e: Event, b: Sys)
    requires Counted(a.dir)
  {
    match e
    case Ask(t, key, now1, now2, answer) =>
      && a.clock <= now1 <= now2
      && (a.At(t) == Idle || (a.At(t).Waiting? && a.At(t).key == key && a.At(t).event in a.closed))
      && answer == Lookup(a.dir, key, now1, now2, a.nextEvent).1
      && b == a.(dir := Lookup(a.dir, key, now1, now2, a.nextEvent).0, clock := now2,
                 nextEvent := if answer.Win? then a.nextEvent + 1 else a.nextEvent,
                 owner := if answer.Win? then a.owner[a.nextEvent := t] else a.owner).Go(t, NextPc(key, answer))
    case GiveUp(t) => a.At(t).Waiting? && b == a.Go(t, Idle)
    case Provide(t, p, now1, now2) =>
      && a.clock <= now1 <= now2 && a.At(t).Refreshing?
      && var key := a.At(t).key;
      b == a.(dir := RecordProvided(a.dir, key, p, c, now1, now2).0, clock := now2,
              lastFailure := NoteProvided(a.lastFailure, key, p, now1)).Go(t, Recorded(key, a.At(t).event))
    case Drop(t) =>
      a.At(t).Recorded? && b == a.(dir := Forget(a.dir, a.At(t).key)).Go(t, Dropped(a.At(t).key, a.At(t).event))
    case Close(t) =>
      a.At(t).Dropped? && b == a.(closed := a.closed + {a.At(t).event}).Go(t, Idle)
    case Scheduled(key, p, now1, now2) =>
      && a.clock <= now1 <= now2
      && b == a.(dir := match p
                   case ProviderError => a.dir
                   case NoBundle(diag) => RecordBundleFailure(a.dir, key, diag, c, now1, now2)
                   case Built(bundle) => RecordSuccess(a.dir, key, bundle, now1),
                 clock := now2, lastFailure := NoteProvided(a.lastFailure, key, p, now1))
    case Reconfigure(valid, mode) =>
      b == a.(dir := Reload(a.dir, valid, mode),
              lastFailure := KeepAffinity(a.lastFailure, valid))
    case Challenge(key) => b == a.(dir := InvalidateKey(a.dir, key))
    case InvalidateAllBundles => b == a.(dir := InvalidateAll(a.dir))
  }

  ghost predicate Initial(y: Sys) {
    y.dir.events == map[] && y.dir.backoff == map[] && y.dir.failures == map[]
    && y.pcs == map[] && y.nextEvent == 0 && y.closed == {} && y.owner == map[] && y.lastFailure == map[]
  }

  ghost predicate IsRun(c: Backoff, states: seq<Sys>, events: seq<Event>) {
    && |states| == |events| + 1
    && forall k :: 0 <= k < |events| ==> Counted(states[k].dir) && Step(c, states[k], events[k], states[k + 1])
  }

  // ---- Every event has one owner until that owner closes it ---------------

  /** Every event has one winner, which owns it from its creation until it closes it. */
  ghost predicate Owned(y: Sys) {
    && (forall e: nat {:trigger e in y.owner} :: e in y.owner <==> e < y.nextEvent)
    && (forall e: nat {:trigger e in y.closed} :: e in y.closed ==> e in y.owner)
    && (forall t: nat, e: nat {:trigger y.At(t).Owns(e)} :: y.At(t).Owns(e) ==> e in y.owner && e !in y.closed && y.owner[e] == t)
    && (forall e: nat {:trigger y.owner[e]} :: e in y.owner && e !in y.closed ==> y.At(y.owner[e]).Owns(e))
    && (forall t: nat {:trigger y.At(t)} :: y.At(t).Waiting? ==> y.At(t).event in y.owner)
  }

  /** Only events still in flight in their winner's hands are registered, under the winner's key. */
  ghost predicate Registered(y: Sys) {
    forall k {:trigger y.dir.events[k]} :: k in y.dir.events ==>
      var e := y.dir.events[k];
      e in y.owner && y.At(y.owner[e]).InFlight(k) && y.At(y.owner[e]).event == e
  }

  ghost predicate Sound(y: Sys) {
    Counted(y.dir) && Owned(y) && Registered(y)
  }

  lemma AskOwned(a: Sys, t: nat, key: Key, answer: Answer, b: Sys)
    requires Owned(a) && (a.At(t) == Idle || a.At(t).Waiting?)
    requires answer.WaitOn? ==> answer.event in a.owner
    requires answer.Win? ==> answer.event == a.nextEvent
    requires b == a.(dir := b.dir, clock := b.clock,
                     nextEvent := if answer.Win? then a.nextEvent + 1 else a.nextEvent,
                     owner := if answer.Win? then a.owner[a.nextEvent := t] else a.owner).Go(t, NextPc(key, answer))
    ensures Owned(b)
  {
    assert forall u: nat :: u != t ==> b.At(u) == a.At(u);
    assert forall e: nat :: !a.At(t).Owns(e);
    assert a.nextEvent !in a.owner && a.nextEvent !in a.closed;
  }

  lemma AskRegistered(a: Sys, t: nat, key: Key, answer: Answer, b: Sys)
    requires Owned(a) && Registered(a) && (a.At(t) == Idle || a.At(t).Waiting?)
    requires answer.Win? ==> answer.event == a.nextEvent && b.dir.events == a.dir.events[key := a.nextEvent]
    requires !answer.Win? ==> b.dir.events == a.dir.events
    requires b == a.(dir := b.dir, clock := b.clock,
                     nextEvent := if answer.Win? then a.nextEvent + 1 else a.nextEvent,
                     owner := if answer.Win? then a.owner[a.nextEvent := t] else a.owner).Go(t, NextPc(key, answer))
    ensures Registered(b)
  {
    assert forall u: nat :: u != t ==> b.At(u) == a.At(u);
    forall k | k in b.dir.events
      ensures var e := b.dir.events[k]; e in b.owner && b.At(b.owner[e]).InFlight(k) && b.At(b.owner[e]).event == e
    {
      if !(answer.Win? && k == key) {
        assert a.dir.events[k] == b.dir.events[k] && a.dir.events[k] != a.nextEvent;
      }
    }
  }

  lemma AskSound(c: Backoff, a: Sys, e: Event, b: Sys)
    requires Sound(a) && e.Ask? && Step(c, a, e, b)
    ensures Sound(b)
  {
    LookupFrame(a.dir, e.key, e.now1, e.now2, a.nextEvent);
    hide Lookup;
    assert e.answer.WaitOn? ==> e.answer.event in a.owner by {
      assert e.answer.WaitOn? ==> a.dir.events[e.key] == e.answer.event;
    }
    hide Owned, Registered;
    AskOwned(a, e.t, e.key, e.answer, b);
    AskRegistered(a, e.t, e.key, e.answer, b);
  }

  lemma ProvideSound(c: Backoff, a: Sys, e: Event, b: Sys)
    requires Sane(c) && Sound(a) && e.Provide? && Step(c, a, e, b)
    ensures Sound(b)
  {
    ProvidedFrame(a.dir, a.At(e.t).key, e.provided, c, e.now1, e.now2);
    hide RecordProvided;
    assert forall u: nat :: u != e.t ==> b.At(u) == a.At(u);
    assert a.At(e.t).Owns(a.At(e.t).event);
    assert Owned(b);
  }

  lemma DropSound(c: Backoff, a: Sys, e: Event, b: Sys)
    requires Sound(a) && e.Drop? && Step(c, a, e, b)
    ensures Sound(b)
  {
    assert forall u: nat :: u != e.t ==> b.At(u) == a.At(u);
    assert a.At(e.t).Owns(a.At(e.t).event);
    assert Owned(b);
    forall k | k in b.dir.events
      ensures var e' := b.dir.events[k]; e' in b.owner && b.At(b.owner[e']).InFlight(k) && b.At(b.owner[e']).event == e'
    {
      assert a.dir.events[k] == b.dir.events[k] && k != a.At(e.t).key;
    }
  }

  lemma CloseSound(c: Backoff, a: Sys, e: Event, b: Sys)
    requires Sound(a) && e.Close? && Step(c, a, e, b)
    ensures Sound(b)
    ensures a.At(e.t).event !in a.closed && a.owner[a.At(e.t).event] == e.t
  {
    assert a.At(e.t).Owns(a.At(e.t).event);
    assert forall u: nat :: u != e.t ==> b.At(u) == a.At(u);
    assert Owned(b);
  }

  lemma ScheduledSound(c: Backoff, a: Sys, e: Event, b: Sys)
    requires Sane(c) && Sound(a) && e.Scheduled? && Step(c, a, e, b)
    ensures Sound(b)
  {
    ProvidedFrame(a.dir, e.key, e.provided, c, e.now1, e.now2);
    hide RecordProvided, RecordBundleFailure;
    assert b.dir.events == a.dir.events && Counted(b.dir);
    assert forall u: nat :: b.At(u) == a.At(u);
  }

  lemma OtherSound(c: Backoff, a: Sys, e: Event, b: Sys)
    requires Sound(a) && Step(c, a, e, b)
    requires e.GiveUp? || e.Reconfigure? || e.Challenge? || e.InvalidateAllBundles?
    ensures Sound(b)
  {
    assert Counted(b.dir);
    assert forall u: nat :: b.At(u) == a.At(u) || (e.GiveUp? && u == e.t);
    assert Owned(b);
    assert forall k :: k in b.dir.events ==> k in a.dir.events && b.dir.events[k] == a.dir.events[k];
  }

  /** Every step, reloads included, keeps ownership; in particular an event is closed only by its own
      winner and only while still open, so never twice. */
  lemma StepSound(c: Backoff, a: Sys, e: Event, b: Sys)
    requires Sane(c) && Sound(a) && Step(c, a, e, b)
    ensures Sound(b)
    ensures e.Close? ==> a.At(e.t).event !in a.closed && a.owner[a.At(e.t).event] == e.t
    ensures b.closed == if e.Close? then a.closed + {a.At(e.t).event} else a.closed
  {
    hide Sound, Lookup, RecordProvided, RecordBundleFailure;
    match e {
      case Ask(_, _, _, _, _) => AskSound(c, a, e, b);
      case Provide(_, _, _, _) => ProvideSound(c, a, e, b);
      case Drop(_) => DropSound(c, a, e, b);
      case Close(_) => CloseSound(c, a, e, b);
      case Scheduled(_, _, _, _) => ScheduledSound(c, a, e, b);
      case _ => OtherSound(c, a, e, b);
    }
  }

  lemma InitialSound(y: Sys)
    requires Initial(y)
    ensures Sound(y)
  {
    assert forall t: nat :: y.At(t) == Idle;
  }

  /** Every reachable state is sound. */
  lemma {:induction false} RunSound(c: Backoff, states: seq<Sys>, events: seq<Event>, k: nat)
    requires Sane(c) && IsRun(c, states, events) && Initial(states[0]) && k < |states|
    ensures Sound(states[k])
  {
    hide Sound, Step, Initial;
    if k == 0 {
      InitialSound(states[0]);
    } else {
      RunSound(c, states, events, k - 1);
      StepSound(c, states[k - 1], events[k - 1], states[k]);
    }
  }

  /** No waiter is stranded: in any sound state the winner of its event can, in at most three steps of
      its own, close it, and the waiter is still there to notice. */
  lemma WaiterCanResume(c: Backoff, a: Sys, t: nat) returns (states: seq<Sys>, events: seq<Event>)
    requires Sane(c) && Sound(a) && a.At(t).Waiting?
    ensures IsRun(c, states, events) && states[0] == a && |events| <= 3
    ensures var z := states[|events|]; a.At(t).event in z.closed && z.At(t) == a.At(t)
  {
    var e := a.At(t).event;
    if e in a.closed {
      return [a], [];
    }
    var u := a.owner[e];
    assert a.At(u).Owns(e);
    states, events := [a], [];
    var s := a;
    if s.At(u).Refreshing? {
      var ev := Provide(u, ProviderError, s.clock, s.clock);
      var s' := s.Go(u, Recorded(s.At(u).key, e));
      assert Step(c, s, ev, s');
      states, events, s := states + [s'], events + [ev], s';
    }
    if s.At(u).Recorded? {
      var s' := s.(dir := Forget(s.dir, s.At(u).key)).Go(u, Dropped(s.At(u).key, e));
      assert Step(c, s, Drop(u), s');
      states, events, s := states + [s'], events + [Drop(u)], s';
    }
    var s' := s.(closed := s.closed + {e}).Go(u, Idle);
    assert Step(c, s, Close(u), s');
    states, events := states + [s'], events + [Close(u)];
  }

  // ---- Single flight ------------------------------------------------------

  /** Whoever is in flight on a key holds the registered event of that key. */
  ghost predicate SingleFlight(y: Sys, k: Key) {
    forall t: nat {:trigger y.At(t)} :: y.At(t).InFlight(k) ==> k in y.dir.events && y.dir.events[k] == y.At(t).event
  }

  /** Hence at most one provider refresh of the key is in flight. */
  lemma AtMostOneInFlight(y: Sys, k: Key, t: nat, u: nat)
    requires Sound(y) && SingleFlight(y, k) && y.At(t).InFlight(k) && y.At(u).InFlight(k)
    ensures t == u
  {
    assert y.At(t).Owns(y.At(t).event) && y.At(u).Owns(y.At(u).event);
  }

  lemma DropSingleFlight(c: Backoff, a: Sys, e: Event, b: Sys, k: Key)
    requires Sound(a) && SingleFlight(a, k) && e.Drop? && Step(c, a, e, b)
    ensures SingleFlight(b, k)
  {
    forall u: nat | b.At(u).InFlight(k) ensures k in b.dir.events && b.dir.events[k] == b.At(u).event {
      assert u != e.t && b.At(u) == a.At(u);
      if a.At(e.t).key == k {
        AtMostOneInFlight(a, k, e.t, u);
      }
    }
  }

  lemma ReconfigureSingleFlight(c: Backoff, a: Sys, e: Event, b: Sys, k: Key)
    requires Sound(a) && SingleFlight(a, k) && e.Reconfigure? && Step(c, a, e, b)
    ensures SingleFlight(b, k) <==> k.affinity in e.valid || forall t: nat :: !a.At(t).InFlight(k)
  {
    assert forall u: nat :: b.At(u) == a.At(u);
  }

  lemma AskSingleFlight(c: Backoff, a: Sys, e: Event, b: Sys, k: Key)
    requires Sound(a) && SingleFlight(a, k) && e.Ask? && Step(c, a, e, b)
    ensures SingleFlight(b, k)
  {
    LookupFrame(a.dir, e.key, e.now1, e.now2, a.nextEvent);
    hide Lookup, Owned, Registered;
    assert forall u: nat :: u != e.t ==> b.At(u) == a.At(u);
  }

  lemma OtherSingleFlight(c: Backoff, a: Sys, e: Event, b: Sys, k: Key)
    requires Sane(c) && Sound(a) && SingleFlight(a, k) && Step(c, a, e, b)
    requires !e.Reconfigure? && !e.Drop? && !e.Ask?
    ensures SingleFlight(b, k)
  {
    if e.Provide? {
      ProvidedFrame(a.dir, a.At(e.t).key, e.provided, c, e.now1, e.now2);
    }
    if e.Scheduled? {
      ProvidedFrame(a.dir, e.key, e.provided, c, e.now1, e.now2);
    }
    hide RecordProvided, RecordBundleFailure, Owned, Registered;
    assert b.dir.events == a.dir.events;
    assert forall u: nat :: b.At(u).InFlight(k) ==> a.At(u).InFlight(k) && a.At(u).event == b.At(u).event;
  }

  /** Every step but a reload keeps a key's single flight; a reload keeps it exactly when it keeps the
      key or nobody is in flight on it. */
  lemma StepSingleFlight(c: Backoff, a: Sys, e: Event, b: Sys, k: Key)
    requires Sane(c) && Sound(a) && SingleFlight(a, k) && Step(c, a, e, b)
    ensures !e.Reconfigure? ==> SingleFlight(b, k)
    ensures e.Reconfigure? ==> (SingleFlight(b, k) <==> k.affinity in e.valid || forall t: nat :: !a.At(t).InFlight(k))
  {
    hide Step, SingleFlight;
    match e {
      case Reconfigure(_, _) => ReconfigureSingleFlight(c, a, e, b, k);
      case Drop(_) => DropSingleFlight(c, a, e, b, k);
      case Ask(_, _, _, _, _) => AskSingleFlight(c, a, e, b, k);
      case _ => OtherSingleFlight(c, a, e, b, k);
    }
  }

  /** A reload that does not lose a refresh of the key: it keeps the key, or nobody is in flight on it. */
  ghost predicate Spares(y: Sys, e: Event, key: Key) {
    e.Reconfigure? ==> key.affinity in e.valid || forall t: nat :: !y.At(t).InFlight(key)
  }

  lemma InitialSingleFlight(y: Sys, key: Key)
    requires Initial(y)
    ensures SingleFlight(y, key)
  {
    assert forall t: nat :: y.At(t) == Idle;
  }

  lemma AtMostOne(y: Sys, key: Key)
    requires Sound(y) && SingleFlight(y, key)
    ensures forall t: nat, u: nat {:trigger y.At(t), y.At(u)} :: y.At(t).InFlight(key) && y.At(u).InFlight(key) ==> t == u
  {
    hide Sound, SingleFlight;
    forall t: nat, u: nat | y.At(t).InFlight(key) && y.At(u).InFlight(key) ensures t == u {
      AtMostOneInFlight(y, key, t, u);
    }
  }

  /** A key keeps its single flight throughout a run exactly when every reload spares it; then at most one
      refresh of it is ever in flight and the registered event is that winner's. */
  lemma {:induction false} RunSingleFlight(c: Backoff, states: seq<Sys>, events: seq<Event>, key: Key, k: nat)
    requires Sane(c) && IsRun(c, states, events) && Initial(states[0]) && k < |states|
    ensures (forall j :: 0 <= j <= k ==> SingleFlight(states[j], key))
      <==> forall j :: 0 <= j < k ==> Spares(states[j], events[j], key)
    ensures (forall j :: 0 <= j < k ==> Spares(states[j], events[j], key)) ==>
      forall t: nat, u: nat {:trigger states[k].At(t), states[k].At(u)} ::
        states[k].At(t).InFlight(key) && states[k].At(u).InFlight(key) ==> t == u
  {
    hide Sound, Step, Initial, SingleFlight, Spares;
    RunSound(c, states, events, k);
    if k == 0 {
      InitialSingleFlight(states[0], key);
    } else {
      RunSingleFlight(c, states, events, key, k - 1);
      RunSound(c, states, events, k - 1);
      if SingleFlight(states[k - 1], key) {
        SparedStep(c, states[k - 1], events[k - 1], states[k], key);
      }
    }
    if SingleFlight(states[k], key) {
      AtMostOne(states[k], key);
    }
  }

  lemma SparedStep(c: Backoff, a: Sys, e: Event, b: Sys, key: Key)
    requires Sane(c) && Sound(a) && SingleFlight(a, key) && Step(c, a, e, b)
    ensures SingleFlight(b, key) <==> Spares(a, e, key)
  {
    hide Sound, Step, SingleFlight;
    StepSingleFlight(c, a, e, b, key);
  }

  /** A reload that drops a key with a refresh in flight lets a second refresh of it start. */
  lemma DroppingReloadBreaksSingleFlight(c: Backoff) returns (states: seq<Sys>, events: seq<Event>, k: Key)
    requires Sane(c)
    ensures IsRun(c, states, events) && Initial(states[0]) && |events| == 3
    ensures var z := states[3];
      z.At(1).Refreshing? && z.At(2).Refreshing? && z.At(1).key == k == z.At(2).key
  {
    k := Key("p", "h");
    var d := Dir(Manual, map[], map[], map[], map[]);
    var s0 := Sys(d, map[], 0, {}, 0, map[], map[]);
    var s1 := s0.(dir := d.(events := map[k := 0]), nextEvent := 1, owner := map[0 := 1]).Go(1, Refreshing(k, 0));
    var s2 := s1.(dir := d);
    var s3 := s2.(dir := d.(events := map[k := 1]), nextEvent := 2, owner := s2.owner[1 := 2]).Go(2, Refreshing(k, 1));
    AskWins(c, s0, 1, k, s1);
    assert Reload(s1.dir, {}, Manual) == d;
    assert KeepAffinity(s1.lastFailure, {}) == s1.lastFailure;
    assert Step(c, s1, Reconfigure({}, Manual), s2);
    AskWins(c, s2, 2, k, s3);
    states := [s0, s1, s2, s3];
    events := [Ask(1, k, 0, 0, Win(0)), Reconfigure({}, Manual), Ask(2, k, 0, 0, Win(1))];
  }

  /** An idle caller of a quiet key wins. */
  lemma AskWins(c: Backoff, a: Sys, t: nat, k: Key, b: Sys)
    requires Counted(a.dir) && a.dir == Dir(Manual, map[], map[], map[], map[]) && a.clock == 0 && a.At(t) == Idle
    requires b == a.(dir := a.dir.(events := map[k := a.nextEvent]), nextEvent := a.nextEvent + 1,
                     owner := a.owner[a.nextEvent := t]).Go(t, Refreshing(k, a.nextEvent))
    ensures Step(c, a, Ask(t, k, 0, 0, Win(a.nextEvent)), b)
  {
  }

  // ---- Circuit breaker ----------------------------------------------------

  function QuietMs(c: Backoff): int {
    Min(c.baseSec, c.halfOpenSec) * 1000
  }

  /** A key whose failure is not cleared either cools down long enough or has already waited it out. */
  ghost predicate Armed(c: Backoff, y: Sys) {
    forall k :: k in y.lastFailure ==>
      y.clock >= y.lastFailure[k] + QuietMs(c)
      || (k in y.dir.backoff && y.dir.backoff[k] >= y.lastFailure[k] + QuietMs(c))
  }

  /** A failure arms the breaker, a success disarms it, for a winner's refresh and a scheduled one. */
  lemma ProvidedArms(d: Dir, key: Key, p: Provided, c: Backoff, now1: int, now2: int, d': Dir)
    requires Counted(d) && Sane(c) && now1 <= now2
    requires d' == RecordProvided(d, key, p, c, now1, now2).0
          || (p.NoBundle? && d' == RecordBundleFailure(d, key, p.diagnostics, c, now1, now2))
    ensures p.NoBundle? ==> now2 >= now1 + QuietMs(c) || (key in d'.backoff && d'.backoff[key] >= now1 + QuietMs(c))
    ensures forall k :: (k != key || p.ProviderError?) && k in d.backoff ==> k in d'.backoff && d'.backoff[k] == d.backoff[k]
  {
    FailureArms(d, key, c, now1, now2);
    if p.NoBundle? {
      var b := p.diagnostics;
      var named := b.(affinity := if b.affinity == "" then key.affinity else b.affinity,
                      host := if b.host == "" then key.host else b.host, state := Invalid);
      var d1 := d.(bundles := d.bundles[key :=
        if key in d.bundles then d.bundles[key].(lastError := b.lastError) else named]);
      FailureArms(d1, key, c, now1, now2);
      hide RecordFailure;
    }
  }

  lemma StepArmed(c: Backoff, a: Sys, e: Event, b: Sys)
    requires Sane(c) && Counted(a.dir) && Armed(c, a) && Step(c, a, e, b)
    ensures Armed(c, b)
  {
    match e {
      case Ask(_, key, now1, now2, _) =>
        LookupBackoff(a.dir, key, now1, now2, a.nextEvent);
        hide Lookup;
      case Provide(t, p, now1, now2) =>
        ProvidedArms(a.dir, a.At(t).key, p, c, now1, now2, b.dir);
        hide RecordProvided;
      case Scheduled(key, p, now1, now2) =>
        ProvidedArms(a.dir, key, p, c, now1, now2, b.dir);
        hide RecordProvided, RecordBundleFailure;
      case Reconfigure(valid, _) =>
      case _ =>
    }
  }

  /** The breaker: with a failure of the key not cleared by a success or a key-dropping reload, no
      caller starts a refresh of it within the quiet time. */
  lemma NoEarlyRefresh(c: Backoff, a: Sys, e: Event, b: Sys)
    requires Sane(c) && Counted(a.dir) && Armed(c, a) && e.Ask? && Step(c, a, e, b) && e.answer.Win?
    ensures e.key in a.dir.backoff ==> a.dir.backoff[e.key] <= e.now2
    ensures e.key in a.lastFailure ==> e.now2 >= a.lastFailure[e.key] + QuietMs(c)
  {
    WinOnlyWhenQuiet(a.dir, e.key, e.now1, e.now2, a.nextEvent);
    hide Lookup;
  }

  lemma InitialArmed(c: Backoff, y: Sys)
    requires Initial(y)
    ensures Armed(c, y)
  {
  }

  /** The breaker holds at every refresh start of every run. */
  lemma {:induction false} RunArmed(c: Backoff, states: seq<Sys>, events: seq<Event>, k: nat)
    requires Sane(c) && IsRun(c, states, events) && Initial(states[0]) && k < |states|
    ensures Armed(c, states[k])
    ensures k < |events| && events[k].Ask? && events[k].answer.Win? && events[k].key in states[k].lastFailure ==>
      events[k].now2 >= states[k].lastFailure[events[k].key] + QuietMs(c)
  {
    hide Armed, Step, Initial;
    if k == 0 {
      InitialArmed(c, states[0]);
    } else {
      RunArmed(c, states, events, k - 1);
      StepArmed(c, states[k - 1], events[k - 1], states[k]);
    }
    if k < |events| && events[k].Ask? && events[k].answer.Win? {
      NoEarlyRefresh(c, states[k], events[k], states[k + 1]);
    }
  }
}
