/** The proxy clearance directory as a value: bundles, refresh events and failure backoff per key, and
    what each critical section does to them (app/control/proxy). */
module ProxyModel {
  import opened Wrappers

  datatype Key = Key(affinity: string, host: string)

  datatype BundleState = Valid | Stale | Invalid

  datatype Bundle = Bundle(cookies: string, userAgent: string, state: BundleState, affinity: string, host: string,
                           lastRefreshAt: Option<int>, refreshCount: int, lastError: string)

  datatype Mode = NoClearance | Manual | FlareSolverr | Byparr

  /** What a provider answers: an error, no bundle (perhaps with diagnostics), or a bundle. */
  datatype Provided = ProviderError | NoBundle(diagnostics: Bundle) | Built(bundle: Bundle)

  datatype Dir = Dir(mode: Mode, bundles: map<Key, Bundle>, events: map<Key, nat>,
                     backoff: map<Key, int>, failures: map<Key, int>)

  // ---- Backoff ------------------------------------------------------------

  datatype Backoff = Backoff(baseSec: int, maxFails: int, multiplier: real, maxSec: int, halfOpenSec: int)

  predicate Sane(c: Backoff) {
    1 <= c.baseSec <= c.maxSec && 1 <= c.maxFails && c.multiplier >= 1.0 && 1 <= c.halfOpenSec
  }

  /** Whatever the configuration says, the resolved parameters are sane. */
  function ResolveBackoff(baseSec: int, maxFails: int, multiplier: real, maxSec: int, halfOpenSec: int): (c: Backoff)
    ensures Sane(c)
    ensures (baseSec >= 1 ==> c.baseSec == baseSec) && (maxSec >= c.baseSec ==> c.maxSec == maxSec)
    ensures (maxFails >= 1 ==> c.maxFails == maxFails) && (halfOpenSec >= 1 ==> c.halfOpenSec == halfOpenSec)
    ensures multiplier >= 1.0 ==> c.multiplier == multiplier
    ensures (baseSec < 1 ==> c.baseSec == 1) && (maxSec < c.baseSec ==> c.maxSec == c.baseSec)
    ensures (maxFails < 1 ==> c.maxFails == 1) && (halfOpenSec < 1 ==> c.halfOpenSec == 1)
    ensures multiplier < 1.0 ==> c.multiplier == 1.0
  {
    var base := Max(1, baseSec);
    Backoff(base, Max(1, maxFails), if multiplier < 1.0 then 1.0 else multiplier, Max(base, maxSec), Max(1, halfOpenSec))
  }

  function Pow(x: real, n: nat): real {
    if n == 0 then 1.0 else x * Pow(x, n - 1)
  }

  function CooldownSec(c: Backoff, n: nat): real
    requires n >= 1
  {
    if n >= c.maxFails then c.halfOpenSec as real
    else
      var grown := c.baseSec as real * Pow(c.multiplier, n - 1);
      if c.maxSec as real < grown then c.maxSec as real else grown
  }

  function CooldownMs(c: Backoff, n: nat): int
    requires n >= 1
  {
    (CooldownSec(c, n) * 1000.0).Floor
  }

  // ---- Critical sections --------------------------------------------------

  /** The bundle to fall back on while a key cools down; an invalid one is demoted to stale first. */
  function CooldownBundle(d: Dir, key: Key, bundle: Option<Bundle>, now: int): (Dir, Option<Bundle>) {
    if key !in d.backoff || d.backoff[key] == 0 then (d, None)
    else if d.backoff[key] <= now then (d.(backoff := d.backoff - {key}), None)
    else if bundle.None? || bundle.value.cookies == "" || bundle.value.userAgent == "" then (d, None)
    else if bundle.value.state == Invalid then
      var demoted := bundle.value.(state := Stale);
      (d.(bundles := d.bundles[key := demoted]), Some(demoted))
    else (d, bundle)
  }

  function Find(d: Dir, key: Key): Option<Bundle> {
    if key in d.bundles then Some(d.bundles[key]) else None
  }

  datatype Answer = Off | Serve(bundle: Bundle) | Suppressed | WaitOn(event: nat) | Win(event: nat)

  /** `bundleRefreshState`: the clock is read twice, `now1` then `now2`; `newEvent` names a new event. */
  function Lookup(d: Dir, key: Key, now1: int, now2: int, newEvent: nat): (Dir, Answer) {
    if d.mode == NoClearance then (d, Off)
    else if key in d.bundles && d.bundles[key].state == Valid then (d, Serve(d.bundles[key]))
    else
      var (d1, fallback) := CooldownBundle(d, key, Find(d, key), now1);
      if fallback.Some? then (d1, Serve(fallback.value))
      else if key in d1.backoff && d1.backoff[key] > now2 then (d1, Suppressed)
      else if key in d1.events then (d1, WaitOn(d1.events[key]))
      else (d1.(events := d1.events[key := newEvent]), Win(newEvent))
  }

  function FailureCount(d: Dir, key: Key): int {
    if key in d.failures then d.failures[key] else 0
  }

  /** Counts a failure, arms the backoff and looks for a fallback. */
  function RecordFailure(d: Dir, key: Key, c: Backoff, now1: int, now2: int): (Dir, Option<Bundle>)
    requires FailureCount(d, key) >= 0
  {
    var n := FailureCount(d, key) + 1;
    var ms := CooldownMs(c, n);
    var d1 := d.(failures := d.failures[key := n],
                 backoff := if ms > 0 then d.backoff[key := now1 + ms] else d.backoff);
    CooldownBundle(d1, key, Find(d1, key), now2)
  }

  function StoredBundle(d: Dir, key: Key, b: Bundle, now: int): Bundle {
    b.(lastRefreshAt := Some(now), lastError := "",
       refreshCount := if key in d.bundles then d.bundles[key].refreshCount + 1 else b.refreshCount + 1)
  }

  function RecordSuccess(d: Dir, key: Key, b: Bundle, now: int): Dir {
    d.(bundles := d.bundles[key := StoredBundle(d, key, b, now)],
       failures := d.failures - {key}, backoff := d.backoff - {key})
  }

  /** The scheduler's failure: keeps the diagnostics, then arms the backoff like any other. */
  function RecordBundleFailure(d: Dir, key: Key, b: Bundle, c: Backoff, now1: int, now2: int): Dir
    requires FailureCount(d, key) >= 0
  {
    if b.lastError == "" then RecordFailure(d, key, c, now1, now2).0
    else
      var named := b.(affinity := if b.affinity == "" then key.affinity else b.affinity,
                      host := if b.host == "" then key.host else b.host, state := Invalid);
      var d1 := d.(bundles := d.bundles[key :=
        if key in d.bundles then d.bundles[key].(lastError := b.lastError) else named]);
      RecordFailure(d1, key, c, now1, now2).0
  }

  /** The state after the winner's provider answered. */
  function RecordProvided(d: Dir, key: Key, p: Provided, c: Backoff, now1: int, now2: int): (Dir, Option<Bundle>)
    requires FailureCount(d, key) >= 0
  {
    match p
    case ProviderError => (d, None)
    case NoBundle(_) => RecordFailure(d, key, c, now1, now2)
    case Built(b) => (RecordSuccess(d, key, b, now1), Some(StoredBundle(d, key, b, now1)))
  }

  function Forget(d: Dir, key: Key): Dir {
    d.(events := d.events - {key})
  }

  function InvalidateKey(d: Dir, key: Key): Dir {
    if key in d.bundles then d.(bundles := d.bundles[key := d.bundles[key].(state := Invalid)]) else d
  }

  function Invalidated(bundles: map<Key, Bundle>): map<Key, Bundle> {
    map key | key in bundles :: bundles[key].(state := Invalid)
  }

  function InvalidateAll(d: Dir): Dir {
    d.(bundles := Invalidated(d.bundles))
  }

  function KeepAffinity<V>(m: map<Key, V>, valid: set<string>): map<Key, V> {
    map key | key in m && key.affinity in valid :: m[key]
  }

  /** A reload that changes the configuration drops every key whose affinity is gone. */
  function Reload(d: Dir, valid: set<string>, mode: Mode): Dir {
    Dir(mode, Invalidated(KeepAffinity(d.bundles, valid)),
        KeepAffinity(d.events, valid), KeepAffinity(d.backoff, valid), KeepAffinity(d.failures, valid))
  }

  // ---- Laws of the backoff ------------------------------------------------

  lemma {:induction false} PowAtLeastOne(x: real, n: nat)
    requires x >= 1.0
    ensures Pow(x, n) >= 1.0
  {
    if n > 0 {
      PowAtLeastOne(x, n - 1);
      assert x * Pow(x, n - 1) >= 1.0 * Pow(x, n - 1);
    }
  }

  lemma {:induction false} PowMonotone(x: real, m: nat, n: nat)
    requires x >= 1.0 && m <= n
    ensures Pow(x, m) <= Pow(x, n)
    decreases n
  {
    if m < n {
      PowMonotone(x, m, n - 1);
      PowAtLeastOne(x, n - 1);
      assert x * Pow(x, n - 1) >= 1.0 * Pow(x, n - 1);
    }
  }

  /** Below the failure cap a cooldown lies between base and maximum; at the cap it is the probe time. */
  lemma CooldownBounds(c: Backoff, n: nat)
    requires Sane(c) && n >= 1
    ensures n < c.maxFails ==> c.baseSec * 1000 <= CooldownMs(c, n) <= c.maxSec * 1000
    ensures n >= c.maxFails ==> CooldownMs(c, n) == c.halfOpenSec * 1000
    ensures CooldownMs(c, n) >= Min(c.baseSec, c.halfOpenSec) * 1000
  {
    hide CooldownSec, Pow;
    CooldownSecBounds(c, n);
    if n < c.maxFails {
      FloorBetween(CooldownSec(c, n), c.baseSec, c.maxSec);
    } else {
      FloorBetween(CooldownSec(c, n), c.halfOpenSec, c.halfOpenSec);
    }
  }

  lemma CooldownSecBounds(c: Backoff, n: nat)
    requires Sane(c) && n >= 1
    ensures n < c.maxFails ==> c.baseSec as real <= CooldownSec(c, n) <= c.maxSec as real
    ensures n >= c.maxFails ==> CooldownSec(c, n) == c.halfOpenSec as real
  {
    hide Pow;
    PowAtLeastOne(c.multiplier, n - 1);
    GrowsBy(c.baseSec as real, Pow(c.multiplier, n - 1));
  }

  lemma GrowsBy(b: real, p: real)
    requires b >= 0.0 && p >= 1.0
    ensures b * p >= b
  {
    assert b * (p - 1.0) >= 0.0;
  }

  lemma FloorBetween(x: real, lo: int, hi: int)
    requires lo as real <= x <= hi as real
    ensures lo * 1000 <= (x * 1000.0).Floor <= hi * 1000
  {
    assert (lo * 1000) as real <= x * 1000.0 <= (hi * 1000) as real;
  }

  /** Below the cap, more failures never mean a shorter cooldown. */
  lemma CooldownMonotone(c: Backoff, m: nat, n: nat)
    requires Sane(c) && 1 <= m <= n < c.maxFails
    ensures CooldownMs(c, m) <= CooldownMs(c, n)
  {
    PowMonotone(c.multiplier, m - 1, n - 1);
    var p, q := Pow(c.multiplier, m - 1), Pow(c.multiplier, n - 1);
    assert c.baseSec as real * p <= c.baseSec as real * q;
    assert CooldownSec(c, m) <= CooldownSec(c, n);
  }

  /** Below the cap each failure in a row multiplies the cooldown, up to the maximum, starting from the base. */
  lemma CooldownGrows(c: Backoff, n: nat)
    requires Sane(c) && 1 <= n && n + 1 < c.maxFails
    ensures CooldownSec(c, 1) == c.baseSec as real
    ensures var next := c.multiplier * CooldownSec(c, n);
      CooldownSec(c, n + 1) == if next <= c.maxSec as real then next else c.maxSec as real
  {
    var b, m, p := c.baseSec as real, c.multiplier, Pow(c.multiplier, n - 1);
    assert b * (m * p) == m * (b * p);
    GrowsBy(c.maxSec as real, m);
    if b * p > c.maxSec as real {
      GrowsBy(b * p, m);
    }
  }

  /** The wait after failure i, counted from zero, when the one before it was `last`: the base first, each next one
      the multiple of the last up to the maximum, and the probe time from the allowed number on. */
  ghost predicate WaitAfter(c: Backoff, i: nat, last: real, sec: real) {
    sec == if i + 1 >= c.maxFails then c.halfOpenSec as real
           else if i == 0 then c.baseSec as real
           else if c.multiplier * last <= c.maxSec as real then c.multiplier * last
           else c.maxSec as real
  }

  /** The waits in seconds that the failures of one key in a row arm. */
  ghost predicate Waits(c: Backoff, secs: seq<real>) {
    forall i :: 0 <= i < |secs| ==> WaitAfter(c, i, Last(secs, i), secs[i])
  }

  function Last(secs: seq<real>, i: nat): real
    requires i <= |secs|
  {
    if i == 0 then 0.0 else secs[i - 1]
  }

  lemma CooldownWaits(c: Backoff, i: nat)
    requires Sane(c)
    ensures WaitAfter(c, i, if i == 0 then 0.0 else CooldownSec(c, i), CooldownSec(c, i + 1))
  {
    hide CooldownSec;
    CooldownSecBounds(c, i + 1);
    if i == 0 < c.maxFails - 1 {
      FirstCooldown(c);
    } else if 0 < i < c.maxFails - 1 {
      CooldownGrows(c, i);
    }
  }

  /** The failure is counted, and in whole milliseconds the key then waits `sec` seconds from the first clock
      reading, unless the second is already past that. */
  ghost predicate ArmsFor(d: Dir, d': Dir, key: Key, now1: int, now2: int, sec: real) {
    && FailureCount(d', key) == FailureCount(d, key) + 1
    && var until := now1 + (sec * 1000.0).Floor;
    && (until > now2 && until != 0 ==> key in d'.backoff && d'.backoff[key] == until)
    && (until <= now2 && until != 0 ==> key !in d'.backoff)
  }

  /** Successive failures of a key, whatever happens to the directory between them, arm exactly these waits. */
  lemma {:induction false} FailuresArm(c: Backoff, m: nat) returns (secs: seq<real>)
    requires Sane(c)
    ensures |secs| == m && Waits(c, secs)
    ensures forall d: Dir, key: Key, now1: int, now2: int {:trigger RecordFailure(d, key, c, now1, now2)} ::
      0 <= FailureCount(d, key) < m ==>
        ArmsFor(d, RecordFailure(d, key, c, now1, now2).0, key, now1, now2, secs[FailureCount(d, key)])
  {
    hide CooldownSec, RecordFailure, ArmsFor, WaitAfter;
    secs := seq(m, i requires 0 <= i => CooldownSec(c, i + 1));
    forall i | 0 <= i < m ensures WaitAfter(c, i, Last(secs, i), secs[i]) {
      CooldownWaits(c, i);
    }
    forall d: Dir, key: Key, now1: int, now2: int | 0 <= FailureCount(d, key) < m
      ensures ArmsFor(d, RecordFailure(d, key, c, now1, now2).0, key, now1, now2, secs[FailureCount(d, key)])
    {
      FailureArmsFor(d, key, c, now1, now2);
    }
  }

  lemma FirstCooldown(c: Backoff)
    requires Sane(c) && 1 < c.maxFails
    ensures CooldownSec(c, 1) == c.baseSec as real
  {
  }

  lemma FailureArmsFor(d: Dir, key: Key, c: Backoff, now1: int, now2: int)
    requires Sane(c) && FailureCount(d, key) >= 0
    ensures ArmsFor(d, RecordFailure(d, key, c, now1, now2).0, key, now1, now2, CooldownSec(c, FailureCount(d, key) + 1))
  {
    var n := FailureCount(d, key) + 1;
    CooldownBounds(c, n);
    hide CooldownSec;
  }

  // ---- What each critical section leaves alone ----------------------------

  /** Failure counts are never negative. */
  ghost predicate Counted(d: Dir) {
    forall k :: k in d.failures ==> d.failures[k] >= 0
  }

  lemma CooldownFrame(d: Dir, key: Key, bundle: Option<Bundle>, now: int)
    ensures var d' := CooldownBundle(d, key, bundle, now).0;
      && d'.events == d.events && d'.failures == d.failures && d'.mode == d.mode
      && (forall k :: k != key ==> (k in d'.backoff <==> k in d.backoff) && (k in d.backoff ==> d'.backoff[k] == d.backoff[k]))
      && (key in d.backoff && d.backoff[key] > now && d.backoff[key] != 0 ==> d'.backoff == d.backoff)
      && (key in d'.backoff ==> key in d.backoff && d'.backoff[key] == d.backoff[key])
      && (key in d.backoff && key !in d'.backoff ==> d.backoff[key] <= now)
  {
  }

  lemma LookupFrame(d: Dir, key: Key, now1: int, now2: int, newEvent: nat)
    ensures var (d', a) := Lookup(d, key, now1, now2, newEvent);
      && d'.failures == d.failures && d'.mode == d.mode
      && d'.events == (if a.Win? then d.events[key := newEvent] else d.events)
      && (a.Win? ==> key !in d.events && a.event == newEvent)
      && (a.WaitOn? ==> key in d.events && d.events[key] == a.event)
  {
    CooldownFrame(d, key, Find(d, key), now1);
    hide CooldownBundle;
  }

  /** A provider's answer, a winner's or a scheduled one, never touches the events. */
  lemma ProvidedFrame(d: Dir, key: Key, p: Provided, c: Backoff, now1: int, now2: int)
    requires Counted(d) && Sane(c)
    ensures var d' := RecordProvided(d, key, p, c, now1, now2).0;
      d'.events == d.events && Counted(d')
    ensures p.NoBundle? ==>
      var d' := RecordBundleFailure(d, key, p.diagnostics, c, now1, now2);
      d'.events == d.events && Counted(d')
  {
    hide CooldownMs, CooldownBundle;
    forall d1: Dir, bundle: Option<Bundle> {
      CooldownFrame(d1, key, bundle, now2);
    }
  }

  // ---- Laws of a lookup ---------------------------------------------------

  /** A lookup starts a refresh only when the key is not cooling down at either clock reading, and only
      when no refresh of the key is registered. */
  lemma WinOnlyWhenQuiet(d: Dir, key: Key, now1: int, now2: int, newEvent: nat)
    requires now1 <= now2 && Lookup(d, key, now1, now2, newEvent).1.Win?
    ensures d.mode != NoClearance && key !in d.events
    ensures key in d.backoff ==> d.backoff[key] <= now2
    ensures Lookup(d, key, now1, now2, newEvent).0.events == d.events[key := newEvent]
  {
  }

  /** A lookup clears a backoff only once it has run out. */
  lemma LookupBackoff(d: Dir, key: Key, now1: int, now2: int, newEvent: nat)
    ensures var d' := Lookup(d, key, now1, now2, newEvent).0;
      forall k :: k in d.backoff ==> (k in d'.backoff && d'.backoff[k] == d.backoff[k]) || d.backoff[k] <= now1
  {
    CooldownFrame(d, key, Find(d, key), now1);
    hide CooldownBundle;
  }

  /** The key has a backoff that runs past `now`. */
  ghost predicate Cooling(d: Dir, key: Key, now: int) {
    key in d.backoff && d.backoff[key] != 0 && d.backoff[key] > now
  }

  /** The key has a bundle that a request can be made with. */
  ghost predicate Usable(d: Dir, key: Key) {
    key in d.bundles && d.bundles[key].cookies != "" && d.bundles[key].userAgent != ""
  }

  /** Which answer a lookup gives, case by case, and that it forgets a backoff that has run out. */
  lemma LookupDecides(d: Dir, key: Key, now1: int, now2: int, newEvent: nat)
    requires now1 <= now2 && (key in d.backoff ==> d.backoff[key] != 0)
    ensures var (d', a) := Lookup(d, key, now1, now2, newEvent);
      var valid := key in d.bundles && d.bundles[key].state == Valid;
      && (a == Off <==> d.mode == NoClearance)
      && (a.Serve? <==> d.mode != NoClearance && (valid || (Cooling(d, key, now1) && Usable(d, key))))
      && (a == Suppressed <==> d.mode != NoClearance && !valid && !Usable(d, key) && Cooling(d, key, now2))
      && (a.WaitOn? || a.Win? <==>
          d.mode != NoClearance && !valid && !Cooling(d, key, now2) && !(Usable(d, key) && Cooling(d, key, now1)))
      && (a.Win? ==> key !in d.events) && (a.WaitOn? ==> key in d.events)
      && (a.WaitOn? || a.Win? ==> key in d'.backoff ==> d.backoff[key] > now1)
      && (a.Serve? ==> a.bundle == if d.bundles[key].state == Invalid then d.bundles[key].(state := Stale) else d.bundles[key])
  {
  }

  // ---- What success, diagnostics and a reload leave behind ----------------

  /** A success stores the bundle with the time and one refresh more, without an error, forgets the key's
      failures, and touches no other key. */
  lemma SuccessStores(d: Dir, key: Key, b: Bundle, now: int)
    ensures var d' := RecordSuccess(d, key, b, now);
      && key in d'.bundles && key !in d'.backoff && key !in d'.failures && d'.events == d.events && d'.mode == d.mode
      && d'.bundles[key] == Bundle(b.cookies, b.userAgent, b.state, b.affinity, b.host, Some(now),
           (if key in d.bundles then d.bundles[key].refreshCount else b.refreshCount) + 1, "")
      && (forall k :: k != key ==>
            && (k in d'.bundles <==> k in d.bundles) && (k in d.bundles ==> d'.bundles[k] == d.bundles[k])
            && (k in d'.backoff <==> k in d.backoff) && (k in d.backoff ==> d'.backoff[k] == d.backoff[k])
            && FailureCount(d', k) == FailureCount(d, k))
  {
  }

  /** A failed scheduled refresh with diagnostics leaves its error on the bundle the key had, or the diagnostics
      themselves under the key's name; an invalid one is made stale if it can be served while the key cools down. */
  lemma DiagnosticsKept(d: Dir, key: Key, b: Bundle, c: Backoff, now1: int, now2: int)
    requires FailureCount(d, key) >= 0 && b.lastError != ""
    ensures var d' := RecordBundleFailure(d, key, b, c, now1, now2);
      var kept := if key in d.bundles then d.bundles[key].(lastError := b.lastError)
                  else b.(affinity := if b.affinity == "" then key.affinity else b.affinity,
                          host := if b.host == "" then key.host else b.host, state := Invalid);
      var served := kept.state == Invalid && kept.cookies != "" && kept.userAgent != "" && Cooling(d', key, now2);
      && FailureCount(d', key) == FailureCount(d, key) + 1
      && d'.bundles == d.bundles[key := if served then kept.(state := Stale) else kept]
  {
    hide RecordFailure, Cooling;
    var d1 := d.(bundles := d.bundles[key :=
      if key in d.bundles then d.bundles[key].(lastError := b.lastError)
      else b.(affinity := if b.affinity == "" then key.affinity else b.affinity,
              host := if b.host == "" then key.host else b.host, state := Invalid)]);
    FailureBundles(d1, key, c, now1, now2);
  }

  /** A failure demotes the bundle of its key from invalid to stale if it can be served while the key cools down,
      and changes no other bundle. */
  lemma FailureBundles(d: Dir, key: Key, c: Backoff, now1: int, now2: int)
    requires FailureCount(d, key) >= 0
    ensures var d' := RecordFailure(d, key, c, now1, now2).0;
      && FailureCount(d', key) == FailureCount(d, key) + 1
      && d'.bundles == if key in d.bundles && d.bundles[key].state == Invalid && Usable(d, key) && Cooling(d', key, now2)
           then d.bundles[key := d.bundles[key].(state := Stale)] else d.bundles
  {
    hide CooldownMs;
  }

  /** The entries of the keys whose affinity is in use, and no others. */
  ghost predicate Restricts<V>(m: map<Key, V>, m': map<Key, V>, valid: set<string>) {
    && (forall k :: k in m' <==> k in m && k.affinity in valid)
    && (forall k :: k in m' ==> m'[k] == m[k])
  }

  /** A reload keeps exactly the keys whose affinity is still in use, and leaves no bundle that can be served as
      it is; an invalidation does the latter alone. */
  lemma ReloadInvalidates(d: Dir, valid: set<string>, mode: Mode)
    ensures var d' := Reload(d, valid, mode);
      && d'.mode == mode && Restricts(d.events, d'.events, valid)
      && Restricts(d.backoff, d'.backoff, valid) && Restricts(d.failures, d'.failures, valid)
      && (forall k :: k in d'.bundles <==> k in d.bundles && k.affinity in valid)
      && (forall k :: k in d'.bundles ==> d'.bundles[k] == d.bundles[k].(state := Invalid))
    ensures var d' := InvalidateAll(d);
      && d' == d.(bundles := d'.bundles) && d'.bundles.Keys == d.bundles.Keys
      && forall k :: k in d.bundles ==> d'.bundles[k] == d.bundles[k].(state := Invalid)
  {
  }

  /** What a lookup hands out is valid, or stale during a cooldown; never invalid, never unusable. */
  lemma LookupServes(d: Dir, key: Key, now1: int, now2: int, newEvent: nat)
    requires Lookup(d, key, now1, now2, newEvent).1.Serve?
    ensures var b := Lookup(d, key, now1, now2, newEvent).1.bundle;
      && b.state != Invalid
      && Lookup(d, key, now1, now2, newEvent).0.bundles == d.bundles[key := b]
      && (b.state == Stale ==> key in d.backoff && now1 < d.backoff[key] && b.cookies != "" && b.userAgent != "")
  {
  }

  /** What a winner hands out after its refresh: the valid bundle it built, or after a failure the kept
      bundle, never invalid, with the key cooling down. */
  lemma RefreshServes(d: Dir, key: Key, p: Provided, c: Backoff, now1: int, now2: int)
    requires Sane(c) && FailureCount(d, key) >= 0 && now1 <= now2
    requires p.Built? ==> p.bundle.state == Valid
    ensures var (d', out) := RecordProvided(d, key, p, c, now1, now2);
      && (out.Some? ==> out.value.state != Invalid && key in d'.bundles && d'.bundles[key] == out.value)
      && (out.Some? && out.value.state == Stale ==> key in d'.backoff && now2 < d'.backoff[key])
      && (p.Built? ==> out.Some? && out.value.state == Valid && key !in d'.backoff && FailureCount(d', key) == 0)
      && (p.NoBundle? ==> FailureCount(d', key) == FailureCount(d, key) + 1)
      && (p.ProviderError? ==> d' == d && out == None)
  {
  }

  /** A recorded failure keeps the key cooling for at least the shorter of base and probe time, unless
      the second clock reading is already past it. */
  lemma FailureArms(d: Dir, key: Key, c: Backoff, now1: int, now2: int)
    requires Sane(c) && FailureCount(d, key) >= 0
    ensures var d' := RecordFailure(d, key, c, now1, now2).0;
      && FailureCount(d', key) == FailureCount(d, key) + 1
      && (now2 >= now1 + Min(c.baseSec, c.halfOpenSec) * 1000
          || (key in d'.backoff && d'.backoff[key] >= now1 + Min(c.baseSec, c.halfOpenSec) * 1000))
      && d'.events == d.events && d'.mode == d.mode
      && (forall k :: k != key ==> (k in d'.backoff <==> k in d.backoff) && (k in d.backoff ==> d'.backoff[k] == d.backoff[k]))
      && (forall k :: k != key ==> FailureCount(d', k) == FailureCount(d, k))
  {
    hide CooldownMs, CooldownBundle;
    CooldownBounds(c, FailureCount(d, key) + 1);
    forall d1: Dir, bundle: Option<Bundle> {
      CooldownFrame(d1, key, bundle, now2);
    }
  }
}
