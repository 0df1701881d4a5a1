/** Quota windows (quota_defaults.go, refresh_helpers.go, refresh_apply.go): what local use, rate limits,
    fallbacks, fetched readings and the periodic reset do to one, and why an exhausted console window of
    the basic pool always comes back. */
module QuotaWindows {
  import opened Wrappers

  datatype Source = Default | Real | Estimated

  datatype Window = Window(remaining: int, total: int, seconds: int, resetAt: Option<int>, syncedAt: Option<int>,
                           source: Source)
  {
    predicate Expired(now: int) {
      resetAt.Some? && now >= resetAt.value
    }
  }

  datatype QuotaSet = QuotaSet(auto: Window, fast: Window, expert: Window,
                               heavy: Option<Window>, grok43: Option<Window>, console: Option<Window>)
  {
    function Get(mode: int): Option<Window> {
      match mode
      case 0 => Some(auto)
      case 1 => Some(fast)
      case 2 => Some(expert)
      case 3 => heavy
      case 4 => grok43
      case 5 => console
      case _ => None
    }

    /** Every mode outside 0..4 is stored as the console window. */
    function Set(mode: int, w: Window): (r: QuotaSet)
      ensures forall m {:trigger r.Get(m)} :: 0 <= m < 6 ==>
        r.Get(m) == if m == mode || (m == 5 && !(0 <= mode < 6)) then Some(w) else Get(m)
    {
      match mode
      case 0 => this.(auto := w)
      case 1 => this.(fast := w)
      case 2 => this.(expert := w)
      case 3 => this.(heavy := Some(w))
      case 4 => this.(grok43 := Some(w))
      case _ => this.(console := Some(w))
    }
  }

  const CONSOLE := 5

  function Fresh(total: int, seconds: int): Window {
    Window(total, total, seconds, None, None, Default)
  }

  /** Pools other than super and heavy share the basic defaults. */
  function DefaultQuotaSet(pool: string): QuotaSet {
    if pool == "super" then
      QuotaSet(Fresh(50, 7200), Fresh(140, 7200), Fresh(50, 7200), None, Some(Fresh(50, 7200)), None)
    else if pool == "heavy" then
      QuotaSet(Fresh(150, 7200), Fresh(400, 7200), Fresh(150, 7200), Some(Fresh(20, 7200)), Some(Fresh(150, 7200)), None)
    else
      QuotaSet(Fresh(0, 0), Fresh(30, 86400), Fresh(0, 0), None, None, Some(Fresh(20, 3600)))
  }

  predicate SupportsMode(pool: string, mode: int) {
    if pool == "super" then mode in {0, 1, 2, 4, 5}
    else if pool == "heavy" then 0 <= mode < 6
    else mode in {1, 5}
  }

  function DefaultWindow(pool: string, mode: int): Option<Window> {
    if SupportsMode(pool, mode) then DefaultQuotaSet(pool).Get(mode) else None
  }

  function Clamp(v: int, lo: int, hi: int): int {
    if v < lo then lo else if v > hi then hi else v
  }

  /** A fetched reading as it is stored; the basic pool's fast window has a fixed size. */
  function Normalize(pool: string, mode: int, w: Window): Option<Window> {
    if !SupportsMode(pool, mode) then None
    else if pool == "basic" && mode == 1 then
      Some(w.(remaining := Clamp(w.remaining, 0, 30), total := 30, seconds := 86400))
    else Some(w)
  }

  // ---- Updates ------------------------------------------------------------

  function LocalUse(pool: string, mode: int, w: Window, now: int): Window {
    if w.Expired(now) && DefaultWindow(pool, mode).Some? then
      var d := DefaultWindow(pool, mode).value;
      Window(Clamp(d.total - 1, 0, d.total), d.total, d.seconds, Some(now + d.seconds * 1000), Some(now), Default)
    else
      var used := w.(remaining := Clamp(w.remaining - 1, 0, w.total), source := Estimated);
      if used.resetAt.None? && used.seconds > 0 && (mode == CONSOLE ==> used.remaining <= 12) then
        used.(resetAt := Some(now + used.seconds * 1000))
      else used
  }

  function RateLimited(w: Window, now: int): Window {
    var resetAt := if w.resetAt.Some? && w.resetAt.value > now then w.resetAt.value else now + Max(w.seconds, 1) * 1000;
    Window(0, w.total, w.seconds, Some(resetAt), w.syncedAt, Estimated)
  }

  function EstimatedDecrement(w: Window): Window {
    w.(remaining := Clamp(w.remaining - 1, 0, w.total), source := Estimated)
  }

  function DefaultReset(d: Window, now: int): Window {
    Window(d.total, d.total, d.seconds, Some(now + d.seconds * 1000), Some(now), Default)
  }

  /** When nothing could be fetched: a real reading is spent by one, an expired other one restarts. */
  function Fallback(pool: string, mode: int, w: Window, now: int): Window {
    if w.source == Real then EstimatedDecrement(w)
    else if w.Expired(now) && DefaultWindow(pool, mode).Some? then DefaultReset(DefaultWindow(pool, mode).value, now)
    else w
  }

  predicate Stuck(w: Window) {
    w.remaining <= 0 && w.resetAt.None?
  }

  /** The periodic reset of one console window. */
  function Tick(pool: string, w: Window, now: int): Window {
    if !w.Expired(now) && !Stuck(w) then w
    else if w.remaining >= w.total then w
    else if DefaultWindow(pool, CONSOLE).None? then w
    else
      var d := DefaultWindow(pool, CONSOLE).value;
      Window(d.total, d.total, d.seconds, None, Some(now), Default)
  }

  // ---- What the updates come to -------------------------------------------

  /** The modes each pool supports and the window each of them starts with. */
  lemma DefaultsAre(pool: string, mode: int)
    ensures DefaultWindow("super", mode) ==
      if mode == 0 || mode == 2 || mode == 4 then Some(Window(50, 50, 7200, None, None, Default))
      else if mode == 1 then Some(Window(140, 140, 7200, None, None, Default)) else None
    ensures DefaultWindow("heavy", mode) ==
      if mode == 0 || mode == 2 || mode == 4 then Some(Window(150, 150, 7200, None, None, Default))
      else if mode == 1 then Some(Window(400, 400, 7200, None, None, Default))
      else if mode == 3 then Some(Window(20, 20, 7200, None, None, Default)) else None
    ensures pool != "super" && pool != "heavy" ==>
      DefaultWindow(pool, mode) ==
        if mode == 1 then Some(Window(30, 30, 86400, None, None, Default))
        else if mode == 5 then Some(Window(20, 20, 3600, None, None, Default)) else None
    ensures pool != "super" && pool != "heavy" ==>
      && DefaultQuotaSet(pool).auto == DefaultQuotaSet(pool).expert == Window(0, 0, 0, None, None, Default)
      && DefaultQuotaSet(pool).heavy == None && DefaultQuotaSet(pool).grok43 == None
    ensures DefaultQuotaSet("super").heavy == None && DefaultQuotaSet("super").console == None
    ensures DefaultQuotaSet("heavy").console == None
    ensures forall w :: Normalize(pool, mode, w).Some? <==>
      match mode case 1 => true case 5 => true
        case 0 => pool == "super" || pool == "heavy" case 2 => pool == "super" || pool == "heavy"
        case 4 => pool == "super" || pool == "heavy" case 3 => pool == "heavy" case _ => false
  {
  }

  /** A fetched reading is stored as it is, but for the basic fast window, which has 30 a day. */
  lemma NormalizeKeeps(pool: string, mode: int, w: Window)
    ensures var r := Normalize(pool, mode, w);
      && (r.Some? && !(pool == "basic" && mode == 1) ==> r.value == w)
      && (pool == "basic" && mode == 1 ==>
            && r.Some? && r.value == w.(remaining := r.value.remaining, total := 30, seconds := 86400)
            && r.value.remaining == if w.remaining < 0 then 0 else if w.remaining > 30 then 30 else w.remaining)
  {
  }

  /** The window has one request less, none less than none, and its count is a guess from then on. */
  ghost predicate OneSpent(w: Window, w': Window) {
    && w' == w.(remaining := w'.remaining, source := Estimated, resetAt := w'.resetAt)
    && w'.remaining == if w.remaining > 0 then w.remaining - 1 else 0
  }

  /** The window is the pool's default one, `used` requests into it, for its whole length from now. */
  ghost predicate Renewed(pool: string, mode: int, w': Window, now: int, used: int) {
    exists d: Window :: DefaultWindow(pool, mode) == Some(d)
      && w' == Window(d.total - used, d.total, d.seconds, Some(now + 1000 * d.seconds), Some(now), Default)
  }

  /** A use costs one request. It renews a window that has run out, where the pool has a default for it, and
      starts the clock of one that has none, the console's only at 12 requests left. */
  lemma UseSpends(pool: string, mode: int, w: Window, now: int)
    requires 0 <= w.remaining <= w.total
    ensures var w' := LocalUse(pool, mode, w, now);
      if w.resetAt.Some? && w.resetAt.value <= now && DefaultWindow(pool, mode).Some? then Renewed(pool, mode, w', now, 1)
      else
        && OneSpent(w, w')
        && w'.resetAt == if w.resetAt.None? && w.seconds > 0 && (mode != 5 || w'.remaining <= 12)
             then Some(now + 1000 * w.seconds) else w.resetAt
  {
    if w.resetAt.Some? && w.resetAt.value <= now && DefaultWindow(pool, mode).Some? {
      var d := DefaultWindow(pool, mode).value;
      assert d.total >= 1;
    }
  }

  /** A rate limit empties the window until its reset time, or its own length from now when that is past. */
  lemma LimitEmpties(w: Window, now: int)
    ensures var w' := RateLimited(w, now);
      && w' == w.(remaining := 0, source := Estimated, resetAt := w'.resetAt) && w'.resetAt.Some?
      && w'.resetAt.value == if w.resetAt.Some? && w.resetAt.value > now then w.resetAt.value
           else if w.seconds >= 1 then now + 1000 * w.seconds else now + 1000
  {
  }

  /** With nothing fetched a real reading is spent by one, any other is renewed in full once it has run out. */
  lemma FallbackMeans(pool: string, mode: int, w: Window, now: int)
    requires 0 <= w.remaining <= w.total
    ensures var w' := Fallback(pool, mode, w, now);
      if w.source == Real then OneSpent(w, w') && w'.resetAt == w.resetAt
      else if w.resetAt.Some? && w.resetAt.value <= now && DefaultWindow(pool, mode).Some? then Renewed(pool, mode, w', now, 0)
      else w' == w
  {
  }

  // ---- The periodic reset over all accounts -------------------------------

  /** An account as the reset sees it; its quota data may be malformed. */
  datatype Account = Account(token: string, pool: string, quota: Option<QuotaSet>)

  predicate NeedsReset(a: Account, now: int) {
    && a.quota.Some? && a.quota.value.console.Some?
    && Tick(a.pool, a.quota.value.console.value, now) != a.quota.value.console.value
  }

  /** One patch for each account that needs it, in the order of the accounts. */
  function Patches(accounts: seq<Account>, now: int): seq<(string, Window)> {
    if accounts == [] then []
    else
      var a := accounts[|accounts| - 1];
      Patches(accounts[..|accounts| - 1], now)
      + if NeedsReset(a, now) then [(a.token, Tick(a.pool, a.quota.value.console.value, now))] else []
  }

  /** The patches of one tick and how many there are: one for each account whose console window the tick
      changes, in order, with its window restored. */
  method ResetExpiredConsoleWindows(accounts: seq<Account>, now: int) returns (patches: seq<(string, Window)>, count: nat)
    ensures patches == Patches(accounts, now) && count == |patches|
  {
    patches := [];
    for k := 0 to |accounts|
      invariant patches == Patches(accounts[..k], now)
    {
      assert accounts[..k + 1][..k] == accounts[..k];
      var a := accounts[k];
      assert Patches(accounts[..k], now) + [] == patches;
      if a.quota.None? || a.quota.value.console.None? {
        continue;
      }
      var w := a.quota.value.console.value;
      if !w.Expired(now) && !Stuck(w) {
        continue;
      }
      if w.remaining >= w.total {
        continue;
      }
      var d := DefaultWindow(a.pool, CONSOLE);
      if d.None? {
        continue;
      }
      var reset := Window(d.value.total, d.value.total, d.value.seconds, None, Some(now), Default);
      patches := patches + [(a.token, reset)];
    }
    assert accounts[..|accounts|] == accounts;
    count := |patches|;
  }

  // ---- Never stuck --------------------------------------------------------

  /** A pool whose console window has a default to come back to. */
  predicate BasicLike(pool: string) {
    pool != "super" && pool != "heavy"
  }

  ghost predicate Bounded(w: Window) {
    0 <= w.remaining <= w.total && w.total > 0 && w.seconds > 0
  }

  /** What every console window keeps: its bounds, a reset time on a real reading, and a reset time once
      it runs low. */
  ghost predicate Healthy(w: Window) {
    Bounded(w) && (w.source == Real ==> w.resetAt.Some?) && (w.remaining <= 12 ==> w.resetAt.Some?)
  }

  datatype Op = Use(now: int) | Limit(now: int) | FallBack(now: int) | Fetch(window: Window) | Reset(now: int)

  /** A fetched reading is a bounded real one with its reset time. */
  ghost predicate GoodOp(op: Op) {
    op.Fetch? ==> Bounded(op.window) && op.window.source == Real && op.window.resetAt.Some?
  }

  function Apply(pool: string, w: Window, op: Op): Window {
    match op
    case Use(now) => LocalUse(pool, CONSOLE, w, now)
    case Limit(now) => RateLimited(w, now)
    case FallBack(now) => Fallback(pool, CONSOLE, w, now)
    case Fetch(reading) => Normalize(pool, CONSOLE, reading).GetOr(w)
    case Reset(now) => Tick(pool, w, now)
  }

  function ApplyAll(pool: string, w: Window, ops: seq<Op>): Window {
    if ops == [] then w else Apply(pool, ApplyAll(pool, w, ops[..|ops| - 1]), ops[|ops| - 1])
  }

  /** Every operation keeps a console window healthy, in any pool. */
  lemma ApplyHealthy(pool: string, w: Window, op: Op)
    requires Healthy(w) && GoodOp(op)
    ensures Healthy(Apply(pool, w, op))
  {
  }

  lemma {:induction false} RunHealthy(pool: string, w: Window, ops: seq<Op>)
    requires Healthy(w) && forall k :: 0 <= k < |ops| ==> GoodOp(ops[k])
    ensures Healthy(ApplyAll(pool, w, ops))
  {
    if ops != [] {
      RunHealthy(pool, w, ops[..|ops| - 1]);
      ApplyHealthy(pool, ApplyAll(pool, w, ops[..|ops| - 1]), ops[|ops| - 1]);
    }
  }

  /** After any run an exhausted console window has a reset time, and the first tick at or after it
      restores the window, full, exactly when the pool has a console default. */
  lemma NeverStuck(pool: string, w: Window, ops: seq<Op>, now: int)
    requires Healthy(w) && forall k :: 0 <= k < |ops| ==> GoodOp(ops[k])
    requires var v := ApplyAll(pool, w, ops); v.remaining <= 0 && v.resetAt.Some? ==> now >= v.resetAt.value
    ensures var v := ApplyAll(pool, w, ops);
      v.remaining <= 0 ==> v.resetAt.Some? && (Tick(pool, v, now).remaining > 0 <==> BasicLike(pool))
    ensures var v := ApplyAll(pool, w, ops);
      v.remaining <= 0 && BasicLike(pool) ==> Tick(pool, v, now) == Window(20, 20, 3600, None, Some(now), Default)
  {
    RunHealthy(pool, w, ops);
  }

  /** The default console window of a pool that has one starts out healthy. */
  lemma DefaultHealthy(pool: string)
    requires BasicLike(pool)
    ensures DefaultWindow(pool, CONSOLE).Some? && Healthy(DefaultWindow(pool, CONSOLE).value)
  {
  }

  /** A tick restores a console window of a pool with a default, full, when its reset time has come, or it is
      exhausted without one, and it is not full already; it leaves any other as it is. */
  lemma TickRestores(pool: string, w: Window, now: int)
    ensures Tick(pool, w, now) ==
      if BasicLike(pool) && w.remaining < w.total
        && match w.resetAt case Some(at) => at <= now case None => w.remaining <= 0
      then Window(20, 20, 3600, None, Some(now), Default) else w
  {
  }

  /** An account whose console window the tick changes gets a patch, with its token and the new window. */
  lemma OnePatch(x: Account, now: int)
    ensures Patches([x], now) ==
      match x.quota
      case None => []
      case Some(q) =>
        if q.console.None? || Tick(x.pool, q.console.value, now) == q.console.value then []
        else [(x.token, Tick(x.pool, q.console.value, now))]
  {
    assert [x][..0] == [];
  }

  /** The patches of accounts one after the other. */
  lemma {:induction false} PatchesJoined(a: seq<Account>, b: seq<Account>, now: int)
    ensures Patches(a + b, now) == Patches(a, now) + Patches(b, now)
  {
    if b == [] {
      assert a + b == a;
    } else {
      var k := |b| - 1;
      assert (a + b)[..|a + b| - 1] == a + b[..k] && (a + b)[|a + b| - 1] == b[k];
      PatchesJoined(a, b[..k], now);
    }
  }

  /** Between resets: only an expired or stuck window that is not full is touched, so a tick does nothing
      to a healthy window before its reset time. */
  lemma TickEarlyDoesNothing(pool: string, w: Window, now: int)
    requires Healthy(w) && (w.resetAt.Some? ==> now < w.resetAt.value)
    ensures Tick(pool, w, now) == w
  {
  }

  /** A super window can be stuck for good: healthy, exhausted, past its reset time, and left alone by
      every tick. */
  lemma SuperStaysExhausted(now: nat)
    ensures var w := Window(0, 50, 7200, Some(0), None, Real);
      Healthy(w) && w.Expired(now) && Tick("super", w, now) == w
  {
  }
}
