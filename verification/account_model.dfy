/** The account runtime table as a value: one row per slot, what every table
    operation of app/dataplane/account does to it, and which slots may be leased. */
module AccountModel {
  import opened Wrappers

  const ACTIVE := 0
  const EXPIRED := 2
  const DISABLED := 3
  const DELETED := 4

  const POOL_BASIC := 0
  const DEFAULT_MAX_INFLIGHT := 8
  const SCORE_FLOOR := -1000000000000000000.0

  predicate KnownMode(mode: int) {
    0 <= mode < 6
  }

  /** One value per mode. Every mode id outside 0..4 selects the console value, as the
      column accessors of the table do. */
  datatype ModeVals = ModeVals(auto: int, fast: int, expert: int, heavy: int, grok43: int, console: int) {
    function Get(mode: int): int {
      match mode
      case 0 => auto
      case 1 => fast
      case 2 => expert
      case 3 => heavy
      case 4 => grok43
      case _ => console
    }

    function Set(mode: int, v: int): (r: ModeVals)
      ensures forall m {:trigger r.Get(m)} ::
        r.Get(m) == if m == mode || (!(0 <= m <= 4) && !(0 <= mode <= 4)) then v else Get(m)
    {
      match mode
      case 0 => this.(auto := v)
      case 1 => this.(fast := v)
      case 2 => this.(expert := v)
      case 3 => this.(heavy := v)
      case 4 => this.(grok43 := v)
      case _ => this.(console := v)
    }
  }

  datatype Slot = Slot(
    token: string, pool: int, status: int,
    quota: ModeVals, total: ModeVals, window: ModeVals, reset: ModeVals,
    health: real, lastUse: int, lastFail: int, fails: int, tags: seq<string>)

  datatype Row = Row(
    pool: int, status: int,
    quota: ModeVals, total: ModeVals, window: ModeVals, reset: ModeVals,
    inflight: int, fails: int, health: real, lastUse: int, lastFail: int, cooling: int)

  datatype Table = Table(
    tokens: seq<string>, idxOf: map<string, int>,
    rows: seq<Row>, tags: seq<set<string>>, revision: int, size: int)

  const EMPTY := Table([], map[], [], [], 0, 0)

  ghost predicate Inverse(tokens: seq<string>, idxOf: map<string, int>) {
    && (forall s :: s in idxOf ==> 0 <= idxOf[s] < |tokens| && tokens[idxOf[s]] == s)
    && (forall i :: 0 <= i < |tokens| ==> tokens[i] in idxOf && idxOf[tokens[i]] == i)
  }

  ghost predicate WF(t: Table) {
    && |t.tokens| == |t.rows| == |t.tags|
    && Inverse(t.tokens, t.idxOf)
  }

  // ---- Clamping -----------------------------------------------------------

  function ClampInt(value: int, lo: int, hi: int): int {
    if value < lo then lo else if value > hi then hi else value
  }

  function ClampQuota(v: int): int { ClampInt(v, -1, 32767) }
  function ClampTotal(v: int): int { ClampInt(v, 0, 32767) }
  function ClampNonNegative(v: int): int { if v < 0 then 0 else v }
  function ClampFails(v: int): int { ClampInt(v, 0, 65535) }

  function ClampQuotas(v: ModeVals): (r: ModeVals)
    ensures forall m {:trigger r.Get(m)} :: r.Get(m) == ClampQuota(v.Get(m))
  {
    ModeVals(ClampQuota(v.auto), ClampQuota(v.fast), ClampQuota(v.expert),
             ClampQuota(v.heavy), ClampQuota(v.grok43), ClampQuota(v.console))
  }

  function ClampTotals(v: ModeVals): (r: ModeVals)
    ensures forall m {:trigger r.Get(m)} :: r.Get(m) == ClampTotal(v.Get(m))
  {
    ModeVals(ClampTotal(v.auto), ClampTotal(v.fast), ClampTotal(v.expert),
             ClampTotal(v.heavy), ClampTotal(v.grok43), ClampTotal(v.console))
  }

  function ClampWindows(v: ModeVals): (r: ModeVals)
    ensures forall m {:trigger r.Get(m)} :: r.Get(m) == ClampNonNegative(v.Get(m))
  {
    ModeVals(ClampNonNegative(v.auto), ClampNonNegative(v.fast), ClampNonNegative(v.expert),
             ClampNonNegative(v.heavy), ClampNonNegative(v.grok43), ClampNonNegative(v.console))
  }

  // ---- Table operations ---------------------------------------------------

  /** The row of a slot that enters the table for the first time. */
  function FreshRow(s: Slot): Row {
    Row(s.pool, s.status, ClampQuotas(s.quota), ClampTotals(s.total), ClampWindows(s.window), s.reset,
        0, ClampFails(s.fails), s.health, s.lastUse, s.lastFail, 0)
  }

  /** A rewritten row keeps its in-flight count, health and cooling deadline. */
  function Rewrite(r: Row, s: Slot): Row {
    r.(pool := s.pool, status := s.status, quota := ClampQuotas(s.quota), total := ClampTotals(s.total),
       window := ClampWindows(s.window), reset := s.reset, fails := ClampFails(s.fails),
       lastUse := s.lastUse, lastFail := s.lastFail)
  }

  function TagSet(tags: seq<string>): set<string> {
    set x | x in tags
  }

  function Append(t: Table, s: Slot): Table {
    t.(tokens := t.tokens + [s.token], idxOf := t.idxOf[s.token := |t.tokens|],
       rows := t.rows + [FreshRow(s)], tags := t.tags + [TagSet(s.tags)], size := t.size + 1)
  }

  function SetRow(t: Table, i: int, r: Row): Table
    requires 0 <= i < |t.rows|
  {
    t.(rows := t.rows[i := r])
  }

  function Update(t: Table, i: int, s: Slot, oldTags: set<string>): Table
    requires 0 <= i < |t.rows| && |t.tags| == |t.rows|
  {
    SetRow(t, i, Rewrite(t.rows[i], s)).(tags := t.tags[i := (t.tags[i] - oldTags) + TagSet(s.tags)])
  }

  function MarkDeleted(t: Table, i: int): Table
    requires 0 <= i < |t.rows|
  {
    SetRow(t, i, t.rows[i].(status := DELETED)).(size := if t.size > 0 then t.size - 1 else t.size)
  }

  // ---- Feedback on one row ------------------------------------------------

  datatype Strategy = Quota | Random

  datatype Kind = Success | RateLimited | Unauthorized | Forbidden | ServerError | Other

  /** Feedback parameters; `update` carries the upstream remaining count and reset time in ms. */
  datatype Feedback = Feedback(kind: Kind, mode: int, ts: int, coolingSec: int, update: Option<(int, int)>)

  function BumpHealth(h: real): real {
    if 1.0 < h + 0.12 then 1.0 else h + 0.12
  }

  function AdjustHealth(h: real, factor: real): real {
    if h * factor < 0.05 then 0.05 else h * factor
  }

  function SuccessQuota(r: Row, mode: int): Row {
    r.(quota := r.quota.Set(mode, Max(0, r.quota.Get(mode) - 1)), health := BumpHealth(r.health))
  }

  function RateLimitedQuota(r: Row, mode: int): Row {
    (if KnownMode(mode) then r.(quota := r.quota.Set(mode, 0)) else r).(health := AdjustHealth(r.health, 0.45))
  }

  function RateLimitedRandom(r: Row, mode: int, now: int, coolingSec: int): Row {
    (if KnownMode(mode) then
       r.(quota := r.quota.Set(mode, 0),
          reset := r.reset.Set(mode, Max(r.reset.Get(mode), now + Max(0, coolingSec))))
     else r).(health := AdjustHealth(r.health, 0.45))
  }

  function LastFail(r: Row, ts: int): Row {
    r.(lastFail := ts, fails := Min(r.fails + 1, 65535))
  }

  function QuotaUpdate(r: Row, mode: int, remaining: int, resetS: int): Row {
    r.(quota := r.quota.Set(mode, ClampInt(remaining, 0, 32767)), reset := r.reset.Set(mode, resetS))
  }

  /** What the kind of a feedback does to the row under either strategy. */
  function KindRow(r: Row, s: Strategy, f: Feedback): Row {
    match f.kind
    case Success => if s == Random then r.(health := BumpHealth(r.health)) else SuccessQuota(r, f.mode)
    case RateLimited =>
      LastFail(if s == Random then RateLimitedRandom(r, f.mode, f.ts, f.coolingSec) else RateLimitedQuota(r, f.mode), f.ts)
    case Unauthorized => LastFail(r.(health := AdjustHealth(r.health, 0.55)), f.ts).(status := EXPIRED)
    case Forbidden => LastFail(r.(health := AdjustHealth(r.health, 0.25)), f.ts)
    case ServerError => LastFail(r.(health := AdjustHealth(r.health, 0.75)), f.ts)
    case Other => r
  }

  /** What `Feedback` does to the row of its token: a reading of the upstream quota comes last. */
  function FeedbackRow(r: Row, s: Strategy, f: Feedback): Row {
    var r1 := KindRow(r, s, f);
    if s == Quota && f.update.Some? then
      QuotaUpdate(r1, f.mode, f.update.value.0, TruncDiv(f.update.value.1, 1000))
    else r1
  }

  function FeedbackTable(t: Table, token: string, s: Strategy, f: Feedback): Table {
    if token in t.idxOf && 0 <= t.idxOf[token] < |t.rows| then
      SetRow(t, t.idxOf[token], FeedbackRow(t.rows[t.idxOf[token]], s, f))
    else t
  }

  // ---- In-flight leases ---------------------------------------------------

  function Grant(t: Table, i: int, now: int): Table
    requires 0 <= i < |t.rows|
  {
    SetRow(t, i, t.rows[i].(inflight := Min(t.rows[i].inflight + 1, 65535), lastUse := now))
  }

  function Release(t: Table, i: int): Table {
    if 0 <= i < |t.rows| then SetRow(t, i, t.rows[i].(inflight := Max(0, t.rows[i].inflight - 1))) else t
  }

  // ---- Which slots the mode index holds -----------------------------------

  /** What the bucket of (pool, mode) must hold. */
  predicate Indexed(r: Row, pool: int, mode: int) {
    r.pool == pool && r.status == ACTIVE && KnownMode(mode) && r.window.Get(mode) > 0
  }

  // ---- What these operations promise, column by column --------------------

  /** Mode ids that share a column: all those outside 0..4 mean the console. */
  predicate SameColumn(m: int, mode: int) {
    m == mode || (!(0 <= m <= 4) && !(0 <= mode <= 4))
  }

  /** x is v when v lies in lo..hi, and otherwise the nearer bound. */
  predicate Within(v: int, x: int, lo: int, hi: int) {
    && (lo <= v <= hi ==> x == v)
    && (v < lo ==> x == lo)
    && (v > hi ==> x == hi)
  }

  /** The columns of a row that only sync writes carry the slot's values. */
  ghost predicate Carries(r: Row, s: Slot) {
    && r.pool == s.pool
    && forall m :: KnownMode(m) ==>
      && Within(s.total.Get(m), r.total.Get(m), 0, 32767)
      && r.window.Get(m) == if s.window.Get(m) >= 0 then s.window.Get(m) else 0
  }

  /** Every column that a record determines carries the slot's value. */
  ghost predicate Holds(r: Row, s: Slot) {
    && Carries(r, s) && r.status == s.status && r.reset == s.reset
    && r.lastUse == s.lastUse && r.lastFail == s.lastFail && Within(s.fails, r.fails, 0, 65535)
    && forall m :: KnownMode(m) ==> Within(s.quota.Get(m), r.quota.Get(m), -1, 32767)
  }

  /** A written row holds its slot; a new one has no lease, the slot's health and no cooling deadline, and a
      rewritten one keeps these. */
  lemma WrittenHolds(r: Row, s: Slot)
    ensures Holds(FreshRow(s), s) && FreshRow(s).inflight == 0 && FreshRow(s).health == s.health && FreshRow(s).cooling == 0
    ensures var r' := Rewrite(r, s);
      Holds(r', s) && r'.inflight == r.inflight && r'.health == r.health && r'.cooling == r.cooling
  {
  }

  /** Two columns with the same value in every known mode are equal. */
  lemma SameVals(a: ModeVals, b: ModeVals)
    requires forall m :: KnownMode(m) ==> a.Get(m) == b.Get(m)
    ensures a == b
  {
    assert KnownMode(0) && KnownMode(1) && KnownMode(2) && KnownMode(3) && KnownMode(4) && KnownMode(5);
    assert a.Get(0) == b.Get(0) && a.Get(1) == b.Get(1) && a.Get(2) == b.Get(2);
    assert a.Get(3) == b.Get(3) && a.Get(4) == b.Get(4) && a.Get(5) == b.Get(5);
  }

  /** Rows that hold one slot agree in every column a record determines. */
  lemma HoldsSame(a: Row, b: Row, s: Slot)
    requires Carries(a, s) && Carries(b, s)
    ensures a.pool == b.pool && a.total == b.total && a.window == b.window
    ensures Holds(a, s) && Holds(b, s) ==> b == a.(inflight := b.inflight, health := b.health, cooling := b.cooling)
  {
    SameVals(a.total, b.total);
    SameVals(a.window, b.window);
    if Holds(a, s) && Holds(b, s) {
      SameVals(a.quota, b.quota);
    }
  }

  /** A health scaled by a factor, never below 0.05. */
  predicate Scaled(h: real, h': real, factor: real) {
    h' == if h * factor >= 0.05 then h * factor else 0.05
  }

  ghost predicate HealthEffect(h: real, h': real, kind: Kind) {
    match kind
    case Success => h' == if h <= 0.88 then h + 0.12 else 1.0
    case RateLimited => Scaled(h, h', 0.45)
    case Unauthorized => Scaled(h, h', 0.55)
    case Forbidden => Scaled(h, h', 0.25)
    case ServerError => Scaled(h, h', 0.75)
    case Other => h' == h
  }

  /** Every failure stamps its time and counts once, up to 65535; success and other kinds do neither. */
  ghost predicate FailEffect(r: Row, r': Row, f: Feedback) {
    if f.kind == Success || f.kind == Other then r'.lastFail == r.lastFail && r'.fails == r.fails
    else r'.lastFail == f.ts && r'.fails == if r.fails < 65535 then r.fails + 1 else 65535
  }

  /** Quota and reset of mode m: under the quota strategy an upstream reading replaces both and else a success
      costs one, not below zero; a rate limit empties a known mode, and under the random strategy its reset
      does not come before the feedback's time plus cooling. Anything else keeps both. */
  ghost predicate WindowEffect(r: Row, r': Row, s: Strategy, f: Feedback, m: int) {
    var q, q', x, x' := r.quota.Get(m), r'.quota.Get(m), r.reset.Get(m), r'.reset.Get(m);
    if !SameColumn(m, f.mode) then q' == q && x' == x
    else if s == Quota && f.update.Some? then
      var (remaining, ms) := f.update.value;
      && Within(remaining, q', 0, 32767)
      && if ms >= 0 then 1000 * x' <= ms < 1000 * x' + 1000 else 1000 * x' - 1000 < ms <= 1000 * x'
    else if f.kind == Success && s == Quota then (q' == if q >= 1 then q - 1 else 0) && x' == x
    else if f.kind == RateLimited && KnownMode(f.mode) then
      && q' == 0
      && var until := if f.coolingSec > 0 then f.ts + f.coolingSec else f.ts;
         x' == if s == Random && until > x then until else x
    else q' == q && x' == x
  }

  /** What feedback does to the row of its token, column by column: only unauthorized feedback changes the
      status, to Expired. */
  ghost predicate Effects(r: Row, r': Row, s: Strategy, f: Feedback) {
    && r' == r.(status := r'.status, quota := r'.quota, reset := r'.reset, health := r'.health,
                lastFail := r'.lastFail, fails := r'.fails)
    && r'.status == (if f.kind == Unauthorized then EXPIRED else r.status)
    && HealthEffect(r.health, r'.health, f.kind) && FailEffect(r, r', f)
    && forall m :: WindowEffect(r, r', s, f, m)
  }

  lemma FeedbackEffects(r: Row, s: Strategy, f: Feedback)
    ensures Effects(r, FeedbackRow(r, s, f), s, f)
  {
    forall m ensures WindowEffect(r, FeedbackRow(r, s, f), s, f, m) {
    }
  }

  /** The window of a mode has started over at `now`: its quota is the total and its reset lies one window
      ahead. No other mode and no other column has changed. */
  ghost predicate Restarted(r: Row, r': Row, mode: int, now: int) {
    && r'.quota.Get(mode) == r.total.Get(mode) && r'.reset.Get(mode) == now + r.window.Get(mode)
    && r' == r.(quota := r'.quota, reset := r'.reset)
    && forall m :: !SameColumn(m, mode) ==> r'.quota.Get(m) == r.quota.Get(m) && r'.reset.Get(m) == r.reset.Get(m)
  }

  /** A window that has a reset time, a total and a length, and whose reset time has come, starts over; any
      other row stays as it is. */
  ghost predicate RestartsIfDue(r: Row, r': Row, mode: int, now: int) {
    if r.pool == 0 && r.reset.Get(mode) != 0 && r.reset.Get(mode) <= now && r.total.Get(mode) > 0 && r.window.Get(mode) > 0
    then Restarted(r, r', mode, now)
    else r' == r
  }

  lemma ResetRestarts(r: Row, mode: int, now: int)
    ensures RestartsIfDue(r, ResetRow(r, mode, now), mode, now)
  {
  }

  // ---- Selection ----------------------------------------------------------

  datatype Options = Options(exclude: set<int>, prefer: set<int>, now: int, maxInflight: int)

  function Cap(o: Options): int {
    if o.maxInflight <= 0 then DEFAULT_MAX_INFLIGHT else o.maxInflight
  }

  predicate DueReset(r: Row, mode: int, now: int) {
    && r.pool == POOL_BASIC && r.reset.Get(mode) != 0 && now >= r.reset.Get(mode)
    && r.total.Get(mode) > 0 && r.window.Get(mode) > 0
  }

  function ResetRow(r: Row, mode: int, now: int): Row {
    if DueReset(r, mode, now) then
      r.(quota := r.quota.Set(mode, r.total.Get(mode)), reset := r.reset.Set(mode, now + r.window.Get(mode)))
    else r
  }

  /** `maybeResetWindows` over the bucket of (pool, mode). */
  function ResetPool(t: Table, pool: int, mode: int, now: int): (t': Table)
    requires KnownMode(mode)
    ensures |t'.rows| == |t.rows|
  {
    t.(rows := seq(|t.rows|, i requires 0 <= i < |t.rows| =>
      if Indexed(t.rows[i], pool, mode) then ResetRow(t.rows[i], mode, now) else t.rows[i]))
  }

  /** The limits every candidate must meet besides quota. */
  predicate Free(r: Row, i: int, o: Options) {
    i !in o.exclude && r.cooling <= o.now && r.inflight < Cap(o)
  }

  predicate Workable(t: Table, pool: int, mode: int, o: Options, i: int) {
    0 <= i < |t.rows| && Indexed(t.rows[i], pool, mode) && Free(t.rows[i], i, o) && t.rows[i].quota.Get(mode) > 0
  }

  function Working(t: Table, pool: int, mode: int, o: Options): set<int> {
    set i | 0 <= i < |t.rows| && Workable(t, pool, mode, o, i)
  }

  function Preferred(working: set<int>, prefer: set<int>): set<int> {
    if working * prefer == {} then working else working * prefer
  }

  function Score(r: Row, mode: int, now: int): real {
    r.health * 100.0 - r.inflight as real * 20.0 - Min(r.fails, 10) as real * 4.0
    + r.quota.Get(mode) as real * 25.0
    - (if r.lastUse > 0 && now - r.lastUse < 15
       then (1.0 - (now - r.lastUse) as real / 15.0) * 15.0 else 0.0)
  }

  /** What may be chosen among some slots: any of them under the random strategy, a best-scoring one above
      the score floor under the quota strategy. */
  ghost predicate ChosenFrom(s: Strategy, t: Table, pick: set<int>, mode: int, now: int, r: Option<int>)
    requires forall i :: i in pick ==> 0 <= i < |t.rows|
  {
    match s
    case Random => if r.Some? then r.value in pick else pick == {}
    case Quota =>
      if r.Some? then
        && r.value in pick
        && Score(t.rows[r.value], mode, now) > SCORE_FLOOR
        && forall j :: j in pick ==> Score(t.rows[j], mode, now) <= Score(t.rows[r.value], mode, now)
      else forall j :: j in pick ==> Score(t.rows[j], mode, now) <= SCORE_FLOOR
  }

  /** What one pool's selection may return for a known mode. */
  ghost predicate Chosen(s: Strategy, t: Table, pool: int, mode: int, o: Options, r: Option<int>)
    requires KnownMode(mode)
  {
    ChosenFrom(s, t, Preferred(Working(t, pool, mode, o), o.prefer), mode, o.now, r)
  }

  /** The table after the windows of the first k requested pools were reset. */
  function After(t: Table, pools: seq<int>, k: nat, mode: int, now: int): (t': Table)
    requires KnownMode(mode) && k <= |pools|
    ensures |t'.rows| == |t.rows|
  {
    if k == 0 then t else ResetPool(After(t, pools, k - 1, mode, now), pools[k - 1], mode, now)
  }

  /** The selections of the first k requested pools all come back empty. */
  ghost predicate Failed(s: Strategy, t: Table, pools: seq<int>, mode: int, o: Options, k: nat)
    requires KnownMode(mode) && k <= |pools|
  {
    k == 0 ||
    (Failed(s, t, pools, mode, o, k - 1) && Chosen(s, After(t, pools, k, mode, o.now), pools[k - 1], mode, o, None))
  }

  /** Pool k is the first whose selection succeeds, and it returns slot c. */
  ghost predicate Picked(s: Strategy, t: Table, pools: seq<int>, mode: int, o: Options, k: int, c: int)
    requires KnownMode(mode)
  {
    && 0 <= k < |pools|
    && Failed(s, t, pools, mode, o, k)
    && Chosen(s, After(t, pools, k + 1, mode, o.now), pools[k], mode, o, Some(c))
  }

  ghost predicate NonePicked(s: Strategy, t: Table, pools: seq<int>, mode: int, o: Options)
    requires KnownMode(mode)
  {
    Failed(s, t, pools, mode, o, |pools|)
  }
}
