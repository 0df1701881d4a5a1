/** The account state machine (state_machine*.go, models_quota.go): one feedback applied to a stored
    record, and what folding a whole list of feedbacks amounts to. */
module AccountStateMachine {
  import opened Wrappers
  import opened QuotaWindows

  // ---- Stored form --------------------------------------------------------

  /** Stored values; `Other` stands for anything the number and map readers reject. */
  datatype Value = Null | Num(n: int) | Str(s: string) | Obj(fields: map<string, Value>) | Other

  type Dict = map<string, Value>

  function OptNum(v: Option<int>): Value {
    match v
    case None => Null
    case Some(n) => Num(n)
  }

  function SourceId(s: Source): int {
    match s
    case Default => 0
    case Real => 1
    case Estimated => 2
  }

  function WindowToDict(w: Window): Dict {
    map["remaining" := Num(w.remaining), "total" := Num(w.total), "window_seconds" := Num(w.seconds),
        "reset_at" := OptNum(w.resetAt), "synced_at" := OptNum(w.syncedAt), "source" := Num(SourceId(w.source))]
  }

  function At(d: Dict, key: string): Value {
    if key in d then d[key] else Null
  }

  function IntOf(v: Value, default: int): Option<int> {
    match v
    case Null => Some(default)
    case Num(n) => Some(n)
    case _ => None
  }

  function OptIntOf(v: Value): Option<Option<int>> {
    match v
    case Null => Some(None)
    case Num(n) => Some(Some(n))
    case _ => None
  }

  function SourceOf(v: Value): Option<Source> {
    match IntOf(v, 0)
    case Some(n) => if n == 0 then Some(Default) else if n == 1 then Some(Real) else if n == 2 then Some(Estimated) else None
    case None => None
  }

  function WindowFromDict(d: Dict): Option<Window> {
    var remaining, total, seconds := IntOf(At(d, "remaining"), 0), IntOf(At(d, "total"), 0), IntOf(At(d, "window_seconds"), 0);
    var resetAt, syncedAt, source := OptIntOf(At(d, "reset_at")), OptIntOf(At(d, "synced_at")), SourceOf(At(d, "source"));
    if remaining.None? || total.None? || seconds.None? || resetAt.None? || syncedAt.None? || source.None? then None
    else Some(Window(remaining.value, total.value, seconds.value, resetAt.value, syncedAt.value, source.value))
  }

  /** The window stored under a key: absent when missing, null or an empty map. */
  function WindowAt(d: Dict, key: string): Option<Option<Window>> {
    match At(d, key)
    case Null => Some(None)
    case Obj(fields) =>
      if fields == map[] then Some(None)
      else if WindowFromDict(fields).None? then None
      else Some(WindowFromDict(fields))
    case _ => None
  }

  function RequiredWindowAt(d: Dict, key: string): Option<Window> {
    match WindowAt(d, key)
    case None => None
    case Some(None) => WindowFromDict(map[])
    case Some(Some(w)) => Some(w)
  }

  function AddWindow(d: Dict, key: string, w: Option<Window>): Dict {
    match w
    case None => d
    case Some(v) => d[key := Obj(WindowToDict(v))]
  }

  function BaseDict(q: QuotaSet): Dict {
    map["auto" := Obj(WindowToDict(q.auto)), "fast" := Obj(WindowToDict(q.fast)), "expert" := Obj(WindowToDict(q.expert))]
  }

  function ToDict(q: QuotaSet): Dict {
    AddWindow(AddWindow(AddWindow(BaseDict(q), "heavy", q.heavy), "grok_4_3", q.grok43), "console", q.console)
  }

  function FromDict(d: Dict): Option<QuotaSet> {
    var auto, fast, expert := RequiredWindowAt(d, "auto"), RequiredWindowAt(d, "fast"), RequiredWindowAt(d, "expert");
    var heavy, grok43, console := WindowAt(d, "heavy"), WindowAt(d, "grok_4_3"), WindowAt(d, "console");
    if auto.None? || fast.None? || expert.None? || heavy.None? || grok43.None? || console.None? then None
    else Some(QuotaSet(auto.value, fast.value, expert.value, heavy.value, grok43.value, console.value))
  }

  lemma WindowRoundTrip(w: Window)
    ensures WindowFromDict(WindowToDict(w)) == Some(w) && WindowToDict(w) != map[]
  {
    assert "remaining" in WindowToDict(w);
  }

  lemma WindowAtAdded(d: Dict, key: string, w: Option<Window>)
    ensures forall k :: k != key ==> WindowAt(AddWindow(d, key, w), k) == WindowAt(d, k)
    ensures key !in d ==> WindowAt(AddWindow(d, key, w), key) == Some(w)
    ensures forall k :: k in AddWindow(d, key, w) ==> k == key || k in d
  {
    if w.Some? {
      WindowRoundTrip(w.value);
    }
    hide WindowToDict, WindowFromDict;
  }

  lemma BaseWindows(q: QuotaSet)
    ensures WindowAt(BaseDict(q), "auto") == Some(Some(q.auto))
    ensures WindowAt(BaseDict(q), "fast") == Some(Some(q.fast))
    ensures WindowAt(BaseDict(q), "expert") == Some(Some(q.expert))
    ensures forall k :: k in BaseDict(q) ==> k == "auto" || k == "fast" || k == "expert"
  {
    WindowRoundTrip(q.auto);
    WindowRoundTrip(q.fast);
    WindowRoundTrip(q.expert);
    hide WindowToDict, WindowFromDict;
  }

  /** Reading back a stored quota set gives the set that was stored. */
  lemma QuotaSetRoundTrip(q: QuotaSet)
    ensures FromDict(ToDict(q)) == Some(q)
  {
    hide AddWindow, WindowAt, BaseDict;
    BaseWindows(q);
    var d := BaseDict(q);
    var d1 := AddWindow(d, "heavy", q.heavy);
    var d2 := AddWindow(d1, "grok_4_3", q.grok43);
    WindowAtAdded(d, "heavy", q.heavy);
    WindowAtAdded(d1, "grok_4_3", q.grok43);
    WindowAtAdded(d2, "console", q.console);
  }

  // ---- Accounts and feedback ----------------------------------------------

  datatype Status = Active | Cooling | Expired | Disabled

  /** An account with its quota in stored or typed form. */
  datatype Account<Q> = Account(
    pool: string, status: Status, quota: Q, uses: int, fails: int, syncs: int,
    lastUseAt: Option<int>, lastFailAt: Option<int>, lastFailReason: Option<string>, lastSyncAt: Option<int>,
    stateReason: Option<string>, ext: Dict, updatedAt: int)

  type Typed = Account<QuotaSet>
  type Stored = Account<Dict>

  function WithQuota<P, Q>(a: Account<P>, q: Q): Account<Q> {
    Account.Account(a.pool, a.status, q, a.uses, a.fails, a.syncs, a.lastUseAt, a.lastFailAt, a.lastFailReason,
            a.lastSyncAt, a.stateReason, a.ext, a.updatedAt)
  }

  function Store(a: Typed): Stored {
    WithQuota(a, ToDict(a.quota))
  }

  datatype Kind = Success | Unauthorized | Forbidden | RateLimit | ServerError | Disable | Delete | Restore

  datatype Feedback = Feedback(kind: Kind, mode: int, at: int, statusCode: Option<int>, reason: string,
                               window: Option<Window>, retryAfterMs: Option<int>, confirmExpired: bool, applyUsage: bool)

  const STRIKES := "forbidden_strikes"
  const COOLDOWN_UNTIL := "cooldown_until"
  const COOLDOWN_REASON := "cooldown_reason"

  const FAILURE_KEYS: set<string> := {COOLDOWN_UNTIL, COOLDOWN_REASON, "disabled_at", "disabled_reason", "expired_at",
                                      "expired_reason", STRIKES, "invalid_credentials"}

  function Itoa(n: int): string
    decreases if n < 0 then 1 - n else n
  {
    if n < 0 then "-" + Itoa(-n)
    else if n < 10 then [('0' as int + n) as char]
    else Itoa(n / 10) + [('0' as int + n % 10) as char]
  }

  function OrElse(s: string, fallback: string): string {
    if s == "" then fallback else s
  }

  function FailureReason(f: Feedback): string {
    if f.reason != "" then f.reason
    else if f.statusCode.None? || f.statusCode.value == 0 then ""
    else Itoa(f.statusCode.value)
  }

  predicate CountsAsFailure(k: Kind) {
    k != Success && k != Restore && k != Disable && k != Delete
  }

  function Strikes(a: Typed): int {
    IntOf(At(a.ext, STRIKES), 0).GetOr(0)
  }

  // ---- One feedback -------------------------------------------------------

  function ApplyQuota(a: Typed, f: Feedback): Typed {
    if f.window.Some? then
      a.(quota := a.quota.Set(f.mode, f.window.value), lastSyncAt := Some(f.at), syncs := a.syncs + 1)
    else if a.quota.Get(f.mode).None? then a
    else
      var w := a.quota.Get(f.mode).value;
      if f.kind == Success then
        a.(quota := a.quota.Set(f.mode, w.(remaining := Clamp(w.remaining - 1, 0, w.total))))
      else if f.kind == RateLimit then
        var resetAt := if f.retryAfterMs.Some? && f.retryAfterMs.value != 0 then f.at + f.retryAfterMs.value
                       else f.at + w.seconds * 1000;
        a.(quota := a.quota.Set(f.mode, w.(remaining := 0, resetAt := Some(resetAt))))
      else a
  }

  function ApplyCounters(a: Typed, f: Feedback): Typed {
    if f.kind == Success && f.applyUsage then a.(uses := a.uses + 1, lastUseAt := Some(f.at))
    else if CountsAsFailure(f.kind) then
      a.(fails := a.fails + 1, lastFailAt := Some(f.at), lastFailReason := Some(FailureReason(f)))
    else a
  }

  function Disabling(a: Typed, at: int, reason: string): Typed {
    a.(status := Disabled, stateReason := Some(reason),
       ext := a.ext["disabled_at" := Num(at)]["disabled_reason" := Str(reason)])
  }

  /** A cooling account whose cooldown has run out recovers on its next success. */
  predicate Recovers(a: Typed, f: Feedback) {
    f.kind == Success && a.status == Cooling && At(a.ext, COOLDOWN_UNTIL).Num? && f.at >= At(a.ext, COOLDOWN_UNTIL).n
  }

  function ApplyStatus(a: Typed, f: Feedback, threshold: int): Typed {
    match f.kind
    case Unauthorized =>
      if !f.confirmExpired then a
      else
        var reason := OrElse(f.reason, "token_expired");
        a.(status := Expired, stateReason := Some(reason),
           ext := a.ext["expired_at" := Num(f.at)]["expired_reason" := Str(reason)])
    case Forbidden =>
      var strikes := Strikes(a) + 1;
      var struck := a.(ext := a.ext[STRIKES := Num(strikes)]);
      if strikes < threshold then struck else Disabling(struck, f.at, OrElse(f.reason, "forbidden"))
    case Success =>
      if Recovers(a, f) then
        a.(status := Active, stateReason := None, ext := a.ext - {COOLDOWN_UNTIL, COOLDOWN_REASON, STRIKES})
      else a
    case Disable => Disabling(a, f.at, OrElse(f.reason, "operator_disabled"))
    case Restore =>
      a.(status := Active, stateReason := None, ext := a.ext - FAILURE_KEYS, quota := DefaultQuotaSet(a.pool))
    case _ => a
  }

  function Threshold(configured: int): int {
    if configured == 0 then 1 else configured
  }

  function Step(a: Typed, f: Feedback, threshold: int): Typed {
    ApplyStatus(ApplyCounters(ApplyQuota(a, f), f), f, threshold).(updatedAt := f.at)
  }

  /** The state object of one feedback, brought step by step to what `Step` specifies. */
  class FeedbackState {
    var a: Typed

    constructor (start: Typed)
      ensures a == start
    {
      a := start;
    }

    method ApplyQuotaInPlace(f: Feedback)
      modifies this
      ensures a == ApplyQuota(old(a), f)
    {
      if f.window.Some? {
        a := a.(quota := a.quota.Set(f.mode, f.window.value));
        a := a.(lastSyncAt := Some(f.at));
        a := a.(syncs := a.syncs + 1);
        return;
      }
      if f.kind == Success {
        DecrementQuota(f.mode);
        return;
      }
      if f.kind == RateLimit {
        RateLimitQuota(f);
      }
    }

    method DecrementQuota(mode: int)
      modifies this
      ensures a == if old(a).quota.Get(mode).None? then old(a)
        else var w := old(a).quota.Get(mode).value;
          old(a).(quota := old(a).quota.Set(mode, w.(remaining := Clamp(w.remaining - 1, 0, w.total))))
    {
      var window := a.quota.Get(mode);
      if window.Some? {
        var updated := window.value.(remaining := Clamp(window.value.remaining - 1, 0, window.value.total));
        a := a.(quota := a.quota.Set(mode, updated));
      }
    }

    method RateLimitQuota(f: Feedback)
      requires f.kind == RateLimit && f.window.None?
      modifies this
      ensures a == ApplyQuota(old(a), f)
    {
      var window := a.quota.Get(f.mode);
      if window.None? {
        return;
      }
      var resetAt := f.at + window.value.seconds * 1000;
      if f.retryAfterMs.Some? && f.retryAfterMs.value != 0 {
        resetAt := f.at + f.retryAfterMs.value;
      }
      a := a.(quota := a.quota.Set(f.mode, window.value.(remaining := 0, resetAt := Some(resetAt))));
    }

    method ApplyCountersInPlace(f: Feedback)
      modifies this
      ensures a == ApplyCounters(old(a), f)
    {
      if f.kind == Success && f.applyUsage {
        a := a.(uses := a.uses + 1);
        a := a.(lastUseAt := Some(f.at));
        return;
      }
      if CountsAsFailure(f.kind) {
        a := a.(fails := a.fails + 1);
        a := a.(lastFailAt := Some(f.at));
        a := a.(lastFailReason := Some(FailureReason(f)));
      }
    }

    method DisableInPlace(at: int, reason: string)
      modifies this
      ensures a == Disabling(old(a), at, reason)
    {
      a := a.(status := Disabled);
      a := a.(stateReason := Some(reason));
      a := a.(ext := a.ext["disabled_at" := Num(at)]);
      a := a.(ext := a.ext["disabled_reason" := Str(reason)]);
    }

    method ApplyStatusInPlace(f: Feedback, threshold: int)
      modifies this
      ensures a == ApplyStatus(old(a), f, threshold)
    {
      match f.kind {
        case Unauthorized =>
          if f.confirmExpired {
            var reason := OrElse(f.reason, "token_expired");
            a := a.(status := Expired, stateReason := Some(reason));
            a := a.(ext := a.ext["expired_at" := Num(f.at)]["expired_reason" := Str(reason)]);
          }
        case Forbidden =>
          var strikes := Strikes(a) + 1;
          a := a.(ext := a.ext[STRIKES := Num(strikes)]);
          if strikes >= threshold {
            DisableInPlace(f.at, OrElse(f.reason, "forbidden"));
          }
        case Success =>
          if a.status == Cooling && At(a.ext, COOLDOWN_UNTIL).Num? && f.at >= At(a.ext, COOLDOWN_UNTIL).n {
            a := a.(status := Active, stateReason := None);
            a := a.(ext := a.ext - {COOLDOWN_UNTIL, COOLDOWN_REASON, STRIKES});
          }
        case Disable => DisableInPlace(f.at, OrElse(f.reason, "operator_disabled"));
        case Restore =>
          a := a.(status := Active, stateReason := None);
          a := a.(ext := a.ext - FAILURE_KEYS);
          a := a.(quota := DefaultQuotaSet(a.pool));
        case _ =>
      }
    }
  }

  /** One feedback on a stored account; None when its quota data is malformed. */
  function StepStored(r: Stored, f: Feedback, threshold: int): Option<Stored> {
    match FromDict(r.quota)
    case None => None
    case Some(q) => Some(Store(Step(WithQuota(r, q), f, threshold)))
  }

  method ApplyFeedback(r: Stored, f: Feedback, forbiddenStrikes: int) returns (out: Option<Stored>)
    ensures out == StepStored(r, f, if forbiddenStrikes == 0 then 1 else forbiddenStrikes)
  {
    var threshold := Threshold(forbiddenStrikes);
    var quota := FromDict(r.quota);
    if quota.None? {
      return None;
    }
    var state := new FeedbackState(WithQuota(r, quota.value));
    state.ApplyQuotaInPlace(f);
    state.ApplyCountersInPlace(f);
    state.ApplyStatusInPlace(f, threshold);
    return Some(Store(state.a.(updatedAt := f.at)));
  }

  // ---- What one feedback does, field by field -----------------------------

  /** One mode's window after a feedback: the defaults after a restore, the supplied window where one came, one
      request less after a success, none until the retry-after time or for its own length after a rate limit. */
  lemma StepWindow(a: Typed, f: Feedback, threshold: int, m: int)
    requires 0 <= m < 6
    ensures var was, z := a.quota.Get(m), Step(a, f, threshold).quota.Get(m);
      if f.kind == Restore then z == DefaultQuotaSet(a.pool).Get(m)
      else if f.window.Some? then
        z == if m == f.mode || (m == 5 && !(0 <= f.mode < 6)) then f.window else was
      else if was.None? || m != f.mode || (f.kind != Success && f.kind != RateLimit) then z == was
      else if f.kind == Success then
        z.Some? && z.value == was.value.(remaining := z.value.remaining)
        && (InBounds(was.value) ==> z.value.remaining == if was.value.remaining > 0 then was.value.remaining - 1 else 0)
      else
        z == Some(was.value.(remaining := 0, resetAt := Some(f.at +
          if f.retryAfterMs.Some? && f.retryAfterMs.value != 0 then f.retryAfterMs.value else 1000 * was.value.seconds)))
  {
    StatusQuota(ApplyCounters(ApplyQuota(a, f), f), f, threshold);
    hide DefaultQuotaSet, ApplyStatus;
  }

  /** A feedback that disables the account. */
  predicate StepDisables(a: Typed, f: Feedback, threshold: int) {
    f.kind == Disable || (f.kind == Forbidden && Strikes(a) + 1 >= threshold)
  }

  /** The times and reasons a feedback leaves: of its supplied window, of a counted use, of a failure, and of the
      change of status it makes. */
  lemma StepStamps(a: Typed, f: Feedback, threshold: int)
    ensures var z := Step(a, f, threshold);
      && z.pool == a.pool && z.updatedAt == f.at
      && z.lastSyncAt == (if f.window.Some? then Some(f.at) else a.lastSyncAt)
      && z.lastUseAt == (if f.kind == Success && f.applyUsage then Some(f.at) else a.lastUseAt)
      && (f.kind in {Unauthorized, Forbidden, RateLimit, ServerError} ==>
            z.lastFailAt == Some(f.at) && z.lastFailReason.Some? && (f.reason != "" ==> z.lastFailReason.value == f.reason))
      && (f.kind !in {Unauthorized, Forbidden, RateLimit, ServerError} ==>
            z.lastFailAt == a.lastFailAt && z.lastFailReason == a.lastFailReason)
      && z.stateReason ==
           if Clears(a, f) then None
           else if f.reason != "" && StepDisables(a, f, threshold) then Some(f.reason)
           else if f.kind == Unauthorized && f.confirmExpired then Some(if f.reason == "" then "token_expired" else f.reason)
           else if f.kind == Disable then Some("operator_disabled")
           else if f.kind == Forbidden && Strikes(a) + 1 >= threshold then Some("forbidden")
           else a.stateReason
  {
    hide ApplyQuota, Itoa, At, DefaultQuotaSet;
    var b := ApplyCounters(ApplyQuota(a, f), f);
    QuotaKeeps(a, f);
    assert b.ext == a.ext && b.status == a.status && b.stateReason == a.stateReason;
  }

  lemma QuotaKeeps(a: Typed, f: Feedback)
    ensures var z := ApplyQuota(a, f);
      z == a.(quota := z.quota, lastSyncAt := if f.window.Some? then Some(f.at) else a.lastSyncAt, syncs := z.syncs)
  {
  }

  /** What a feedback writes beside the account, under the stored names. */
  lemma StepNotes(a: Typed, f: Feedback, threshold: int)
    ensures var z := Step(a, f, threshold);
      match f.kind
      case Restore => z.ext == a.ext - {"cooldown_until", "cooldown_reason", "disabled_at", "disabled_reason",
                                        "expired_at", "expired_reason", "forbidden_strikes", "invalid_credentials"}
      case Success =>
        z.ext == if Recovers(a, f) then a.ext - {"cooldown_until", "cooldown_reason", "forbidden_strikes"} else a.ext
      case Unauthorized =>
        z.ext == if f.confirmExpired then
          a.ext + map["expired_at" := Num(f.at), "expired_reason" := Str(if f.reason == "" then "token_expired" else f.reason)]
          else a.ext
      case Disable =>
        z.ext == a.ext + map["disabled_at" := Num(f.at),
                             "disabled_reason" := Str(if f.reason == "" then "operator_disabled" else f.reason)]
      case Forbidden =>
        var struck := a.ext["forbidden_strikes" := Num(Strikes(a) + 1)];
        z.ext == if Strikes(a) + 1 < threshold then struck
          else struck + map["disabled_at" := Num(f.at), "disabled_reason" := Str(if f.reason == "" then "forbidden" else f.reason)]
      case _ => z.ext == a.ext
  {
    hide ApplyQuota, FailureReason, At, DefaultQuotaSet;
    QuotaKeeps(a, f);
    var b := ApplyCounters(ApplyQuota(a, f), f);
    assert b.ext == a.ext && b.status == a.status;
  }

  /** A success ends a cooldown exactly when the stored time of its end has come, and the strikes are the stored
      number. */
  lemma NotesMean(a: Typed, f: Feedback)
    ensures Recovers(a, f) <==>
      && f.kind == Success && a.status == Cooling
      && exists until: int :: "cooldown_until" in a.ext && a.ext["cooldown_until"] == Num(until) && until <= f.at
    ensures Strikes(a) ==
      if "forbidden_strikes" in a.ext && a.ext["forbidden_strikes"].Num? then a.ext["forbidden_strikes"].n else 0
  {
    if Recovers(a, f) {
      assert a.ext["cooldown_until"] == Num(a.ext["cooldown_until"].n);
    }
  }

  /** The number that decimal digits denote. */
  function NumberOf(s: string): int {
    if s == "" then 0 else 10 * NumberOf(s[..|s| - 1]) + (s[|s| - 1] as int - '0' as int)
  }

  /** A failure without a reason is named by the digits of its status code, if it has one. */
  lemma {:induction false} ItoaRoundTrip(n: nat)
    ensures Itoa(n) != "" && NumberOf(Itoa(n)) == n && forall c :: c in Itoa(n) ==> '0' <= c <= '9'
    ensures n > 0 ==> Itoa(n)[0] != '0' && Itoa(0 - n) == "-" + Itoa(n)
  {
    if n >= 10 {
      ItoaRoundTrip(n / 10);
      var s := Itoa(n);
      assert s[..|s| - 1] == Itoa(n / 10);
    }
  }

  lemma StatusNamesFailure(a: Typed, f: Feedback, threshold: int)
    requires f.kind in {Unauthorized, Forbidden, RateLimit, ServerError} && f.reason == ""
    ensures var reason := Step(a, f, threshold).lastFailReason;
      reason == Some(if f.statusCode.Some? && f.statusCode.value != 0 then Itoa(f.statusCode.value) else "")
  {
    hide ApplyQuota, At, DefaultQuotaSet, Itoa;
  }

  /** The stored names, read as they stand: a quota set with one full, one empty and one basic window. */
  lemma StoredNames(remaining: int, total: int, seconds: int, resetAt: int, syncedAt: int)
    ensures var w := map["remaining" := Num(remaining), "total" := Num(total), "window_seconds" := Num(seconds),
                         "reset_at" := Num(resetAt), "synced_at" := Num(syncedAt), "source" := Num(1)];
      var read := Window(remaining, total, seconds, Some(resetAt), Some(syncedAt), Real);
      var none := Window(0, 0, 0, None, None, Default);
      && WindowFromDict(w) == Some(read) && WindowFromDict(w["source" := Num(2)]) == Some(read.(source := Estimated))
      && WindowFromDict(map[]) == Some(none) && WindowFromDict(w["source" := Num(3)]) == None
      && (forall key :: key in {"auto", "fast", "expert", "heavy", "grok_4_3", "console"} ==>
            FromDict(map[key := Obj(w)]) == Some(QuotaSet(
              if key == "auto" then read else none, if key == "fast" then read else none,
              if key == "expert" then read else none, if key == "heavy" then Some(read) else None,
              if key == "grok_4_3" then Some(read) else None, if key == "console" then Some(read) else None)))
  {
  }

  // ---- Folding a list of feedbacks ----------------------------------------

  function Fold(a: Typed, fs: seq<Feedback>, threshold: int): Typed {
    if fs == [] then a else Step(Fold(a, fs[..|fs| - 1], threshold), fs[|fs| - 1], threshold)
  }

  function FoldStored(r: Stored, fs: seq<Feedback>, threshold: int): Option<Stored> {
    if fs == [] then Some(r)
    else match FoldStored(r, fs[..|fs| - 1], threshold)
      case None => None
      case Some(s) => StepStored(s, fs[|fs| - 1], threshold)
  }

  /** Folding over stored accounts is folding over typed ones: storing between feedbacks loses nothing. */
  lemma {:induction false} StoredFoldIsTypedFold(a: Typed, fs: seq<Feedback>, threshold: int)
    ensures FoldStored(Store(a), fs, threshold) == Some(Store(Fold(a, fs, threshold)))
  {
    hide ToDict, FromDict, Step;
    if fs != [] {
      var pre := fs[..|fs| - 1];
      StoredFoldIsTypedFold(a, pre, threshold);
      var s := Fold(a, pre, threshold);
      QuotaSetRoundTrip(s.quota);
      assert WithQuota(Store(s), s.quota) == s;
    }
  }

  function Count(fs: seq<Feedback>, p: Feedback -> bool): nat {
    if fs == [] then 0 else Count(fs[..|fs| - 1], p) + if p(fs[|fs| - 1]) then 1 else 0
  }

  lemma StepCounters(a: Typed, f: Feedback, threshold: int)
    ensures var z := Step(a, f, threshold);
      && z.uses == a.uses + (if f.kind == Success && f.applyUsage then 1 else 0)
      && z.fails == a.fails + (if CountsAsFailure(f.kind) then 1 else 0)
      && z.syncs == a.syncs + (if f.window.Some? then 1 else 0)
  {
  }

  /** The counters are the initial ones plus the exact numbers of matching feedbacks. */
  lemma {:induction false} CountersAreCounts(a: Typed, fs: seq<Feedback>, threshold: int)
    ensures var z := Fold(a, fs, threshold);
      && z.uses == a.uses + Count(fs, (f: Feedback) => f.kind == Success && f.applyUsage)
      && z.fails == a.fails + Count(fs, (f: Feedback) => CountsAsFailure(f.kind))
      && z.syncs == a.syncs + Count(fs, (f: Feedback) => f.window.Some?)
  {
    hide Step;
    if fs != [] {
      CountersAreCounts(a, fs[..|fs| - 1], threshold);
      StepCounters(Fold(a, fs[..|fs| - 1], threshold), fs[|fs| - 1], threshold);
    }
  }

  ghost predicate InBounds(w: Window) {
    0 <= w.remaining <= w.total
  }

  ghost predicate AllInBounds(q: QuotaSet) {
    forall m {:trigger q.Get(m)} :: q.Get(m).Some? ==> InBounds(q.Get(m).value)
  }

  lemma DefaultsInBounds(pool: string)
    ensures AllInBounds(DefaultQuotaSet(pool))
  {
  }

  lemma StepInBounds(a: Typed, f: Feedback, threshold: int)
    requires AllInBounds(a.quota) && (f.window.Some? ==> InBounds(f.window.value))
    ensures AllInBounds(Step(a, f, threshold).quota)
  {
    hide AllInBounds;
    DefaultsInBounds(a.pool);
    QuotaInBounds(a, f);
    StatusQuota(ApplyCounters(ApplyQuota(a, f), f), f, threshold);
  }

  lemma QuotaInBounds(a: Typed, f: Feedback)
    requires AllInBounds(a.quota) && (f.window.Some? ==> InBounds(f.window.value))
    ensures AllInBounds(ApplyQuota(a, f).quota)
  {
    var q := ApplyQuota(a, f).quota;
    forall m | q.Get(m).Some? ensures InBounds(q.Get(m).value) {
      assert 0 <= m < 6;
    }
  }

  lemma StatusQuota(a: Typed, f: Feedback, threshold: int)
    ensures ApplyStatus(a, f, threshold).quota == if f.kind == Restore then DefaultQuotaSet(a.pool) else a.quota
  {
    hide DefaultQuotaSet;
  }

  /** Every window keeps 0 <= remaining <= total as long as supplied windows do. */
  lemma {:induction false} FoldInBounds(a: Typed, fs: seq<Feedback>, threshold: int)
    requires AllInBounds(a.quota)
    requires forall k :: 0 <= k < |fs| && fs[k].window.Some? ==> InBounds(fs[k].window.value)
    ensures AllInBounds(Fold(a, fs, threshold).quota)
  {
    if fs != [] {
      FoldInBounds(a, fs[..|fs| - 1], threshold);
      StepInBounds(Fold(a, fs[..|fs| - 1], threshold), fs[|fs| - 1], threshold);
    }
  }

  /** Spends the mode's window by one. */
  predicate Spends(f: Feedback, mode: int) {
    f.kind == Success && f.mode == mode && f.window.None?
  }

  predicate Limits(f: Feedback, mode: int) {
    f.kind == RateLimit && f.mode == mode && f.window.None?
  }

  /** What is left of a window after a list of feedbacks that neither restore the account nor supply this mode's
      window: nothing once a rate limit has come, and else what it had less the successes, down to zero. */
  lemma {:induction false} RemainingAfter(a: Typed, fs: seq<Feedback>, threshold: int, mode: int)
    requires 0 <= mode < 6 && a.quota.Get(mode).Some? && InBounds(a.quota.Get(mode).value)
    requires forall k :: 0 <= k < |fs| ==>
      fs[k].kind != Restore && (fs[k].window.Some? ==> 0 <= fs[k].mode < 6 && fs[k].mode != mode)
    ensures var z := Fold(a, fs, threshold).quota.Get(mode);
      var w := a.quota.Get(mode).value;
      && z.Some? && InBounds(z.value) && z.value.total == w.total && z.value.seconds == w.seconds
      && z.value.remaining ==
           if Count(fs, (f: Feedback) => Limits(f, mode)) > 0 then 0
           else Max(0, w.remaining - Count(fs, (f: Feedback) => Spends(f, mode)))
  {
    hide Step;
    if fs != [] {
      RemainingAfter(a, fs[..|fs| - 1], threshold, mode);
      StepWindow(Fold(a, fs[..|fs| - 1], threshold), fs[|fs| - 1], threshold, mode);
    }
  }

  // ---- Strikes and status -------------------------------------------------

  /** A restore, or a success that ends a cooldown, wipes the strikes. */
  predicate Clears(a: Typed, f: Feedback) {
    f.kind == Restore || Recovers(a, f)
  }

  /** What one feedback does to strikes and status. */
  lemma StepStatus(a: Typed, f: Feedback, threshold: int)
    ensures var z := Step(a, f, threshold);
      && Strikes(z) == (if Clears(a, f) then 0 else Strikes(a) + if f.kind == Forbidden then 1 else 0)
      && z.status == (if Clears(a, f) then Active
                      else if f.kind == Disable || (f.kind == Forbidden && Strikes(z) >= threshold) then Disabled
                      else if f.kind == Unauthorized && f.confirmExpired then Expired
                      else a.status)
  {
    var b := ApplyCounters(ApplyQuota(a, f), f);
    assert b.ext == a.ext && b.status == a.status;
  }

  ghost predicate ClearsAt(a: Typed, fs: seq<Feedback>, threshold: int, k: nat)
    requires k < |fs|
  {
    Clears(Fold(a, fs[..k], threshold), fs[k])
  }

  lemma LastOfTail(fs: seq<Feedback>, from: nat)
    requires from < |fs|
    ensures var n := |fs| - 1;
      fs[..n][from..] == fs[from..][..n - from] && |fs[from..]| == n - from + 1 && fs[from..][n - from] == fs[n]
  {
  }

  /** The strikes are the forbidden feedbacks since the last restore or recovery. */
  lemma {:induction false} StrikesSinceClear(a: Typed, fs: seq<Feedback>, threshold: int, from: nat)
    requires from <= |fs| && forall k :: from <= k < |fs| ==> !ClearsAt(a, fs, threshold, k)
    ensures Strikes(Fold(a, fs, threshold)) ==
      (if from > 0 && ClearsAt(a, fs, threshold, from - 1) then 0 else Strikes(Fold(a, fs[..from], threshold)))
      + Count(fs[from..], (f: Feedback) => f.kind == Forbidden)
    decreases |fs|
  {
    hide Step, Strikes, Clears;
    var n := |fs|;
    if from == n {
      assert fs[..n] == fs && fs[n..] == [];
      if from > 0 {
        StepStatus(Fold(a, fs[..n - 1], threshold), fs[n - 1], threshold);
      }
    } else {
      var pre := fs[..n - 1];
      forall k | 0 <= k < n - 1 ensures ClearsAt(a, pre, threshold, k) == ClearsAt(a, fs, threshold, k) {
        assert pre[..k] == fs[..k];
      }
      assert pre[..from] == fs[..from];
      StrikesSinceClear(a, pre, threshold, from);
      LastOfTail(fs, from);
      StepStatus(Fold(a, pre, threshold), fs[n - 1], threshold);
      assert !ClearsAt(a, fs, threshold, n - 1);
    }
  }

  predicate ConfirmedExpiry(f: Feedback) {
    f.kind == Unauthorized && f.confirmExpired
  }

  /** Feedback k disables the account, by an operator or by bringing the strikes to the threshold, and
      neither a restore nor a confirmed expiry follows it. */
  ghost predicate DisablesForGood(a: Typed, fs: seq<Feedback>, threshold: int, k: nat) {
    && k < |fs|
    && (fs[k].kind == Disable || (fs[k].kind == Forbidden && Strikes(Fold(a, fs[..k + 1], threshold)) >= threshold))
    && forall j :: k < j < |fs| ==> fs[j].kind != Restore && !ConfirmedExpiry(fs[j])
  }

  /** Nothing in the list brings a disabled account back. */
  predicate NothingRevives(fs: seq<Feedback>) {
    forall j :: 0 <= j < |fs| ==> fs[j].kind != Restore && !ConfirmedExpiry(fs[j])
  }

  /** An account ends up disabled exactly when some feedback disabled it for good, or it was disabled to
      begin with and nothing brought it back. */
  lemma DisabledIff(a: Typed, fs: seq<Feedback>, threshold: int)
    ensures Fold(a, fs, threshold).status == Disabled
      <==> (exists k: nat :: DisablesForGood(a, fs, threshold, k)) || (a.status == Disabled && NothingRevives(fs))
  {
    hide DisablesForGood, NothingRevives;
    if Fold(a, fs, threshold).status == Disabled && !(a.status == Disabled && NothingRevives(fs)) {
      var k := WhyDisabled(a, fs, threshold);
    }
    if k: nat :| DisablesForGood(a, fs, threshold, k) {
      StaysDisabled(a, fs, threshold, k);
    }
    if a.status == Disabled && NothingRevives(fs) {
      StartsDisabled(a, fs, threshold);
    }
  }

  lemma {:induction false} StartsDisabled(a: Typed, fs: seq<Feedback>, threshold: int)
    requires a.status == Disabled && NothingRevives(fs)
    ensures Fold(a, fs, threshold).status == Disabled
  {
    hide Step, Strikes;
    if fs != [] {
      StartsDisabled(a, fs[..|fs| - 1], threshold);
      StepStatus(Fold(a, fs[..|fs| - 1], threshold), fs[|fs| - 1], threshold);
    }
  }

  lemma {:induction false} StaysDisabled(a: Typed, fs: seq<Feedback>, threshold: int, k: nat)
    requires DisablesForGood(a, fs, threshold, k)
    ensures Fold(a, fs, threshold).status == Disabled
    decreases |fs|
  {
    hide Step, Strikes;
    var n := |fs|;
    var pre := fs[..n - 1];
    StepStatus(Fold(a, pre, threshold), fs[n - 1], threshold);
    if k == n - 1 {
      assert fs[..n] == fs;
    } else {
      assert pre[..k + 1] == fs[..k + 1];
      StaysDisabled(a, pre, threshold, k);
    }
  }

  lemma {:induction false} WhyDisabled(a: Typed, fs: seq<Feedback>, threshold: int) returns (k: nat)
    requires Fold(a, fs, threshold).status == Disabled && !(a.status == Disabled && NothingRevives(fs))
    ensures DisablesForGood(a, fs, threshold, k)
  {
    hide Step, Strikes;
    var n := |fs|;
    var pre := fs[..n - 1];
    StepStatus(Fold(a, pre, threshold), fs[n - 1], threshold);
    if fs[n - 1].kind == Disable || fs[n - 1].kind == Forbidden {
      if fs[n - 1].kind == Disable || Strikes(Fold(a, fs, threshold)) >= threshold {
        assert fs[..n] == fs;
        return n - 1;
      }
    }
    assert NothingRevives(pre) ==> NothingRevives(fs);
    k := WhyDisabled(a, pre, threshold);
    assert pre[..k + 1] == fs[..k + 1];
    forall j | k < j < n ensures fs[j].kind != Restore && !ConfirmedExpiry(fs[j]) {
      if j < n - 1 {
        assert pre[j] == fs[j];
      }
    }
  }

  /** Forbidden, rate-limit, server-error and success feedback, and unauthorized ones not confirmed. */
  ghost predicate Ordinary(f: Feedback) {
    f.kind != Disable && f.kind != Restore && !ConfirmedExpiry(f)
  }

  /** An active account without strikes is disabled by a run of ordinary feedback exactly when it
      collects the threshold of forbidden ones, and otherwise stays active. */
  lemma {:induction false} DisabledIffThreshold(a: Typed, fs: seq<Feedback>, threshold: int)
    requires a.status == Active && Strikes(a) == 0
    requires forall k :: 0 <= k < |fs| ==> Ordinary(fs[k])
    ensures var n := Count(fs, (f: Feedback) => f.kind == Forbidden);
      var z := Fold(a, fs, threshold);
      && Strikes(z) == n
      && (z.status == Disabled <==> n > 0 && n >= threshold)
      && (z.status == Active <==> !(n > 0 && n >= threshold))
  {
    hide Step, Strikes;
    if fs != [] {
      DisabledIffThreshold(a, fs[..|fs| - 1], threshold);
      StepStatus(Fold(a, fs[..|fs| - 1], threshold), fs[|fs| - 1], threshold);
    }
  }

  /** The status a reader derives at a given time. */
  function DeriveStatus(a: Typed, now: int): Status {
    if a.status != Cooling then a.status
    else if At(a.ext, COOLDOWN_UNTIL).Num? && now >= At(a.ext, COOLDOWN_UNTIL).n then Active
    else Cooling
  }

  /** Reading a cooled-down account as active agrees with what its next success writes. */
  lemma DerivedIsRecovered(a: Typed, f: Feedback, threshold: int)
    requires f.kind == Success
    ensures Step(a, f, threshold).status == DeriveStatus(a, f.at)
  {
    StepStatus(a, f, threshold);
  }
}
