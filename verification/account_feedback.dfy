/** Feedback applied to the table in place (feedback.go). */
module AccountFeedback {
  import opened Wrappers
  import opened AccountModel
  import opened AccountTable

  method ApplySuccessQuota(t: RuntimeTable, idx: int, mode: int)
    requires t.Valid() && 0 <= idx < |t.rows|
    modifies t
    ensures t.Valid() && t.View() == SetRow(old(t.View()), idx, SuccessQuota(old(t.rows[idx]), mode))
  {
    var quota := t.rows[idx].quota;
    t.rows := t.rows[idx := t.rows[idx].(quota := quota.Set(mode, Max(0, quota.Get(mode) - 1)))];
    SetHealth(t, idx, BumpHealth(t.rows[idx].health));
  }

  method SetHealth(t: RuntimeTable, idx: int, health: real)
    requires t.Valid() && 0 <= idx < |t.rows|
    modifies t
    ensures t.Valid() && t.View() == SetRow(old(t.View()), idx, old(t.rows[idx]).(health := health))
  {
    t.rows := t.rows[idx := t.rows[idx].(health := health)];
  }

  method ApplyRateLimitedQuota(t: RuntimeTable, idx: int, mode: int)
    requires t.Valid() && 0 <= idx < |t.rows|
    modifies t
    ensures t.Valid() && t.View() == SetRow(old(t.View()), idx, RateLimitedQuota(old(t.rows[idx]), mode))
  {
    if KnownMode(mode) {
      t.rows := t.rows[idx := t.rows[idx].(quota := t.rows[idx].quota.Set(mode, 0))];
    }
    SetHealth(t, idx, AdjustHealth(t.rows[idx].health, 0.45));
  }

  method ApplyRateLimitedRandom(t: RuntimeTable, idx: int, mode: int, now: int, coolingSec: int)
    requires t.Valid() && 0 <= idx < |t.rows|
    modifies t
    ensures t.Valid()
    ensures t.View() == SetRow(old(t.View()), idx, RateLimitedRandom(old(t.rows[idx]), mode, now, coolingSec))
  {
    if KnownMode(mode) {
      t.rows := t.rows[idx := t.rows[idx].(quota := t.rows[idx].quota.Set(mode, 0))];
      var ts := now + Max(0, coolingSec);
      var reset := t.rows[idx].reset;
      if ts > reset.Get(mode) {
        reset := reset.Set(mode, ts);
      }
      t.rows := t.rows[idx := t.rows[idx].(reset := reset)];
      SetSame(old(t.rows[idx].reset), mode);
    }
    SetHealth(t, idx, AdjustHealth(t.rows[idx].health, 0.45));
  }

  /** Storing the value a known mode already has changes nothing. */
  lemma SetSame(v: ModeVals, mode: int)
    requires KnownMode(mode)
    ensures v.Set(mode, v.Get(mode)) == v
  {
  }

  /** Moves a slot to another status and its buckets with it. Leaving Active keeps the mode index
      exact. Entering Active consults the quota column, so the index stays exact if and only if
      every mode has quota exactly when it has a window. */
  method ApplyStatusChange(t: RuntimeTable, idx: int, newStatus: int)
    requires t.Valid() && 0 <= idx < |t.rows|
    modifies t
    ensures t.View() == SetRow(old(t.View()), idx, old(t.rows[idx]).(status := newStatus))
    ensures newStatus != ACTIVE || old(t.rows[idx].status) == ACTIVE ==> t.Valid()
    ensures newStatus == ACTIVE && old(t.rows[idx].status) != ACTIVE ==>
      (t.Valid() <==> forall m | KnownMode(m) ::
        t.rows[idx].quota.Get(m) > 0 <==> t.rows[idx].window.Get(m) > 0)
  {
    var pool := t.rows[idx].pool;
    if t.rows[idx].status == newStatus {
      return;
    }
    t.rows := t.rows[idx := t.rows[idx].(status := newStatus)];
    if newStatus != ACTIVE {
      t.RemoveFromIndexes(idx);
      return;
    }
    for mode := 0 to 6
      modifies t`modeAvailable
      invariant forall p: int, m: int, i: int {:trigger i in Bucket(t.modeAvailable, ModeKey(p, m))} ::
        i in Bucket(t.modeAvailable, ModeKey(p, m)) <==>
          i in old(Bucket(t.modeAvailable, ModeKey(p, m)))
          || (i == idx && p == pool && 0 <= m < mode && t.rows[idx].quota.Get(m) > 0)
    {
      if t.rows[idx].quota.Get(mode) > 0 {
        t.modeAvailable := AddTo(t.modeAvailable, ModeKey(pool, mode), idx);
      }
    }
    assert forall m :: KnownMode(m) ==>
      (idx in Bucket(t.modeAvailable, ModeKey(pool, m)) <==> t.rows[idx].quota.Get(m) > 0);
    assert forall m :: KnownMode(m) ==> (Indexed(t.rows[idx], pool, m) <==> t.rows[idx].window.Get(m) > 0);
  }

  /** Reactivating an expired slot that has a window but no quota leaves it out of the mode index, where
      every other path would put it. */
  method ReactivationMissesSlot() returns (t: RuntimeTable)
    ensures fresh(t) && !t.Valid() && |t.rows| == 1 && t.rows[0].status == ACTIVE
  {
    var none, window := ModeVals(0, 0, 0, 0, 0, 0), ModeVals(0, 60, 0, 0, 0, 0);
    t := new RuntimeTable();
    var idx := t.AppendSlot(Slot("a", POOL_BASIC, EXPIRED, none, none, window, none, 1.0, 0, 0, 0, []));
    assert t.rows[0].quota.Get(1) == 0 && t.rows[0].window.Get(1) == 60;
    ApplyStatusChange(t, idx, ACTIVE);
    assert KnownMode(1);
  }

  /** Stores an upstream quota reading. The slot enters the bucket of the mode when it is active
      and has a window, which for a known mode is where it already was. */
  method ApplyQuotaUpdate(t: RuntimeTable, idx: int, mode: int, remaining: int, resetS: int)
    requires t.Valid() && 0 <= idx < |t.rows|
    modifies t
    ensures t.Valid() && t.View() == SetRow(old(t.View()), idx, QuotaUpdate(old(t.rows[idx]), mode, remaining, resetS))
  {
    t.rows := t.rows[idx := QuotaUpdate(t.rows[idx], mode, remaining, resetS)];
    if t.rows[idx].status == ACTIVE {
      var key := ModeKey(t.rows[idx].pool, mode);
      if t.rows[idx].window.Get(mode) > 0 {
        t.modeAvailable := AddTo(t.modeAvailable, key, idx);
      }
    }
  }

  method IncrementInflight(t: RuntimeTable, idx: int)
    requires t.Valid() && 0 <= idx < |t.rows|
    modifies t
    ensures t.Valid() && t.View() == SetRow(old(t.View()), idx,
      old(t.rows[idx]).(inflight := Min(old(t.rows[idx].inflight) + 1, 65535)))
  {
    t.rows := t.rows[idx := t.rows[idx].(inflight := Min(t.rows[idx].inflight + 1, 65535))];
  }

  method DecrementInflight(t: RuntimeTable, idx: int)
    requires t.Valid() && 0 <= idx < |t.rows|
    modifies t
    ensures t.Valid() && t.View() == Release(old(t.View()), idx)
  {
    t.rows := t.rows[idx := t.rows[idx].(inflight := Max(0, t.rows[idx].inflight - 1))];
  }

  method UpdateLastUse(t: RuntimeTable, idx: int, now: int)
    requires t.Valid() && 0 <= idx < |t.rows|
    modifies t
    ensures t.Valid() && t.View() == SetRow(old(t.View()), idx, old(t.rows[idx]).(lastUse := now))
  {
    t.rows := t.rows[idx := t.rows[idx].(lastUse := now)];
  }

  method UpdateLastFail(t: RuntimeTable, idx: int, now: int)
    requires t.Valid() && 0 <= idx < |t.rows|
    modifies t
    ensures t.Valid() && t.View() == SetRow(old(t.View()), idx, LastFail(old(t.rows[idx]), now))
  {
    t.rows := t.rows[idx := t.rows[idx].(lastFail := now, fails := Min(t.rows[idx].fails + 1, 65535))];
  }

  /** A failure of any kind but a rate limit: health falls by its factor and the failure is stamped. */
  method ApplyFailure(t: RuntimeTable, idx: int, factor: real, ts: int)
    requires t.Valid() && 0 <= idx < |t.rows|
    modifies t
    ensures t.Valid()
    ensures t.View() ==
      SetRow(old(t.View()), idx, LastFail(old(t.rows[idx]).(health := AdjustHealth(old(t.rows[idx].health), factor)), ts))
  {
    SetHealth(t, idx, AdjustHealth(t.rows[idx].health, factor));
    UpdateLastFail(t, idx, ts);
  }

  /** What the kind of the feedback calls for. */
  method ApplyKind(t: RuntimeTable, idx: int, s: Strategy, f: Feedback)
    requires t.Valid() && 0 <= idx < |t.rows|
    modifies t
    ensures t.Valid() && t.View() == SetRow(old(t.View()), idx, KindRow(old(t.rows[idx]), s, f))
  {
    hide AdjustHealth, BumpHealth, Max, KnownMode, Indexed, RuntimeTable.Valid, TagColumn;
    match f.kind {
      case Success =>
        if s == Random {
          SetHealth(t, idx, BumpHealth(t.rows[idx].health));
        } else {
          ApplySuccessQuota(t, idx, f.mode);
        }
      case RateLimited =>
        if s == Random {
          ApplyRateLimitedRandom(t, idx, f.mode, f.ts, f.coolingSec);
        } else {
          ApplyRateLimitedQuota(t, idx, f.mode);
        }
        UpdateLastFail(t, idx, f.ts);
      case Unauthorized =>
        ApplyFailure(t, idx, 0.55, f.ts);
        ApplyStatusChange(t, idx, EXPIRED);
      case Forbidden =>
        ApplyFailure(t, idx, 0.25, f.ts);
      case ServerError =>
        ApplyFailure(t, idx, 0.75, f.ts);
      case Other =>
    }
  }

  /** The body of the directory's feedback once the token's slot is known. */
  method ApplyFeedback(t: RuntimeTable, idx: int, s: Strategy, f: Feedback)
    requires t.Valid() && 0 <= idx < |t.rows|
    modifies t
    ensures t.Valid() && t.View() == SetRow(old(t.View()), idx, FeedbackRow(old(t.rows[idx]), s, f))
    ensures |t.rows| == |old(t.rows)| && Effects(old(t.rows[idx]), t.rows[idx], s, f)
    ensures forall i :: 0 <= i < |t.rows| && i != idx ==> t.rows[i] == old(t.rows)[i]
  {
    hide Effects, KindRow, Indexed, RuntimeTable.Valid, TagColumn;
    FeedbackEffects(t.rows[idx], s, f);
    ApplyKind(t, idx, s, f);
    if s == Quota && f.update.Some? {
      ApplyQuotaUpdate(t, idx, f.mode, f.update.value.0, TruncDiv(f.update.value.1, 1000));
    }
  }
}
