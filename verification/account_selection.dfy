/** Indexed, windowed, per-pool selection is equivalent to one linear scan of the table. */
module AccountSelection {
  import opened Wrappers
  import opened AccountModel
  import opened AccountSelector

  /** What a linear scan would accept in one pool, judged before any window restarts. */
  ghost predicate Admissible(t: Table, pool: int, mode: int, o: Options, i: int)
    requires KnownMode(mode)
  {
    && 0 <= i < |t.rows| && Indexed(t.rows[i], pool, mode) && Free(t.rows[i], i, o)
    && (t.rows[i].quota.Get(mode) > 0 || DueReset(t.rows[i], mode, o.now))
  }

  ghost function AdmissibleSet(t: Table, pool: int, mode: int, o: Options): (s: set<int>)
    requires KnownMode(mode)
    ensures forall i {:trigger Admissible(t, pool, mode, o, i)} {:trigger i in s} :: i in s <==> Admissible(t, pool, mode, o, i)
  {
    set i | 0 <= i < |t.rows| && Admissible(t, pool, mode, o, i)
  }

  // ---- The score floor ----------------------------------------------------

  /** The score of a slot without its penalty for recent use. */
  function BaseScore(r: Row, mode: int): real
    requires KnownMode(mode)
  {
    r.health * 100.0 - r.inflight as real * 20.0 - Min(r.fails, 10) as real * 4.0 + r.quota.Get(mode) as real * 25.0
  }

  /** Floored slots cannot be told from none by the best-of loop. For one used within 15 seconds, or in
      the future, that is a matter of how far ahead of the clock its last use lies. */
  predicate Floored(r: Row, mode: int, now: int)
    requires KnownMode(mode)
  {
    if r.lastUse > 0 && now - r.lastUse < 15 then (r.lastUse - now) as real >= BaseScore(r, mode) - SCORE_FLOOR - 15.0
    else BaseScore(r, mode) <= SCORE_FLOOR
  }

  lemma FlooredIff(r: Row, mode: int, now: int)
    requires KnownMode(mode)
    ensures Floored(r, mode, now) <==> Score(r, mode, now) <= SCORE_FLOOR
  {
    var age := (now - r.lastUse) as real;
    assert (1.0 - age / 15.0) * 15.0 == 15.0 - age;
  }

  /** Clocks and health are sane enough that no slot with quota is floored. */
  ghost predicate Timely(t: Table, now: int) {
    forall i :: 0 <= i < |t.rows| ==>
      t.rows[i].health >= 0.0 && t.rows[i].inflight <= 65535 && t.rows[i].lastUse - now <= 100000000000000000
  }

  lemma ScoreAboveFloor(r: Row, mode: int, now: int)
    requires KnownMode(mode) && r.quota.Get(mode) > 0
    requires r.health >= 0.0 && r.inflight <= 65535 && r.lastUse - now <= 100000000000000000
    ensures !Floored(r, mode, now)
  {
  }

  /** Restarting the due windows twice at one time is restarting them once. */
  lemma ResetIdempotent(t: Table, pool: int, mode: int, now: int)
    requires KnownMode(mode)
    ensures ResetPool(ResetPool(t, pool, mode, now), pool, mode, now) == ResetPool(t, pool, mode, now)
  {
    var once := ResetPool(t, pool, mode, now);
    forall i | 0 <= i < |t.rows| ensures ResetPool(once, pool, mode, now).rows[i] == once.rows[i] {
      assert !DueReset(once.rows[i], mode, now) || !Indexed(t.rows[i], pool, mode);
    }
    assert ResetPool(once, pool, mode, now).rows == once.rows;
  }

  /** A pool's restart turns exactly the admissible slots into workable ones. */
  lemma WorkableAfterReset(t: Table, pool: int, mode: int, o: Options)
    requires KnownMode(mode)
    ensures Working(ResetPool(t, pool, mode, o.now), pool, mode, o) == AdmissibleSet(t, pool, mode, o)
  {
    var t1 := ResetPool(t, pool, mode, o.now);
    forall i ensures i in Working(t1, pool, mode, o) <==> i in AdmissibleSet(t, pool, mode, o) {
      if 0 <= i < |t.rows| {
        assert t1.rows[i] == if Indexed(t.rows[i], pool, mode) then ResetRow(t.rows[i], mode, o.now) else t.rows[i];
      }
    }
  }

  /** Restarting any pool's windows leaves admissibility in every pool as it was. */
  lemma AdmissibleStable(t: Table, q: int, pool: int, mode: int, o: Options)
    requires KnownMode(mode)
    ensures forall i :: Admissible(ResetPool(t, q, mode, o.now), pool, mode, o, i) <==> Admissible(t, pool, mode, o, i)
  {
    var t1 := ResetPool(t, q, mode, o.now);
    forall i ensures Admissible(t1, pool, mode, o, i) <==> Admissible(t, pool, mode, o, i) {
      if 0 <= i < |t.rows| {
        assert t1.rows[i] == if Indexed(t.rows[i], q, mode) then ResetRow(t.rows[i], mode, o.now) else t.rows[i];
      }
    }
  }

  lemma {:induction false} AfterAdmissible(t: Table, pools: seq<int>, k: nat, pool: int, mode: int, o: Options)
    requires KnownMode(mode) && k <= |pools|
    ensures forall i :: Admissible(After(t, pools, k, mode, o.now), pool, mode, o, i) <==> Admissible(t, pool, mode, o, i)
  {
    if k > 0 {
      AfterAdmissible(t, pools, k - 1, pool, mode, o);
      AdmissibleStable(After(t, pools, k - 1, mode, o.now), pools[k - 1], pool, mode, o);
    }
  }

  lemma {:induction false} AfterRows(t: Table, pools: seq<int>, k: nat, mode: int, now: int)
    requires KnownMode(mode) && k <= |pools|
    ensures After(t, pools, k, mode, now) == t.(rows := After(t, pools, k, mode, now).rows)
    ensures forall i :: 0 <= i < |t.rows| ==> SameButWindows(t.rows[i], After(t, pools, k, mode, now).rows[i])
  {
    if k > 0 {
      AfterRows(t, pools, k - 1, mode, now);
    }
  }

  /** When pool k is tried, its working set is exactly the admissible slots of the original table. */
  lemma WorkingAt(t: Table, pools: seq<int>, k: nat, mode: int, o: Options)
    requires KnownMode(mode) && k < |pools|
    ensures Working(After(t, pools, k + 1, mode, o.now), pools[k], mode, o) == AdmissibleSet(t, pools[k], mode, o)
  {
    AfterAdmissible(t, pools, k, pools[k], mode, o);
    WorkableAfterReset(After(t, pools, k, mode, o.now), pools[k], mode, o);
    assert AdmissibleSet(After(t, pools, k, mode, o.now), pools[k], mode, o) == AdmissibleSet(t, pools[k], mode, o);
  }

  /** What the tried pool's restart has made of an admissible slot by then, whatever was tried before. */
  lemma RowWhenTried(t: Table, pools: seq<int>, k: nat, mode: int, now: int, i: int)
    requires KnownMode(mode) && k < |pools| && 0 <= i < |t.rows| && Indexed(t.rows[i], pools[k], mode)
    ensures After(t, pools, k + 1, mode, now).rows[i] == ResetRow(t.rows[i], mode, now)
  {
    AfterRow(t, pools, k, mode, now, i);
    var r, r1 := t.rows[i], After(t, pools, k, mode, now).rows[i];
    assert Indexed(r1, pools[k], mode);
    assert ResetRow(ResetRow(r, mode, now), mode, now) == ResetRow(r, mode, now);
  }

  lemma {:induction false} AfterRow(t: Table, pools: seq<int>, k: nat, mode: int, now: int, i: int)
    requires KnownMode(mode) && k <= |pools| && 0 <= i < |t.rows|
    ensures After(t, pools, k, mode, now).rows[i] in {t.rows[i], ResetRow(t.rows[i], mode, now)}
  {
    if k > 0 {
      AfterRow(t, pools, k - 1, mode, now, i);
      assert ResetRow(ResetRow(t.rows[i], mode, now), mode, now) == ResetRow(t.rows[i], mode, now);
    }
  }

  /** What the first k pools' restarts have made of any row: an active one of a tried pool has started over
      if it was due, and every other one is as it was. */
  lemma {:induction false} AfterRestarts(t: Table, pools: seq<int>, k: nat, mode: int, now: int, i: int)
    requires KnownMode(mode) && k <= |pools| && 0 <= i < |t.rows|
    ensures var r, r' := t.rows[i], After(t, pools, k, mode, now).rows[i];
      if r.status == ACTIVE && r.pool in pools[..k] then RestartsIfDue(r, r', mode, now) else r' == r
  {
    hide RestartsIfDue;
    RowAfterFirst(t, pools, k, mode, now, i);
    ResetRestarts(t.rows[i], mode, now);
    RestartsOnlyWithWindow(t.rows[i], mode, now);
  }

  lemma RestartsOnlyWithWindow(r: Row, mode: int, now: int)
    ensures r.window.Get(mode) <= 0 ==> RestartsIfDue(r, r, mode, now)
  {
  }

  lemma {:induction false} RowAfterFirst(t: Table, pools: seq<int>, k: nat, mode: int, now: int, i: int)
    requires KnownMode(mode) && k <= |pools| && 0 <= i < |t.rows|
    ensures After(t, pools, k, mode, now).rows[i] ==
      if t.rows[i].pool in pools[..k] && Indexed(t.rows[i], t.rows[i].pool, mode) then ResetRow(t.rows[i], mode, now)
      else t.rows[i]
  {
    if k > 0 {
      RowAfterFirst(t, pools, k - 1, mode, now, i);
      assert pools[..k] == pools[..k - 1] + [pools[k - 1]];
      assert ResetRow(ResetRow(t.rows[i], mode, now), mode, now) == ResetRow(t.rows[i], mode, now);
    }
  }

  /** What each column is worth in a score: a point of health 100, a lease 20, each of the first ten failures
      4, a request left 25, and use within the last 15 seconds a point for every second short of 15. */
  lemma ScoreTrades(r: Row, mode: int, now: int, health: real)
    requires KnownMode(mode)
    ensures Score(r.(health := health), mode, now) == Score(r, mode, now) + (health - r.health) * 100.0
    ensures Score(r.(inflight := r.inflight + 1), mode, now) == Score(r, mode, now) - 20.0
    ensures Score(r.(fails := r.fails + 1), mode, now) == Score(r, mode, now) - if r.fails < 10 then 4.0 else 0.0
    ensures Score(r.(quota := r.quota.Set(mode, r.quota.Get(mode) + 1)), mode, now) == Score(r, mode, now) + 25.0
    ensures Score(r.(lastUse := 0), mode, now) == Score(r, mode, now)
      + if r.lastUse > 0 && now - r.lastUse < 15 then (15 - (now - r.lastUse)) as real else 0.0
    ensures r.health == 0.0 && r.inflight == 0 && r.fails == 0 && r.quota.Get(mode) == 0 && r.lastUse == 0 ==>
      Score(r, mode, now) == 0.0
  {
    var age := (now - r.lastUse) as real;
    assert (1.0 - age / 15.0) * 15.0 == 15.0 - age;
    assert r.quota.Set(mode, r.quota.Get(mode) + 1).Get(mode) == r.quota.Get(mode) + 1;
  }

  /** A scan that ignores the mode sees what the scans of the six modes see together. */
  lemma AnyModeIsSomeMode(t: Table, pools: seq<int>, mode: int, o: Options, i: int)
    ensures InScope(t, pools, mode, o, true, i) <==> exists m :: KnownMode(m) && InScope(t, pools, m, o, false, i)
    ensures Available(t, pools, mode, o, true, i) <==> exists m :: KnownMode(m) && Available(t, pools, m, o, false, i)
  {
    if InScope(t, pools, mode, o, true, i) {
      var m :| 0 <= m < 6 && t.rows[i].window.Get(m) > 0;
      assert KnownMode(m) && InScope(t, pools, m, o, false, i);
    }
    if Available(t, pools, mode, o, true, i) {
      var m :| 0 <= m < 6 && t.rows[i].window.Get(m) > 0 && t.rows[i].quota.Get(m) > 0;
      assert KnownMode(m) && Available(t, pools, m, o, false, i);
    }
  }

  /** The slots a pool's selection chooses among, judged on the table before any restart. */
  ghost function Choices(t: Table, pool: int, mode: int, o: Options): set<int>
    requires KnownMode(mode)
  {
    Preferred(AdmissibleSet(t, pool, mode, o), o.prefer)
  }

  /** A pool offers nothing: it has no admissible slot, or under the quota strategy every slot it could
      choose is floored once its window has restarted. */
  ghost predicate Blocked(s: Strategy, t: Table, pool: int, mode: int, o: Options)
    requires KnownMode(mode)
  {
    match s
    case Random => AdmissibleSet(t, pool, mode, o) == {}
    case Quota =>
      forall i :: i in Choices(t, pool, mode, o) ==> Floored(ResetRow(t.rows[i], mode, o.now), mode, o.now)
  }

  /** With sane clocks a pool offers nothing exactly when a linear scan admits none of its slots. */
  lemma BlockedWhenTimely(s: Strategy, t: Table, pool: int, mode: int, o: Options)
    requires KnownMode(mode)
    ensures (forall i :: !Admissible(t, pool, mode, o, i)) ==> Blocked(s, t, pool, mode, o)
    ensures s == Random || Timely(t, o.now) ==>
      (Blocked(s, t, pool, mode, o) <==> forall i :: !Admissible(t, pool, mode, o, i))
  {
    var all, picks := AdmissibleSet(t, pool, mode, o), Choices(t, pool, mode, o);
    EmptyIff(all);
    EmptyIff(picks);
    if s == Quota && Timely(t, o.now) {
      forall i | i in picks ensures !Floored(ResetRow(t.rows[i], mode, o.now), mode, o.now) {
        assert Admissible(t, pool, mode, o, i);
        ScoreAboveFloor(ResetRow(t.rows[i], mode, o.now), mode, o.now);
      }
    }
  }

  /** The scores a pool's selection compares are those of the restarted rows of the original table. */
  lemma ScoresWhenTried(t: Table, pools: seq<int>, k: nat, mode: int, o: Options)
    requires KnownMode(mode) && k < |pools|
    ensures var t1 := After(t, pools, k + 1, mode, o.now);
      && Preferred(Working(t1, pools[k], mode, o), o.prefer) == Choices(t, pools[k], mode, o)
      && forall i :: i in Choices(t, pools[k], mode, o) ==>
           && 0 <= i < |t.rows| && t1.rows[i] == ResetRow(t.rows[i], mode, o.now)
           && (Floored(t1.rows[i], mode, o.now) <==> Score(t1.rows[i], mode, o.now) <= SCORE_FLOOR)
  {
    hide Floored, Score;
    var t1 := After(t, pools, k + 1, mode, o.now);
    WorkingAt(t, pools, k, mode, o);
    forall i | i in Choices(t, pools[k], mode, o)
      ensures 0 <= i < |t.rows| && t1.rows[i] == ResetRow(t.rows[i], mode, o.now)
      ensures Floored(t1.rows[i], mode, o.now) <==> Score(t1.rows[i], mode, o.now) <= SCORE_FLOOR
    {
      assert Admissible(t, pools[k], mode, o, i);
      RowWhenTried(t, pools, k, mode, o.now, i);
      FlooredIff(t1.rows[i], mode, o.now);
    }
  }

  /** Pool k's selection fails exactly when the pool offers nothing. */
  lemma ChosenNone(s: Strategy, t: Table, pools: seq<int>, k: nat, mode: int, o: Options)
    requires KnownMode(mode) && k < |pools|
    ensures Chosen(s, After(t, pools, k + 1, mode, o.now), pools[k], mode, o, None) <==> Blocked(s, t, pools[k], mode, o)
  {
    hide Score, Floored;
    ScoresWhenTried(t, pools, k, mode, o);
    WorkingAt(t, pools, k, mode, o);
    EmptyIff(AdmissibleSet(t, pools[k], mode, o));
    EmptyIff(Choices(t, pools[k], mode, o));
  }

  /** The first k pools fail exactly when each of them offers nothing. */
  lemma {:induction false} FailedIff(s: Strategy, t: Table, pools: seq<int>, mode: int, o: Options, k: nat)
    requires KnownMode(mode) && k <= |pools|
    ensures Failed(s, t, pools, mode, o, k) <==> forall j :: 0 <= j < k ==> Blocked(s, t, pools[j], mode, o)
  {
    hide Blocked, Chosen;
    if k > 0 {
      FailedIff(s, t, pools, mode, o, k - 1);
      ChosenNone(s, t, pools, k - 1, mode, o);
    }
  }

  /** The linear scan of the original table admits no slot of any requested pool. */
  ghost predicate NothingAdmitted(t: Table, pools: seq<int>, mode: int, o: Options)
    requires KnownMode(mode)
  {
    forall k, i :: 0 <= k < |pools| ==> !Admissible(t, pools[k], mode, o, i)
  }

  /** Some requested pool has something to offer. */
  ghost predicate SomeOffer(s: Strategy, t: Table, pools: seq<int>, mode: int, o: Options)
    requires KnownMode(mode)
  {
    exists k :: 0 <= k < |pools| && !Blocked(s, t, pools[k], mode, o)
  }

  /** A reservation fails exactly when no requested pool has anything to offer, on every table. That is
      the verdict of the linear scan exactly when the scan admits nothing or some pool does offer; under
      the random strategy, or with sane clocks, it always is. */
  lemma NonePickedIff(s: Strategy, t: Table, pools: seq<int>, mode: int, o: Options)
    requires KnownMode(mode)
    ensures NonePicked(s, t, pools, mode, o) <==> !SomeOffer(s, t, pools, mode, o)
    ensures (NonePicked(s, t, pools, mode, o) <==> NothingAdmitted(t, pools, mode, o))
      <==> NothingAdmitted(t, pools, mode, o) || SomeOffer(s, t, pools, mode, o)
    ensures s == Random || Timely(t, o.now) ==>
      (NonePicked(s, t, pools, mode, o) <==> NothingAdmitted(t, pools, mode, o))
  {
    hide Blocked, Timely, Admissible, Failed;
    FailedIff(s, t, pools, mode, o, |pools|);
    forall k | 0 <= k < |pools|
      ensures (forall i :: !Admissible(t, pools[k], mode, o, i)) ==> Blocked(s, t, pools[k], mode, o)
      ensures s == Random || Timely(t, o.now) ==>
        (Blocked(s, t, pools[k], mode, o) <==> forall i :: !Admissible(t, pools[k], mode, o, i))
    {
      BlockedWhenTimely(s, t, pools[k], mode, o);
    }
  }

  /** What pool k must offer for slot c to be picked: an admissible slot, preferred when any is, that is
      not floored and, under the quota strategy, scores no lower than the others. */
  ghost predicate Offered(s: Strategy, t: Table, pool: int, mode: int, o: Options, c: int)
    requires KnownMode(mode)
  {
    && c in Choices(t, pool, mode, o)
    && (s == Quota ==>
          && !Floored(ResetRow(t.rows[c], mode, o.now), mode, o.now)
          && forall j :: j in Choices(t, pool, mode, o) ==>
               Score(ResetRow(t.rows[j], mode, o.now), mode, o.now) <= Score(ResetRow(t.rows[c], mode, o.now), mode, o.now))
  }

  /** Which picks are possible, exactly and on every table: slot c of pool k when every earlier pool offers
      nothing and pool k offers c. So the pick is admissible, and preferred when an admissible slot is. */
  lemma PickedIsAdmissible(s: Strategy, t: Table, pools: seq<int>, mode: int, o: Options, k: int, c: int)
    requires KnownMode(mode) && 0 <= k < |pools|
    ensures Picked(s, t, pools, mode, o, k, c)
      <==> (forall j :: 0 <= j < k ==> Blocked(s, t, pools[j], mode, o)) && Offered(s, t, pools[k], mode, o, c)
    ensures Offered(s, t, pools[k], mode, o, c) ==>
      && Admissible(t, pools[k], mode, o, c)
      && (c in o.prefer || forall i :: i in o.prefer ==> !Admissible(t, pools[k], mode, o, i))
  {
    hide Blocked, Failed, Score, Floored;
    FailedIff(s, t, pools, mode, o, k);
    ScoresWhenTried(t, pools, k, mode, o);
    if c in Choices(t, pools[k], mode, o) {
      FlooredIff(ResetRow(t.rows[c], mode, o.now), mode, o.now);
      if i :| i in o.prefer && Admissible(t, pools[k], mode, o, i) {
        assert i in AdmissibleSet(t, pools[k], mode, o) * o.prefer;
      }
    }
  }

  /** Conversely, whenever a requested pool has something to offer, a reservation cannot fail, and that
      pool or an earlier one can be picked from; with sane clocks an admissible slot is such an offer. */
  lemma {:induction false} AdmissibleIsPicked(s: Strategy, t: Table, pools: seq<int>, mode: int, o: Options, k: nat)
    requires KnownMode(mode) && k < |pools|
    ensures !Blocked(s, t, pools[k], mode, o) ==>
      !NonePicked(s, t, pools, mode, o) && exists k', c :: k' <= k && Picked(s, t, pools, mode, o, k', c)
    ensures (s == Random || Timely(t, o.now)) && (exists i :: Admissible(t, pools[k], mode, o, i)) ==>
      !Blocked(s, t, pools[k], mode, o)
  {
    hide Blocked, Picked, Timely;
    BlockedWhenTimely(s, t, pools[k], mode, o);
    if !Blocked(s, t, pools[k], mode, o) {
      NonePickedIff(s, t, pools, mode, o);
      if j :| 0 <= j < k && !Blocked(s, t, pools[j], mode, o) {
        AdmissibleIsPicked(s, t, pools, mode, o, j);
        var k', c :| k' <= j && Picked(s, t, pools, mode, o, k', c);
        assert k' <= k && Picked(s, t, pools, mode, o, k', c);
      } else {
        var c := BestOffer(s, t, pools[k], mode, o);
        PickedIsAdmissible(s, t, pools, mode, o, k, c);
        assert k <= k && Picked(s, t, pools, mode, o, k, c);
      }
    }
  }

  lemma BestOffer(s: Strategy, t: Table, pool: int, mode: int, o: Options) returns (c: int)
    requires KnownMode(mode) && !Blocked(s, t, pool, mode, o)
    ensures Offered(s, t, pool, mode, o, c)
  {
    hide Score, Floored;
    var picks := Choices(t, pool, mode, o);
    EmptyIff(AdmissibleSet(t, pool, mode, o));
    EmptyIff(picks);
    var t1 := t.(rows := seq(|t.rows|, i requires 0 <= i < |t.rows| => ResetRow(t.rows[i], mode, o.now)));
    c := TopScore(t1, picks, mode, o.now);
    if s == Quota {
      var i :| i in picks && !Floored(ResetRow(t.rows[i], mode, o.now), mode, o.now);
      FlooredIff(t1.rows[i], mode, o.now);
      FlooredIff(t1.rows[c], mode, o.now);
      assert Score(t1.rows[i], mode, o.now) <= Score(t1.rows[c], mode, o.now);
      forall j | j in picks
        ensures Score(ResetRow(t.rows[j], mode, o.now), mode, o.now) <= Score(ResetRow(t.rows[c], mode, o.now), mode, o.now)
      {
        assert t1.rows[j] == ResetRow(t.rows[j], mode, o.now) && t1.rows[c] == ResetRow(t.rows[c], mode, o.now);
      }
    }
  }

  lemma {:induction false} TopScore(t: Table, pick: set<int>, mode: int, now: int) returns (c: int)
    requires KnownMode(mode) && pick != {} && forall i :: i in pick ==> 0 <= i < |t.rows|
    ensures c in pick && forall j :: j in pick ==> Score(t.rows[j], mode, now) <= Score(t.rows[c], mode, now)
    decreases pick
  {
    Inhabited(pick);
    c :| c in pick;
    var rest := pick - {c};
    if rest != {} {
      var d := TopScore(t, rest, mode, now);
      if Score(t.rows[d], mode, now) > Score(t.rows[c], mode, now) {
        c := d;
      }
    }
  }

  /** Without the clock bound the quota strategy can refuse an admissible slot: a last-use time far
      in the future drives the score below the floor. */
  lemma FloorRefusesFutureSlot()
    ensures exists t: Table, o: Options :: Admissible(t, 1, 0, o, 0) && NonePicked(Quota, t, [1], 0, o)
  {
    var ones := ModeVals(1, 1, 1, 1, 1, 1);
    var row := Row(1, ACTIVE, ones, ones, ones, ones, 0, 0, 1.0, 2000000000000000000, 0, 0);
    var t := Table(["a"], map["a" := 0], [row], [{}], 0, 1);
    var o := Options({}, {}, 0, 8);
    var t1 := After(t, [1], 1, 0, 0);
    assert After(t, [1], 0, 0, 0) == t;
    assert t1.rows[0] == row;
    assert Score(row, 0, 0) <= SCORE_FLOOR;
    assert forall j :: j in Working(t1, 1, 0, o) ==> j == 0;
    assert Chosen(Quota, t1, 1, 0, o, None);
    assert Failed(Quota, t, [1], 0, o, 0);
    assert Admissible(t, 1, 0, o, 0) && NonePicked(Quota, t, [1], 0, o);
  }

  /** After every requested pool was tried, the scan that explains a failure finds available exactly the
      slots that were admissible before, and sees the same slots in scope with the same statuses. */
  lemma FailureScan(t: Table, pools: seq<int>, mode: int, o: Options)
    requires KnownMode(mode) && pools != []
    ensures var t1 := After(t, pools, |pools|, mode, o.now);
      && (AvailableSet(t1, pools, mode, o, false) == {} <==> NothingAdmitted(t, pools, mode, o))
      && ScopeSet(t1, pools, mode, o, false) == ScopeSet(t, pools, mode, o, false)
      && forall st :: StatusSet(t1, pools, mode, o, false, st) == StatusSet(t, pools, mode, o, false, st)
  {
    var t1 := After(t, pools, |pools|, mode, o.now);
    AfterRows(t, pools, |pools|, mode, o.now);
    assert forall i :: 0 <= i < |t.rows| ==> SameButWindows(t.rows[i], t1.rows[i]);
    EmptyIff(AvailableSet(t1, pools, mode, o, false));
    if i :| i in AvailableSet(t1, pools, mode, o, false) {
      var k :| 0 <= k < |pools| && pools[k] == t1.rows[i].pool;
      AfterAdmissible(t, pools, |pools|, pools[k], mode, o);
      assert Admissible(t1, pools[k], mode, o, i);
      assert Admissible(t, pools[k], mode, o, i);
    }
    if k, i :| 0 <= k < |pools| && Admissible(t, pools[k], mode, o, i) {
      RowAfterAll(t, pools, k, mode, o.now, i);
      assert i in AvailableSet(t1, pools, mode, o, false);
    }
  }

  lemma {:induction false} RowAfterAll(t: Table, pools: seq<int>, k: nat, mode: int, now: int, i: int)
    requires KnownMode(mode) && k < |pools| && 0 <= i < |t.rows| && Indexed(t.rows[i], pools[k], mode)
    ensures After(t, pools, |pools|, mode, now).rows[i] == ResetRow(t.rows[i], mode, now)
  {
    RowWhenTried(t, pools, k, mode, now, i);
    RowKept(t, pools, k + 1, |pools|, mode, now, i);
  }

  lemma {:induction false} RowKept(t: Table, pools: seq<int>, j: nat, k: nat, mode: int, now: int, i: int)
    requires KnownMode(mode) && j <= k <= |pools| && 0 <= i < |t.rows|
    requires After(t, pools, j, mode, now).rows[i] == ResetRow(t.rows[i], mode, now)
    ensures After(t, pools, k, mode, now).rows[i] == ResetRow(t.rows[i], mode, now)
    decreases k
  {
    if j < k {
      RowKept(t, pools, j, k - 1, mode, now, i);
      assert ResetRow(ResetRow(t.rows[i], mode, now), mode, now) == ResetRow(t.rows[i], mode, now);
    }
  }
}
