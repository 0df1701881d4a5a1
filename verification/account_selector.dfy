/** Choosing a slot of one pool under either strategy (selector.go), and the linear scan that
    explains a failed reservation (selection_status.go). */
module AccountSelector {
  import opened Wrappers
  import opened AccountModel
  import opened AccountTable

  /** Every due window among the candidates restarts, in the basic pool. */
  function ResetAmong(t: Table, candidates: set<int>, pool: int, mode: int, now: int): Table {
    t.(rows := seq(|t.rows|, i requires 0 <= i < |t.rows| =>
      if pool == POOL_BASIC && i in candidates then ResetRow(t.rows[i], mode, now) else t.rows[i]))
  }

  /** Every candidate's window starts over if it is due, in the basic pool; every other row is kept. */
  ghost predicate RestartsAmong(rows: seq<Row>, rows': seq<Row>, candidates: set<int>, pool: int, mode: int, now: int) {
    && |rows'| == |rows|
    && forall i :: 0 <= i < |rows| ==>
      if pool == 0 && i in candidates then RestartsIfDue(rows[i], rows'[i], mode, now) else rows'[i] == rows[i]
  }

  lemma AmongRestarts(t: Table, candidates: set<int>, pool: int, mode: int, now: int)
    ensures RestartsAmong(t.rows, ResetAmong(t, candidates, pool, mode, now).rows, candidates, pool, mode, now)
  {
    forall i | 0 <= i < |t.rows| && pool == 0 && i in candidates
      ensures RestartsIfDue(t.rows[i], ResetAmong(t, candidates, pool, mode, now).rows[i], mode, now)
    {
      ResetRestarts(t.rows[i], mode, now);
    }
  }

  /** Restarts the due windows of any set of slots; only the basic pool's restart by themselves. */
  method MaybeResetWindows(t: RuntimeTable, candidates: set<int>, mode: int, pool: int, now: int)
    requires t.Valid() && forall i :: i in candidates ==> 0 <= i < |t.rows|
    modifies t`rows
    ensures t.Valid() && t.View() == ResetAmong(old(t.View()), candidates, pool, mode, now)
    ensures RestartsAmong(old(t.rows), t.rows, candidates, pool, mode, now)
  {
    hide RestartsAmong;
    AmongRestarts(t.View(), candidates, pool, mode, now);
    if pool != POOL_BASIC {
      assert t.rows == ResetAmong(old(t.View()), candidates, pool, mode, now).rows;
      return;
    }
    ghost var rows := t.rows;
    var todo := candidates;
    while todo != {}
      invariant |t.rows| == |rows| && todo <= candidates
      invariant forall i :: 0 <= i < |rows| ==>
        t.rows[i] == if i in candidates - todo then ResetRow(rows[i], mode, now) else rows[i]
      decreases todo
    {
      Inhabited(todo);
      var idx :| idx in todo;
      todo := todo - {idx};
      var row := t.rows[idx];
      var reset := row.reset.Get(mode);
      if reset == 0 || now < reset {
        continue;
      }
      if row.pool != pool {
        continue;
      }
      var newTotal := row.total.Get(mode);
      var windowS := row.window.Get(mode);
      if newTotal <= 0 || windowS <= 0 {
        continue;
      }
      t.rows := t.rows[idx := row.(quota := row.quota.Set(mode, newTotal), reset := row.reset.Set(mode, now + windowS))];
    }
    assert t.rows == ResetAmong(old(t.View()), candidates, pool, mode, now).rows;
  }

  /** Over the bucket of a known mode that is the pool's restart. */
  lemma ResetBucket(t: Table, candidates: set<int>, pool: int, mode: int, now: int)
    requires KnownMode(mode)
    requires forall i :: i in candidates <==> 0 <= i < |t.rows| && Indexed(t.rows[i], pool, mode)
    ensures ResetAmong(t, candidates, pool, mode, now) == ResetPool(t, pool, mode, now)
  {
    assert ResetAmong(t, candidates, pool, mode, now).rows == ResetPool(t, pool, mode, now).rows;
  }

  method PreferIfAvailable(working: set<int>, prefer: set<int>) returns (r: set<int>)
    ensures r == Preferred(working, prefer)
    ensures working != {} ==> r != {}
  {
    if prefer == {} {
      return working;
    }
    var preferred := {};
    var todo := working;
    while todo != {}
      invariant todo <= working && preferred == (working - todo) * prefer
      decreases todo
    {
      Inhabited(todo);
      var idx :| idx in todo;
      todo := todo - {idx};
      if idx in prefer {
        preferred := preferred + {idx};
      }
    }
    assert working - {} == working;
    return if preferred == {} then working else preferred;
  }

  /** The candidates that pass every admission limit. */
  method FilterCandidates(t: RuntimeTable, candidates: set<int>, mode: int, o: Options) returns (working: set<int>)
    requires forall i :: i in candidates ==> 0 <= i < |t.rows|
    ensures working == UsableAmong(t.View(), candidates, mode, o)
  {
    hide UsableAmong;
    var maxInflight := o.maxInflight;
    if maxInflight <= 0 {
      maxInflight := DEFAULT_MAX_INFLIGHT;
    }
    working := {};
    var todo := candidates;
    while todo != {}
      invariant todo <= candidates
      invariant forall i :: i in working <==>
        i in candidates - todo && Free(t.rows[i], i, o) && t.rows[i].quota.Get(mode) > 0
      decreases todo
    {
      Inhabited(todo);
      var idx :| idx in todo;
      todo := todo - {idx};
      if idx in o.exclude || t.rows[idx].quota.Get(mode) <= 0 {
        continue;
      }
      if t.rows[idx].cooling > o.now {
        continue;
      }
      if t.rows[idx].inflight >= maxInflight {
        continue;
      }
      working := working + {idx};
    }
    UsableIs(t.View(), candidates, working, mode, o);
  }

  lemma UsableIs(t: Table, candidates: set<int>, working: set<int>, mode: int, o: Options)
    requires forall i :: i in candidates ==> 0 <= i < |t.rows|
    requires forall i :: i in working <==> i in candidates && Free(t.rows[i], i, o) && t.rows[i].quota.Get(mode) > 0
    ensures working == UsableAmong(t, candidates, mode, o)
  {
    forall i ensures i in working <==> i in UsableAmong(t, candidates, mode, o) {
    }
  }

  /** A best-scoring slot above the floor; the visiting order is arbitrary, so ties are too. */
  method Best(t: RuntimeTable, working: set<int>, mode: int, now: int) returns (r: Option<int>)
    requires forall i :: i in working ==> 0 <= i < |t.rows| && t.rows[i].quota.Get(mode) > 0
    ensures r.Some? ==>
      && r.value in working && Score(t.rows[r.value], mode, now) > SCORE_FLOOR
      && forall j :: j in working ==> Score(t.rows[j], mode, now) <= Score(t.rows[r.value], mode, now)
    ensures r.None? ==> forall j :: j in working ==> Score(t.rows[j], mode, now) <= SCORE_FLOOR
  {
    var bestIdx := -1;
    var bestScore := SCORE_FLOOR;
    var todo := working;
    while todo != {}
      invariant todo <= working && bestIdx >= -1
      invariant bestIdx < 0 ==> bestScore == SCORE_FLOOR
      invariant bestIdx >= 0 ==> bestIdx in working && bestScore == Score(t.rows[bestIdx], mode, now) > SCORE_FLOOR
      invariant forall j :: j in working - todo ==> Score(t.rows[j], mode, now) <= bestScore
      decreases todo
    {
      Inhabited(todo);
      var idx :| idx in todo;
      todo := todo - {idx};
      if t.rows[idx].quota.Get(mode) <= 0 {
        continue;
      }
      var score := Score(t.rows[idx], mode, now);
      if score > bestScore {
        bestScore := score;
        bestIdx := idx;
      }
    }
    return if bestIdx < 0 then None else Some(bestIdx);
  }

  /** A bucket of the mode index, read off the rows. */
  ghost predicate InBucket(t: RuntimeTable, candidates: set<int>, pool: int, mode: int)
    reads t
  {
    forall i :: i in candidates <==> 0 <= i < |t.rows| && Indexed(t.rows[i], pool, mode)
  }

  /** The candidates with room and quota. */
  function UsableAmong(t: Table, candidates: set<int>, mode: int, o: Options): set<int> {
    set i | i in candidates && 0 <= i < |t.rows| && Free(t.rows[i], i, o) && t.rows[i].quota.Get(mode) > 0
  }

  /** What a pool's selection chooses among, for any mode id. */
  function PicksAmong(t: Table, candidates: set<int>, mode: int, o: Options): (picks: set<int>)
    ensures forall i :: i in picks ==> 0 <= i < |t.rows|
  {
    Preferred(UsableAmong(t, candidates, mode, o), o.prefer)
  }

  /** One pool's selection for one mode. A mode id outside 0..5 has a bucket that follows no rule, and the
      selection keeps to that. */
  method Select(t: RuntimeTable, s: Strategy, pool: int, mode: int, o: Options) returns (r: Option<int>)
    requires t.Valid()
    modifies t`rows
    ensures t.Valid()
    ensures var candidates := Bucket(t.modeAvailable, ModeKey(pool, mode));
      && t.View() == ResetAmong(old(t.View()), candidates, pool, mode, o.now)
      && ChosenFrom(s, t.View(), PicksAmong(t.View(), candidates, mode, o), mode, o.now, r)
    ensures KnownMode(mode) ==>
      t.View() == ResetPool(old(t.View()), pool, mode, o.now) && Chosen(s, t.View(), pool, mode, o, r)
  {
    hide Score, InBucket, ResetAmong, ResetPool, Free, UsableAmong;
    var candidates := Bucket(t.modeAvailable, ModeKey(pool, mode));
    assert forall i :: i in candidates ==> 0 <= i < |t.rows|;
    BucketIs(t, pool, mode);
    if KnownMode(mode) {
      ResetBucket(t.View(), candidates, pool, mode, o.now);
    }
    if candidates == {} {
      ResetNone(t.View(), pool, mode, o.now);
      UsableNone(t.View(), mode, o);
      if KnownMode(mode) {
        WorkingIs(t, {}, pool, mode, o);
      }
      return None;
    }
    MaybeResetWindows(t, candidates, mode, pool, o.now);
    BucketIs(t, pool, mode);
    var working := FilterCandidates(t, candidates, mode, o);
    if KnownMode(mode) {
      WorkingIs(t, candidates, pool, mode, o);
    }
    if working == {} {
      return None;
    }
    UsableHasQuota(t.View(), candidates, mode, o);
    working := PreferIfAvailable(working, o.prefer);
    if s == Random {
      var idx :| idx in working;
      return Some(idx);
    }
    r := Best(t, working, mode, o.now);
  }

  lemma UsableHasQuota(t: Table, candidates: set<int>, mode: int, o: Options)
    ensures forall i :: i in UsableAmong(t, candidates, mode, o) ==> 0 <= i < |t.rows| && t.rows[i].quota.Get(mode) > 0
  {
  }

  lemma ResetNone(t: Table, pool: int, mode: int, now: int)
    ensures ResetAmong(t, {}, pool, mode, now) == t
  {
    assert ResetAmong(t, {}, pool, mode, now).rows == t.rows;
  }

  lemma UsableNone(t: Table, mode: int, o: Options)
    ensures UsableAmong(t, {}, mode, o) == {}
  {
  }

  lemma BucketIs(t: RuntimeTable, pool: int, mode: int)
    requires t.Valid()
    ensures KnownMode(mode) ==> InBucket(t, Bucket(t.modeAvailable, ModeKey(pool, mode)), pool, mode)
  {
  }

  lemma WorkingIs(t: RuntimeTable, candidates: set<int>, pool: int, mode: int, o: Options)
    requires InBucket(t, candidates, pool, mode)
    ensures UsableAmong(t.View(), candidates, mode, o) == Working(t.View(), pool, mode, o)
  {
  }

  /** Restarts touch only the quota and reset columns. */
  ghost predicate SameButWindows(r: Row, r': Row) {
    r' == r.(quota := r'.quota, reset := r'.reset)
  }

  ghost predicate OnlyWindows(rows: seq<Row>, rows': seq<Row>) {
    |rows'| == |rows| && forall i :: 0 <= i < |rows| ==> SameButWindows(rows[i], rows'[i])
  }

  lemma AmongOnlyWindows(rows: seq<Row>, t: Table, candidates: set<int>, pool: int, mode: int, now: int)
    requires OnlyWindows(rows, t.rows)
    ensures OnlyWindows(rows, ResetAmong(t, candidates, pool, mode, now).rows)
  {
  }

  type Index = map<ModeKey, set<int>>

  /** The table after the first k requested pools were tried, for any mode id, with the buckets as given. */
  function AfterAmong(index: Index, t: Table, pools: seq<int>, k: nat, mode: int, now: int): Table
    requires k <= |pools|
  {
    if k == 0 then t
    else
      ResetAmong(AfterAmong(index, t, pools, k - 1, mode, now), Bucket(index, ModeKey(pools[k - 1], mode)),
                 pools[k - 1], mode, now)
  }

  /** What pool k's selection returns when it is tried. */
  ghost predicate ReturnsAt(s: Strategy, index: Index, t: Table, pools: seq<int>, mode: int, o: Options, k: nat,
                            r: Option<int>)
    requires k < |pools|
  {
    var t1 := AfterAmong(index, t, pools, k + 1, mode, o.now);
    ChosenFrom(s, t1, PicksAmong(t1, Bucket(index, ModeKey(pools[k], mode)), mode, o), mode, o.now, r)
  }

  ghost predicate FailedAmong(s: Strategy, index: Index, t: Table, pools: seq<int>, mode: int, o: Options, k: nat)
    requires k <= |pools|
  {
    forall j :: 0 <= j < k ==> ReturnsAt(s, index, t, pools, mode, o, j, None)
  }

  /** Pool k is the first whose selection returns a slot, and it returns c. */
  ghost predicate PickedAmong(s: Strategy, index: Index, t: Table, pools: seq<int>, mode: int, o: Options, k: int, c: int) {
    && 0 <= k < |pools| && FailedAmong(s, index, t, pools, mode, o, k)
    && ReturnsAt(s, index, t, pools, mode, o, k, Some(c))
  }

  /** Tries the pools in the order requested and stops at the first that offers a slot. */
  method SelectFirst(t: RuntimeTable, s: Strategy, pools: seq<int>, mode: int, o: Options)
    returns (selected: Option<int>, k: nat)
    requires t.Valid()
    modifies t`rows
    ensures t.Valid() && OnlyWindows(old(t.rows), t.rows)
    ensures selected.Some? ==>
      && PickedAmong(s, t.modeAvailable, old(t.View()), pools, mode, o, k, selected.value)
      && t.View() == AfterAmong(t.modeAvailable, old(t.View()), pools, k + 1, mode, o.now)
    ensures selected.None? ==>
      && FailedAmong(s, t.modeAvailable, old(t.View()), pools, mode, o, |pools|)
      && t.View() == AfterAmong(t.modeAvailable, old(t.View()), pools, |pools|, mode, o.now)
    ensures KnownMode(mode) && selected.Some? ==>
      && Picked(s, old(t.View()), pools, mode, o, k, selected.value)
      && t.View() == After(old(t.View()), pools, k + 1, mode, o.now)
    ensures KnownMode(mode) && selected.None? ==>
      && NonePicked(s, old(t.View()), pools, mode, o)
      && t.View() == After(old(t.View()), pools, |pools|, mode, o.now)
  {
    hide ResetAmong, OnlyWindows, SameButWindows, PicksAmong, ChosenFrom, Chosen;
    ghost var t0, index := t.View(), t.modeAvailable;
    selected := None;
    k := 0;
    SameRows(t.rows);
    while k < |pools|
      invariant k <= |pools| && t.Valid() && selected == None && OnlyWindows(t0.rows, t.rows)
      invariant t.View() == AfterAmong(index, t0, pools, k, mode, o.now)
      invariant FailedAmong(s, index, t0, pools, mode, o, k)
      invariant KnownMode(mode) ==> t.View() == After(t0, pools, k, mode, o.now) && Failed(s, t0, pools, mode, o, k)
    {
      AmongOnlyWindows(t0.rows, t.View(), Bucket(index, ModeKey(pools[k], mode)), pools[k], mode, o.now);
      selected := Select(t, s, pools[k], mode, o);
      if selected.Some? {
        return;
      }
      k := k + 1;
    }
  }

  lemma SameRows(rows: seq<Row>)
    ensures OnlyWindows(rows, rows)
  {
  }

  /** A picked slot is in its pool's bucket, with room and quota when it is picked. */
  lemma PickedAmongUsable(s: Strategy, index: Index, t: Table, pools: seq<int>, mode: int, o: Options, k: int, c: int)
    requires PickedAmong(s, index, t, pools, mode, o, k, c)
    ensures 0 <= k < |pools|
    ensures var t1 := AfterAmong(index, t, pools, k + 1, mode, o.now);
      && c in Bucket(index, ModeKey(pools[k], mode)) && 0 <= c < |t1.rows|
      && Free(t1.rows[c], c, o) && t1.rows[c].quota.Get(mode) > 0
  {
    hide AfterAmong, Score, FailedAmong;
  }

  // ---- The linear scan ----------------------------------------------------

  datatype Counts = Counts(total: nat, available: nat, cooling: nat, invalidCredentials: nat, disabled: nat, inflight: int)

  datatype Reason = NoFailure | NoAvailable | AllRateLimited | AllInvalidCredentials | AllDisabled

  predicate SupportsMode(r: Row, mode: int, anyMode: bool) {
    if anyMode then exists m | 0 <= m < 6 :: r.window.Get(m) > 0 else KnownMode(mode) && r.window.Get(mode) > 0
  }

  predicate HasQuota(r: Row, mode: int, anyMode: bool) {
    if anyMode then exists m | 0 <= m < 6 :: r.window.Get(m) > 0 && r.quota.Get(m) > 0 else r.quota.Get(mode) > 0
  }

  /** The slots a scan looks at; an empty pool list means every pool. */
  predicate InScope(t: Table, pools: seq<int>, mode: int, o: Options, anyMode: bool, i: int) {
    && 0 <= i < |t.rows| && t.rows[i].status != DELETED
    && (pools == [] || t.rows[i].pool in pools)
    && i !in o.exclude && SupportsMode(t.rows[i], mode, anyMode)
  }

  /** Active, past cooling, under the in-flight limit and with quota left. */
  predicate Available(t: Table, pools: seq<int>, mode: int, o: Options, anyMode: bool, i: int) {
    && InScope(t, pools, mode, o, anyMode, i) && t.rows[i].status == ACTIVE
    && Free(t.rows[i], i, o) && HasQuota(t.rows[i], mode, anyMode)
  }

  function ScopeSet(t: Table, pools: seq<int>, mode: int, o: Options, anyMode: bool): set<int> {
    set i | 0 <= i < |t.rows| && InScope(t, pools, mode, o, anyMode, i)
  }

  function AvailableSet(t: Table, pools: seq<int>, mode: int, o: Options, anyMode: bool): set<int> {
    set i | 0 <= i < |t.rows| && Available(t, pools, mode, o, anyMode, i)
  }

  function StatusSet(t: Table, pools: seq<int>, mode: int, o: Options, anyMode: bool, status: int): set<int> {
    set i | 0 <= i < |t.rows| && InScope(t, pools, mode, o, anyMode, i) && t.rows[i].status == status
  }

  /** The in-flight leases held by the first k slots that are in scope. */
  function InflightUpTo(t: Table, pools: seq<int>, mode: int, o: Options, anyMode: bool, k: nat): int
    requires k <= |t.rows|
  {
    if k == 0 then 0 else
      InflightUpTo(t, pools, mode, o, anyMode, k - 1)
      + if InScope(t, pools, mode, o, anyMode, k - 1) then t.rows[k - 1].inflight else 0
  }

  function UpTo(s: set<int>, k: int): set<int> {
    set i | i in s && i < k
  }

  lemma UpToNext(s: set<int>, k: int)
    ensures |UpTo(s, k + 1)| == |UpTo(s, k)| + if k in s then 1 else 0
  {
    if k in s {
      assert UpTo(s, k + 1) == UpTo(s, k) + {k};
    } else {
      assert UpTo(s, k + 1) == UpTo(s, k);
    }
  }

  /** Counts the slots in scope by what keeps them from being leased. */
  method CountSelectionCandidates(t: RuntimeTable, pools: seq<int>, mode: int, o: Options, anyMode: bool)
    returns (c: Counts)
    requires t.Valid()
    ensures c.total == |ScopeSet(t.View(), pools, mode, o, anyMode)|
    ensures c.available == |AvailableSet(t.View(), pools, mode, o, anyMode)|
    ensures c.disabled == |StatusSet(t.View(), pools, mode, o, anyMode, DISABLED)|
    ensures c.invalidCredentials == |StatusSet(t.View(), pools, mode, o, anyMode, EXPIRED)|
    ensures c.total == c.available + c.disabled + c.invalidCredentials + c.cooling
    ensures c.inflight == InflightUpTo(t.View(), pools, mode, o, anyMode, |t.rows|)
  {
    c := Counts(0, 0, 0, 0, 0, 0);
    var maxInflight := o.maxInflight;
    if maxInflight <= 0 {
      maxInflight := DEFAULT_MAX_INFLIGHT;
    }
    ghost var scope := ScopeSet(t.View(), pools, mode, o, anyMode);
    ghost var avail := AvailableSet(t.View(), pools, mode, o, anyMode);
    ghost var dis := StatusSet(t.View(), pools, mode, o, anyMode, DISABLED);
    ghost var exp := StatusSet(t.View(), pools, mode, o, anyMode, EXPIRED);
    assert UpTo(scope, 0) == UpTo(avail, 0) == UpTo(dis, 0) == UpTo(exp, 0) == {};
    for idx := 0 to |t.rows|
      invariant c.total == |UpTo(scope, idx)| && c.available == |UpTo(avail, idx)|
      invariant c.disabled == |UpTo(dis, idx)| && c.invalidCredentials == |UpTo(exp, idx)|
      invariant c.total == c.available + c.disabled + c.invalidCredentials + c.cooling
      invariant c.inflight == InflightUpTo(t.View(), pools, mode, o, anyMode, idx)
    {
      UpToNext(scope, idx);
      UpToNext(avail, idx);
      UpToNext(dis, idx);
      UpToNext(exp, idx);
      var row := t.rows[idx];
      if row.status == DELETED || (pools != [] && row.pool !in pools) || idx in o.exclude
         || !SupportsMode(row, mode, anyMode) {
        continue;
      }
      c := c.(total := c.total + 1, inflight := c.inflight + row.inflight);
      if row.status == DISABLED {
        c := c.(disabled := c.disabled + 1);
      } else if row.status == EXPIRED {
        c := c.(invalidCredentials := c.invalidCredentials + 1);
      } else if row.status == ACTIVE && row.cooling <= o.now && row.inflight < maxInflight && HasQuota(row, mode, anyMode) {
        c := c.(available := c.available + 1);
      } else {
        c := c.(cooling := c.cooling + 1);
      }
    }
    assert UpTo(scope, |t.rows|) == scope && UpTo(avail, |t.rows|) == avail;
    assert UpTo(dis, |t.rows|) == dis && UpTo(exp, |t.rows|) == exp;
  }

  method ClassifyReserveFailure(t: RuntimeTable, pools: seq<int>, mode: int, o: Options, anyMode: bool)
    returns (reason: Reason)
    requires t.Valid()
    ensures var scope := ScopeSet(t.View(), pools, mode, o, anyMode);
      var dis := StatusSet(t.View(), pools, mode, o, anyMode, DISABLED);
      var exp := StatusSet(t.View(), pools, mode, o, anyMode, EXPIRED);
      reason == if scope == {} || AvailableSet(t.View(), pools, mode, o, anyMode) != {} then NoAvailable
        else if dis == scope then AllDisabled
        else if exp == scope then AllInvalidCredentials
        else if dis + exp != scope then AllRateLimited
        else NoAvailable
  {
    var c := CountSelectionCandidates(t, pools, mode, o, anyMode);
    ghost var scope := ScopeSet(t.View(), pools, mode, o, anyMode);
    ghost var dis := StatusSet(t.View(), pools, mode, o, anyMode, DISABLED);
    ghost var exp := StatusSet(t.View(), pools, mode, o, anyMode, EXPIRED);
    assert |dis + exp| == |dis| + |exp|;
    SubsetSize(dis, scope);
    SubsetSize(exp, scope);
    SubsetSize(dis + exp, scope);
    if c.total == 0 {
      return NoAvailable;
    }
    if c.available > 0 {
      return NoAvailable;
    }
    if c.disabled == c.total {
      return AllDisabled;
    }
    if c.invalidCredentials == c.total {
      return AllInvalidCredentials;
    }
    if c.cooling > 0 {
      return AllRateLimited;
    }
    return NoAvailable;
  }

  lemma SubsetSize(a: set<int>, b: set<int>)
    requires a <= b
    ensures |a| <= |b| && (|a| == |b| <==> a == b)
  {
    assert |b - a| == |b| - |a|;
    if |a| == |b| {
      assert b - a == {};
    }
  }
}
