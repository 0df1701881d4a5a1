/** The account directory (directory.go): reservation, release, feedback and sync over one table. */
module AccountDirectory {
  import opened Wrappers
  import opened AccountModel
  import opened AccountTable
  import opened AccountFeedback
  import opened AccountSelector
  import opened AccountSelection
  import Sync = AccountSync

  datatype Lease = Lease(id: nat, idx: int, token: string, pool: int, mode: int, selectedAt: int)

  ghost function ExcludeSet(t: Table, tokens: seq<string>): set<int> {
    set token | token in tokens && token in t.idxOf :: t.idxOf[token]
  }

  ghost function PreferSet(t: Table, tags: seq<string>): set<int> {
    set i | 0 <= i < |t.tags| && exists tag :: tag in tags && tag in t.tags[i]
  }

  ghost function OptionsFor(t: Table, exclude: seq<string>, prefer: seq<string>, now: int, maxInflight: int): Options {
    Options(ExcludeSet(t, exclude), PreferSet(t, prefer), now, maxInflight)
  }

  /** What the slots in scope say of a pool list from which nothing can be leased: nothing in sight, all
      disabled, all expired, or at least one merely cooling or busy. */
  ghost function ScopeReason(t: Table, pools: seq<int>, mode: int, o: Options): Reason {
    var scope := ScopeSet(t, pools, mode, o, false);
    var dis := StatusSet(t, pools, mode, o, false, DISABLED);
    var exp := StatusSet(t, pools, mode, o, false, EXPIRED);
    if scope == {} then NoAvailable
    else if dis == scope then AllDisabled
    else if exp == scope then AllInvalidCredentials
    else if dis + exp != scope then AllRateLimited
    else NoAvailable
  }

  /** Why nothing was leased, read off the table before the call: something admissible was held back by the
      score floor, or else what the slots in scope say. */
  ghost function FailureReason(t: Table, pools: seq<int>, mode: int, o: Options): Reason
    requires KnownMode(mode)
  {
    if !NothingAdmitted(t, pools, mode, o) then NoAvailable else ScopeReason(t, pools, mode, o)
  }

  /** The lease came from pool k, the first to offer one, and the table counts it. */
  ghost predicate Reserved(s: Strategy, t: Table, pools: seq<int>, mode: int, o: Options, k: int, t': Table, lease: Lease)
    requires KnownMode(mode)
  {
    && Picked(s, t, pools, mode, o, k, lease.idx)
    && lease.idx < |t.tokens| && 0 <= lease.idx < |t.rows|
    && t' == Grant(After(t, pools, k + 1, mode, o.now), lease.idx, o.now)
    && lease == Lease(lease.id, lease.idx, t.tokens[lease.idx], pools[k], mode, o.now)
  }

  /** What a reservation over a loaded table does: it leases, or it fails for the reason it gives. */
  ghost predicate ReserveOutcome(s: Strategy, t: Table, pools: seq<int>, mode: int, o: Options, t': Table,
                                 lease: Option<Lease>, reason: Reason)
    requires KnownMode(mode)
  {
    if lease.Some? then
      reason == NoFailure && exists k :: Reserved(s, t, pools, mode, o, k, t', lease.value)
    else
      && NonePicked(s, t, pools, mode, o)
      && t' == After(t, pools, |pools|, mode, o.now)
      && reason == FailureReason(t, pools, mode, o)
  }

  /** A loaded directory leases a slot if and only if some requested pool has something to offer, under the
      random strategy or with sane clocks if and only if the linear scan admits a slot. The slot comes from
      the first pool with an offer, is admissible, carries a preferred tag when an admissible slot of the
      pool does, and its token is none of the excluded ones. A failure under sane clocks is explained by
      the slots in scope alone. */
  lemma ReserveIff(s: Strategy, t: Table, pools: seq<int>, mode: int, exclude: seq<string>, prefer: seq<string>,
                   now: int, maxInflight: int, t': Table, lease: Option<Lease>, reason: Reason)
    requires KnownMode(mode) && WF(t)
    requires ReserveOutcome(s, t, pools, mode, OptionsFor(t, exclude, prefer, now, maxInflight), t', lease, reason)
    ensures var o := OptionsFor(t, exclude, prefer, now, maxInflight);
      && (lease.Some? <==> SomeOffer(s, t, pools, mode, o))
      && (s == Random || Timely(t, now) ==> (lease.Some? <==> !NothingAdmitted(t, pools, mode, o)))
      && (s == Random || Timely(t, now) ==> lease.None? ==> reason == ScopeReason(t, pools, mode, o))
      && (lease.Some? ==> lease.value.token !in exclude)
      && (lease.Some? ==> exists k ::
            && 0 <= k < |pools| && lease.value.pool == pools[k] && Admissible(t, pools[k], mode, o, lease.value.idx)
            && Offered(s, t, pools[k], mode, o, lease.value.idx)
            && (forall j :: 0 <= j < k ==> Blocked(s, t, pools[j], mode, o))
            && (lease.value.idx in o.prefer || forall i :: i in o.prefer ==> !Admissible(t, pools[k], mode, o, i)))
  {
    hide Blocked, Offered, Failed, Chosen, Timely;
    var o := OptionsFor(t, exclude, prefer, now, maxInflight);
    NonePickedIff(s, t, pools, mode, o);
    if lease.Some? {
      var k :| Reserved(s, t, pools, mode, o, k, t', lease.value);
      PickedIsAdmissible(s, t, pools, mode, o, k, lease.value.idx);
      AdmissibleIsPicked(s, t, pools, mode, o, k);
      OfferIsNotBlocked(s, t, pools[k], mode, o, lease.value.idx);
    }
  }

  /** A slot that a lease may be taken from, column by column. */
  predicate Leasable(r: Row, mode: int, now: int, maxInflight: int) {
    && r.status == ACTIVE && 0 <= mode <= 5 && r.window.Get(mode) > 0 && r.cooling <= now
    && r.inflight < (if maxInflight > 0 then maxInflight else 8)
    && (r.quota.Get(mode) > 0
        || (r.pool == 0 && r.reset.Get(mode) != 0 && r.reset.Get(mode) <= now && r.total.Get(mode) > 0))
  }

  /** A leasable slot of the pool whose token is not excluded. */
  ghost predicate Eligible(t: Table, pool: int, mode: int, exclude: seq<string>, now: int, maxInflight: int, i: int)
    requires WF(t)
  {
    0 <= i < |t.rows| && t.rows[i].pool == pool && t.tokens[i] !in exclude && Leasable(t.rows[i], mode, now, maxInflight)
  }

  ghost predicate Prefers(t: Table, prefer: seq<string>, i: int)
    requires 0 <= i < |t.tags|
  {
    exists tag :: tag in prefer && tag in t.tags[i]
  }

  /** What the linear scan admits, and what the caller's tokens and tags mean. */
  lemma AdmissibleMeans(t: Table, pool: int, mode: int, exclude: seq<string>, prefer: seq<string>, now: int,
                        maxInflight: int, i: int)
    requires KnownMode(mode) && WF(t)
    ensures var o := OptionsFor(t, exclude, prefer, now, maxInflight);
      && (Admissible(t, pool, mode, o, i) <==> Eligible(t, pool, mode, exclude, now, maxInflight, i))
      && (i in o.prefer <==> 0 <= i < |t.rows| && Prefers(t, prefer, i))
      && (InScope(t, [pool], mode, o, false, i) <==>
          && 0 <= i < |t.rows| && t.rows[i].pool == pool && t.rows[i].status != DELETED
          && t.rows[i].window.Get(mode) > 0 && t.tokens[i] !in exclude)
  {
  }

  /** What a lease was taken from: a slot of a requested pool that was leasable and not excluded, with a
      preferred tag if any such slot of its pool had one. And a failure under the random strategy, or with
      sane clocks, means that there was no such slot in any requested pool. */
  lemma LeasedIsLeasable(s: Strategy, t: Table, pools: seq<int>, mode: int, exclude: seq<string>, prefer: seq<string>,
                         now: int, maxInflight: int, t': Table, lease: Option<Lease>, reason: Reason)
    requires KnownMode(mode) && WF(t)
    requires ReserveOutcome(s, t, pools, mode, OptionsFor(t, exclude, prefer, now, maxInflight), t', lease, reason)
    ensures lease.Some? ==>
      var l := lease.value;
      && l.pool in pools && Eligible(t, l.pool, mode, exclude, now, maxInflight, l.idx)
      && l.token == t.tokens[l.idx] && l.mode == mode && l.selectedAt == now
      && (Prefers(t, prefer, l.idx)
          || forall i :: Eligible(t, l.pool, mode, exclude, now, maxInflight, i) ==> !Prefers(t, prefer, i))
    ensures lease.None? && (s == Random || Timely(t, now)) ==>
      forall pool, i :: pool in pools ==> !Eligible(t, pool, mode, exclude, now, maxInflight, i)
  {
    hide Blocked, Offered, Failed, Picked, Chosen, Timely, Prefers, OptionsFor, Admissible, FailureReason, After, Grant;
    ReserveIff(s, t, pools, mode, exclude, prefer, now, maxInflight, t', lease, reason);
    var o := OptionsFor(t, exclude, prefer, now, maxInflight);
    OptionsAt(t, exclude, prefer, now, maxInflight);
    if lease.Some? {
      var l := lease.value;
      var k :| 0 <= k < |pools| && l.pool == pools[k] && Admissible(t, pools[k], mode, o, l.idx)
        && (l.idx in o.prefer || forall i :: i in o.prefer ==> !Admissible(t, pools[k], mode, o, i));
      forall i ensures Admissible(t, l.pool, mode, o, i) <==> Eligible(t, l.pool, mode, exclude, now, maxInflight, i)
        ensures i in o.prefer <==> 0 <= i < |t.rows| && Prefers(t, prefer, i)
      {
        AdmissibleMeans(t, l.pool, mode, exclude, prefer, now, maxInflight, i);
      }
    } else {
      forall pool, i | pool in pools && (s == Random || Timely(t, now))
        ensures !Eligible(t, pool, mode, exclude, now, maxInflight, i)
      {
        AdmissibleMeans(t, pool, mode, exclude, prefer, now, maxInflight, i);
      }
    }
  }

  lemma OptionsAt(t: Table, exclude: seq<string>, prefer: seq<string>, now: int, maxInflight: int)
    ensures OptionsFor(t, exclude, prefer, now, maxInflight).now == now
  {
  }

  /** What a reservation may make of a row, when the pools it tried and whether the row was leased are given:
      an active row of a tried pool starts over if due, and the leased one counts its lease and its use. */
  ghost predicate RowAfter(r: Row, r': Row, tried: seq<int>, mode: int, now: int, leased: bool) {
    && (var r1 := r'.(inflight := r.inflight, lastUse := r.lastUse);
        if r.status == ACTIVE && r.pool in tried then RestartsIfDue(r, r1, mode, now) else r1 == r)
    && r'.inflight == (if !leased then r.inflight else if r.inflight < 65535 then r.inflight + 1 else 65535)
    && r'.lastUse == if leased then now else r.lastUse
  }

  /** A reservation tries the pools up to the first occurrence of the one it leases from, or all of them; that
      decides what becomes of every row. */
  lemma ReserveRestarts(s: Strategy, t: Table, pools: seq<int>, mode: int, o: Options, t': Table,
                        lease: Option<Lease>, reason: Reason) returns (tried: nat)
    requires KnownMode(mode) && ReserveOutcome(s, t, pools, mode, o, t', lease, reason)
    ensures tried <= |pools| && |t'.rows| == |t.rows|
    ensures lease.None? ==> tried == |pools|
    ensures lease.Some? ==>
      tried > 0 && pools[tried - 1] == lease.value.pool && lease.value.pool !in pools[..tried - 1]
    ensures forall i :: 0 <= i < |t.rows| ==>
      RowAfter(t.rows[i], t'.rows[i], pools[..tried], mode, o.now, lease.Some? && i == lease.value.idx)
  {
    hide Picked, NonePicked, FailureReason, Blocked, Offered, After, RestartsIfDue;
    tried := |pools|;
    if lease.Some? {
      var k :| Reserved(s, t, pools, mode, o, k, t', lease.value);
      tried := FirstOffer(s, t, pools, mode, o, k, lease.value.idx);
    }
    forall i | 0 <= i < |t.rows|
      ensures RowAfter(t.rows[i], t'.rows[i], pools[..tried], mode, o.now, lease.Some? && i == lease.value.idx)
    {
      AfterRestarts(t, pools, tried, mode, o.now, i);
      AfterRows(t, pools, tried, mode, o.now);
      assert SameButWindows(t.rows[i], After(t, pools, tried, mode, o.now).rows[i]);
    }
  }

  lemma FirstOffer(s: Strategy, t: Table, pools: seq<int>, mode: int, o: Options, k: int, c: int) returns (tried: nat)
    requires KnownMode(mode) && Picked(s, t, pools, mode, o, k, c)
    ensures 0 < tried == k + 1 <= |pools| && pools[k] !in pools[..k]
  {
    hide Failed, Chosen, Blocked, Offered;
    tried := k + 1;
    PickedIsAdmissible(s, t, pools, mode, o, k, c);
    OfferIsNotBlocked(s, t, pools[k], mode, o, c);
  }

  /** The reason, slot by slot: all that the scan sees are disabled, or all expired, or some are neither; with
      nothing in sight, or disabled and expired ones only, it is the general one. */
  lemma ScopeReasonMeans(t: Table, pools: seq<int>, mode: int, o: Options)
    ensures var reason := ScopeReason(t, pools, mode, o);
      && (reason == AllDisabled <==>
          && (exists i :: InScope(t, pools, mode, o, false, i))
          && forall i :: InScope(t, pools, mode, o, false, i) ==> t.rows[i].status == DISABLED)
      && (reason == AllInvalidCredentials <==>
          && (exists i :: InScope(t, pools, mode, o, false, i))
          && forall i :: InScope(t, pools, mode, o, false, i) ==> t.rows[i].status == EXPIRED)
      && (reason == AllRateLimited <==>
          exists i :: InScope(t, pools, mode, o, false, i) && t.rows[i].status != DISABLED && t.rows[i].status != EXPIRED)
      && reason in {AllDisabled, AllInvalidCredentials, AllRateLimited, NoAvailable}
  {
    hide InScope;
    var scope := ScopeSet(t, pools, mode, o, false);
    var dis := StatusSet(t, pools, mode, o, false, DISABLED);
    var exp := StatusSet(t, pools, mode, o, false, EXPIRED);
    InScopeRange(t, pools, mode, o);
    assert forall i :: i in scope <==> InScope(t, pools, mode, o, false, i);
    assert forall i :: i in dis <==> InScope(t, pools, mode, o, false, i) && t.rows[i].status == DISABLED;
    assert forall i :: i in exp <==> InScope(t, pools, mode, o, false, i) && t.rows[i].status == EXPIRED;
    EmptyIff(scope);
    EmptyIff(scope - (dis + exp));
    assert dis + exp <= scope;
  }

  lemma InScopeRange(t: Table, pools: seq<int>, mode: int, o: Options)
    ensures forall i :: InScope(t, pools, mode, o, false, i) ==> 0 <= i < |t.rows|
  {
  }

  lemma OfferIsNotBlocked(s: Strategy, t: Table, pool: int, mode: int, o: Options, i: int)
    requires KnownMode(mode) && Offered(s, t, pool, mode, o, i)
    ensures !Blocked(s, t, pool, mode, o)
  {
    hide Floored, Score;
    assert i in AdmissibleSet(t, pool, mode, o);
  }

  /** The table counts one more lease on the slot of the lease, which had room and was not excluded, and
      otherwise changed in quota, reset and last-use columns only. */
  ghost predicate CountsLease(t: Table, o: Options, lease: Option<Lease>, t': Table) {
    && t' == t.(rows := t'.rows) && |t'.rows| == |t.rows|
    && (forall i :: 0 <= i < |t.rows| ==>
          && t'.rows[i] == t.rows[i].(quota := t'.rows[i].quota, reset := t'.rows[i].reset,
                                      inflight := t'.rows[i].inflight, lastUse := t'.rows[i].lastUse)
          && t'.rows[i].inflight ==
             if lease.Some? && i == lease.value.idx then Min(t.rows[i].inflight + 1, 65535) else t.rows[i].inflight)
    && (lease.Some? ==>
          && 0 <= lease.value.idx < |t.rows| && lease.value.idx < |t.tokens|
          && lease.value.token == t.tokens[lease.value.idx]
          && t.rows[lease.value.idx].inflight < Cap(o) && lease.value.idx !in o.exclude)
  }

  lemma NothingCounted(t: Table, o: Options)
    ensures CountsLease(t, o, None, t)
  {
  }

  lemma WindowsCounted(t: Table, t': Table, o: Options)
    requires t' == t.(rows := t'.rows) && OnlyWindows(t.rows, t'.rows)
    ensures CountsLease(t, o, None, t')
  {
    assert forall i :: 0 <= i < |t.rows| ==> SameButWindows(t.rows[i], t'.rows[i]);
  }

  lemma LeaseCounted(t: Table, t1: Table, o: Options, lease: Lease)
    requires t1 == t.(rows := t1.rows) && OnlyWindows(t.rows, t1.rows)
    requires 0 <= lease.idx < |t.rows| && lease.idx < |t.tokens| && lease.token == t.tokens[lease.idx]
    requires t1.rows[lease.idx].inflight < Cap(o) && lease.idx !in o.exclude
    ensures CountsLease(t, o, Some(lease), Grant(t1, lease.idx, o.now))
  {
    assert forall i :: 0 <= i < |t.rows| ==> SameButWindows(t.rows[i], t1.rows[i]);
  }

  lemma SamePool(rows: seq<Row>, rows': seq<Row>, i: int)
    requires OnlyWindows(rows, rows') && 0 <= i < |rows|
    ensures rows'[i].pool == rows[i].pool
  {
    assert SameButWindows(rows[i], rows'[i]);
  }

  /** A reservation for any mode id, in terms of the buckets: the first pool whose selection returns a slot
      gives it, or none does. */
  ghost predicate BucketOutcome(s: Strategy, index: Index, t: Table, pools: seq<int>, mode: int, o: Options,
                                lease: Option<Lease>, t': Table)
  {
    if lease.None? then
      FailedAmong(s, index, t, pools, mode, o, |pools|) && t' == AfterAmong(index, t, pools, |pools|, mode, o.now)
    else
      exists k :: GivenBy(s, index, t, pools, mode, o, k, lease.value, t')
  }

  ghost predicate GivenBy(s: Strategy, index: Index, t: Table, pools: seq<int>, mode: int, o: Options, k: int,
                          lease: Lease, t': Table)
  {
    && PickedAmong(s, index, t, pools, mode, o, k, lease.idx)
    && var t1 := AfterAmong(index, t, pools, k + 1, mode, o.now);
    0 <= lease.idx < |t1.rows| && t' == Grant(t1, lease.idx, o.now)
  }

  /** Everything a reservation over a loaded table promises: for any mode id what the buckets give and what
      is counted, for a known mode the outcome that selection specifies. */
  ghost predicate Outcome(s: Strategy, index: Index, t: Table, pools: seq<int>, mode: int, o: Options, t': Table,
                          lease: Option<Lease>, reason: Reason)
  {
    && CountsLease(t, o, lease, t') && BucketOutcome(s, index, t, pools, mode, o, lease, t')
    && if KnownMode(mode) then ReserveOutcome(s, t, pools, mode, o, t', lease, reason)
       else reason == if lease.Some? then NoFailure else NoAvailable
  }

  lemma FailOutcome(s: Strategy, index: Index, t: Table, pools: seq<int>, mode: int, o: Options, t': Table, reason: Reason)
    requires t' == t.(rows := t'.rows) && OnlyWindows(t.rows, t'.rows)
    requires FailedAmong(s, index, t, pools, mode, o, |pools|) && t' == AfterAmong(index, t, pools, |pools|, mode, o.now)
    requires KnownMode(mode) ==>
      && NonePicked(s, t, pools, mode, o) && t' == After(t, pools, |pools|, mode, o.now)
      && reason == FailureReason(t, pools, mode, o)
    requires !KnownMode(mode) ==> reason == NoAvailable
    ensures Outcome(s, index, t, pools, mode, o, t', None, reason)
  {
    hide OnlyWindows, FailedAmong, AfterAmong, Failed, FailureReason, CountsLease;
    WindowsCounted(t, t', o);
  }

  lemma GrantOutcome(s: Strategy, index: Index, t: Table, pools: seq<int>, mode: int, o: Options, k: nat, t1: Table,
                     lease: Lease)
    requires t1 == t.(rows := t1.rows) && OnlyWindows(t.rows, t1.rows) && |t.tokens| == |t.rows|
    requires k < |pools| && PickedAmong(s, index, t, pools, mode, o, k, lease.idx)
    requires t1 == AfterAmong(index, t, pools, k + 1, mode, o.now)
    requires KnownMode(mode) ==> Picked(s, t, pools, mode, o, k, lease.idx) && t1 == After(t, pools, k + 1, mode, o.now)
    requires 0 <= lease.idx < |t1.rows|
    requires lease == Lease(lease.id, lease.idx, t1.tokens[lease.idx], t1.rows[lease.idx].pool, mode, o.now)
    ensures Outcome(s, index, t, pools, mode, o, Grant(t1, lease.idx, o.now), Some(lease), NoFailure)
  {
    hide SameButWindows, FailedAmong, AfterAmong, Failed, PickedAmong, Picked, CountsLease, Grant, Offered, Blocked;
    var t' := Grant(t1, lease.idx, o.now);
    PickedAmongUsable(s, index, t, pools, mode, o, k, lease.idx);
    LeaseCounted(t, t1, o, lease);
    assert GivenBy(s, index, t, pools, mode, o, k, lease, t');
    if KnownMode(mode) {
      SamePool(t.rows, t1.rows, lease.idx);
      PickedIsAdmissible(s, t, pools, mode, o, k, lease.idx);
      assert Reserved(s, t, pools, mode, o, k, t', lease);
    }
  }

  /** The row with one lease fewer, if it counts any. */
  ghost function OneFewer(r: Row): Row {
    if r.inflight >= 1 then r.(inflight := r.inflight - 1) else r.(inflight := 0)
  }

  /** Some mode of the pool has an available slot. */
  ghost predicate Open(t: Table, pool: int, o: Options) {
    exists m, i :: KnownMode(m) && Available(t, [pool], m, o, false, i)
  }

  /** A slot the scan reports available can be reserved; the only others that can are those whose
      window is due to restart. */
  lemma AvailableOrDue(t: Table, pool: int, mode: int, o: Options, i: int)
    requires KnownMode(mode)
    ensures Available(t, [pool], mode, o, false, i) ==> Admissible(t, pool, mode, o, i)
    ensures Admissible(t, pool, mode, o, i) ==>
      Available(t, [pool], mode, o, false, i) || DueReset(t.rows[i], mode, o.now)
  {
  }

  class Directory {
    var table: RuntimeTable?
    var nextId: nat

    ghost predicate Valid()
      reads this, table
    {
      table != null ==> table.Valid() && WF(table.View())
    }

    constructor ()
      ensures Valid() && table == null
    {
      table := null;
      nextId := 0;
    }

    /** A failed load leaves the previous table in place. */
    method Bootstrap(items: seq<Sync.Record>, revision: int) returns (ok: bool)
      requires Valid()
      modifies this`table
      ensures Valid() && ok == Sync.Load(EMPTY, items).1
      ensures ok ==> table != null && fresh(table) && table.View() == Sync.Load(EMPTY, items).0.(revision := revision)
      ensures !ok ==> table == old(table)
    {
      var loaded;
      loaded, ok := Sync.Bootstrap(items, revision);
      if ok {
        table := loaded;
      }
    }

    method SyncIfChanged(feed: Sync.Feed, ghost bound: int) returns (changed: bool, ok: bool)
      requires Valid() && Sync.Progresses(feed, bound)
      modifies table
      ensures Valid()
      ensures table == null ==> !changed && ok
      ensures table != null ==> (table.View(), ok) == Sync.Drain(old(table.View()), feed, 0, bound)
      ensures table != null ==> (changed <==> Sync.DrainTouches(old(table.View()), feed, 0, bound))
      ensures table != null && !changed ==> table.View() == old(table.View()).(revision := table.revision)
    {
      if table == null {
        return false, true;
      }
      changed, ok := Sync.ApplyChanges(table, feed, bound);
    }

    method ExcludeIdxs(tokens: seq<string>) returns (r: set<int>)
      requires Valid() && table != null
      ensures r == ExcludeSet(table.View(), tokens)
    {
      r := {};
      for k := 0 to |tokens|
        invariant r == ExcludeSet(table.View(), tokens[..k])
      {
        assert tokens[..k + 1] == tokens[..k] + [tokens[k]];
        if tokens[k] in table.idxOf {
          r := r + {table.idxOf[tokens[k]]};
        }
      }
      assert tokens[..|tokens|] == tokens;
    }

    method PreferTagIdxs(tags: seq<string>) returns (r: set<int>)
      requires Valid() && table != null
      ensures r == PreferSet(table.View(), tags)
    {
      r := {};
      for k := 0 to |tags|
        invariant forall i :: i in r <==> exists tag :: tag in tags[..k] && i in Bucket(table.tagIdx, tag)
      {
        assert tags[..k + 1] == tags[..k] + [tags[k]];
        r := r + Bucket(table.tagIdx, tags[k]);
      }
      assert tags[..|tags|] == tags;
      forall i ensures i in r <==> i in PreferSet(table.View(), tags) {
        if 0 <= i < |table.rows| {
          assert table.View().tags[i] == TagsOf(table.tagIdx, i);
        }
      }
    }

    /** Tries the pools in order and leases one slot of the first that has any to offer. Whatever the mode,
        the buckets decide, and at most one lease is counted, on the slot the lease names; for a known mode
        the outcome is the one that its selection specifies. */
    method ReserveDetailed(pools: seq<int>, mode: int, exclude: seq<string>, prefer: seq<string>, now: int,
                           s: Strategy, maxInflight: int)
      returns (lease: Option<Lease>, reason: Reason)
      requires Valid()
      modifies this`nextId, table
      ensures Valid()
      ensures table == null || pools == [] ==> lease == None && reason == NoAvailable
      ensures table != null && pools == [] ==> table.View() == old(table.View())
      ensures lease.Some? ==> lease.value.id == old(nextId) && nextId == old(nextId) + 1
      ensures table != null && pools != [] ==>
        Outcome(s, old(table.modeAvailable), old(table.View()), pools, mode,
                OptionsFor(old(table.View()), exclude, prefer, now, maxInflight), table.View(), lease, reason)
    {
      hide PickedAmong, FailedAmong, AfterAmong, Picked, Failed, FailureReason, OnlyWindows, Outcome;
      if pools == [] || table == null {
        return None, NoAvailable;
      }
      ghost var t, index := table.View(), table.modeAvailable;
      var excluded := ExcludeIdxs(exclude);
      var preferred := PreferTagIdxs(prefer);
      var o := Options(excluded, preferred, now, maxInflight);
      var selected, k := SelectFirst(table, s, pools, mode, o);
      ghost var t1 := table.View();
      if selected.None? {
        reason := ExplainFailure(t, pools, mode, o);
        FailOutcome(s, index, t, pools, mode, o, t1, reason);
        return None, reason;
      }
      PickedAmongUsable(s, index, t, pools, mode, o, k, selected.value);
      var granted := Granted(selected.value, mode, now);
      GrantOutcome(s, index, t, pools, mode, o, k, t1, granted);
      lease := Some(granted);
      reason := NoFailure;
    }

    /** Scans the table left by the failed attempts; the reason is the one the table before them calls for. */
    method ExplainFailure(ghost t: Table, pools: seq<int>, mode: int, o: Options) returns (reason: Reason)
      requires Valid() && table != null && pools != []
      requires KnownMode(mode) ==> table.View() == After(t, pools, |pools|, mode, o.now)
      ensures KnownMode(mode) ==> reason == FailureReason(t, pools, mode, o)
      ensures !KnownMode(mode) ==> reason == NoAvailable
    {
      reason := ClassifyReserveFailure(table, pools, mode, o, false);
      if KnownMode(mode) {
        FailureScan(t, pools, mode, o);
      } else {
        assert ScopeSet(table.View(), pools, mode, o, false) == {};
      }
    }

    /** Counts the lease in, stamps the slot and writes the lease. */
    method Granted(idx: int, mode: int, now: int) returns (lease: Lease)
      requires Valid() && table != null && 0 <= idx < |table.rows|
      modifies this`nextId, table
      ensures Valid() && table.View() == Grant(old(table.View()), idx, now)
      ensures nextId == old(nextId) + 1
      ensures lease == Lease(old(nextId), idx, old(table.tokens)[idx], old(table.rows)[idx].pool, mode, now)
    {
      IncrementInflight(table, idx);
      UpdateLastUse(table, idx, now);
      lease := Lease(nextId, idx, table.tokens[idx], table.rows[idx].pool, mode, now);
      nextId := nextId + 1;
    }

    /** The pools with something to lease right now, in some mode. */
    method AvailablePools(now: int, maxInflight: int) returns (pools: set<int>)
      requires Valid()
      ensures table == null ==> pools == {}
      ensures table != null ==>
        forall p :: p in pools <==> 0 <= p < 3 && Open(table.View(), p, Options({}, {}, now, maxInflight))
    {
      pools := {};
      if table == null {
        return;
      }
      var o := Options({}, {}, now, maxInflight);
      for pool := 0 to 3
        invariant forall p :: p in pools <==> 0 <= p < pool && Open(table.View(), p, o)
      {
        for mode := 0 to 6
          invariant forall p :: p in pools <==> 0 <= p < pool && Open(table.View(), p, o)
          invariant forall m, i :: 0 <= m < mode ==> !Available(table.View(), [pool], m, o, false, i)
        {
          var c := CountSelectionCandidates(table, [pool], mode, o, false);
          EmptyIff(AvailableSet(table.View(), [pool], mode, o, false));
          if c.available > 0 {
            ghost var i :| i in AvailableSet(table.View(), [pool], mode, o, false);
            pools := pools + {pool};
            assert KnownMode(mode) && Available(table.View(), [pool], mode, o, false, i);
            assert Open(table.View(), pool, o);
            break;
          }
        }
      }
    }

    method ReleaseLease(lease: Lease)
      requires Valid()
      modifies table
      ensures Valid() && (table != null ==> table.View() == Release(old(table.View()), lease.idx))
      ensures table != null ==> |table.rows| == |old(table.rows)|
      ensures table != null ==> forall i :: 0 <= i < |table.rows| ==>
        table.rows[i] == if i == lease.idx then OneFewer(old(table.rows)[i]) else old(table.rows)[i]
    {
      if table == null || lease.idx < 0 || lease.idx >= |table.rows| {
        return;
      }
      DecrementInflight(table, lease.idx);
    }

    method GiveFeedback(token: string, s: Strategy, f: Feedback)
      requires Valid()
      modifies table
      ensures Valid() && (table != null ==> table.View() == FeedbackTable(old(table.View()), token, s, f))
      ensures table != null ==> |table.rows| == |old(table.rows)|
      ensures table != null ==> forall i :: 0 <= i < |table.rows| ==>
        if old(table.tokens)[i] == token then Effects(old(table.rows)[i], table.rows[i], s, f)
        else table.rows[i] == old(table.rows)[i]
    {
      hide Effects;
      if table == null || token !in table.idxOf {
        return;
      }
      ApplyFeedback(table, table.idxOf[token], s, f);
    }
  }
}
