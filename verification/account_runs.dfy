/** Whole runs of the directory: reservations, releases, feedback, sync rounds and repository writes
    in any order. Leases are conserved, the replica stays covered, a tombstoned account is never
    leased, and a rate-limited one is not leased again before its time. */
module AccountRuns {
  import opened Wrappers
  import opened AccountModel
  import opened AccountSync
  import opened AccountReplica
  import opened AccountSelector
  import opened AccountDirectory
  import AccountSelection

  /** The system: the directory's table, the repository, and the leases not yet released. */
  datatype Sys = Sys(table: Table, repo: Repo, leases: map<nat, int>, nextId: nat)

  datatype Event =
    | Reserve(s: Strategy, pools: seq<int>, mode: int, exclude: seq<string>, prefer: seq<string>, now: int,
              lease: Option<Lease>, reason: Reason)
    | ReleaseOf(id: nat)
    | Report(token: string, s: Strategy, f: Feedback)
    | SyncRound(cs: ChangeSet)
    | Write(repo: Repo)

  /** One step under a constant in-flight limit M. Releases are of outstanding leases; feedback and sync
      rounds are free to come at any time, and a sync round may break off in the middle. */
  ghost predicate Step(M: int, a: Sys, e: Event, b: Sys)
    requires WF(a.table)
  {
    match e
    case Reserve(s, pools, mode, exclude, prefer, now, lease, reason) =>
      && KnownMode(mode) && b.repo == a.repo
      && (if pools == [] then lease == None && reason == NoAvailable && b.table == a.table
          else ReserveOutcome(s, a.table, pools, mode, OptionsFor(a.table, exclude, prefer, now, M), b.table, lease, reason))
      && (if lease.Some? then
            lease.value.id == a.nextId && b.nextId == a.nextId + 1 && b.leases == a.leases[a.nextId := lease.value.idx]
          else b.nextId == a.nextId && b.leases == a.leases)
    case ReleaseOf(id) =>
      id in a.leases && b == a.(table := Release(a.table, a.leases[id]), leases := a.leases - {id})
    case Report(token, s, f) =>
      b == a.(table := FeedbackTable(a.table, token, s, f))
    case SyncRound(cs) =>
      IsScan(a.repo, a.table.revision, cs) && b == a.(table := ApplyGroup(a.table, cs).0)
    case Write(repo) =>
      Evolves(a.repo, repo) && b == a.(repo := repo)
  }

  // ---- Invariants ---------------------------------------------------------

  ghost function On(leases: map<nat, int>, i: int): set<nat> {
    set id | id in leases && leases[id] == i
  }

  /** Every slot counts exactly its outstanding leases, never more than the limit. */
  ghost predicate Conserved(M: int, y: Sys) {
    && (forall i :: 0 <= i < |y.table.rows| ==> y.table.rows[i].inflight == |On(y.leases, i)| <= M)
    && (forall id :: id in y.leases ==> 0 <= y.leases[id] < |y.table.rows| && id < y.nextId)
  }

  ghost predicate Inv(M: int, exact: bool, y: Sys) {
    && WF(y.table) && RepoWF(y.repo) && y.table.revision <= y.repo.revision
    && Covered(exact, y.table, y.repo)
    && Conserved(M, y)
  }

  /** Row by row, what no step may touch: in-flight counts, except where the caller says otherwise. */
  ghost predicate SameInflight(t: Table, t': Table) {
    && |t.rows| <= |t'.rows|
    && (forall i :: 0 <= i < |t.rows| ==> t'.rows[i].inflight == t.rows[i].inflight)
    && (forall i :: |t.rows| <= i < |t'.rows| ==> t'.rows[i].inflight == 0)
  }

  lemma {:induction false} DeletesInflight(t: Table, tokens: seq<string>)
    requires WF(t)
    ensures SameInflight(t, ApplyDeletes(t, tokens))
    decreases |tokens|
  {
    if tokens != [] {
      DeletesInflight(Delete(t, tokens[0]), tokens[1..]);
    }
  }

  lemma {:induction false} ItemsInflight(t: Table, items: seq<Record>)
    requires WF(t)
    ensures SameInflight(t, ApplyItems(t, items).0)
    decreases |items|
  {
    if items != [] && ApplyRecord(t, items[0]).Some? {
      ItemsInflight(ApplyRecord(t, items[0]).value, items[1..]);
    }
  }

  lemma GroupInflight(t: Table, cs: ChangeSet)
    requires WF(t)
    ensures SameInflight(t, ApplyGroup(t, cs).0)
  {
    DeletesInflight(t, cs.deletedTokens);
    ItemsInflight(ApplyDeletes(t, cs.deletedTokens), cs.items);
  }

  /** A picked slot was below the limit, was active, and was not out of range. */
  lemma PickedUnderLimit(s: Strategy, t: Table, pools: seq<int>, mode: int, o: Options, k: int, c: int)
    requires KnownMode(mode) && Picked(s, t, pools, mode, o, k, c)
    ensures 0 <= k < |pools| && 0 <= c < |t.rows| && t.rows[c].inflight < Cap(o)
    ensures t.rows[c].status == ACTIVE && t.rows[c].pool == pools[k] && c !in o.exclude
    ensures After(t, pools, k + 1, mode, o.now).rows[c].quota.Get(mode) > 0
  {
    var t1 := After(t, pools, k + 1, mode, o.now);
    assert c in Working(t1, pools[k], mode, o);
    AccountSelection.AfterRows(t, pools, k + 1, mode, o.now);
    assert SameButWindows(t.rows[c], t1.rows[c]);
  }

  /** A reservation leaves every column but quota, reset, in-flight and last use alone, and adds one
      lease to one slot at most. */
  lemma ReserveRows(M: int, a: Sys, e: Event, b: Sys)
    requires 0 < M && WF(a.table) && e.Reserve? && Step(M, a, e, b)
    ensures b.table.tokens == a.table.tokens && b.table.idxOf == a.table.idxOf && b.table.tags == a.table.tags
    ensures |b.table.rows| == |a.table.rows| && b.table.revision == a.table.revision
    ensures forall i :: 0 <= i < |a.table.rows| ==>
      var x := a.table.rows[i];
      var y := b.table.rows[i];
      && y == x.(quota := y.quota, reset := y.reset, inflight := y.inflight, lastUse := y.lastUse)
      && y.inflight == if e.lease.Some? && i == e.lease.value.idx then Min(x.inflight + 1, 65535) else x.inflight
    ensures e.lease.Some? ==>
      && 0 <= e.lease.value.idx < |a.table.rows| && a.table.rows[e.lease.value.idx].inflight < M
      && a.table.rows[e.lease.value.idx].status == ACTIVE
      && e.lease.value.token == a.table.tokens[e.lease.value.idx] && e.lease.value.token !in e.exclude
  {
    hide Failed, Chosen, FailureReason, Preferred, NonePicked, Grant, After, OnlyWindows, OptionsFor, Picked;
    if e.pools != [] {
      var t, o := a.table, OptionsFor(a.table, e.exclude, e.prefer, e.now, M);
      OptionsMean(t, e.exclude, e.prefer, e.now, M);
      if e.lease.Some? {
        var k :| Reserved(e.s, t, e.pools, e.mode, o, k, b.table, e.lease.value);
        PickedUnderLimit(e.s, t, e.pools, e.mode, o, k, e.lease.value.idx);
        var t1 := AfterWindows(t, e.pools, k + 1, e.mode, e.now);
        PickedHasRoom(t, t1, e.lease.value.idx, o);
        LeaseCounted(t, t1, o, e.lease.value);
      } else {
        var t1 := AfterWindows(t, e.pools, |e.pools|, e.mode, e.now);
        WindowsCounted(t, t1, o);
      }
    }
  }

  lemma OptionsMean(t: Table, exclude: seq<string>, prefer: seq<string>, now: int, M: int)
    requires 0 < M && WF(t)
    ensures var o := OptionsFor(t, exclude, prefer, now, M);
      && Cap(o) == M && o.now == now
      && forall i :: 0 <= i < |t.tokens| && i !in o.exclude ==> t.tokens[i] !in exclude
  {
  }

  lemma AfterWindows(t: Table, pools: seq<int>, k: nat, mode: int, now: int) returns (t1: Table)
    requires KnownMode(mode) && k <= |pools|
    ensures t1 == After(t, pools, k, mode, now) && t1 == t.(rows := t1.rows) && OnlyWindows(t.rows, t1.rows)
  {
    t1 := After(t, pools, k, mode, now);
    AccountSelection.AfterRows(t, pools, k, mode, now);
  }

  lemma PickedHasRoom(t: Table, t1: Table, i: int, o: Options)
    requires OnlyWindows(t.rows, t1.rows) && 0 <= i < |t.rows| && t.rows[i].inflight < Cap(o)
    ensures i < |t1.rows| && t1.rows[i].inflight < Cap(o)
  {
    assert SameButWindows(t.rows[i], t1.rows[i]);
  }

  // ---- Leases -------------------------------------------------------------

  lemma OnAdded(leases: map<nat, int>, id: nat, idx: int, i: int)
    requires id !in leases
    ensures |On(leases[id := idx], i)| == |On(leases, i)| + if i == idx then 1 else 0
  {
    if i == idx {
      assert On(leases[id := idx], i) == On(leases, i) + {id};
    } else {
      assert On(leases[id := idx], i) == On(leases, i);
    }
  }

  lemma OnRemoved(leases: map<nat, int>, id: nat, i: int)
    requires id in leases
    ensures |On(leases, i)| == |On(leases - {id}, i)| + if i == leases[id] then 1 else 0
  {
    if i == leases[id] {
      assert On(leases, i) == On(leases - {id}, i) + {id};
    } else {
      assert On(leases, i) == On(leases - {id}, i);
    }
  }

  lemma ReserveConserves(M: int, a: Sys, e: Event, b: Sys)
    requires 0 < M <= 65535 && WF(a.table) && Conserved(M, a) && e.Reserve? && Step(M, a, e, b)
    ensures Conserved(M, b)
  {
    ReserveRows(M, a, e, b);
    if e.lease.Some? {
      forall i | 0 <= i < |b.table.rows| ensures b.table.rows[i].inflight == |On(b.leases, i)| <= M {
        OnAdded(a.leases, a.nextId, e.lease.value.idx, i);
      }
    }
  }

  lemma ReleaseConserves(M: int, a: Sys, e: Event, b: Sys)
    requires WF(a.table) && Conserved(M, a) && e.ReleaseOf? && Step(M, a, e, b)
    ensures Conserved(M, b)
  {
    forall i | 0 <= i < |b.table.rows| ensures b.table.rows[i].inflight == |On(b.leases, i)| <= M {
      OnRemoved(a.leases, e.id, i);
    }
  }

  lemma SyncConserves(M: int, a: Sys, e: Event, b: Sys)
    requires 0 < M && WF(a.table) && Conserved(M, a) && e.SyncRound? && Step(M, a, e, b)
    ensures Conserved(M, b)
  {
    GroupInflight(a.table, e.cs);
    forall i | 0 <= i < |b.table.rows| ensures b.table.rows[i].inflight == |On(b.leases, i)| <= M {
      if i >= |a.table.rows| {
        assert On(b.leases, i) == {};
      }
    }
  }

  /** Every step keeps the lease account. */
  lemma StepConserves(M: int, a: Sys, e: Event, b: Sys)
    requires 0 < M <= 65535 && WF(a.table) && Conserved(M, a) && Step(M, a, e, b)
    ensures Conserved(M, b)
  {
    match e {
      case Reserve(_, _, _, _, _, _, _, _) => ReserveConserves(M, a, e, b);
      case ReleaseOf(_) => ReleaseConserves(M, a, e, b);
      case SyncRound(_) => SyncConserves(M, a, e, b);
      case Report(_, _, _) =>
      case Write(_) =>
    }
  }

  /** When every lease has been released, no slot counts any. */
  lemma QuiescentIsZero(M: int, y: Sys)
    requires Conserved(M, y) && y.leases == map[]
    ensures forall i :: 0 <= i < |y.table.rows| ==> y.table.rows[i].inflight == 0
  {
    assert forall i :: On(y.leases, i) == {};
  }

  // ---- Replica ------------------------------------------------------------

  ghost predicate SyncOnly(e: Event) {
    e.SyncRound? || e.Write?
  }

  /** Feedback changes no column the mixed agreement speaks of, except a status that becomes Expired. */
  lemma FeedbackKeepsAgreement(t: Table, token: string, s: Strategy, f: Feedback, tok: string, rec: Record)
    requires WF(t) && Agrees(false, t, tok, rec)
    ensures WF(FeedbackTable(t, token, s, f)) && Agrees(false, FeedbackTable(t, token, s, f), tok, rec)
  {
    if token in t.idxOf {
      var row := t.rows[t.idxOf[token]];
      var row' := FeedbackRow(row, s, f);
      assert row'.pool == row.pool && row'.total == row.total && row'.window == row.window;
      assert row'.status == row.status || row'.status == EXPIRED;
    }
  }

  lemma ReserveCovers(M: int, a: Sys, e: Event, b: Sys)
    requires 0 < M && WF(a.table) && Covered(false, a.table, a.repo) && e.Reserve? && Step(M, a, e, b)
    ensures WF(b.table) && Covered(false, b.table, b.repo) && b.table.revision == a.table.revision
  {
    ReserveRows(M, a, e, b);
    forall tok | tok in b.repo.entries && b.repo.entries[tok].revision <= b.table.revision
      ensures Agrees(false, b.table, tok, b.repo.entries[tok].record)
    {
      assert Agrees(false, a.table, tok, a.repo.entries[tok].record);
    }
  }

  lemma ReportCovers(M: int, a: Sys, e: Event, b: Sys)
    requires WF(a.table) && Covered(false, a.table, a.repo) && e.Report? && Step(M, a, e, b)
    ensures WF(b.table) && Covered(false, b.table, b.repo) && b.table.revision == a.table.revision
  {
    forall tok | tok in b.repo.entries && b.repo.entries[tok].revision <= b.table.revision
      ensures Agrees(false, b.table, tok, b.repo.entries[tok].record)
    {
      FeedbackKeepsAgreement(a.table, e.token, e.s, e.f, tok, a.repo.entries[tok].record);
    }
  }

  lemma ReleaseCovers(M: int, a: Sys, e: Event, b: Sys)
    requires WF(a.table) && Covered(false, a.table, a.repo) && e.ReleaseOf? && Step(M, a, e, b)
    ensures WF(b.table) && Covered(false, b.table, b.repo) && b.table.revision == a.table.revision
  {
    forall tok | tok in b.repo.entries && b.repo.entries[tok].revision <= b.table.revision
      ensures Agrees(false, b.table, tok, b.repo.entries[tok].record)
    {
      assert Agrees(false, a.table, tok, a.repo.entries[tok].record);
    }
  }

  /** Every step keeps the whole invariant; a step that only syncs or writes keeps the exact one. */
  lemma StepInv(M: int, exact: bool, a: Sys, e: Event, b: Sys)
    requires 0 < M <= 65535 && Inv(M, exact, a) && Step(M, a, e, b) && (exact ==> SyncOnly(e))
    ensures Inv(M, exact, b)
  {
    hide Covered, Conserved, IsScan, WF;
    StepConserves(M, a, e, b);
    match e {
      case Reserve(_, _, _, _, _, _, _, _) => ReserveCovers(M, a, e, b);
      case ReleaseOf(_) => ReleaseCovers(M, a, e, b);
      case Report(_, _, _) => ReportCovers(M, a, e, b);
      case SyncRound(cs) => GroupCovers(exact, a.table, a.repo, cs);
      case Write(repo) => WriteCovers(exact, a.table, a.repo, repo);
    }
  }

  // ---- Runs ---------------------------------------------------------------

  /** States and events alternate; every event is a step between its neighbours. */
  ghost predicate IsRun(M: int, states: seq<Sys>, events: seq<Event>) {
    && |states| == |events| + 1
    && forall k :: 0 <= k < |events| ==> WF(states[k].table) && Step(M, states[k], events[k], states[k + 1])
  }

  /** The state right after a successful load of the repository's snapshot. */
  ghost predicate Started(y: Sys, items: seq<Record>) {
    && RepoWF(y.repo) && IsSnapshot(y.repo, items) && Load(EMPTY, items).1
    && y == Sys(Load(EMPTY, items).0.(revision := y.repo.revision), y.repo, map[], 0)
  }

  lemma {:induction false} LoadInflight(t: Table, items: seq<Record>)
    requires WF(t)
    ensures SameInflight(t, Load(t, items).0)
    decreases |items|
  {
    if items != [] {
      if items[0].deleted {
        LoadInflight(t, items[1..]);
      } else if items[0].slot.Some? {
        LoadInflight(Upsert(t, items[0].slot.value.(token := items[0].token)), items[1..]);
      }
    }
  }

  lemma StartedInv(M: int, y: Sys, items: seq<Record>)
    requires 0 < M && Started(y, items)
    ensures Inv(M, true, y) && Inv(M, false, y)
  {
    LoadCovers(y.repo, items);
    LoadInflight(EMPTY, items);
    assert forall i :: On(y.leases, i) == {};
    forall tok | tok in y.repo.entries ensures Agrees(false, y.table, tok, y.repo.entries[tok].record) {
      ExactAgrees(false, y.table, tok, y.repo.entries[tok].record);
    }
  }

  /** Every state of every run from a load satisfies the invariant: leases are conserved and the table
      agrees with every record at or below its cursor. In a run of syncs and writes it agrees exactly. */
  lemma {:induction false} RunInv(M: int, exact: bool, states: seq<Sys>, events: seq<Event>, items: seq<Record>, k: nat)
    requires 0 < M <= 65535 && IsRun(M, states, events) && Started(states[0], items) && k < |states|
    requires exact ==> forall j :: 0 <= j < |events| ==> SyncOnly(events[j])
    ensures Inv(M, exact, states[k])
  {
    if k == 0 {
      StartedInv(M, states[0], items);
    } else {
      RunInv(M, exact, states, events, items, k - 1);
      StepInv(M, exact, states[k - 1], events[k - 1], states[k]);
    }
  }

  /** A token whose tombstone the cursor has passed is never leased, whatever feedback arrives late. */
  lemma TombstoneNotLeased(M: int, a: Sys, e: Event, b: Sys, tok: string)
    requires 0 < M <= 65535 && Inv(M, false, a) && Step(M, a, e, b)
    requires tok in a.repo.entries && a.repo.entries[tok].record.deleted && a.repo.entries[tok].revision <= a.table.revision
    ensures e.Reserve? && e.lease.Some? ==> e.lease.value.token != tok
  {
    if e.Reserve? && e.lease.Some? {
      ReserveRows(M, a, e, b);
      assert Agrees(false, a.table, tok, a.repo.entries[tok].record);
    }
  }

  // ---- Slots keep their tokens --------------------------------------------

  lemma {:induction false} DeletesTokens(t: Table, tokens: seq<string>)
    requires WF(t)
    ensures ApplyDeletes(t, tokens).tokens == t.tokens
    decreases |tokens|
  {
    if tokens != [] {
      DeletesTokens(Delete(t, tokens[0]), tokens[1..]);
    }
  }

  lemma {:induction false} ItemsTokens(t: Table, items: seq<Record>)
    requires WF(t)
    ensures t.tokens <= ApplyItems(t, items).0.tokens
    decreases |items|
  {
    if items != [] && ApplyRecord(t, items[0]).Some? {
      ItemsTokens(ApplyRecord(t, items[0]).value, items[1..]);
    }
  }

  /** The token column only grows, at its end; so a slot keeps its token and a token its slot. */
  lemma StepTokens(M: int, a: Sys, e: Event, b: Sys)
    requires 0 < M && WF(a.table) && Step(M, a, e, b)
    ensures a.table.tokens <= b.table.tokens
    ensures WF(b.table) ==>
      forall tok :: tok in a.table.idxOf ==> tok in b.table.idxOf && b.table.idxOf[tok] == a.table.idxOf[tok]
  {
    match e {
      case Reserve(_, _, _, _, _, _, _, _) => ReserveRows(M, a, e, b);
      case SyncRound(cs) =>
        DeletesTokens(a.table, cs.deletedTokens);
        ItemsTokens(ApplyDeletes(a.table, cs.deletedTokens), cs.items);
      case ReleaseOf(_) =>
      case Report(_, _, _) =>
      case Write(_) =>
    }
    hide Step;
    assert forall tok :: tok in a.table.idxOf ==> a.table.tokens[a.table.idxOf[tok]] == tok;
    assert forall i :: 0 <= i < |a.table.tokens| ==> b.table.tokens[i] == a.table.tokens[i];
  }

  lemma {:induction false} RunTokens(M: int, states: seq<Sys>, events: seq<Event>, j: nat, k: nat)
    requires 0 < M && IsRun(M, states, events) && j <= k < |states|
    ensures states[j].table.tokens <= states[k].table.tokens
    decreases k
  {
    hide Step, WF;
    if j < k {
      RunTokens(M, states, events, j, k - 1);
      StepTokens(M, states[k - 1], events[k - 1], states[k]);
    }
  }

  lemma {:induction false} LeaseKept(M: int, states: seq<Sys>, events: seq<Event>, j: nat, k: nat)
    requires IsRun(M, states, events) && j < k < |states| && events[j].Reserve? && events[j].lease.Some?
    ensures var l := events[j].lease.value;
      && l.id < states[k].nextId
      && (l.id in states[k].leases ==> states[k].leases[l.id] == l.idx)
    decreases k
  {
    if j + 1 < k {
      LeaseKept(M, states, events, j, k - 1);
    }
    assert Step(M, states[k - 1], events[k - 1], states[k]);
  }

  /** However the table has grown since, a lease's index still belongs to the account it was taken from,
      and releasing it by index gives that account's lease back. */
  lemma LeaseNamesToken(M: int, states: seq<Sys>, events: seq<Event>, j: nat, k: nat)
    requires 0 < M && IsRun(M, states, events) && j < k < |states| && events[j].Reserve? && events[j].lease.Some?
    ensures var l := events[j].lease.value;
      var t := states[k].table;
      && 0 <= l.idx < |t.tokens| && t.tokens[l.idx] == l.token
      && (l.id in states[k].leases ==> states[k].leases[l.id] == l.idx)
      && (k < |events| && events[k] == ReleaseOf(l.id) ==>
            l.token in t.idxOf && states[k + 1].table == Release(t, t.idxOf[l.token]))
  {
    hide Picked, NonePicked, FailureReason;
    ReserveRows(M, states[j], events[j], states[j + 1]);
    RunTokens(M, states, events, j, k);
    LeaseKept(M, states, events, j, k);
    if k < |events| && events[k] == ReleaseOf(events[j].lease.value.id) {
      assert Step(M, states[k], events[k], states[k + 1]);
    }
  }
}
