/** What feedback keeps from being leased: a rate-limited (account, mode) pair until its window may restart, an
    unauthorized account until the repository's record of it is synced again. */
module AccountCooldown {
  import opened Wrappers
  import opened AccountModel
  import opened AccountSync
  import opened AccountReplica
  import opened AccountDirectory
  import opened AccountRuns

  /** The mode's quota is spent and, in the basic pool, its window does not restart before `until`. */
  ghost predicate Spent(t: Table, tok: string, mode: int, until: int)
    requires WF(t)
  {
    tok in t.idxOf ==>
      RowSpent(t.rows[t.idxOf[tok]], mode, until)
  }

  ghost predicate RowSpent(r: Row, mode: int, until: int) {
    r.quota.Get(mode) <= 0 && (r.pool == POOL_BASIC ==> until <= r.reset.Get(mode))
  }

  /** The slot of `tok` is in the basic pool, the only one whose windows restart on their own. */
  ghost predicate InBasic(t: Table, tok: string)
    requires WF(t)
  {
    tok in t.idxOf && t.rows[t.idxOf[tok]].pool == POOL_BASIC
  }

  /** No upstream quota reading and no synced record rewrites the pair, and a reservation that could
      restart the window comes before `until`. */
  ghost predicate LeavesSpent(y: Sys, e: Event, tok: string, mode: int, until: int)
    requires WF(y.table)
  {
    match e
    case Reserve(_, _, _, _, _, now, _, _) => InBasic(y.table, tok) ==> now < until
    case Report(token, s, f) => token == tok && s == Quota && f.update.Some? ==> KnownMode(f.mode) && f.mode != mode
    case SyncRound(cs) => forall k :: 0 <= k < |cs.items| ==> cs.items[k].token != tok
    case ReleaseOf(_) => true
    case Write(_) => true
  }

  /** Random-strategy rate-limit feedback spends the pair until its timestamp plus the pool's cooling. */
  lemma RateLimitSpends(t: Table, tok: string, f: Feedback)
    requires WF(t) && f.kind == RateLimited && KnownMode(f.mode)
    ensures WF(FeedbackTable(t, tok, Random, f))
    ensures Spent(FeedbackTable(t, tok, Random, f), tok, f.mode, f.ts + Max(0, f.coolingSec))
  {
  }

  /** Restarts before `until`, in any mode, leave the pair spent. */
  lemma {:induction false} AfterSpent(t: Table, pools: seq<int>, k: nat, m: int, now: int,
                                      tok: string, mode: int, until: int)
    requires WF(t) && KnownMode(m) && KnownMode(mode) && k <= |pools| && Spent(t, tok, mode, until)
    requires InBasic(t, tok) ==> now < until
    ensures var t' := After(t, pools, k, m, now);
      && WF(t') && t'.idxOf == t.idxOf && t'.tokens == t.tokens
      && Spent(t', tok, mode, until) && (InBasic(t', tok) <==> InBasic(t, tok))
  {
    if k > 0 {
      AfterSpent(t, pools, k - 1, m, now, tok, mode, until);
      var t1 := After(t, pools, k - 1, m, now);
      if tok in t.idxOf {
        var row := t1.rows[t.idxOf[tok]];
        assert row.pool == POOL_BASIC ==> mode == m ==> !DueReset(row, m, now);
      }
    }
  }

  lemma ReserveSpent(M: int, a: Sys, e: Event, b: Sys, tok: string, mode: int, until: int)
    requires 0 < M && WF(a.table) && KnownMode(mode) && Spent(a.table, tok, mode, until)
    requires e.Reserve? && Step(M, a, e, b) && LeavesSpent(a, e, tok, mode, until)
    ensures WF(b.table) && Spent(b.table, tok, mode, until)
    ensures e.mode == mode && e.lease.Some? ==> e.lease.value.token != tok
  {
    hide Failed, Chosen, Preferred, FailureReason, RowSpent, InBasic;
    if e.pools != [] {
      var o := OptionsFor(a.table, e.exclude, e.prefer, e.now, M);
      if e.lease.Some? {
        var k :| Reserved(e.s, a.table, e.pools, e.mode, o, k, b.table, e.lease.value);
        var idx := e.lease.value.idx;
        var t1 := After(a.table, e.pools, k + 1, e.mode, e.now);
        PickedUnderLimit(e.s, a.table, e.pools, e.mode, o, k, idx);
        AfterSpent(a.table, e.pools, k + 1, e.mode, e.now, tok, mode, until);
        GrantSpent(t1, idx, e.now, tok, mode, until);
      } else {
        AfterSpent(a.table, e.pools, |e.pools|, e.mode, e.now, tok, mode, until);
      }
    }
  }

  /** Leasing a slot spends and restarts nothing; a slot with quota in a mode is not a spent one. */
  lemma GrantSpent(t: Table, idx: int, now: int, tok: string, mode: int, until: int)
    requires WF(t) && 0 <= idx < |t.rows| && Spent(t, tok, mode, until)
    ensures WF(Grant(t, idx, now)) && Spent(Grant(t, idx, now), tok, mode, until)
    ensures t.rows[idx].quota.Get(mode) > 0 ==> t.tokens[idx] != tok
  {
  }

  lemma ReportSpent(M: int, a: Sys, e: Event, b: Sys, tok: string, mode: int, until: int)
    requires WF(a.table) && KnownMode(mode) && Spent(a.table, tok, mode, until)
    requires e.Report? && Step(M, a, e, b) && LeavesSpent(a, e, tok, mode, until)
    ensures WF(b.table) && Spent(b.table, tok, mode, until)
  {
    hide RowSpent;
    if e.token in a.table.idxOf && e.token == tok {
      FeedbackRowSpent(a.table.rows[a.table.idxOf[tok]], e.s, e.f, mode, until);
    }
  }

  /** Feedback never refills a spent mode and never brings its reset closer, short of a quota reading. */
  lemma FeedbackRowSpent(r: Row, s: Strategy, f: Feedback, mode: int, until: int)
    requires KnownMode(mode) && RowSpent(r, mode, until)
    requires s == Quota && f.update.Some? ==> KnownMode(f.mode) && f.mode != mode
    ensures RowSpent(FeedbackRow(r, s, f), mode, until)
  {
  }

  lemma SyncSpent(M: int, a: Sys, e: Event, b: Sys, tok: string, mode: int, until: int)
    requires WF(a.table) && KnownMode(mode) && Spent(a.table, tok, mode, until)
    requires e.SyncRound? && Step(M, a, e, b) && LeavesSpent(a, e, tok, mode, until)
    ensures WF(b.table) && Spent(b.table, tok, mode, until)
  {
    DeletesKeepWindows(a.table, e.cs.deletedTokens, tok);
    var t1 := ApplyDeletes(a.table, e.cs.deletedTokens);
    ItemsKeepOthers(t1, e.cs.items, tok);
  }

  /** Deletions rewrite a status and nothing else. */
  lemma {:induction false} DeletesKeepWindows(t: Table, tokens: seq<string>, tok: string)
    requires WF(t)
    ensures var t' := ApplyDeletes(t, tokens);
      && t'.idxOf == t.idxOf
      && (tok in t.idxOf ==> t'.rows[t'.idxOf[tok]] == t.rows[t.idxOf[tok]].(status := t'.rows[t'.idxOf[tok]].status))
    decreases |tokens|
  {
    if tokens != [] {
      DeletesKeepWindows(Delete(t, tokens[0]), tokens[1..], tok);
    }
  }

  lemma {:induction false} ItemsKeepOthers(t: Table, items: seq<Record>, tok: string)
    requires WF(t) && forall k :: 0 <= k < |items| ==> items[k].token != tok
    ensures SameToken(t, ApplyItems(t, items).0, tok)
    decreases |items|
  {
    if items != [] && ApplyRecord(t, items[0]).Some? {
      RecordStep(t, items[0]);
      ItemsKeepOthers(ApplyRecord(t, items[0]).value, items[1..], tok);
    }
  }

  lemma StepSpent(M: int, a: Sys, e: Event, b: Sys, tok: string, mode: int, until: int)
    requires 0 < M && WF(a.table) && KnownMode(mode) && Spent(a.table, tok, mode, until)
    requires Step(M, a, e, b) && LeavesSpent(a, e, tok, mode, until)
    ensures WF(b.table) && Spent(b.table, tok, mode, until)
    ensures e.Reserve? && e.mode == mode && e.lease.Some? ==> e.lease.value.token != tok
  {
    match e {
      case Reserve(_, _, _, _, _, _, _, _) => ReserveSpent(M, a, e, b, tok, mode, until);
      case Report(_, _, _) => ReportSpent(M, a, e, b, tok, mode, until);
      case SyncRound(_) => SyncSpent(M, a, e, b, tok, mode, until);
      case ReleaseOf(_) =>
      case Write(_) =>
    }
  }

  /** Once spent, the pair stays spent along any run that does not rewrite it, and no reservation of
      that mode in the run leases the token. */
  lemma {:induction false} NotReissued(M: int, states: seq<Sys>, events: seq<Event>,
                                       tok: string, mode: int, until: int, k: nat)
    requires 0 < M && IsRun(M, states, events) && KnownMode(mode) && k <= |events|
    requires WF(states[0].table) && Spent(states[0].table, tok, mode, until)
    requires forall j :: 0 <= j < k ==> LeavesSpent(states[j], events[j], tok, mode, until)
    ensures WF(states[k].table) && Spent(states[k].table, tok, mode, until)
    ensures forall j :: 0 <= j < k && events[j].Reserve? && events[j].mode == mode && events[j].lease.Some? ==>
      events[j].lease.value.token != tok
  {
    if k > 0 {
      NotReissued(M, states, events, tok, mode, until, k - 1);
      StepSpent(M, states[k - 1], events[k - 1], states[k], tok, mode, until);
    }
  }

  /** The headline: from the state right after random-strategy rate-limit feedback at time ts, no
      reservation of that mode before ts + cooling leases the account; outside the basic pool, none
      at all until a rewrite. */
  lemma RateLimitedNotReissued(M: int, before: Sys, f: Feedback, states: seq<Sys>, events: seq<Event>, tok: string)
    requires 0 < M && WF(before.table) && f.kind == RateLimited && KnownMode(f.mode)
    requires IsRun(M, states, events) && Step(M, before, Report(tok, Random, f), states[0])
    requires forall j :: 0 <= j < |events| ==>
      LeavesSpent(states[j], events[j], tok, f.mode, f.ts + Max(0, f.coolingSec))
    ensures forall j :: 0 <= j < |events| && events[j].Reserve? && events[j].mode == f.mode && events[j].lease.Some? ==>
      events[j].lease.value.token != tok
  {
    RateLimitSpends(before.table, tok, f);
    NotReissued(M, states, events, tok, f.mode, f.ts + Max(0, f.coolingSec), |events|);
  }

  // ---- Unauthorized accounts ----------------------------------------------

  /** The token's slot, if it has one, is not Active. */
  ghost predicate Inactive(t: Table, tok: string)
    requires WF(t)
  {
    tok in t.idxOf ==> t.rows[t.idxOf[tok]].status != ACTIVE
  }

  /** A sync round carries the token's record. */
  ghost predicate Rewrites(e: Event, tok: string) {
    e.SyncRound? && exists k :: 0 <= k < |e.cs.items| && e.cs.items[k].token == tok
  }

  lemma StepInactive(M: int, a: Sys, e: Event, b: Sys, tok: string)
    requires 0 < M && WF(a.table) && Inactive(a.table, tok) && Step(M, a, e, b) && !Rewrites(e, tok)
    ensures WF(b.table) && Inactive(b.table, tok)
    ensures e.Reserve? && e.lease.Some? ==> e.lease.value.token != tok
  {
    hide ReserveOutcome, OptionsFor;
    match e {
      case Reserve(_, _, _, _, _, _, _, _) => ReserveRows(M, a, e, b);
      case SyncRound(cs) =>
        DeletesStep(a.table, cs.deletedTokens);
        DeletesKeepWindows(a.table, cs.deletedTokens, tok);
        ItemsKeepOthers(ApplyDeletes(a.table, cs.deletedTokens), cs.items, tok);
        if tok !in cs.deletedTokens {
          assert SameToken(a.table, ApplyDeletes(a.table, cs.deletedTokens), tok);
        }
      case Report(token, s, f) =>
        if token in a.table.idxOf {
          FeedbackEffects(a.table.rows[a.table.idxOf[token]], s, f);
        }
      case ReleaseOf(_) =>
      case Write(_) =>
    }
  }

  lemma {:induction false} StaysInactive(M: int, states: seq<Sys>, events: seq<Event>, tok: string, k: nat)
    requires 0 < M && IsRun(M, states, events) && k <= |events|
    requires WF(states[0].table) && Inactive(states[0].table, tok)
    requires forall j :: 0 <= j < k ==> !Rewrites(events[j], tok)
    ensures WF(states[k].table) && Inactive(states[k].table, tok)
  {
    hide Step, Inactive, Rewrites, WF;
    if k > 0 {
      StaysInactive(M, states, events, tok, k - 1);
      StepInactive(M, states[k - 1], events[k - 1], states[k], tok);
    }
  }

  /** After unauthorized feedback on an account no reservation leases it, under any strategy, mode or pool,
      until a sync round carries its record. */
  lemma UnauthorizedNotLeased(M: int, before: Sys, s: Strategy, f: Feedback, states: seq<Sys>, events: seq<Event>,
                              tok: string, k: nat)
    requires 0 < M && WF(before.table) && f.kind == Unauthorized
    requires IsRun(M, states, events) && Step(M, before, Report(tok, s, f), states[0])
    requires k < |events| && forall j :: 0 <= j < k ==> !Rewrites(events[j], tok)
    ensures events[k].Reserve? && events[k].lease.Some? ==> events[k].lease.value.token != tok
  {
    if tok in before.table.idxOf {
      FeedbackEffects(before.table.rows[before.table.idxOf[tok]], s, f);
    }
    StaysInactive(M, states, events, tok, k);
    if events[k].Reserve? {
      StepInactive(M, states[k], events[k], states[k + 1], tok);
    }
  }
}
