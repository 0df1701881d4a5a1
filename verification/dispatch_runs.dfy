/** Dispatches sharing one directory: callers of the retry loop (products/dispatch.go) interleaved with each
    other and with everything else that happens to the directory. Each caller's answers come from the
    directory, and what the loop proves of one caller alone holds of it among the others. */
module DispatchRuns {
  import opened Wrappers
  import opened AccountModel
  import opened AccountDirectory
  import opened AccountRuns
  import AccountSelection
  import AccountSelector
  import AccountSync
  import opened AccountReplica
  import D = Dispatch

  /** Where a caller stands within an attempt. */
  datatype Pc<!T, !E> =
    | Asking
    | Holding(id: nat, lease: D.Lease)
    | Ran(id: nat, lease: D.Lease, result: Result<T, E>)
    | Released(lease: D.Lease, result: Result<T, E>)
    | Reported(lease: D.Lease, result: Result<T, E>)
    | Returned(outcome: D.Outcome<T, E>)
  {
    predicate Holds(i: nat) {
      (Holding? || Ran?) && id == i
    }
  }

  /** A caller with its environment: its options, and the answers and results it meets. `before` is the
      trace of its finished attempts, `now` that of the current one. */
  datatype Caller<!T, !E> = Caller(env: D.Env<T, E>, attempt: nat, excluded: seq<string>,
                                   before: seq<D.Event>, now: seq<D.Event>, pc: Pc<T, E>)
  {
    function Goes(e: seq<D.Event>, next: Pc<T, E>): Caller<T, E> {
      this.(now := now + e, pc := next)
    }

    function Returns(outcome: D.Outcome<T, E>): Caller<T, E> {
      this.(before := before + now, now := [], pc := Returned(outcome))
    }

    /** The end of the loop body. */
    function Decides(): Caller<T, E>
      requires pc.Reported?
    {
      if pc.result.Ok? then Returns(D.Success(pc.result.value))
      else if !env.ShouldRetry(pc.result.error, attempt) then Returns(D.RunFailed(pc.result.error))
      else Caller(env, attempt + 1, excluded + [pc.lease.token], before + now, [], Asking)
    }
  }

  datatype World<!T, !E> = World(sys: Sys, callers: map<nat, Caller<T, E>>)

  datatype Move<!T, !E> =
    | Begin(c: nat, env: D.Env<T, E>)
    | Ask(c: nat, e: Event)
    | AskFails(c: nat)
    | Run(c: nat)
    | Release(c: nat)
    | Feed(c: nat, e: Event)
    | Decide(c: nat)
    | Other(e: Event)

  /** What the directory's outcome means to a caller. */
  function Answer<E>(e: Event): D.Reservation<E>
    requires e.Reserve?
  {
    if e.lease.Some? then D.Leased(D.Lease(e.lease.value.token, e.mode)) else D.NoAccount
  }

  /** A caller excludes the tokens it has tried; the directory's answer is the one its environment holds. */
  ghost predicate Asks<T, E>(k: Caller<T, E>, e: Event, k': Caller<T, E>) {
    && k.pc.Asking? && e.Reserve? && e.exclude == k.excluded
    && k.env.reserve(k.attempt, k.excluded) == Answer(e)
    && k' == if e.lease.None? then k.Returns(D.NoAccounts)
             else
               var lease := D.Lease(e.lease.value.token, e.mode);
               k.Goes([D.Reserved(lease)], Holding(e.lease.value.id, lease))
  }

  /** A step of a caller that leaves the directory alone. */
  ghost predicate Moves<T, E>(m: Move<T, E>, k: Caller<T, E>, k': Caller<T, E>) {
    match m
    case AskFails(_) =>
      k.pc.Asking? && k.env.reserve(k.attempt, k.excluded).ReserveError?
      && k' == k.Returns(D.ReserveFailed(k.env.reserve(k.attempt, k.excluded).error))
    case Run(_) =>
      k.pc.Holding?
      && k' == k.Goes([D.Ran(k.pc.lease)], Ran(k.pc.id, k.pc.lease, k.env.run(k.attempt, k.pc.lease)))
    case Decide(_) => k.pc.Reported? && k' == k.Decides()
    case _ => false
  }

  /** One step. Leases are taken and given back by the callers alone; everything else that can happen to
      the directory may happen in between. */
  ghost predicate WorldStep<T, E>(M: int, a: World<T, E>, m: Move<T, E>, b: World<T, E>)
    requires WF(a.sys.table)
  {
    match m
    case Begin(c, env) =>
      c !in a.callers && b == a.(callers := a.callers[c := Caller(env, 0, [], [], [], Asking)])
    case Ask(c, e) =>
      && c in a.callers && c in b.callers && Step(M, a.sys, e, b.sys) && Asks(a.callers[c], e, b.callers[c])
      && b.callers == a.callers[c := b.callers[c]]
    case Release(c) =>
      && c in a.callers && a.callers[c].pc.Ran? && Step(M, a.sys, ReleaseOf(a.callers[c].pc.id), b.sys)
      && var k := a.callers[c];
      b.callers == a.callers[c := k.Goes([D.Released(k.pc.lease)], Released(k.pc.lease, k.pc.result))]
    case Feed(c, e) =>
      && c in a.callers && a.callers[c].pc.Released?
      && var k := a.callers[c];
      var sent := k.env.FeedbackOf(k.pc.lease, k.pc.result);
      && (if sent == [] then b.sys == a.sys else e.Report? && e.token == k.pc.lease.token && Step(M, a.sys, e, b.sys))
      && b.callers == a.callers[c := k.Goes(sent, Reported(k.pc.lease, k.pc.result))]
    case Other(e) =>
      !e.ReleaseOf? && (e.Reserve? ==> e.lease.None?) && Step(M, a.sys, e, b.sys) && b.callers == a.callers
    case _ =>
      && m.c in a.callers && m.c in b.callers && b.sys == a.sys && Moves(m, a.callers[m.c], b.callers[m.c])
      && b.callers == a.callers[m.c := b.callers[m.c]]
  }

  // ---- One caller among the others ----------------------------------------

  /** The loop as specified for one caller, cut where this caller stands: what is done, then the rest. */
  ghost predicate OnTrack<T, E>(k: Caller<T, E>) {
    var whole, rest := D.DispatchFrom(k.env, 0, []), D.DispatchFrom(k.env, k.attempt, k.excluded);
    k.attempt < k.env.MaxAttempts()
    && whole.0 == k.before + rest.0 && whole.1 == rest.1
    && (D.Honoured(k.env, k.attempt, k.excluded) ==> D.Honoured(k.env, 0, []))
  }

  /** The lease in hand is the environment's answer to this attempt, and not an excluded token. */
  ghost predicate Leased<T, E>(k: Caller<T, E>, lease: D.Lease) {
    k.env.reserve(k.attempt, k.excluded) == D.Leased(lease) && lease.token !in k.excluded
  }

  ghost predicate Follows<T, E>(k: Caller<T, E>) {
    match k.pc
    case Asking => OnTrack(k) && k.now == []
    case Holding(_, lease) => OnTrack(k) && Leased(k, lease) && k.now == [D.Reserved(lease)]
    case Ran(_, lease, result) =>
      && OnTrack(k) && Leased(k, lease) && result == k.env.run(k.attempt, lease)
      && k.now == [D.Reserved(lease), D.Ran(lease)]
    case Released(lease, result) =>
      && OnTrack(k) && Leased(k, lease) && result == k.env.run(k.attempt, lease)
      && k.now == [D.Reserved(lease), D.Ran(lease), D.Released(lease)]
    case Reported(lease, result) =>
      && OnTrack(k) && Leased(k, lease) && result == k.env.run(k.attempt, lease)
      && k.now == D.AttemptEvents(k.env, lease, result)
    case Returned(outcome) =>
      D.DispatchFrom(k.env, 0, []) == (k.before, outcome) && k.now == [] && D.Honoured(k.env, 0, [])
  }

  lemma AsksFollows<T, E>(k: Caller<T, E>, e: Event, k': Caller<T, E>)
    requires Follows(k) && Asks(k, e, k')
    requires e.lease.Some? ==> e.lease.value.token !in e.exclude
    ensures Follows(k')
  {
    if e.lease.None? {
      assert k.before + [] == k.before;
    }
  }

  lemma MovesFollows<T, E>(m: Move<T, E>, k: Caller<T, E>, k': Caller<T, E>)
    requires Follows(k) && Moves(m, k, k')
    ensures Follows(k')
  {
    match m {
      case AskFails(_) => assert k.before + [] == k.before;
      case Run(_) =>
      case Decide(_) => DecidesFollows(k);
    }
  }

  lemma DecidesFollows<T, E>(k: Caller<T, E>)
    requires Follows(k) && k.pc.Reported?
    ensures Follows(k.Decides())
  {
    hide D.AttemptEvents;
    var now := D.AttemptEvents(k.env, k.pc.lease, k.pc.result);
    if k.pc.result.Err? && k.env.ShouldRetry(k.pc.result.error, k.attempt) {
      var later := D.DispatchFrom(k.env, k.attempt + 1, k.excluded + [k.pc.lease.token]).0;
      assert k.before + (now + later) == k.before + now + later;
    }
  }

  lemma ReleaseFollows<T, E>(k: Caller<T, E>)
    requires Follows(k) && k.pc.Ran?
    ensures Follows(k.Goes([D.Released(k.pc.lease)], Released(k.pc.lease, k.pc.result)))
  {
  }

  lemma FeedFollows<T, E>(k: Caller<T, E>)
    requires Follows(k) && k.pc.Released?
    ensures Follows(k.Goes(k.env.FeedbackOf(k.pc.lease, k.pc.result), Reported(k.pc.lease, k.pc.result)))
  {
  }

  /** A caller that has returned did exactly what the loop specifies alone: it gave back every lease it took
      before taking another, tried no token twice and no more than its limit, and did not fall out of the
      loop. */
  lemma ReturnedCaller<T, E>(k: Caller<T, E>)
    requires Follows(k) && k.pc.Returned?
    ensures (k.before, k.pc.outcome) == D.DispatchFrom(k.env, 0, [])
    ensures D.Held(k.before, None) == Some(None) && k.pc.outcome != D.AfterLoop
    ensures D.Distinct(D.Tokens(k.before)) && |D.Tokens(k.before)| <= k.env.MaxAttempts()
  {
    hide D.DispatchFrom, D.Honoured, D.Held;
    D.EveryLeaseReturned(k.env, 0, []);
    D.TokensDistinct(k.env, 0, []);
    D.AfterLoopUnreachable(k.env, 0, []);
  }

  // ---- All of them together -----------------------------------------------

  ghost predicate Holder<T, E>(w: World<T, E>, c: nat, id: nat) {
    c in w.callers && w.callers[c].pc.Holds(id)
  }

  /** The outstanding leases are exactly those in the hands of a caller, one caller each. */
  ghost predicate InHand<T, E>(w: World<T, E>) {
    && (forall c, id: nat :: Holder(w, c, id) ==> id in w.sys.leases)
    && (forall id: nat :: id in w.sys.leases ==> exists c :: Holder(w, c, id))
    && (forall c, d, id: nat :: Holder(w, c, id) && Holder(w, d, id) ==> c == d)
  }

  ghost predicate WorldInv<T, E>(M: int, w: World<T, E>) {
    && Inv(M, false, w.sys) && InHand(w)
    && forall c :: c in w.callers ==> Follows(w.callers[c])
  }

  /** Only caller c took a step. */
  ghost predicate OneMoved<T, E>(a: World<T, E>, c: nat, b: World<T, E>) {
    c in b.callers && b.callers == a.callers[c := b.callers[c]]
  }

  /** Nobody's hands change when no caller takes or gives back a lease. */
  lemma SameHands<T, E>(a: World<T, E>, c: nat, b: World<T, E>)
    requires InHand(a) && b.sys.leases == a.sys.leases && OneMoved(a, c, b)
    requires forall id: nat :: Holder(b, c, id) <==> Holder(a, c, id)
    ensures InHand(b)
  {
    assert forall d, id: nat :: Holder(b, d, id) <==> Holder(a, d, id);
    hide Holder, OneMoved;
  }

  lemma NobodyMoved<T, E>(a: World<T, E>, b: World<T, E>)
    requires InHand(a) && b.sys.leases == a.sys.leases && b.callers == a.callers
    ensures InHand(b)
  {
    assert forall d, id: nat :: Holder(b, d, id) <==> Holder(a, d, id);
    hide Holder;
  }

  lemma TakenInHand<T, E>(a: World<T, E>, c: nat, id: nat, idx: int, b: World<T, E>)
    requires InHand(a) && id !in a.sys.leases && b.sys.leases == a.sys.leases[id := idx] && OneMoved(a, c, b)
    requires c in a.callers && a.callers[c].pc.Asking? && b.callers[c].pc.Holding? && b.callers[c].pc.id == id
    ensures InHand(b)
  {
    assert forall d, x: nat :: Holder(b, d, x) <==> Holder(a, d, x) || (d == c && x == id);
    assert forall x: nat :: !Holder(a, c, x);
    hide Holder, OneMoved;
    forall x: nat | x in b.sys.leases ensures exists d :: Holder(b, d, x) {
      if x == id {
        assert Holder(b, c, id);
      } else {
        var d :| Holder(a, d, x);
        assert Holder(b, d, x);
      }
    }
  }

  lemma GivenBack<T, E>(a: World<T, E>, c: nat, id: nat, b: World<T, E>)
    requires InHand(a) && Holder(a, c, id) && b.sys.leases == a.sys.leases - {id} && OneMoved(a, c, b)
    requires b.callers[c].pc.Released?
    ensures InHand(b)
  {
    assert forall d, x: nat :: Holder(b, d, x) <==> Holder(a, d, x) && d != c;
    assert forall x: nat :: Holder(a, c, x) ==> x == id;
    hide Holder, OneMoved;
    forall x: nat | x in b.sys.leases ensures exists d :: Holder(b, d, x) {
      var d :| Holder(a, d, x);
      assert Holder(b, d, x);
    }
  }

  /** How a step of the directory changes the outstanding leases. */
  lemma LeasesStep(M: int, y: Sys, e: Event, z: Sys)
    requires 0 < M && WF(y.table) && Step(M, y, e, z)
    ensures e.Reserve? && e.lease.Some? ==>
      && e.lease.value.id == y.nextId && z.leases == y.leases[y.nextId := e.lease.value.idx]
      && e.lease.value.token !in e.exclude
    ensures e.ReleaseOf? ==> z.leases == y.leases - {e.id}
    ensures !e.ReleaseOf? && !(e.Reserve? && e.lease.Some?) ==> z.leases == y.leases
  {
    hide ReserveOutcome, OptionsFor, WF;
    if e.Reserve? {
      ReserveRows(M, y, e, z);
    }
  }

  lemma FreshId(M: int, y: Sys)
    requires Conserved(M, y)
    ensures y.nextId !in y.leases
  {
  }

  lemma StartsOnTrack<T, E>(env: D.Env<T, E>)
    ensures Follows(Caller(env, 0, [], [], [], Asking))
  {
    assert [] + D.DispatchFrom(env, 0, []).0 == D.DispatchFrom(env, 0, []).0;
  }

  /** Every step keeps the leases in hand exactly the outstanding ones, and every caller on its loop. */
  lemma WorldStepInv<T, E>(M: int, a: World<T, E>, m: Move<T, E>, b: World<T, E>)
    requires 0 < M <= 65535 && WorldInv(M, a) && WorldStep(M, a, m, b)
    ensures WorldInv(M, b)
  {
    hide Step, InHand, Follows, WF, RepoWF, Covered, Conserved;
    FreshId(M, a.sys);
    match m {
      case Begin(c, env) =>
        StartsOnTrack(env);
        SameHands(a, c, b);
      case Ask(c, e) =>
        StepInv(M, false, a.sys, e, b.sys);
        LeasesStep(M, a.sys, e, b.sys);
        AsksFollows(a.callers[c], e, b.callers[c]);
        if e.lease.Some? {
          TakenInHand(a, c, a.sys.nextId, e.lease.value.idx, b);
        } else {
          SameHands(a, c, b);
        }
      case Release(c) =>
        var id := a.callers[c].pc.id;
        StepInv(M, false, a.sys, ReleaseOf(id), b.sys);
        LeasesStep(M, a.sys, ReleaseOf(id), b.sys);
        GivenBack(a, c, id, b);
        ReleaseFollows(a.callers[c]);
      case Feed(c, e) =>
        FeedFollows(a.callers[c]);
        if b.sys != a.sys {
          StepInv(M, false, a.sys, e, b.sys);
          LeasesStep(M, a.sys, e, b.sys);
        }
        SameHands(a, c, b);
      case Other(e) =>
        StepInv(M, false, a.sys, e, b.sys);
        LeasesStep(M, a.sys, e, b.sys);
        NobodyMoved(a, b);
      case _ =>
        MovesFollows(m, a.callers[m.c], b.callers[m.c]);
        SameHands(a, m.c, b);
    }
  }

  ghost predicate IsWorldRun<T, E>(M: int, worlds: seq<World<T, E>>, moves: seq<Move<T, E>>) {
    && |worlds| == |moves| + 1
    && forall k :: 0 <= k < |moves| ==> WF(worlds[k].sys.table) && WorldStep(M, worlds[k], moves[k], worlds[k + 1])
  }

  lemma {:induction false} WorldRunInv<T, E>(M: int, worlds: seq<World<T, E>>, moves: seq<Move<T, E>>,
                                             items: seq<AccountSync.Record>, k: nat)
    requires 0 < M <= 65535 && IsWorldRun(M, worlds, moves) && k < |worlds|
    requires Started(worlds[0].sys, items) && worlds[0].callers == map[]
    ensures WorldInv(M, worlds[k])
  {
    if k == 0 {
      StartedInv(M, worlds[0].sys, items);
    } else {
      WorldRunInv(M, worlds, moves, items, k - 1);
      WorldStepInv(M, worlds[k - 1], moves[k - 1], worlds[k]);
    }
  }

  /** Once all dispatches have returned, no lease is outstanding and every counter is zero, in every
      interleaving from a load on. */
  lemma AllReturnedIsZero<T, E>(M: int, worlds: seq<World<T, E>>, moves: seq<Move<T, E>>,
                                items: seq<AccountSync.Record>, k: nat)
    requires 0 < M <= 65535 && IsWorldRun(M, worlds, moves) && k < |worlds|
    requires Started(worlds[0].sys, items) && worlds[0].callers == map[]
    requires forall c :: c in worlds[k].callers ==> worlds[k].callers[c].pc.Returned?
    ensures worlds[k].sys.leases == map[]
    ensures forall i :: 0 <= i < |worlds[k].sys.table.rows| ==> worlds[k].sys.table.rows[i].inflight == 0
  {
    hide Follows, IsWorldRun, Started;
    WorldRunInv(M, worlds, moves, items, k);
    assert forall c, id: nat :: !Holder(worlds[k], c, id);
    assert worlds[k].sys.leases == map[];
    QuiescentIsZero(M, worlds[k].sys);
  }

  /** A caller that has returned, in any run with any others: its trace and outcome are those of the loop
      alone, every lease was given back before the next was taken, the tokens are pairwise distinct, and
      there are no more of them than attempts allowed. */
  lemma ReturnedInRun<T, E>(M: int, worlds: seq<World<T, E>>, moves: seq<Move<T, E>>,
                            items: seq<AccountSync.Record>, k: nat, c: nat)
    requires 0 < M <= 65535 && IsWorldRun(M, worlds, moves) && k < |worlds|
    requires Started(worlds[0].sys, items) && worlds[0].callers == map[]
    requires c in worlds[k].callers && worlds[k].callers[c].pc.Returned?
    ensures var caller := worlds[k].callers[c];
      && (caller.before, caller.pc.outcome) == D.DispatchFrom(caller.env, 0, [])
      && D.Held(caller.before, None) == Some(None) && caller.pc.outcome != D.AfterLoop
      && D.Distinct(D.Tokens(caller.before)) && |D.Tokens(caller.before)| <= caller.env.MaxAttempts()
  {
    hide Follows, IsWorldRun, Started;
    WorldRunInv(M, worlds, moves, items, k);
    ReturnedCaller(worlds[k].callers[c]);
  }

  /** Nothing keeps a caller from giving its lease back: two steps of its own do it, from any state. */
  lemma HolderCanRelease<T, E>(M: int, a: World<T, E>, c: nat, id: nat)
    returns (worlds: seq<World<T, E>>, moves: seq<Move<T, E>>)
    requires WF(a.sys.table) && Holder(a, c, id) && id in a.sys.leases
    ensures IsWorldRun(M, worlds, moves) && worlds[0] == a && |moves| <= 2
    ensures var z := worlds[|moves|]; id !in z.sys.leases && c in z.callers && z.callers[c].pc.Released?
  {
    hide Follows;
    worlds, moves := [a], [];
    var w := a;
    if w.callers[c].pc.Holding? {
      var k := w.callers[c];
      var k' := k.Goes([D.Ran(k.pc.lease)], Ran(k.pc.id, k.pc.lease, k.env.run(k.attempt, k.pc.lease)));
      var w' := w.(callers := w.callers[c := k']);
      assert Moves(Move<T, E>.Run(c), k, k');
      assert WorldStep(M, w, Run(c), w');
      worlds, moves, w := worlds + [w'], moves + [Run(c)], w';
    }
    var k := w.callers[c];
    var sys' := w.sys.(table := AccountModel.Release(w.sys.table, w.sys.leases[id]), leases := w.sys.leases - {id});
    var w' := World(sys', w.callers[c := k.Goes([D.Released(k.pc.lease)], Released(k.pc.lease, k.pc.result))]);
    assert WorldStep(M, w, Release(c), w');
    worlds, moves := worlds + [w'], moves + [Release(c)];
  }

  // ---- A run --------------------------------------------------------------

  const ONES := ModeVals(1, 1, 1, 1, 1, 1)
  const ACCOUNT := Slot("a", 1, ACTIVE, ONES, ONES, ONES, ONES, 1.0, 0, 0, 0, [])
  const RECORD := AccountSync.Record("a", false, Some(ACCOUNT))
  const LOADED := Append(EMPTY, ACCOUNT).(revision := 1)
  const AT_START := Sys(LOADED, Repo(map["a" := Entry(1, RECORD)], 1), map[], 0)
  const TAKEN := AccountDirectory.Lease(0, 0, "a", 1, 0, 0)

  lemma OneAccountStarts()
    ensures Started(AT_START, [RECORD])
  {
    var items := [RECORD];
    assert items[1..] == [];
    assert AccountSync.Load(EMPTY, items) == AccountSync.Load(Append(EMPTY, ACCOUNT), []);
    assert items[0].token == "a";
  }

  /** The one account can be leased. */
  lemma OneAccountLeases(M: int) returns (sys': Sys)
    requires 0 < M
    ensures Step(M, AT_START, Reserve(Random, [1], 0, [], [], 0, Some(TAKEN), AccountSelector.NoFailure), sys')
    ensures WF(sys'.table) && sys'.leases == map[0 := 0]
  {
    hide After, Picked, NonePicked;
    var t, o := LOADED, OptionsFor(LOADED, [], [], 0, M);
    assert o.exclude == {};
    assert AccountSelection.Admissible(t, 1, 0, o, 0);
    AccountSelection.AdmissibleIsPicked(Random, t, [1], 0, o, 0);
    var k, c :| k <= 0 && Picked(Random, t, [1], 0, o, k, c);
    PickedUnderLimit(Random, t, [1], 0, o, k, c);
    assert k == 0 && c == 0;
    AccountSelection.AfterRows(t, [1], 1, 0, 0);
    var t' := Grant(After(t, [1], 1, 0, 0), 0, 0);
    sys' := AT_START.(table := t', leases := map[0 := 0], nextId := 1);
    assert Reserved(Random, t, [1], 0, o, 0, t', TAKEN);
  }

  lemma TakenReleases(M: int, a: Sys, b: Sys)
    requires WF(a.table) && a.leases == map[0 := 0]
    requires b == a.(table := AccountModel.Release(a.table, 0), leases := a.leases - {0})
    ensures Step(M, a, ReleaseOf(0), b)
  {
  }

  /** A caller that begins, takes the lease 0, runs and gives it back. */
  lemma HoldingRun(M: int, a: Sys, taken: Sys, given: Sys)
    returns (worlds: seq<World<int, int>>, moves: seq<Move<int, int>>)
    requires WF(a.table) && WF(taken.table) && taken.leases == map[0 := 0]
    requires Step(M, a, Reserve(Random, [1], 0, [], [], 0, Some(TAKEN), AccountSelector.NoFailure), taken)
    requires Step(M, taken, ReleaseOf(0), given)
    ensures IsWorldRun(M, worlds, moves) && |moves| == 4 && worlds[0] == World(a, map[])
    ensures Holder(worlds[2], 0, 0) && Holder(worlds[3], 0, 0) && worlds[4].sys == given
  {
    hide Step, WF;
    var lease := D.Lease("a", 0);
    var env: D.Env<int, int> := D.Env(1, [], (e: int) => None, None, None,
                               (k: nat, excluded: seq<string>) => D.Leased(lease), (k: nat, l: D.Lease) => Ok(0));
    var e := Reserve(Random, [1], 0, [], [], 0, Some(TAKEN), AccountSelector.NoFailure);
    var asking := Caller(env, 0, [], [], [], Asking);
    var holding := asking.Goes([D.Reserved(lease)], Holding(0, lease));
    var ran := holding.Goes([D.Ran(lease)], Ran(0, lease, Ok(0)));
    var w0, w1 := World(a, map[]), World(a, map[0 := asking]);
    var w2, w3 := World(taken, map[0 := holding]), World(taken, map[0 := ran]);
    var w4 := World(given, map[0 := ran.Goes([D.Released(lease)], Released(lease, Ok(0)))]);
    assert WorldStep(M, w0, Begin(0, env), w1);
    assert Asks(asking, e, holding);
    assert WorldStep(M, w1, Ask(0, e), w2);
    assert Moves(Move<int, int>.Run(0), holding, ran);
    assert WorldStep(M, w2, Run(0), w3);
    assert WorldStep(M, w3, Release(0), w4);
    worlds, moves := [w0, w1, w2, w3, w4], [Begin(0, env), Ask(0, e), Run(0), Release(0)];
  }

  /** From a load of one account a caller begins, takes its lease, runs and gives it back; in between it
      has the lease in hand. */
  lemma SomeoneHolds(M: int) returns (worlds: seq<World<int, int>>, moves: seq<Move<int, int>>)
    requires 0 < M
    ensures IsWorldRun(M, worlds, moves) && |moves| == 4
    ensures Started(worlds[0].sys, [RECORD]) && worlds[0].callers == map[]
    ensures Holder(worlds[2], 0, 0) && Holder(worlds[3], 0, 0) && worlds[4].sys.leases == map[]
  {
    hide Started, Step, IsWorldRun, Holder;
    OneAccountStarts();
    var taken := OneAccountLeases(M);
    var given := taken.(table := AccountModel.Release(taken.table, 0), leases := taken.leases - {0});
    TakenReleases(M, taken, given);
    worlds, moves := HoldingRun(M, AT_START, taken, given);
  }
}
