/** The proxy clearance directory object: its critical sections, each run under the one mutex
    (proxy.go, proxy_lifecycle.go, proxy_backoff.go). */
module ProxyDirectory {
  import opened Wrappers
  import opened ProxyModel
  import E = ProxyEgress

  class Directory {
    var mode: Mode
    var bundles: map<Key, Bundle>
    var refreshEvents: map<Key, nat>
    var refreshBackoffUntil: map<Key, int>
    var failureCounts: map<Key, int>
    var egressMode: E.EgressMode
    var nodes: seq<string>
    var resourceNodes: seq<string>
    var poolCursor: nat

    ghost function View(): Dir
      reads this
    {
      Dir(mode, bundles, refreshEvents, refreshBackoffUntil, failureCounts)
    }

    ghost function Egress(): E.Egress
      reads this
    {
      E.Egress(egressMode, nodes, resourceNodes, poolCursor)
    }

    /** Failure counts are never negative. */
    ghost predicate Valid()
      reads this
    {
      forall k :: k in failureCounts ==> failureCounts[k] >= 0
    }

    constructor ()
      ensures Valid() && View() == Dir(NoClearance, map[], map[], map[], map[])
      ensures Egress() == E.Egress(E.Direct, [], [], 0)
    {
      mode, egressMode := NoClearance, E.Direct;
      nodes, resourceNodes, poolCursor := [], [], 0;
      bundles, refreshEvents, refreshBackoffUntil, failureCounts := map[], map[], map[], map[];
    }

    method CooldownBundleLocked(key: Key, bundle: Option<Bundle>, now: int) returns (r: Option<Bundle>)
      requires Valid()
      modifies `bundles, `refreshEvents, `refreshBackoffUntil, `failureCounts
      ensures Valid() && (View(), r) == CooldownBundle(old(View()), key, bundle, now)
    {
      if key !in refreshBackoffUntil || refreshBackoffUntil[key] == 0 {
        return None;
      }
      var until := refreshBackoffUntil[key];
      if until <= now {
        refreshBackoffUntil := refreshBackoffUntil - {key};
        return None;
      }
      if bundle.None? || bundle.value.cookies == "" || bundle.value.userAgent == "" {
        return None;
      }
      if bundle.value.state == Invalid {
        var demoted := bundle.value.(state := Stale);
        bundles := bundles[key := demoted];
        return Some(demoted);
      }
      return bundle;
    }

    /** Decides what a caller does about a key: use a bundle, give up, wait, or refresh it itself. */
    method BundleRefreshState(key: Key, now1: int, now2: int, newEvent: nat) returns (answer: Answer)
      requires Valid()
      modifies `bundles, `refreshEvents, `refreshBackoffUntil, `failureCounts
      ensures Valid() && (View(), answer) == Lookup(old(View()), key, now1, now2, newEvent)
    {
      if mode == NoClearance {
        return Off;
      }
      if key in bundles && bundles[key].state == ProxyModel.Valid {
        return Serve(bundles[key]);
      }
      var current := if key in bundles then Some(bundles[key]) else None;
      var fallback := CooldownBundleLocked(key, current, now1);
      if fallback.Some? {
        return Serve(fallback.value);
      }
      if key in refreshBackoffUntil && refreshBackoffUntil[key] > now2 {
        return Suppressed;
      }
      if key in refreshEvents {
        return WaitOn(refreshEvents[key]);
      }
      refreshEvents := refreshEvents[key := newEvent];
      return Win(newEvent);
    }

    method RecordRefreshFailureLocked(key: Key, c: Backoff, now1: int, now2: int) returns (r: Option<Bundle>)
      requires Valid()
      modifies `bundles, `refreshEvents, `refreshBackoffUntil, `failureCounts
      ensures Valid() && (View(), r) == RecordFailure(old(View()), key, c, now1, now2)
    {
      var n := (if key in failureCounts then failureCounts[key] else 0) + 1;
      failureCounts := failureCounts[key := n];
      var ms := CooldownMs(c, n);
      if ms > 0 {
        refreshBackoffUntil := refreshBackoffUntil[key := now1 + ms];
      }
      var bundle := if key in bundles then Some(bundles[key]) else None;
      r := CooldownBundleLocked(key, bundle, now2);
    }

    method RecordSuccessfulBundleRefresh(key: Key, bundle: Bundle, now: int) returns (stored: Bundle)
      requires Valid()
      modifies `bundles, `refreshEvents, `refreshBackoffUntil, `failureCounts
      ensures Valid() && View() == RecordSuccess(old(View()), key, bundle, now)
      ensures stored == StoredBundle(old(View()), key, bundle, now)
    {
      stored := bundle.(lastRefreshAt := Some(now), lastError := "");
      if key in bundles {
        stored := stored.(refreshCount := bundles[key].refreshCount + 1);
      } else {
        stored := stored.(refreshCount := stored.refreshCount + 1);
      }
      bundles := bundles[key := stored];
      failureCounts := failureCounts - {key};
      refreshBackoffUntil := refreshBackoffUntil - {key};
    }

    method RecordBundleRefreshFailure(key: Key, bundle: Bundle, c: Backoff, now1: int, now2: int)
      requires Valid()
      modifies `bundles, `refreshEvents, `refreshBackoffUntil, `failureCounts
      ensures Valid() && View() == RecordBundleFailure(old(View()), key, bundle, c, now1, now2)
    {
      if bundle.lastError == "" {
        var _ := RecordRefreshFailureLocked(key, c, now1, now2);
        return;
      }
      var named := bundle;
      if named.affinity == "" {
        named := named.(affinity := key.affinity);
      }
      if named.host == "" {
        named := named.(host := key.host);
      }
      named := named.(state := Invalid);
      if key in bundles {
        bundles := bundles[key := bundles[key].(lastError := named.lastError)];
      } else {
        bundles := bundles[key := named];
      }
      var _ := RecordRefreshFailureLocked(key, c, now1, now2);
    }

    /** The part of `finishRefresh` under the mutex; closing the event comes after it. */
    method ForgetEvent(key: Key)
      requires Valid()
      modifies `bundles, `refreshEvents, `refreshBackoffUntil, `failureCounts
      ensures Valid() && View() == Forget(old(View()), key)
    {
      refreshEvents := refreshEvents - {key};
    }

    method InvalidateClearance()
      requires Valid()
      modifies `bundles, `refreshEvents, `refreshBackoffUntil, `failureCounts
      ensures Valid() && View() == ProxyModel.InvalidateAll(old(View()))
    {
      ghost var before := bundles;
      var todo := bundles.Keys;
      while todo != {}
        invariant Valid() && View() == old(View()).(bundles := bundles)
        invariant bundles.Keys == before.Keys && todo <= before.Keys
        invariant forall k :: k in before ==>
          bundles[k] == if k in todo then before[k] else before[k].(state := Invalid)
        decreases todo
      {
        var key :| key in todo;
        todo := todo - {key};
        bundles := bundles[key := bundles[key].(state := Invalid)];
      }
    }

    /** Challenge and unauthorized feedback invalidate the bundle of the lease's key; these, forbidden ones
        and transport errors of a proxied lease move the pool on. */
    method Feedback(key: Key, kind: FeedbackKind, hasProxy: bool)
      requires Valid()
      modifies `bundles, `poolCursor
      ensures Valid() && View() == if Invalidates(kind) then InvalidateKey(old(View()), key) else old(View())
      ensures poolCursor ==
        old(poolCursor) + if egressMode == E.ProxyPool && hasProxy && Rotates(kind) then 1 else 0
      ensures key in old(bundles) && kind in {Challenge, Unauthorized} ==>
        bundles == old(bundles)[key := old(bundles)[key].(state := Invalid)]
      ensures key !in old(bundles) || kind !in {Challenge, Unauthorized} ==> bundles == old(bundles)
      ensures poolCursor == old(poolCursor) + 1 <==>
        egressMode == E.ProxyPool && hasProxy && kind in {Challenge, Unauthorized, Forbidden, TransportError}
    {
      if Invalidates(kind) && key in bundles {
        bundles := bundles[key := bundles[key].(state := Invalid)];
      }
      if egressMode == E.ProxyPool && hasProxy && Rotates(kind) {
        poolCursor := poolCursor + 1;
      }
    }

    /** The address for the next lease, if it has one. */
    method PickProxyUrl(resource: bool) returns (url: Option<string>)
      ensures url == E.Pick(Egress(), resource)
    {
      if egressMode == E.Direct {
        return None;
      }
      var from := nodes;
      if resource && |resourceNodes| > 0 {
        from := resourceNodes;
      }
      if |from| == 0 {
        return None;
      }
      if egressMode == E.SingleProxy {
        return Some(from[0]);
      }
      return Some(from[poolCursor % |from|]);
    }

    /** A reload: keeps what belongs to an affinity still in use and starts the pool over. With an unchanged
        configuration it does nothing. */
    method Load(sameConfig: bool, c: E.Config, newMode: Mode)
      requires Valid()
      modifies this
      ensures Valid() && View() == if sameConfig then old(View()) else Reload(old(View()), E.Kept(E.Built(c)), newMode)
      ensures Egress() == if sameConfig then old(Egress()) else E.Built(c)
    {
      hide Invalidated, E.Kept;
      if sameConfig {
        return;
      }
      nodes, resourceNodes := [], [];
      if c.mode == E.SingleProxy {
        nodes, resourceNodes := E.Single(c.baseUrl), E.Single(c.resourceUrl);
      }
      if c.mode == E.ProxyPool {
        nodes, resourceNodes := c.basePool, c.resourcePool;
      }
      egressMode, mode, poolCursor := c.mode, newMode, 0;
      var valid := E.Kept(E.Built(c));
      bundles := Invalidated(KeepAffinity(bundles, valid));
      refreshEvents := KeepAffinity(refreshEvents, valid);
      refreshBackoffUntil := KeepAffinity(refreshBackoffUntil, valid);
      failureCounts := KeepAffinity(failureCounts, valid);
    }
  }

  datatype FeedbackKind = Success | Challenge | Unauthorized | Forbidden | RateLimited | Upstream5xx | TransportError

  predicate Invalidates(kind: FeedbackKind) {
    kind == Challenge || kind == Unauthorized
  }

  predicate Rotates(kind: FeedbackKind) {
    Invalidates(kind) || kind == Forbidden || kind == TransportError
  }
}
