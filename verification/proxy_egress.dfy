/** Which proxy address a lease gets, and which addresses a reload keeps (proxy.go, proxy_helpers.go). */
module ProxyEgress {
  import opened Wrappers

  datatype EgressMode = Direct | SingleProxy | ProxyPool

  /** The proxy part of a configuration. */
  datatype Config = Config(mode: EgressMode, baseUrl: string, resourceUrl: string,
                           basePool: seq<string>, resourcePool: seq<string>)

  /** The addresses in use; the cursor counts the rotations of the pool. */
  datatype Egress = Egress(mode: EgressMode, nodes: seq<string>, resourceNodes: seq<string>, cursor: nat)

  function Single(url: string): seq<string> {
    if url == "" then [] else [url]
  }

  function Built(c: Config): Egress {
    match c.mode
    case Direct => Egress(Direct, [], [], 0)
    case SingleProxy => Egress(SingleProxy, Single(c.baseUrl), Single(c.resourceUrl), 0)
    case ProxyPool => Egress(ProxyPool, c.basePool, c.resourcePool, 0)
  }

  /** Resource requests prefer the resource addresses, when there are any. */
  function Nodes(e: Egress, resource: bool): seq<string> {
    if resource && e.resourceNodes != [] then e.resourceNodes else e.nodes
  }

  function Pick(e: Egress, resource: bool): Option<string> {
    var nodes := Nodes(e, resource);
    if e.mode == Direct || nodes == [] then None
    else if e.mode == SingleProxy then Some(nodes[0])
    else Some(nodes[e.cursor % |nodes|])
  }

  /** Where requests go under a configuration: directly, or to a configured address of their own kind, resource
      requests falling back to the base ones; a blank single address is none, a pool goes by its cursor. */
  lemma PickMeans(c: Config, cursor: nat, resource: bool)
    ensures var url := Pick(Built(c).(cursor := cursor), resource);
      match c.mode
      case Direct => url == None
      case SingleProxy =>
        url == if resource && c.resourceUrl != "" then Some(c.resourceUrl)
               else if c.baseUrl != "" then Some(c.baseUrl) else None
      case ProxyPool =>
        var pool := if resource && |c.resourcePool| > 0 then c.resourcePool else c.basePool;
        url == if |pool| == 0 then None else Some(pool[cursor % |pool|])
  {
  }

  /** The affinity a lease with this address keeps its clearance under. */
  function Affinity(url: Option<string>): string {
    url.GetOr("direct")
  }

  function Named(e: Egress): set<string> {
    set u | u in e.nodes + e.resourceNodes && u != ""
  }

  /** The affinities whose clearance a reload to this configuration keeps. */
  function Kept(e: Egress): set<string> {
    if Named(e) == {} then {"direct"} else Named(e)
  }

  /** A reload keeps the clearance of every configured address that is not blank, and without any that of
      direct requests. */
  lemma KeptMeans(c: Config, a: string)
    ensures var configured := match c.mode
        case Direct => [] case SingleProxy => [c.baseUrl, c.resourceUrl] case ProxyPool => c.basePool + c.resourcePool;
      a in Kept(Built(c)) <==>
        (a != "" && a in configured) || (a == "direct" && forall u :: u in configured ==> u == "")
  {
    var e := Built(c);
    var configured := match c.mode
      case Direct => [] case SingleProxy => [c.baseUrl, c.resourceUrl] case ProxyPool => c.basePool + c.resourcePool;
    assert forall u :: u != "" ==> (u in configured <==> u in e.nodes + e.resourceNodes);
    assert Named(e) == {} <==> forall u :: u in configured ==> u == "" by {
      if u :| u in configured && u != "" {
        assert u in Named(e);
      }
    }
  }

  /** Whether a lease's clearance survives reloads of its own configuration: an address must not be blank,
      and a lease without one is safe only when no address is named, or one is named "direct". */
  lemma KeptIff(c: Config, cursor: nat, resource: bool)
    ensures var e := Built(c).(cursor := cursor);
      var url := Pick(e, resource);
      Affinity(url) in Kept(e) <==> if url.Some? then url.value != "" else Named(e) == {} || "direct" in Named(e)
  {
    var e := Built(c).(cursor := cursor);
    var url := Pick(e, resource);
    if url.Some? {
      assert url.value in Nodes(e, resource) && url.value in e.nodes + e.resourceNodes;
    }
  }

  /** With a resource proxy alone, other requests go out directly, under an affinity no reload keeps. */
  lemma ResourceProxyAloneLosesDirect(url: string)
    requires url != "" && url != "direct"
    ensures var e := Built(Config(SingleProxy, "", url, [], []));
      Pick(e, false) == None && Affinity(Pick(e, false)) !in Kept(e)
  {
    var e := Built(Config(SingleProxy, "", url, [], []));
    assert e.nodes + e.resourceNodes == [url] && url in Named(e);
  }

  lemma NextMultiple(a: nat, b: nat, n: nat)
    requires a < b
    ensures a * n + n <= b * n
  {
    assert b * n == a * n + (b - a - 1) * n + n;
  }

  /** The remainder is the one number below the divisor that fits. */
  lemma RemainderIs(x: nat, n: nat, q: nat, r: nat)
    requires r < n && x == q * n + r
    ensures x % n == r
  {
    var q', r' := x / n, x % n;
    assert x == q' * n + r';
    if q' > q {
      NextMultiple(q, q', n);
    } else if q' < q {
      NextMultiple(q', q, n);
    }
  }

  lemma TurnsTo(cursor: nat, n: nat, i: nat) returns (turns: nat)
    requires i < n
    ensures turns < n && (cursor + turns) % n == i && (cursor + n) % n == cursor % n
  {
    var q, r := cursor / n, cursor % n;
    assert cursor == q * n + r && (q + 1) * n == q * n + n;
    turns := if r <= i then i - r else i + n - r;
    RemainderIs(cursor + turns, n, if r <= i then q else q + 1, i);
    RemainderIs(cursor + n, n, q + 1, r);
  }

  /** The pool goes round: from any cursor, fewer rotations than there are addresses reach each of them, and
      as many as there are come back to the first. */
  lemma PoolGoesRound(e: Egress, resource: bool, i: nat) returns (turns: nat)
    requires e.mode == ProxyPool && i < |Nodes(e, resource)|
    ensures turns < |Nodes(e, resource)|
    ensures Pick(e.(cursor := e.cursor + turns), resource) == Some(Nodes(e, resource)[i])
    ensures Pick(e.(cursor := e.cursor + |Nodes(e, resource)|), resource) == Pick(e, resource)
  {
    turns := TurnsTo(e.cursor, |Nodes(e, resource)|, i);
  }
}
