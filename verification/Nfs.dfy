/**
 * The NFS host allocator (src/ceph_nfs.py): up to three hosts per NFS cluster, at most one cluster
 * per host, greedily filled on every reconcile and refilled when a relation departs.
 */
module Nfs {
  import opened Ordering

  /** A record of the daemon's service list; only NFS records carry a group id. */
  datatype Service = NfsService(host: string, cluster: string) | OtherService(name: string, host: string)

  datatype PeerData = PeerData(nfsAddress: string, publicAddress: string)

  /** What one `microceph enable nfs` does: LostReply raises although the host was enabled. */
  datatype Outcome = Enabled | Failed | LostReply

  /**
   * The environment while one relation is serviced: peer databags by hostname, how each enable ends,
   * and whether the manager module and orchestrator backend can be set.
   */
  datatype Env = Env(peers: map<string, PeerData>, outcomes: map<string, Outcome>, managerOk: bool)
  {
    /** `_get_nfs_bind_address`: the NFS binding's address, else the public one, else "". */
    function BindAddress(host: string): string {
      if host !in peers then ""
      else if peers[host].nfsAddress != "" then peers[host].nfsAddress
      else peers[host].publicAddress
    }

    function OutcomeOf(host: string): Outcome {
      if host in outcomes then outcomes[host] else Enabled
    }

    predicate NoLoss() {
      forall h <- outcomes :: outcomes[h] != LostReply
    }

    /** Every one of these hosts has an address and can be enabled, and the manager calls succeed. */
    predicate Perfect(hosts: set<string>) {
      managerOk && forall h <- hosts :: BindAddress(h) != "" && OutcomeOf(h) == Enabled
    }
  }

  function Hosts(services: set<Service>): set<string> {
    set s <- services :: s.host
  }

  function NfsHosts(services: set<Service>): set<string> {
    set s <- services | s.NfsService? :: s.host
  }

  function ClusterHosts(services: set<Service>, cluster: string): set<string> {
    set s <- services | s.NfsService? && s.cluster == cluster :: s.host
  }

  /** The hosts no NFS cluster uses. */
  function Free(services: set<Service>): set<string> {
    Hosts(services) - NfsHosts(services)
  }

  const TARGET := 3

  /** A host has a bind address exactly when its peer data has either one; the NFS binding's wins. */
  lemma BindAddressMeans(env: Env, host: string)
    ensures env.BindAddress(host) != ""
            <==> host in env.peers && (env.peers[host].nfsAddress != "" || env.peers[host].publicAddress != "")
    ensures host in env.peers && env.peers[host].nfsAddress != "" ==> env.BindAddress(host) == env.peers[host].nfsAddress
    ensures host in env.peers && env.peers[host].nfsAddress == "" ==> env.BindAddress(host) == env.peers[host].publicAddress
  {
  }

  // ---- the loop of one call ----

  /** The free hosts with an address whose enable ends this way. */
  function Usable(services: set<Service>, env: Env, outcome: Outcome): set<string> {
    set h <- Free(services) | env.BindAddress(h) != "" && env.OutcomeOf(h) == outcome
  }

  /** The candidates tried in this order, from a service list and a count of nodes to the ones at the end. */
  function Fill(now: set<Service>, nodes: nat, cluster: string, env: Env, order: seq<string>): (set<Service>, nat)
    decreases |order|
  {
    if order == [] || nodes >= TARGET then (now, nodes)
    else
      var host := order[0];
      if env.BindAddress(host) == "" || env.OutcomeOf(host) == Failed then Fill(now, nodes, cluster, env, order[1..])
      else
        var counted := if env.OutcomeOf(host) == Enabled then nodes + 1 else nodes;
        Fill(now + {NfsService(host, cluster)}, counted, cluster, env, order[1..])
  }

  /** The service list and the result of `_ensure_nfs_cluster` when the candidates come in this order. */
  function Ensure(pre: set<Service>, cluster: string, env: Env, order: seq<string>): (set<Service>, bool) {
    var end := Fill(pre, |ClusterHosts(pre, cluster)|, cluster, env, order);
    (end.0, end.1 != 0)
  }

  /** The order names each of these hosts once. */
  predicate Lists(order: seq<string>, hosts: set<string>) {
    Distinct(order) && (forall h <- order :: h in hosts) && (forall h <- hosts :: h in order)
  }

  // ---- what one call may do ----

  function Added(pre: set<Service>, post: set<Service>, cluster: string): set<string> {
    ClusterHosts(post, cluster) - ClusterHosts(pre, cluster)
  }

  function WithOutcome(hosts: set<string>, env: Env, outcome: Outcome): set<string> {
    set h <- hosts | env.OutcomeOf(h) == outcome
  }

  /** Hosts enabled by the step from pre to post whose call also reported success. */
  function Counted(pre: set<Service>, post: set<Service>, cluster: string, env: Env): set<string> {
    WithOutcome(Added(pre, post, cluster), env, Enabled)
  }

  /** Hosts enabled by the step whose call raised all the same. */
  function Lost(pre: set<Service>, post: set<Service>, cluster: string, env: Env): set<string> {
    WithOutcome(Added(pre, post, cluster), env, LostReply)
  }

  /** What one `_ensure_nfs_cluster` may do, whatever order it tries the free hosts in. */
  ghost predicate EnsureOutcome(pre: set<Service>, post: set<Service>, cluster: string, env: Env, ok: bool) {
    var nodes := |ClusterHosts(pre, cluster)| + |Counted(pre, post, cluster, env)|;
    && pre <= post
    && (forall s <- post | s !in pre ::
          s == NfsService(s.host, cluster) && s.host in Free(pre)
          && env.BindAddress(s.host) != "" && env.OutcomeOf(s.host) != Failed)
    && (ok <==> nodes > 0)
    && (|ClusterHosts(pre, cluster)| >= TARGET ==> post == pre)
    && (|ClusterHosts(pre, cluster)| < TARGET ==>
          nodes <= TARGET
          && (nodes == TARGET
              || forall h <- Free(pre) | env.BindAddress(h) != "" && env.OutcomeOf(h) != Failed :: NfsService(h, cluster) in post))
  }

  /** Disabling takes away NFS records of one cluster only. */
  ghost predicate DisableOutcome(pre: set<Service>, post: set<Service>, cluster: string) {
    post <= pre && forall s <- pre | s !in post :: s.NfsService? && s.cluster == cluster
  }

  /** Hosts join and leave, and other services come and go, outside the charm's control. */
  ghost predicate EnvironmentOutcome(pre: set<Service>, post: set<Service>) {
    forall s <- post | s !in pre :: s.OtherService?
  }

  /**
   * Known before the call: it cannot push the cluster over the limit, because the cluster is full, or
   * no usable host would lose its reply, or all usable hosts together fit.
   */
  predicate StaysWithin(pre: set<Service>, cluster: string, env: Env) {
    || |ClusterHosts(pre, cluster)| == TARGET
    || Usable(pre, env, LostReply) == {}
    || |ClusterHosts(pre, cluster)| + |Usable(pre, env, LostReply)| + |Usable(pre, env, Enabled)| <= TARGET
  }

  /** Known before the call: its result cannot contradict the cluster it leaves. */
  predicate ReportsTruly(pre: set<Service>, cluster: string, env: Env) {
    ClusterHosts(pre, cluster) != {} || Usable(pre, env, LostReply) == {} || Usable(pre, env, Enabled) != {}
  }

  ghost predicate EnsureStep(pre: set<Service>, post: set<Service>, risky: bool) {
    exists cluster, env: Env, ok :: EnsureOutcome(pre, post, cluster, env, ok) && (risky || StaysWithin(pre, cluster, env))
  }

  ghost predicate Step(pre: set<Service>, post: set<Service>, risky: bool) {
    || EnsureStep(pre, post, risky)
    || (exists cluster :: DisableOutcome(pre, post, cluster))
    || EnvironmentOutcome(pre, post)
  }

  ghost predicate ValidRun(states: seq<set<Service>>, risky: bool) {
    states != [] && forall i | 0 < i < |states| :: Step(states[i - 1], states[i], risky)
  }

  // ---- invariants ----

  ghost predicate Exclusive(services: set<Service>) {
    forall s <- services, t <- services | s.NfsService? && t.NfsService? && s.host == t.host :: s.cluster == t.cluster
  }

  ghost predicate AtMostThree(services: set<Service>) {
    forall cluster :: |ClusterHosts(services, cluster)| <= 3
  }

  lemma SubsetSize(a: set<string>, b: set<string>)
    requires a <= b
    ensures |a| <= |b|
  {
    assert b == a + (b - a);
  }

  lemma OutcomeSizes(before: set<string>, after: set<string>, env: Env)
    requires before <= after && forall h <- after - before :: env.OutcomeOf(h) != Failed
    ensures |after| == |before| + |WithOutcome(after - before, env, Enabled)| + |WithOutcome(after - before, env, LostReply)|
  {
    var counted, lost := WithOutcome(after - before, env, Enabled), WithOutcome(after - before, env, LostReply);
    assert after - before == counted + lost;
    assert after == before + (after - before);
  }

  lemma AddedWereTried(pre: set<Service>, post: set<Service>, cluster: string, env: Env, ok: bool, h: string)
    requires EnsureOutcome(pre, post, cluster, env, ok) && h in Added(pre, post, cluster)
    ensures h in Free(pre) && env.BindAddress(h) != "" && env.OutcomeOf(h) != Failed
  {
    assert NfsService(h, cluster) in post;
  }

  /** The size after the call is what it counted plus the hosts whose reply was lost. */
  lemma EnsureSize(pre: set<Service>, post: set<Service>, cluster: string, env: Env, ok: bool)
    requires EnsureOutcome(pre, post, cluster, env, ok)
    ensures |ClusterHosts(post, cluster)|
            == |ClusterHosts(pre, cluster)| + |Counted(pre, post, cluster, env)| + |Lost(pre, post, cluster, env)|
    ensures env.NoLoss() ==> Lost(pre, post, cluster, env) == {}
  {
    forall h <- Added(pre, post, cluster) ensures env.OutcomeOf(h) != Failed { AddedWereTried(pre, post, cluster, env, ok, h); }
    OutcomeSizes(ClusterHosts(pre, cluster), ClusterHosts(post, cluster), env);
  }

  // ---- the loop reaches exactly these outcomes ----

  /** While the loop runs: only free hosts already tried were enabled, and all that could be were. */
  ghost predicate Filling(pre: set<Service>, now: set<Service>, cluster: string, env: Env, untried: set<string>) {
    && pre <= now && untried <= Free(pre)
    && (forall s <- now | s !in pre ::
          s == NfsService(s.host, cluster) && s.host in Free(pre) - untried
          && env.BindAddress(s.host) != "" && env.OutcomeOf(s.host) != Failed)
    && (forall h <- Free(pre) - untried | env.BindAddress(h) != "" && env.OutcomeOf(h) != Failed :: NfsService(h, cluster) in now)
  }

  lemma FillOneCounts(pre: set<Service>, now: set<Service>, cluster: string, env: Env, host: string)
    requires host !in ClusterHosts(pre, cluster) && host !in ClusterHosts(now, cluster)
    ensures |Counted(pre, now + {NfsService(host, cluster)}, cluster, env)|
            == |Counted(pre, now, cluster, env)| + if env.OutcomeOf(host) == Enabled then 1 else 0
  {
    var next := now + {NfsService(host, cluster)};
    assert ClusterHosts(next, cluster) == ClusterHosts(now, cluster) + {host};
    if env.OutcomeOf(host) == Enabled {
      assert Counted(pre, next, cluster, env) == Counted(pre, now, cluster, env) + {host};
    } else {
      assert Counted(pre, next, cluster, env) == Counted(pre, now, cluster, env);
    }
  }

  lemma UntriedIsOutside(pre: set<Service>, now: set<Service>, cluster: string, env: Env, untried: set<string>, host: string)
    requires Filling(pre, now, cluster, env, untried) && host in untried
    ensures host !in ClusterHosts(pre, cluster) && host !in ClusterHosts(now, cluster)
  {
    assert host in Free(pre) && ClusterHosts(pre, cluster) <= NfsHosts(pre);
  }

  lemma ListsRest(order: seq<string>, hosts: set<string>)
    requires Lists(order, hosts) && order != []
    ensures order[0] in hosts && Lists(order[1..], hosts - {order[0]})
  {
    assert order == [order[0]] + order[1..];
  }

  lemma {:induction false} FillIsAllowed(pre: set<Service>, now: set<Service>, nodes: nat, cluster: string, env: Env,
                                         order: seq<string>, untried: set<string>)
    requires Filling(pre, now, cluster, env, untried) && Lists(order, untried) && |ClusterHosts(pre, cluster)| < TARGET
    requires nodes == |ClusterHosts(pre, cluster)| + |Counted(pre, now, cluster, env)| <= TARGET
    ensures var end := Fill(now, nodes, cluster, env, order); EnsureOutcome(pre, end.0, cluster, env, end.1 != 0)
    decreases |order|
  {
    if order != [] && nodes < TARGET {
      var host := order[0];
      ListsRest(order, untried);
      if env.BindAddress(host) == "" || env.OutcomeOf(host) == Failed {
        FillIsAllowed(pre, now, nodes, cluster, env, order[1..], untried - {host});
      } else {
        UntriedIsOutside(pre, now, cluster, env, untried, host);
        FillOneCounts(pre, now, cluster, env, host);
        var counted := if env.OutcomeOf(host) == Enabled then nodes + 1 else nodes;
        FillIsAllowed(pre, now + {NfsService(host, cluster)}, counted, cluster, env, order[1..], untried - {host});
      }
    }
  }

  lemma EnsureIsAllowed(pre: set<Service>, cluster: string, env: Env, order: seq<string>)
    requires Lists(order, Free(pre))
    ensures var end := Ensure(pre, cluster, env, order); EnsureOutcome(pre, end.0, cluster, env, end.1)
  {
    assert Added(pre, pre, cluster) == {};
    assert Counted(pre, pre, cluster, env) == {};
    if |ClusterHosts(pre, cluster)| < TARGET {
      FillIsAllowed(pre, pre, |ClusterHosts(pre, cluster)|, cluster, env, order, Free(pre));
    }
  }

  lemma NothingListed(order: seq<string>)
    requires Lists(order, {})
    ensures order == []
  {
    if order != [] {
      ListsRest(order, {});
    }
  }

  function AllNfs(hosts: set<string>, cluster: string): set<Service> {
    set h <- hosts :: NfsService(h, cluster)
  }

  lemma AllNfsUnion(pre: set<Service>, a: set<string>, b: set<string>, cluster: string)
    ensures pre + AllNfs(a, cluster) + AllNfs(b, cluster) == pre + AllNfs(a + b, cluster)
  {
  }

  lemma AllNfsStep(now: set<Service>, hosts: set<string>, host: string, cluster: string)
    requires host in hosts
    ensures now + {NfsService(host, cluster)} + AllNfs(hosts - {host}, cluster) == now + AllNfs(hosts, cluster)
    ensures hosts - {host} == {} ==> now + {NfsService(host, cluster)} == now + AllNfs(hosts, cluster)
    ensures |hosts| == |hosts - {host}| + 1
  {
  }

  /** A stretch of usable hosts that does not fill the cluster before its last one is enabled whole. */
  lemma {:induction false} FillStretch(now: set<Service>, nodes: nat, cluster: string, env: Env, stretch: seq<string>,
                                       rest: seq<string>, hosts: set<string>, outcome: Outcome)
    requires Lists(stretch, hosts) && outcome != Failed && nodes < TARGET
    requires forall h <- hosts :: env.BindAddress(h) != "" && env.OutcomeOf(h) == outcome
    requires outcome == Enabled ==> nodes + |hosts| <= TARGET
    ensures Fill(now, nodes, cluster, env, stretch + rest)
            == Fill(now + AllNfs(hosts, cluster), if outcome == Enabled then nodes + |hosts| else nodes, cluster, env, rest)
    decreases |stretch|
  {
    if stretch == [] {
      assert hosts == {} && stretch + rest == rest;
      assert now + AllNfs(hosts, cluster) == now;
    } else {
      var host, others := stretch[0], hosts - {stretch[0]};
      ListsRest(stretch, hosts);
      assert (stretch + rest)[1..] == stretch[1..] + rest;
      var next := now + {NfsService(host, cluster)};
      AllNfsStep(now, hosts, host, cluster);
      var counted := if outcome == Enabled then nodes + 1 else nodes;
      if counted < TARGET {
        FillStretch(next, counted, cluster, env, stretch[1..], rest, others, outcome);
      } else {
        assert others == {};
        NothingListed(stretch[1..]);
        assert stretch[1..] + rest == rest;
      }
    }
  }

  /** Hosts that cannot be enabled, or come after the cluster is full, change nothing. */
  lemma {:induction false} FillUnusable(now: set<Service>, nodes: nat, cluster: string, env: Env, order: seq<string>)
    requires nodes >= TARGET || forall h <- order :: env.BindAddress(h) == "" || env.OutcomeOf(h) == Failed
    ensures Fill(now, nodes, cluster, env, order) == (now, nodes)
  {
    if order != [] && nodes < TARGET {
      assert order[0] in order && forall h <- order[1..] :: h in order;
      FillUnusable(now, nodes, cluster, env, order[1..]);
    }
  }

  lemma ListsConcat(a: seq<string>, x: set<string>, b: seq<string>, y: set<string>)
    requires Lists(a, x) && Lists(b, y) && x !! y
    ensures Lists(a + b, x + y)
  {
    forall h ensures h in a + b <==> h in x + y {
      assert h in a + b <==> h in a || h in b;
    }
    forall i, j | 0 <= i < j < |a + b| ensures (a + b)[i] != (a + b)[j] {
      if i < |a| <= j {
        assert a[i] in x && b[j - |a|] in y;
      }
    }
  }

  lemma SortedSetLists(hosts: set<string>)
    ensures Lists(SortedSet(hosts), hosts)
  {
    SortedSetOrdered(hosts);
  }

  /** A free host with an address whose enable does not simply fail. */
  predicate CanEnable(pre: set<Service>, env: Env, h: string) {
    h in Free(pre) && env.BindAddress(h) != "" && env.OutcomeOf(h) != Failed
  }

  /** The lost hosts, then the counted ones, then all the others. */
  function LostFirst(lost: set<string>, counted: set<string>, others: set<string>): seq<string> {
    SortedSet(lost) + (SortedSet(counted) + SortedSet(others))
  }

  lemma LostFirstLists(lost: set<string>, counted: set<string>, others: set<string>, all: set<string>)
    requires lost !! counted && (lost + counted) !! others && lost + counted + others == all
    ensures Lists(LostFirst(lost, counted, others), all)
  {
    SortedSetLists(lost);
    SortedSetLists(counted);
    SortedSetLists(others);
    ListsConcat(SortedSet(counted), counted, SortedSet(others), others);
    ListsConcat(SortedSet(lost), lost, SortedSet(counted) + SortedSet(others), counted + others);
    assert lost + (counted + others) == all;
  }

  lemma {:induction false} LostFirstLeadsTo(pre: set<Service>, own: nat, cluster: string, env: Env,
                                            lost: set<string>, counted: set<string>, others: set<string>)
    requires own < TARGET && own + |counted| <= TARGET
    requires forall h <- lost :: env.BindAddress(h) != "" && env.OutcomeOf(h) == LostReply
    requires forall h <- counted :: env.BindAddress(h) != "" && env.OutcomeOf(h) == Enabled
    requires own + |counted| == TARGET || forall h <- others :: env.BindAddress(h) == "" || env.OutcomeOf(h) == Failed
    ensures Fill(pre, own, cluster, env, LostFirst(lost, counted, others))
            == (pre + AllNfs(lost + counted, cluster), own + |counted|)
  {
    var second, rest := SortedSet(counted), SortedSet(others);
    SortedSetLists(lost);
    SortedSetLists(counted);
    FillStretch(pre, own, cluster, env, SortedSet(lost), second + rest, lost, LostReply);
    FillStretch(pre + AllNfs(lost, cluster), own, cluster, env, second, rest, counted, Enabled);
    FillUnusable(pre + AllNfs(lost, cluster) + AllNfs(counted, cluster), own + |counted|, cluster, env, rest);
    AllNfsUnion(pre, lost, counted, cluster);
  }

  lemma AddedCanBeEnabled(pre: set<Service>, post: set<Service>, cluster: string, env: Env, ok: bool)
    requires EnsureOutcome(pre, post, cluster, env, ok)
    ensures forall h <- Added(pre, post, cluster) :: CanEnable(pre, env, h)
  {
    forall h <- Added(pre, post, cluster) ensures CanEnable(pre, env, h) {
      AddedWereTried(pre, post, cluster, env, ok, h);
    }
  }

  lemma OutcomeIsNew(pre: set<Service>, post: set<Service>, cluster: string, env: Env, ok: bool)
    requires EnsureOutcome(pre, post, cluster, env, ok)
    ensures post == pre + AllNfs(Added(pre, post, cluster), cluster)
  {
    var added := Added(pre, post, cluster);
    forall s <- post | s !in pre ensures s in AllNfs(added, cluster) {
      assert s.host in Free(pre) && s.host in ClusterHosts(post, cluster);
      assert s.host !in ClusterHosts(pre, cluster);
    }
    forall s <- AllNfs(added, cluster) ensures s in post {
      var t :| t in post && t.NfsService? && t.cluster == cluster && t.host == s.host;
    }
  }

  lemma AddedSplits(pre: set<Service>, post: set<Service>, cluster: string, env: Env)
    requires forall h <- Added(pre, post, cluster) :: CanEnable(pre, env, h)
    ensures Added(pre, post, cluster) == Lost(pre, post, cluster, env) + Counted(pre, post, cluster, env)
    ensures Lost(pre, post, cluster, env) <= Usable(pre, env, LostReply)
    ensures Counted(pre, post, cluster, env) <= Usable(pre, env, Enabled)
  {
  }

  lemma OthersAreUnusable(pre: set<Service>, post: set<Service>, cluster: string, env: Env, ok: bool)
    requires EnsureOutcome(pre, post, cluster, env, ok)
    requires |ClusterHosts(pre, cluster)| + |Counted(pre, post, cluster, env)| < TARGET
    ensures forall h <- Free(pre) - Added(pre, post, cluster) :: env.BindAddress(h) == "" || env.OutcomeOf(h) == Failed
  {
    forall h <- Free(pre) | CanEnable(pre, env, h) ensures h in Added(pre, post, cluster) {
      assert NfsService(h, cluster) in post;
      assert h in ClusterHosts(post, cluster) && h !in ClusterHosts(pre, cluster);
    }
  }

  /** Lost, counted and other hosts, each once, in an order that leads to exactly the first two being enabled. */
  lemma OrderOfParts(pre: set<Service>, own: nat, cluster: string, env: Env, free: set<string>,
                     lost: set<string>, counted: set<string>) returns (order: seq<string>)
    requires lost !! counted && lost + counted <= free && own < TARGET && own + |counted| <= TARGET
    requires forall h <- lost :: env.BindAddress(h) != "" && env.OutcomeOf(h) == LostReply
    requires forall h <- counted :: env.BindAddress(h) != "" && env.OutcomeOf(h) == Enabled
    requires own + |counted| == TARGET
             || forall h <- free - (lost + counted) :: env.BindAddress(h) == "" || env.OutcomeOf(h) == Failed
    ensures Lists(order, free)
    ensures Fill(pre, own, cluster, env, order) == (pre + AllNfs(lost + counted, cluster), own + |counted|)
  {
    var others := free - (lost + counted);
    order := LostFirst(lost, counted, others);
    LostFirstLists(lost, counted, others, free);
    LostFirstLeadsTo(pre, own, cluster, env, lost, counted, others);
  }

  lemma PartsAreEnough(pre: set<Service>, post: set<Service>, cluster: string, env: Env, ok: bool)
    requires EnsureOutcome(pre, post, cluster, env, ok)
    ensures var lost, counted := Lost(pre, post, cluster, env), Counted(pre, post, cluster, env);
      && lost !! counted && lost + counted <= Free(pre) && post == pre + AllNfs(lost + counted, cluster)
      && (forall h <- lost :: env.BindAddress(h) != "" && env.OutcomeOf(h) == LostReply)
      && (forall h <- counted :: env.BindAddress(h) != "" && env.OutcomeOf(h) == Enabled)
      && (|ClusterHosts(pre, cluster)| + |counted| < TARGET ==>
            forall h <- Free(pre) - (lost + counted) :: env.BindAddress(h) == "" || env.OutcomeOf(h) == Failed)
  {
    AddedCanBeEnabled(pre, post, cluster, env, ok);
    AddedSplits(pre, post, cluster, env);
    OutcomeIsNew(pre, post, cluster, env, ok);
    if |ClusterHosts(pre, cluster)| + |Counted(pre, post, cluster, env)| < TARGET {
      OthersAreUnusable(pre, post, cluster, env, ok);
    }
  }

  lemma OrderLeadsThere(pre: set<Service>, post: set<Service>, cluster: string, env: Env, ok: bool) returns (order: seq<string>)
    requires EnsureOutcome(pre, post, cluster, env, ok) && |ClusterHosts(pre, cluster)| < TARGET
    ensures Lists(order, Free(pre)) && Ensure(pre, cluster, env, order) == (post, ok)
  {
    var lost, counted := Lost(pre, post, cluster, env), Counted(pre, post, cluster, env);
    var own := |ClusterHosts(pre, cluster)|;
    PartsAreEnough(pre, post, cluster, env, ok);
    assert own + |counted| <= TARGET && (ok <==> own + |counted| > 0);
    order := OrderOfParts(pre, own, cluster, env, Free(pre), lost, counted);
  }

  /** The outcomes allowed above are exactly those the loop reaches over some order of the candidates. */
  lemma LoopReachesExactly(pre: set<Service>, post: set<Service>, cluster: string, env: Env, ok: bool)
    ensures EnsureOutcome(pre, post, cluster, env, ok)
            <==> exists order :: Lists(order, Free(pre)) && Ensure(pre, cluster, env, order) == (post, ok)
  {
    if EnsureOutcome(pre, post, cluster, env, ok) {
      if |ClusterHosts(pre, cluster)| < TARGET {
        var order := OrderLeadsThere(pre, post, cluster, env, ok);
      } else {
        var order := SortedSet(Free(pre));
        SortedSetLists(Free(pre));
        assert Ensure(pre, cluster, env, order) == (pre, true);
      }
    }
    forall order | Lists(order, Free(pre)) && Ensure(pre, cluster, env, order) == (post, ok)
      ensures EnsureOutcome(pre, post, cluster, env, ok)
    {
      EnsureIsAllowed(pre, cluster, env, order);
    }
  }

  // ---- exactly when the limit and the result hold ----

  lemma UsableBounds(pre: set<Service>, post: set<Service>, cluster: string, env: Env, ok: bool)
    requires EnsureOutcome(pre, post, cluster, env, ok)
    ensures |Lost(pre, post, cluster, env)| <= |Usable(pre, env, LostReply)|
    ensures |Counted(pre, post, cluster, env)| <= |Usable(pre, env, Enabled)|
  {
    AddedCanBeEnabled(pre, post, cluster, env, ok);
    AddedSplits(pre, post, cluster, env);
    SubsetSize(Lost(pre, post, cluster, env), Usable(pre, env, LostReply));
    SubsetSize(Counted(pre, post, cluster, env), Usable(pre, env, Enabled));
  }

  lemma LimitKept(pre: set<Service>, post: set<Service>, cluster: string, env: Env, ok: bool)
    requires EnsureOutcome(pre, post, cluster, env, ok) && StaysWithin(pre, cluster, env)
    requires |ClusterHosts(pre, cluster)| <= TARGET
    ensures |ClusterHosts(post, cluster)| <= TARGET
  {
    EnsureSize(pre, post, cluster, env, ok);
    UsableBounds(pre, post, cluster, env, ok);
  }

  lemma {:induction false} PickSome(s: set<string>, k: nat) returns (r: set<string>)
    requires k <= |s|
    ensures r <= s && |r| == k
    decreases |s|
  {
    if k == |s| {
      r := s;
    } else {
      var x :| x in s;
      r := PickSome(s - {x}, k);
    }
  }

  /** The hosts that lose their reply tried first: as many of the others follow as the loop still counts. */
  lemma WorstOrder(pre: set<Service>, cluster: string, env: Env) returns (order: seq<string>)
    requires |ClusterHosts(pre, cluster)| < TARGET && !StaysWithin(pre, cluster, env)
    ensures Lists(order, Free(pre)) && |ClusterHosts(Ensure(pre, cluster, env, order).0, cluster)| > TARGET
  {
    var own, lost, enabled := |ClusterHosts(pre, cluster)|, Usable(pre, env, LostReply), Usable(pre, env, Enabled);
    var counted := PickSome(enabled, if own + |enabled| <= TARGET then |enabled| else TARGET - own);
    UsableApart(pre, env, lost, counted);
    order := OrderOfParts(pre, own, cluster, env, Free(pre), lost, counted);
    FreeAreOutside(pre, cluster, lost + counted);
    AllNfsAdds(pre, lost + counted, cluster);
  }

  lemma UsableApart(pre: set<Service>, env: Env, lost: set<string>, counted: set<string>)
    requires lost == Usable(pre, env, LostReply) && counted <= Usable(pre, env, Enabled)
    ensures lost !! counted && lost + counted <= Free(pre) && |lost + counted| == |lost| + |counted|
    ensures lost != {} ==> |lost| > 0
    ensures |counted| == |Usable(pre, env, Enabled)| ==>
              forall h <- Free(pre) - (lost + counted) :: env.BindAddress(h) == "" || env.OutcomeOf(h) == Failed
  {
    if |counted| == |Usable(pre, env, Enabled)| { SameSize(counted, Usable(pre, env, Enabled)); }
  }

  lemma FreeAreOutside(pre: set<Service>, cluster: string, hosts: set<string>)
    requires hosts <= Free(pre)
    ensures hosts !! ClusterHosts(pre, cluster)
  {
    assert ClusterHosts(pre, cluster) <= NfsHosts(pre);
  }

  lemma AllNfsAdds(pre: set<Service>, hosts: set<string>, cluster: string)
    requires hosts !! ClusterHosts(pre, cluster)
    ensures ClusterHosts(pre + AllNfs(hosts, cluster), cluster) == ClusterHosts(pre, cluster) + hosts
    ensures |ClusterHosts(pre + AllNfs(hosts, cluster), cluster)| == |ClusterHosts(pre, cluster)| + |hosts|
  {
    var post := pre + AllNfs(hosts, cluster);
    forall h <- hosts ensures h in ClusterHosts(post, cluster) {
      assert NfsService(h, cluster) in post;
    }
    assert ClusterHosts(post, cluster) == ClusterHosts(pre, cluster) + hosts;
  }

  lemma SameSize(a: set<string>, b: set<string>)
    requires a <= b && |a| == |b|
    ensures a == b
  {
    assert b == a + (b - a);
  }

  ghost predicate AlwaysWithin(pre: set<Service>, cluster: string, env: Env) {
    forall order | Lists(order, Free(pre)) :: |ClusterHosts(Ensure(pre, cluster, env, order).0, cluster)| <= TARGET
  }

  /** The limit of three hosts is kept, whatever order the hosts are tried in, if and only if StaysWithin. */
  lemma LimitKeptIff(pre: set<Service>, cluster: string, env: Env)
    requires |ClusterHosts(pre, cluster)| <= TARGET
    ensures AlwaysWithin(pre, cluster, env) <==> StaysWithin(pre, cluster, env)
  {
    if StaysWithin(pre, cluster, env) {
      forall order | Lists(order, Free(pre)) ensures |ClusterHosts(Ensure(pre, cluster, env, order).0, cluster)| <= TARGET {
        EnsureIsAllowed(pre, cluster, env, order);
        var end := Ensure(pre, cluster, env, order);
        LimitKept(pre, end.0, cluster, env, end.1);
      }
    } else {
      var order := WorstOrder(pre, cluster, env);
    }
  }

  ghost predicate AlwaysTrue(pre: set<Service>, cluster: string, env: Env) {
    forall order | Lists(order, Free(pre)) ::
      var end := Ensure(pre, cluster, env, order); end.1 <==> ClusterHosts(end.0, cluster) != {}
  }

  lemma ResultIsTrue(pre: set<Service>, post: set<Service>, cluster: string, env: Env, ok: bool)
    requires EnsureOutcome(pre, post, cluster, env, ok)
    ensures ReportsTruly(pre, cluster, env) ==> (ok <==> ClusterHosts(post, cluster) != {})
    ensures !ReportsTruly(pre, cluster, env) ==> !ok && ClusterHosts(post, cluster) != {}
  {
    EnsureSize(pre, post, cluster, env, ok);
    UsableBounds(pre, post, cluster, env, ok);
    assert ClusterHosts(pre, cluster) <= NfsHosts(pre);
    if h :| h in Usable(pre, env, Enabled) && NfsService(h, cluster) in post {
      assert h in Counted(pre, post, cluster, env);
    }
    if h :| h in Usable(pre, env, LostReply) && NfsService(h, cluster) in post {
      assert h in ClusterHosts(post, cluster);
    }
  }

  /**
   * `_ensure_nfs_cluster` returns True exactly when the cluster then has a host, whatever order the
   * hosts are tried in, if and only if ReportsTruly.
   */
  lemma EnsureReturns(pre: set<Service>, cluster: string, env: Env)
    ensures AlwaysTrue(pre, cluster, env) <==> ReportsTruly(pre, cluster, env)
  {
    forall order | Lists(order, Free(pre))
      ensures var end := Ensure(pre, cluster, env, order);
        (end.1 <==> ClusterHosts(end.0, cluster) != {}) <==> ReportsTruly(pre, cluster, env)
    {
      EnsureIsAllowed(pre, cluster, env, order);
      var end := Ensure(pre, cluster, env, order);
      ResultIsTrue(pre, end.0, cluster, env, end.1);
    }
    SortedSetLists(Free(pre));
  }

  lemma EnsureKeepsExclusive(pre: set<Service>, post: set<Service>, cluster: string, env: Env, ok: bool)
    requires EnsureOutcome(pre, post, cluster, env, ok) && Exclusive(pre)
    ensures Exclusive(post)
  {
    assert forall s <- pre | s.NfsService? :: s.host in NfsHosts(pre);
  }

  lemma EnsureKeepsAtMostThree(pre: set<Service>, post: set<Service>, cluster: string, env: Env, ok: bool)
    requires EnsureOutcome(pre, post, cluster, env, ok) && AtMostThree(pre) && StaysWithin(pre, cluster, env)
    ensures AtMostThree(post)
  {
    assert |ClusterHosts(pre, cluster)| <= TARGET;
    LimitKept(pre, post, cluster, env, ok);
    forall c ensures |ClusterHosts(post, c)| <= TARGET {
      assert |ClusterHosts(pre, c)| <= TARGET;
      if c != cluster {
        assert ClusterHosts(post, c) == ClusterHosts(pre, c);
      }
    }
  }

  lemma RemovalKeepsBoth(pre: set<Service>, post: set<Service>)
    requires forall s <- post | s.NfsService? :: s in pre
    ensures Exclusive(pre) ==> Exclusive(post)
    ensures AtMostThree(pre) ==> AtMostThree(post)
  {
    if AtMostThree(pre) {
      forall c ensures |ClusterHosts(post, c)| <= TARGET {
        assert |ClusterHosts(pre, c)| <= TARGET;
        SubsetSize(ClusterHosts(post, c), ClusterHosts(pre, c));
      }
    }
  }

  lemma StepKeepsBoth(pre: set<Service>, post: set<Service>, risky: bool)
    requires Step(pre, post, risky)
    ensures Exclusive(pre) ==> Exclusive(post)
    ensures AtMostThree(pre) && !risky ==> AtMostThree(post)
  {
    if EnsureStep(pre, post, risky) {
      var cluster, env: Env, ok :| EnsureOutcome(pre, post, cluster, env, ok) && (risky || StaysWithin(pre, cluster, env));
      if Exclusive(pre) { EnsureKeepsExclusive(pre, post, cluster, env, ok); }
      if AtMostThree(pre) && !risky { EnsureKeepsAtMostThree(pre, post, cluster, env, ok); }
    } else {
      RemovalKeepsBoth(pre, post);
    }
  }

  /**
   * Four free hosts, an empty cluster, and one enable that raises after the host was enabled: the loop
   * enables all four hosts when it tries that one first.
   */
  lemma LostReplyOvershoots(pre: set<Service>, order: seq<string>, cluster: string, env: Env)
    requires |order| == 4 && Lists(order, Free(pre)) && ClusterHosts(pre, cluster) == {}
    requires forall h <- order :: env.BindAddress(h) != ""
    requires env.OutcomeOf(order[0]) == LostReply && forall h <- order[1..] :: env.OutcomeOf(h) == Enabled
    ensures var end := Ensure(pre, cluster, env, order); end.1 && |ClusterHosts(end.0, cluster)| == 4
  {
    FillLostFirst(pre, cluster, env, order, Free(pre));
    FreeAreOutside(pre, cluster, Free(pre));
    AllNfsAdds(pre, Free(pre), cluster);
    ListsSize(order, Free(pre));
  }

  lemma FillLostFirst(now: set<Service>, cluster: string, env: Env, order: seq<string>, hosts: set<string>)
    requires |order| == 4 && Lists(order, hosts) && forall h <- order :: env.BindAddress(h) != ""
    requires env.OutcomeOf(order[0]) == LostReply && forall h <- order[1..] :: env.OutcomeOf(h) == Enabled
    ensures Fill(now, 0, cluster, env, order) == (now + AllNfs(hosts, cluster), TARGET)
  {
    var lost, rest := order[0], hosts - {order[0]};
    ListsRest(order, hosts);
    ListsSize(order[1..], rest);
    assert [lost] + order[1..] == order && {lost} + rest == hosts;
    FillLostThenRest(now, 0, cluster, env, lost, order[1..], rest);
  }

  lemma {:induction false} ListsSize(order: seq<string>, hosts: set<string>)
    requires Lists(order, hosts)
    ensures |hosts| == |order|
  {
    if order != [] {
      ListsRest(order, hosts);
      ListsSize(order[1..], hosts - {order[0]});
    } else {
      assert hosts == {};
    }
  }

  lemma FillLostThenRest(now: set<Service>, nodes: nat, cluster: string, env: Env, lost: string, b: seq<string>, after: set<string>)
    requires Lists(b, after) && after != {} && nodes + |after| == TARGET
    requires forall h <- after :: env.BindAddress(h) != "" && env.OutcomeOf(h) == Enabled
    requires env.BindAddress(lost) != "" && env.OutcomeOf(lost) == LostReply
    ensures Fill(now, nodes, cluster, env, [lost] + b) == (now + AllNfs({lost} + after, cluster), TARGET)
  {
    assert |after| > 0;
    FillStretch(now, nodes, cluster, env, [lost], b, {lost}, LostReply);
    FillStretch(now + AllNfs({lost}, cluster), nodes, cluster, env, b, [], after, Enabled);
    assert b + [] == b;
    AllNfsUnion(now, {lost}, after, cluster);
  }

  /** One free host whose reply is lost: the call returns False and leaves a cluster of one host. */
  lemma LostReplyMisreports(pre: set<Service>, host: string, cluster: string, env: Env)
    requires Free(pre) == {host} && ClusterHosts(pre, cluster) == {}
    requires env.OutcomeOf(host) == LostReply && env.BindAddress(host) != ""
    ensures Lists([host], Free(pre))
    ensures var end := Ensure(pre, cluster, env, [host]); !end.1 && |ClusterHosts(end.0, cluster)| == 1
  {
    FillStretch(pre, 0, cluster, env, [host], [], {host}, LostReply);
    assert [host] + [] == [host];
    AllNfsAdds(pre, {host}, cluster);
  }

  /** Such service lists exist: hosts that run monitors only. */
  lemma MonitorsOnly(hosts: set<string>, cluster: string)
    ensures var pre := set h <- hosts :: OtherService("mon", h); Free(pre) == hosts && ClusterHosts(pre, cluster) == {}
  {
    var pre := set h <- hosts :: OtherService("mon", h);
    assert forall h <- hosts :: OtherService("mon", h) in pre;
    assert Hosts(pre) == hosts && NfsHosts(pre) == {};
  }

  /**
   * Over every run, with any failures, missing addresses, departures and host changes, no host is in
   * two NFS clusters; and while no reply is lost no cluster exceeds three hosts.
   */
  lemma {:induction false} RunIsExclusive(states: seq<set<Service>>, risky: bool, i: nat)
    requires ValidRun(states, risky) && i < |states| && Exclusive(states[0])
    ensures Exclusive(states[i])
    ensures AtMostThree(states[0]) && !risky ==> AtMostThree(states[i])
  {
    if i > 0 {
      RunIsExclusive(states, risky, i - 1);
      StepKeepsBoth(states[i - 1], states[i], risky);
    }
  }
}
