/** The leader's handlers for the ceph-nfs relation, and how many hosts they put to use. */
module NfsHandler {
  import opened Ordering
  import opened Nfs

  // ---- counting hosts ----

  /** No free host is left, or each of these clusters is full. */
  ghost predicate Saturated(services: set<Service>, clusters: seq<string>) {
    Free(services) == {} || forall c <- clusters :: |ClusterHosts(services, c)| >= TARGET
  }

  ghost predicate OwnedBy(services: set<Service>, clusters: seq<string>) {
    forall s <- services | s.NfsService? :: s.cluster in clusters
  }

  function Min(a: int, b: int): int {
    if a <= b then a else b
  }

  function HostsOf(services: set<Service>, clusters: seq<string>): set<string> {
    set s <- services | s.NfsService? && s.cluster in clusters :: s.host
  }

  /** With exclusive hosts, full clusters use three hosts each and no clusters use more. */
  lemma {:induction false} HostsAddUp(services: set<Service>, clusters: seq<string>)
    requires Exclusive(services) && AtMostThree(services) && Distinct(clusters)
    ensures |HostsOf(services, clusters)| <= TARGET * |clusters|
    ensures (forall c <- clusters :: |ClusterHosts(services, c)| >= TARGET) ==>
              |HostsOf(services, clusters)| == TARGET * |clusters|
  {
    if clusters == [] {
      assert HostsOf(services, clusters) == {};
    } else {
      var c, rest := clusters[0], clusters[1..];
      HostsAddUp(services, rest);
      var own, others := ClusterHosts(services, c), HostsOf(services, rest);
      assert clusters == [c] + rest;
      assert forall i | 0 <= i < |rest| :: rest[i] == clusters[i + 1];
      FirstHosts(services, c, rest);
      assert |own + others| == |own| + |others|;
      assert |ClusterHosts(services, c)| <= TARGET;
    }
  }

  lemma FirstHosts(services: set<Service>, c: string, rest: seq<string>)
    requires Exclusive(services) && c !in rest
    ensures HostsOf(services, [c] + rest) == ClusterHosts(services, c) + HostsOf(services, rest)
    ensures ClusterHosts(services, c) !! HostsOf(services, rest)
  {
  }

  /** Conservation: a saturated allocation uses as many hosts as hosts and relations allow. */
  lemma SaturatedCount(services: set<Service>, clusters: seq<string>)
    requires Exclusive(services) && AtMostThree(services) && Distinct(clusters)
    requires OwnedBy(services, clusters) && Saturated(services, clusters)
    ensures |NfsHosts(services)| == Min(|Hosts(services)|, TARGET * |clusters|)
  {
    HostsAddUp(services, clusters);
    assert HostsOf(services, clusters) == NfsHosts(services);
    SubsetSize(NfsHosts(services), Hosts(services));
    if Free(services) == {} {
      assert forall h <- Hosts(services) | h !in NfsHosts(services) :: h in Free(services);
      assert NfsHosts(services) == Hosts(services);
    }
  }

  // ---- one call, seen from the count ----

  lemma EnsureFrame(pre: set<Service>, post: set<Service>, cluster: string, env: Env, ok: bool)
    requires EnsureOutcome(pre, post, cluster, env, ok)
    ensures pre <= post && Hosts(post) == Hosts(pre) && Free(post) <= Free(pre)
    ensures forall c :: ClusterHosts(pre, c) <= ClusterHosts(post, c)
    ensures forall clusters: seq<string> | cluster in clusters && OwnedBy(pre, clusters) :: OwnedBy(post, clusters)
  {
  }

  lemma PerfectEnsure(pre: set<Service>, post: set<Service>, cluster: string, env: Env, ok: bool)
    requires EnsureOutcome(pre, post, cluster, env, ok) && env.Perfect(Hosts(pre))
    ensures Free(post) == {} || |ClusterHosts(post, cluster)| >= TARGET
    ensures !ok ==> Free(post) == {}
    ensures AtMostThree(pre) ==> AtMostThree(post)
  {
    forall h <- Added(pre, post, cluster) ensures env.OutcomeOf(h) == Enabled {
      AddedWereTried(pre, post, cluster, env, ok, h);
    }
    assert Lost(pre, post, cluster, env) == {};
    EnsureSize(pre, post, cluster, env, ok);
    if |ClusterHosts(post, cluster)| < TARGET {
      forall h <- Free(pre) ensures h in NfsHosts(post) {
        assert NfsService(h, cluster) in post;
      }
    }
    if AtMostThree(pre) {
      assert |ClusterHosts(pre, cluster)| <= TARGET;
      forall c ensures |ClusterHosts(post, c)| <= TARGET {
        assert |ClusterHosts(pre, c)| <= TARGET;
        if c != cluster { assert ClusterHosts(post, c) == ClusterHosts(pre, c); }
      }
    }
  }

  lemma SaturatedStays(pre: set<Service>, post: set<Service>, clusters: seq<string>, cluster: string, env: Env, ok: bool)
    requires EnsureOutcome(pre, post, cluster, env, ok)
    ensures Saturated(pre, clusters) ==> Saturated(post, clusters)
    ensures Saturated(pre, clusters) && cluster in clusters ==> post == pre
  {
    EnsureFrame(pre, post, cluster, env, ok);
    forall c ensures |ClusterHosts(pre, c)| <= |ClusterHosts(post, c)| {
      SubsetSize(ClusterHosts(pre, c), ClusterHosts(post, c));
    }
  }

  lemma RiskyStep(pre: set<Service>, post: set<Service>)
    requires Step(pre, post, false)
    ensures Step(pre, post, true)
  {
    if EnsureStep(pre, post, false) {
      var cluster, env: Env, ok :| EnsureOutcome(pre, post, cluster, env, ok) && (false || StaysWithin(pre, cluster, env));
      assert EnsureStep(pre, post, true);
    }
  }

  /** A run stays a run when a step is appended and when risky calls are allowed from now on. */
  lemma ExtendRun(states: seq<set<Service>>, post: set<Service>, risky: bool, riskyNow: bool)
    requires ValidRun(states, risky) && Step(states[|states| - 1], post, riskyNow) && (risky ==> riskyNow)
    ensures ValidRun(states + [post], riskyNow)
  {
    forall i | 0 < i < |states + [post]| ensures Step((states + [post])[i - 1], (states + [post])[i], riskyNow) {
      if i < |states| && riskyNow != risky { RiskyStep(states[i - 1], states[i]); }
    }
  }

  // ---- a pass over the relations ----

  /** Hosts are exclusive, clusters small, and every NFS record belongs to one of the relations. */
  ghost predicate Good(services: set<Service>, relations: seq<string>) {
    Exclusive(services) && AtMostThree(services) && OwnedBy(services, relations)
  }

  /** The first n relations were serviced in order, each by one call that started where the last one ended. */
  ghost predicate Serviced(states: seq<set<Service>>, filled: seq<bool>, relations: seq<string>, envs: seq<Env>, n: nat)
    requires n <= |relations| == |envs|
  {
    && |states| == n + 1 && |filled| == n
    && forall i | 0 <= i < n :: EnsureOutcome(states[i], states[i + 1], relations[i], envs[i], filled[i])
  }

  /** The serviced relations have their data filled in exactly when their service succeeded; others are untouched. */
  ghost predicate Published(before: set<string>, after: set<string>, filled: seq<bool>, relations: seq<string>, envs: seq<Env>, n: nat)
    requires n <= |relations| == |envs| && |filled| == n
  {
    && (forall c | c !in relations[..n] :: c in after <==> c in before)
    && (Distinct(relations) ==> forall i | 0 <= i < n :: relations[i] in after <==> filled[i] && envs[i].managerOk)
  }

  /** Each of the first n services succeeded: a host in the cluster, and working manager calls. */
  ghost predicate AllOk(filled: seq<bool>, envs: seq<Env>, n: nat)
    requires n <= |filled| && n <= |envs|
  {
    forall i | 0 <= i < n :: filled[i] && envs[i].managerOk
  }

  /** n relations serviced, and what that made of the service list and of the relations' data. */
  ghost predicate Turns(start: set<Service>, now: set<Service>, before: set<string>, after: set<string>,
                        states: seq<set<Service>>, filled: seq<bool>, relations: seq<string>, envs: seq<Env>, n: nat)
    requires n <= |relations| == |envs|
  {
    && Serviced(states, filled, relations, envs, n) && states[0] == start && states[n] == now
    && Published(before, after, filled, relations, envs, n)
  }

  lemma OneMoreTurn(start: set<Service>, now: set<Service>, before: set<string>, after: set<string>,
                    states: seq<set<Service>>, filled: seq<bool>, relations: seq<string>, envs: seq<Env>, n: nat,
                    post: set<Service>, full: bool, published: set<string>)
    requires n < |relations| == |envs| && Turns(start, now, before, after, states, filled, relations, envs, n)
    requires EnsureOutcome(now, post, relations[n], envs[n], full)
    requires published == if full && envs[n].managerOk then after + {relations[n]} else after - {relations[n]}
    ensures Turns(start, post, before, published, states + [post], filled + [full], relations, envs, n + 1)
    ensures AllOk(filled + [full], envs, n + 1) <==> AllOk(filled, envs, n) && full && envs[n].managerOk
  {
    ServicedOneMore(states, filled, post, full, relations, envs, n);
    PublishedOneMore(before, after, published, filled, full, relations, envs, n);
    AllOkOneMore(filled, full, envs, n);
  }

  lemma AllOkOneMore(filled: seq<bool>, full: bool, envs: seq<Env>, n: nat)
    requires |filled| == n < |envs|
    ensures AllOk(filled + [full], envs, n + 1) <==> AllOk(filled, envs, n) && full && envs[n].managerOk
  {
    assert (filled + [full])[n] == full;
    assert forall i | 0 <= i < n :: (filled + [full])[i] == filled[i];
  }

  lemma ServicedOneMore(states: seq<set<Service>>, filled: seq<bool>, post: set<Service>, ok: bool,
                        relations: seq<string>, envs: seq<Env>, n: nat)
    requires n < |relations| == |envs| && Serviced(states, filled, relations, envs, n)
    requires EnsureOutcome(states[n], post, relations[n], envs[n], ok)
    ensures Serviced(states + [post], filled + [ok], relations, envs, n + 1)
  {
    forall i | 0 <= i < n + 1
      ensures EnsureOutcome((states + [post])[i], (states + [post])[i + 1], relations[i], envs[i], (filled + [ok])[i])
    {
    }
  }

  lemma PublishedOneMore(before: set<string>, now: set<string>, after: set<string>, filled: seq<bool>, ok: bool,
                         relations: seq<string>, envs: seq<Env>, n: nat)
    requires n < |relations| == |envs| && |filled| == n && Published(before, now, filled, relations, envs, n)
    requires after == if ok && envs[n].managerOk then now + {relations[n]} else now - {relations[n]}
    ensures Published(before, after, filled + [ok], relations, envs, n + 1)
  {
    assert relations[..n + 1] == relations[..n] + [relations[n]];
  }

  ghost predicate AllPerfect(envs: seq<Env>, hosts: set<string>) {
    forall e <- envs :: e.Perfect(hosts)
  }

  /** A pass that has serviced the first i relations, starting from the service list `start`. */
  ghost predicate Pass(start: set<Service>, now: set<Service>, relations: seq<string>, i: nat, perfect: bool)
    requires i <= |relations|
  {
    && start <= now && Hosts(now) == Hosts(start)
    && (Saturated(start, relations) ==> now == start)
    && (perfect ==> Saturated(now, relations[..i]))
    && (perfect && Good(start, relations) ==> Good(now, relations))
  }

  lemma PassStep(start: set<Service>, now: set<Service>, post: set<Service>, relations: seq<string>, i: nat, env: Env,
                 filled: bool, perfect: bool)
    requires i < |relations| && Pass(start, now, relations, i, perfect)
    requires EnsureOutcome(now, post, relations[i], env, filled) && (perfect ==> env.Perfect(Hosts(start)))
    ensures Pass(start, post, relations, i + 1, perfect)
    ensures perfect && !filled ==> Pass(start, post, relations, |relations|, perfect)
  {
    var cluster := relations[i];
    EnsureFrame(now, post, cluster, env, filled);
    SaturatedStays(now, post, relations, cluster, env, filled);
    SaturatedStays(now, post, relations[..i], cluster, env, filled);
    assert relations[..i + 1] == relations[..i] + [cluster] && relations[..|relations|] == relations;
    if perfect {
      PerfectEnsure(now, post, cluster, env, filled);
      if Good(now, relations) { EnsureKeepsExclusive(now, post, cluster, env, filled); }
    }
  }

  lemma PassCount(start: set<Service>, now: set<Service>, relations: seq<string>, perfect: bool)
    requires Pass(start, now, relations, |relations|, perfect) && perfect && Good(start, relations) && Distinct(relations)
    ensures |NfsHosts(now)| == Min(|Hosts(now)|, TARGET * |relations|)
  {
    assert relations[..|relations|] == relations;
    SaturatedCount(now, relations);
  }

  lemma {:induction false} ServicedPass(states: seq<set<Service>>, filled: seq<bool>, relations: seq<string>, envs: seq<Env>,
                                        n: nat, perfect: bool)
    requires n <= |relations| == |envs| && Serviced(states, filled, relations, envs, n)
    requires perfect ==> AllPerfect(envs, Hosts(states[0]))
    ensures Pass(states[0], states[n], relations, n, perfect)
    ensures perfect && n > 0 && !filled[n - 1] ==> Pass(states[0], states[n], relations, |relations|, perfect)
  {
    if n > 0 {
      ServicedPass(states[..n], filled[..n - 1], relations, envs, n - 1, perfect);
      assert envs[n - 1] in envs;
      PassStep(states[0], states[n - 1], states[n], relations, n - 1, envs[n - 1], filled[n - 1], perfect);
    }
  }

  /** The service list after the cluster's NFS service has been disabled on these hosts. */
  function Without(services: set<Service>, cluster: string, hosts: set<string>): set<Service> {
    set s <- services | !(s.NfsService? && s.cluster == cluster && s.host in hosts)
  }

  lemma WithoutOneMore(services: set<Service>, cluster: string, hosts: set<string>, host: string)
    ensures Without(services, cluster, hosts) - {NfsService(host, cluster)} == Without(services, cluster, hosts + {host})
  {
  }

  // ---- the handlers ----

  /**
   * services: the daemon's service list; published: the relations whose data is filled in;
   * history and risky: every state the charm's own calls went through, and whether a call started that could
   * go over the limit.
   */
  class CephNfsProviderHandler {
    var services: set<Service>
    var published: set<string>
    ghost var history: seq<set<Service>>
    ghost var risky: bool

    constructor (initial: set<Service>)
      ensures Valid() && services == initial && history == [initial] && published == {} && !risky
    {
      services, published := initial, {};
      history, risky := [initial], false;
    }

    ghost predicate Valid()
      reads this
    {
      ValidRun(history, risky) && history[|history| - 1] == services
    }

    /** Between the charm's calls hosts join and leave, and other services come and go. */
    method EnvironmentChanges(now: set<Service>)
      requires Valid() && EnvironmentOutcome(services, now)
      modifies this`services, this`history
      ensures Valid() && old(history) <= history && services == now
    {
      ExtendRun(history, now, risky, risky);
      services, history := now, history + [now];
    }

    /** The candidates as a list; a set is listed in an arbitrary order. */
    static method CandidateList(hosts: set<string>) returns (candidates: seq<string>)
      ensures Lists(candidates, hosts)
    {
      candidates := [];
      var rest := hosts;
      while rest != {}
        invariant rest <= hosts && Lists(candidates, hosts - rest)
        decreases |rest|
      {
        var host :| host in rest;
        candidates, rest := candidates + [host], rest - {host};
      }
    }

    /** The body of `_ensure_nfs_cluster`. */
    method FillCluster(cluster: string, env: Env) returns (ok: bool, ghost order: seq<string>)
      modifies this`services
      ensures Lists(order, Free(old(services))) && (services, ok) == Ensure(old(services), cluster, env, order)
    {
      var nodes: nat := |ClusterHosts(services, cluster)|;
      if nodes >= TARGET {
        SortedSetLists(Free(services));
        return true, SortedSet(Free(services));
      }
      var candidates := CandidateList(Hosts(services) - NfsHosts(services));
      order := candidates;
      ghost var end := Fill(services, nodes, cluster, env, candidates);
      for i := 0 to |candidates|
        invariant end == Fill(services, nodes, cluster, env, candidates[i..]) && nodes < TARGET
      {
        var candidate := candidates[i];
        if env.BindAddress(candidate) == "" {
          continue;
        }
        match env.OutcomeOf(candidate) {
          case Failed =>
          case LostReply =>
            services := services + {NfsService(candidate, cluster)};
          case Enabled =>
            services, nodes := services + {NfsService(candidate, cluster)}, nodes + 1;
            if nodes == TARGET {
              break;
            }
        }
      }
      ok := nodes != 0;
    }

    /** `_ensure_nfs_cluster`. */
    method EnsureNfsCluster(cluster: string, env: Env) returns (ok: bool)
      requires Valid()
      modifies this`services, this`history, this`risky
      ensures Valid() && old(history) <= history
      ensures risky == (old(risky) || !StaysWithin(old(services), cluster, env))
      ensures EnsureOutcome(old(services), services, cluster, env, ok)
    {
      ghost var riskyNow := risky || !StaysWithin(services, cluster, env);
      ghost var order;
      ok, order := FillCluster(cluster, env);
      EnsureIsAllowed(old(services), cluster, env, order);
      assert EnsureStep(old(services), services, riskyNow);
      ExtendRun(history, services, risky, riskyNow);
      history, risky := history + [services], riskyNow;
    }

    /** `_service_relation`: the relation's data is filled in on success and cleared on failure. */
    method ServiceRelation(cluster: string, env: Env) returns (ok: bool, ghost filled: bool)
      requires Valid()
      modifies this
      ensures Valid() && old(history) <= history
      ensures EnsureOutcome(old(services), services, cluster, env, filled) && ok == (filled && env.managerOk)
      ensures published == if ok then old(published) + {cluster} else old(published) - {cluster}
    {
      ok := EnsureNfsCluster(cluster, env);
      filled := ok;
      if !ok {
        published := published - {cluster};
        return;
      }
      if !env.managerOk {
        published := published - {cluster};
        return false, filled;
      }
      published := published + {cluster};
    }

    /**
     * `_on_ceph_nfs_reconcile` on the leader: relations are serviced in order until one fails. With
     * working calls the pass ends with as many hosts in use as hosts and relations allow, and a pass
     * over a saturated allocation enables nothing. states and filled: what each serviced relation did.
     */
    method Reconcile(relations: seq<string>, envs: seq<Env>)
      returns (ok: bool, ghost states: seq<set<Service>>, ghost filled: seq<bool>)
      requires Valid() && |envs| == |relations|
      modifies this
      ensures Valid() && old(history) <= history
      ensures |filled| <= |relations|
      ensures Turns(old(services), services, old(published), published, states, filled, relations, envs, |filled|)
      ensures filled != [] ==> AllOk(filled, envs, |filled| - 1)
      ensures ok <==> AllOk(filled, envs, |filled|)
      ensures ok ==> |filled| == |relations|
      ensures old(services) <= services && Hosts(services) == Hosts(old(services))
      ensures Saturated(old(services), relations) ==> services == old(services)
      ensures AllPerfect(envs, Hosts(old(services))) ==> Saturated(services, relations)
      ensures AllPerfect(envs, Hosts(old(services))) && Good(old(services), relations) && Distinct(relations) ==>
                Good(services, relations) && |NfsHosts(services)| == Min(|Hosts(services)|, 3 * |relations|)
    {
      ok := true;
      states, filled := [services], [];
      var i := 0;
      while i < |relations| && ok
        invariant 0 <= i <= |relations| && Valid() && old(history) <= history && |filled| == i
        invariant Turns(old(services), services, old(published), published, states, filled, relations, envs, i)
        invariant ok <==> AllOk(filled, envs, i)
        invariant i > 0 ==> AllOk(filled, envs, i - 1)
        decreases |relations| - i, ok
      {
        ghost var now, was := services, published;
        ghost var full;
        ok, full := ServiceRelation(relations[i], envs[i]);
        OneMoreTurn(old(services), now, old(published), was, states, filled, relations, envs, i, services, full, published);
        states, filled := states + [services], filled + [full];
        i := i + 1;
      }
      PassResult(states, filled, relations, envs, ok);
    }

    /** The body of `_remove_nfs_cluster`: a host that cannot be disabled ends the handler. */
    method DisableHosts(cluster: string, undisablable: set<string>) returns (raised: bool)
      modifies this`services
      ensures raised <==> exists h <- ClusterHosts(old(services), cluster) :: h in undisablable
      ensures exists gone: set<string> :: gone !! undisablable && services == Without(old(services), cluster, gone)
      ensures !raised ==> services == Without(old(services), cluster, ClusterHosts(old(services), cluster))
    {
      ghost var pre := services;
      var hosts := ClusterHosts(services, cluster);
      ghost var gone: set<string> := {};
      assert services == Without(pre, cluster, gone);
      while hosts != {}
        invariant gone + hosts == ClusterHosts(pre, cluster) && gone !! undisablable
        invariant services == Without(pre, cluster, gone)
        decreases |hosts|
      {
        var host :| host in hosts;
        hosts := hosts - {host};
        if host in undisablable {
          return true;
        }
        WithoutOneMore(pre, cluster, gone, host);
        services, gone := services - {NfsService(host, cluster)}, gone + {host};
      }
      raised := false;
    }

    /** `_remove_nfs_cluster`. */
    method RemoveNfsCluster(cluster: string, undisablable: set<string>) returns (raised: bool)
      requires Valid()
      modifies this`services, this`history
      ensures Valid() && old(history) <= history
      ensures DisableOutcome(old(services), services, cluster)
      ensures forall h <- ClusterHosts(old(services), cluster) | h in undisablable :: NfsService(h, cluster) in services
      ensures raised <==> exists h <- ClusterHosts(old(services), cluster) :: h in undisablable
      ensures !raised ==> services == Without(old(services), cluster, ClusterHosts(old(services), cluster))
    {
      raised := DisableHosts(cluster, undisablable);
      ExtendRun(history, services, risky, risky);
      history := history + [services];
    }

    /**
     * `_on_ceph_nfs_departed` on the leader: unless a host cannot be disabled, the departing relation's
     * hosts are freed, and every other relation is serviced once, in order, whatever fails on the way.
     */
    method Departed(cluster: string, others: seq<string>, envs: seq<Env>, undisablable: set<string>)
      returns (raised: bool, error: bool, ghost states: seq<set<Service>>, ghost filled: seq<bool>)
      requires Valid() && |envs| == |others|
      modifies this
      ensures Valid() && old(history) <= history
      ensures raised <==> exists h <- ClusterHosts(old(services), cluster) :: h in undisablable
      ensures raised ==> DisableOutcome(old(services), services, cluster) && published == old(published) && !error
      ensures raised ==> forall h <- ClusterHosts(old(services), cluster) | h in undisablable :: NfsService(h, cluster) in services
      ensures !raised ==>
        && |filled| == |others| && (error <==> !AllOk(filled, envs, |others|))
        && Turns(Without(old(services), cluster, ClusterHosts(old(services), cluster)), services, old(published), published,
                 states, filled, others, envs, |others|)
      ensures !raised && cluster !in others ==> ClusterHosts(services, cluster) == {}
      ensures !raised && AllPerfect(envs, Hosts(old(services))) && Good(old(services), others + [cluster]) && Distinct(others) ==>
                Good(services, others) && |NfsHosts(services)| == Min(|Hosts(services)|, 3 * |others|)
    {
      error := false;
      states, filled := [], [];
      raised := RemoveNfsCluster(cluster, undisablable);
      if raised {
        return;
      }
      ghost var start := services;
      RemovedIsGood(old(services), start, cluster, others);
      states := [services];
      var i := 0;
      while i < |others|
        invariant 0 <= i <= |others| && Valid() && old(history) <= history && |filled| == i
        invariant Turns(start, services, old(published), published, states, filled, others, envs, i)
        invariant error <==> !AllOk(filled, envs, i)
        invariant cluster !in others ==> ClusterHosts(services, cluster) == {}
      {
        ghost var now, was := services, published;
        var ok, full := ServiceRelation(others[i], envs[i]);
        OneMoreTurn(start, now, old(published), was, states, filled, others, envs, i, services, full, published);
        if cluster !in others { OthersUntouched(now, services, others[i], envs[i], full, cluster); }
        states, filled := states + [services], filled + [full];
        if !ok {
          error := true;
        }
        i := i + 1;
      }
      FewerHostsPerfect(envs, Hosts(start), Hosts(old(services)));
      DepartedResult(states, filled, others, envs);
    }
  }

  lemma OthersUntouched(pre: set<Service>, post: set<Service>, cluster: string, env: Env, ok: bool, other: string)
    requires EnsureOutcome(pre, post, cluster, env, ok) && other != cluster
    ensures ClusterHosts(post, other) == ClusterHosts(pre, other)
  {
  }

  lemma FewerHostsPerfect(envs: seq<Env>, fewer: set<string>, hosts: set<string>)
    requires fewer <= hosts
    ensures AllPerfect(envs, hosts) ==> AllPerfect(envs, fewer)
  {
  }

  /** What a pass that serviced these relations is worth. */
  lemma PassResult(states: seq<set<Service>>, filled: seq<bool>, relations: seq<string>, envs: seq<Env>, ok: bool)
    requires |filled| <= |relations| == |envs| && Serviced(states, filled, relations, envs, |filled|)
    requires ok <==> AllOk(filled, envs, |filled|)
    requires ok ==> |filled| == |relations|
    requires filled != [] ==> AllOk(filled, envs, |filled| - 1)
    ensures var start, now := states[0], states[|filled|];
      && start <= now && Hosts(now) == Hosts(start) && (Saturated(start, relations) ==> now == start)
      && (AllPerfect(envs, Hosts(start)) ==> Saturated(now, relations))
      && (AllPerfect(envs, Hosts(start)) && Good(start, relations) && Distinct(relations) ==>
            Good(now, relations) && |NfsHosts(now)| == Min(|Hosts(now)|, 3 * |relations|))
  {
    var start, now := states[0], states[|filled|];
    var perfect := AllPerfect(envs, Hosts(start));
    ServicedPass(states, filled, relations, envs, |filled|, false);
    if perfect {
      WholePass(states, filled, relations, envs, ok);
      if Good(start, relations) && Distinct(relations) { PassCount(start, now, relations, true); }
    }
  }

  lemma LastFailed(filled: seq<bool>, envs: seq<Env>, hosts: set<string>)
    requires |filled| <= |envs| && AllPerfect(envs, hosts) && !AllOk(filled, envs, |filled|)
    requires filled != [] ==> AllOk(filled, envs, |filled| - 1)
    ensures filled != [] && !filled[|filled| - 1]
  {
    assert forall i | 0 <= i < |filled| :: envs[i] in envs;
  }

  lemma WholePass(states: seq<set<Service>>, filled: seq<bool>, relations: seq<string>, envs: seq<Env>, ok: bool)
    requires |filled| <= |relations| == |envs| && Serviced(states, filled, relations, envs, |filled|)
    requires ok <==> AllOk(filled, envs, |filled|)
    requires ok ==> |filled| == |relations|
    requires filled != [] ==> AllOk(filled, envs, |filled| - 1)
    requires AllPerfect(envs, Hosts(states[0]))
    ensures Pass(states[0], states[|filled|], relations, |relations|, true)
    ensures Saturated(states[|filled|], relations)
  {
    ServicedPass(states, filled, relations, envs, |filled|, true);
    if !ok { LastFailed(filled, envs, Hosts(states[0])); }
    PassSaturates(states[0], states[|filled|], relations);
  }

  lemma PassSaturates(start: set<Service>, now: set<Service>, relations: seq<string>)
    requires Pass(start, now, relations, |relations|, true)
    ensures Saturated(now, relations)
  {
    assert relations[..|relations|] == relations;
  }

  lemma DepartedResult(states: seq<set<Service>>, filled: seq<bool>, others: seq<string>, envs: seq<Env>)
    requires |others| == |envs| && Serviced(states, filled, others, envs, |others|)
    ensures var start, now := states[0], states[|others|];
      AllPerfect(envs, Hosts(start)) && Good(start, others) && Distinct(others) ==>
        Good(now, others) && |NfsHosts(now)| == Min(|Hosts(now)|, 3 * |others|)
  {
    var perfect := AllPerfect(envs, Hosts(states[0]));
    ServicedPass(states, filled, others, envs, |others|, perfect);
    if perfect && Good(states[0], others) && Distinct(others) {
      PassCount(states[0], states[|others|], others, perfect);
    }
  }

  lemma RemovedIsGood(pre: set<Service>, post: set<Service>, cluster: string, others: seq<string>)
    requires DisableOutcome(pre, post, cluster) && post == Without(pre, cluster, ClusterHosts(pre, cluster))
    ensures ClusterHosts(post, cluster) == {} && Hosts(post) <= Hosts(pre)
    ensures Good(pre, others + [cluster]) ==> Good(post, others)
  {
    RemovalKeepsBoth(pre, post);
  }

  /** What the handlers' own history is worth: exclusive hosts, and small clusters unless a call could go over the limit. */
  lemma HandlersAreExclusive(handler: CephNfsProviderHandler)
    requires handler.Valid() && Exclusive(handler.history[0])
    ensures Exclusive(handler.services)
    ensures AtMostThree(handler.history[0]) && !handler.risky ==> AtMostThree(handler.services)
  {
    RunIsExclusive(handler.history, handler.risky, |handler.history| - 1);
  }
}
