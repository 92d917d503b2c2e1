/**
 * The two network options on the leader (src/charm.py): the public network, whose value at bootstrap
 * is a baseline that never changes, and the cluster network, which is reconciled with the daemon.
 */
module LeaderConfig {
  import opened Wrappers
  import opened Text
  import opened Networks
  import Ipv6

  /** The option's canonical value; None when an entry is malformed, which blocks the unit. */
  function ConfigValue<N(==, !new)>(c: Codec<N>, option: string): Option<string> {
    if AllAccepted(c, Tokens(option)) then Some(Join(',', CanonicalList(c, option))) else None
  }

  /** `_get_network_config` */
  method GetNetworkConfig<N(==, !new)>(c: Codec<N>, option: string) returns (r: Option<string>)
    ensures r == ConfigValue(c, option)
  {
    if option == "" {
      return Some("");
    }
    var networks := ParseNetworks(c, option);
    r := match networks case Ok(list) => Some(Join(',', list)) case Err(_) => None;
  }

  // ---- the public network's baseline ----

  datatype BaselineEvent =
    | Bootstrapped(option: string)   // also every retry, and every adoption of a cluster
    | LeaderReady                    // a cluster bootstrapped before the option existed
    | Checked(clusterOption: string, publicOption: string)

  /** First write wins; a malformed option raises before anything is recorded. */
  function NextBaseline<N(==, !new)>(c: Codec<N>, baseline: Option<string>, e: BaselineEvent): Option<string> {
    if baseline.Some? then baseline
    else
      match e
      case Bootstrapped(option) => ConfigValue(c, option)
      case LeaderReady => Some("")
      case Checked(_, _) => None
  }

  function RunBaseline<N(==, !new)>(c: Codec<N>, baseline: Option<string>, es: seq<BaselineEvent>): Option<string>
    decreases |es|
  {
    if es == [] then baseline else RunBaseline(c, NextBaseline(c, baseline, es[0]), es[1..])
  }

  /** `check_configs` on the two network options blocks. */
  predicate Blocks<N(==, !new)>(c: Codec<N>, baseline: Option<string>, clusterOption: string, publicOption: string) {
    || ConfigValue(c, clusterOption).None?
    || ConfigValue(c, publicOption).None?
    || (baseline.Some? && !SameMembers(Tokens(baseline.value), Tokens(ConfigValue(c, publicOption).value)))
  }

  // ---- the cluster network ----

  datatype Update = Updated | Unavailable | Rejected

  /** One pass: the option (None: malformed), the space's subnet, readiness, and how the update ends. */
  datatype Pass = Pass(configured: Option<string>, subnet: Option<string>, ready: bool, update: Update)

  datatype PassResult = Unchanged | Applied | WaitingForSubnet | WaitingForReady | WaitingForService | BlockedByOption | BlockedByService
  {
    /** The handler returned instead of raising. */
    predicate Normal() {
      Unchanged? || Applied?
    }
  }

  /** recorded: the leader's record (None: never written); running: what the daemon has. */
  datatype Network = Network(recorded: Option<string>, running: string)

  function Recorded(n: Network): string {
    if n.recorded.Some? then n.recorded.value else ""
  }

  class Leader {
    var baseline: Option<string>
    var recorded: Option<string>
    var running: string

    constructor (bootstrapNetwork: string)
      ensures baseline.None? && ClusterNetwork() == Network(None, bootstrapNetwork)
    {
      baseline, recorded, running := None, None, bootstrapNetwork;
    }

    function ClusterNetwork(): Network
      reads this
    {
      Network(recorded, running)
    }

    /** `_record_applied_public_network` */
    method RecordAppliedPublicNetwork<N(==, !new)>(c: Codec<N>, option: string) returns (raised: bool)
      modifies this`baseline
      ensures baseline == NextBaseline(c, old(baseline), Bootstrapped(option))
      ensures baseline == if old(baseline).Some? then old(baseline) else ConfigValue(c, option)
      ensures raised <==> old(baseline).None? && ConfigValue(c, option).None?
    {
      raised := false;
      if baseline.Some? {
        return;
      }
      var value := GetNetworkConfig(c, option);
      if value.None? {
        return true;
      }
      baseline := value;
    }

    /** The part of `handle_config_leader_set_ready` that guards the baseline. */
    method SetLeaderReady<N(==, !new)>(c: Codec<N>)
      modifies this`baseline
      ensures baseline == NextBaseline(c, old(baseline), LeaderReady)
      ensures baseline == if old(baseline).Some? then old(baseline) else Some("")
    {
      if baseline.None? {
        baseline := Some("");
      }
    }

    /** The network part of `check_configs`. */
    method CheckNetworks<N(==, !new)>(c: Codec<N>, clusterOption: string, publicOption: string) returns (blocked: bool)
      ensures blocked <==> Blocks(c, baseline, clusterOption, publicOption)
    {
      var cluster := GetNetworkConfig(c, clusterOption);
      if cluster.None? {
        return true;
      }
      var current := GetNetworkConfig(c, publicOption);
      if current.None? {
        return true;
      }
      if baseline.None? {
        return false;
      }
      blocked := !SameMembers(Tokens(baseline.value), Tokens(current.value));
    }

    /** `handle_config_leader_cluster_network` */
    method HandleClusterNetwork(p: Pass) returns (r: PassResult)
      modifies this`recorded, this`running
      ensures ClusterNetwork() == NextNetwork(old(ClusterNetwork()), p)
      ensures r.Normal() <==> Goes(Recorded(old(ClusterNetwork())), p)
      ensures r.Normal() ==> Some(Recorded(ClusterNetwork())) == p.configured
      ensures !r.Applied? ==> ClusterNetwork() == old(ClusterNetwork())
      ensures r.BlockedByOption? <==> p.configured.None?
      ensures r.Unchanged? <==> p.configured == Some(if old(recorded).Some? then old(recorded).value else "")
      ensures r.WaitingForSubnet? <==> !r.Unchanged? && p.configured == Some("") && p.subnet.None?
      ensures r.WaitingForReady? <==>
                !r.BlockedByOption? && !r.Unchanged? && !r.WaitingForSubnet? && !p.ready
      ensures r.WaitingForService? <==>
                !r.BlockedByOption? && !r.Unchanged? && !r.WaitingForSubnet? && p.ready && p.update.Unavailable?
      ensures r.BlockedByService? <==>
                !r.BlockedByOption? && !r.Unchanged? && !r.WaitingForSubnet? && p.ready && p.update.Rejected?
      ensures r.Applied? ==>
                recorded == p.configured && running == if p.configured.value != "" then p.configured.value else p.subnet.value
    {
      if p.configured.None? {
        return BlockedByOption;
      }
      var configured := p.configured.value;
      var applied := if recorded.Some? then recorded.value else "";
      if configured == applied {
        return Unchanged;
      }
      var clusterNet := configured;
      if configured == "" {
        if p.subnet.None? {
          return WaitingForSubnet;
        }
        clusterNet := p.subnet.value;
      }
      if !p.ready {
        return WaitingForReady;
      }
      match p.update {
        case Unavailable => return WaitingForService;
        case Rejected => return BlockedByService;
        case Updated =>
      }
      running := clusterNet;
      recorded := Some(configured);
      r := Applied;
    }
  }

  // ---- every run of the baseline ----

  /** Once written the baseline never changes, whatever is retried, upgraded or checked. */
  lemma {:induction false} BaselineNeverChanges<N(!new)>(c: Codec<N>, value: string, es: seq<BaselineEvent>)
    ensures RunBaseline(c, Some(value), es) == Some(value)
    decreases |es|
  {
    if es != [] {
      BaselineNeverChanges(c, value, es[1..]);
    }
  }

  /** The event writes the baseline, if nothing is written yet. */
  predicate Writes<N(==, !new)>(c: Codec<N>, e: BaselineEvent) {
    e.LeaderReady? || (e.Bootstrapped? && ConfigValue(c, e.option).Some?)
  }

  lemma {:induction false} FirstWriteIsKept<N(!new)>(c: Codec<N>, es: seq<BaselineEvent>, i: nat)
    requires i < |es| && Writes(c, es[i]) && forall j | 0 <= j < i :: !Writes(c, es[j])
    ensures RunBaseline(c, None, es) == if es[i].LeaderReady? then Some("") else ConfigValue(c, es[i].option)
  {
    if i == 0 {
      BaselineNeverChanges(c, NextBaseline(c, None, es[0]).value, es[1..]);
    } else {
      assert !Writes(c, es[0]) && forall j | 0 <= j < i - 1 :: !Writes(c, es[1..][j]) by {
        assert forall j | 0 <= j < i - 1 :: es[1..][j] == es[j + 1];
      }
      FirstWriteIsKept(c, es[1..], i - 1);
    }
  }

  /**
   * The baseline of a run is the value of its first writing event: "" if that is an upgrade of a
   * cluster older than the option, else the canonical value of the option at bootstrap. Malformed
   * options and checks write nothing.
   */
  lemma {:induction false} FirstWriteWins<N(!new)>(c: Codec<N>, es: seq<BaselineEvent>, i: nat)
    requires i < |es| && (es[i].LeaderReady? || (es[i].Bootstrapped? && AllAccepted(c, Tokens(es[i].option))))
    requires forall j | 0 <= j < i :: es[j].Checked? || (es[j].Bootstrapped? && !AllAccepted(c, Tokens(es[j].option)))
    ensures RunBaseline(c, None, es) == if es[i].LeaderReady? then Some("") else Some(Join(',', CanonicalList(c, es[i].option)))
  {
    FirstWriteIsKept(c, es, i);
  }

  /** The network part of the check in plain terms, for any baseline. */
  lemma BlocksMeans<N(!new)>(c: Codec<N>, baseline: Option<string>, clusterOption: string, publicOption: string)
    requires Lawful(c)
    ensures Blocks(c, baseline, clusterOption, publicOption) <==>
      || (exists t <- Tokens(clusterOption) :: !('/' in t && c.parse(t).Some?))
      || (exists t <- Tokens(publicOption) :: !('/' in t && c.parse(t).Some?))
      || (baseline.Some? && (set t <- Tokens(baseline.value)) != (set t <- CanonicalList(c, publicOption)))
  {
    AcceptedMeans(c, Tokens(clusterOption));
    AcceptedMeans(c, Tokens(publicOption));
    if AllAccepted(c, Tokens(publicOption)) && baseline.Some? {
      Reparse(c, publicOption);
      SameMembersMeans(Tokens(baseline.value), CanonicalList(c, publicOption));
    }
  }

  lemma AcceptedMeans<N(!new)>(c: Codec<N>, tokens: seq<string>)
    ensures AllAccepted(c, tokens) <==> !exists t <- tokens :: !('/' in t && c.parse(t).Some?)
  {
  }

  lemma SameMembersMeans<T>(a: seq<T>, b: seq<T>)
    ensures SameMembers(a, b) <==> (set x <- a) == (set x <- b)
  {
    var p, q := (set x <- a), (set x <- b);
    assert forall x :: (x in p <==> x in a) && (x in q <==> x in b);
  }

  /**
   * With a baseline recorded from a well-formed option, a well-formed option blocks if and only if
   * it denotes another set of subnets: order, repeats and spelling do not matter.
   */
  lemma BlocksIffSubnetsDiffer<N(!new)>(c: Codec<N>, atBootstrap: string, now: string, clusterOption: string)
    requires Lawful(c) && AllAccepted(c, Tokens(clusterOption))
    requires AllAccepted(c, Tokens(atBootstrap)) && AllAccepted(c, Tokens(now))
    ensures Blocks(c, ConfigValue(c, atBootstrap), clusterOption, now)
            <==> (set n <- Parsed(c, Tokens(atBootstrap))) != (set n <- Parsed(c, Tokens(now)))
  {
    Reparse(c, atBootstrap);
    Reparse(c, now);
    SameSubnets(c, atBootstrap, now);
    SameMembersMeans(Parsed(c, Tokens(atBootstrap)), Parsed(c, Tokens(now)));
  }

  /** For the options the charm accepts, which may mix subnets of both IP versions. */
  lemma IpBlocksIffSubnetsDiffer(atBootstrap: string, now: string, clusterOption: string)
    requires AllAccepted(Ipv6.IP, Tokens(clusterOption))
    requires AllAccepted(Ipv6.IP, Tokens(atBootstrap)) && AllAccepted(Ipv6.IP, Tokens(now))
    ensures Blocks(Ipv6.IP, ConfigValue(Ipv6.IP, atBootstrap), clusterOption, now)
            <==> (set n <- Parsed(Ipv6.IP, Tokens(atBootstrap))) != (set n <- Parsed(Ipv6.IP, Tokens(now)))
  {
    Ipv6.IpIsLawful();
    BlocksIffSubnetsDiffer(Ipv6.IP, atBootstrap, now, clusterOption);
  }

  // ---- every run of the cluster network ----

  /** With this option recorded, the pass ends normally. */
  predicate Goes(inEffect: string, p: Pass) {
    && p.configured.Some?
    && (p.configured.value == inEffect
        || (p.ready && p.update.Updated? && (p.configured.value != "" || p.subnet.Some?)))
  }

  /** The pass as a function of the state. */
  function NextNetwork(n: Network, p: Pass): Network {
    if Goes(Recorded(n), p) && p.configured.value != Recorded(n)
    then Network(p.configured, if p.configured.value != "" then p.configured.value else p.subnet.value)
    else n
  }

  function RunNetwork(n: Network, ps: seq<Pass>): Network {
    if ps == [] then n else NextNetwork(RunNetwork(n, ps[..|ps| - 1]), ps[|ps| - 1])
  }

  /** A pass that ends normally whatever is recorded: nothing it may have to do can fail. */
  predicate Works(p: Pass) {
    p.configured.Some? && p.ready && p.update.Updated? && (p.configured.value != "" || p.subnet.Some?)
  }

  predicate Sets(p: Pass) {
    Works(p) && p.configured.value != ""
  }

  /** Pass i worked and no later one did. */
  predicate LastToWork(ps: seq<Pass>, i: nat) {
    i < |ps| && Works(ps[i]) && forall j | i < j < |ps| :: !Works(ps[j])
  }

  /** Pass k set an option, pass i was the next to work and cleared it, and no later one set an option. */
  predicate LastToClear(ps: seq<Pass>, k: nat, i: nat) {
    && k < i < |ps| && Sets(ps[k]) && Works(ps[i]) && ps[i].configured.value == ""
    && (forall j | k < j < i :: !Works(ps[j]))
    && (forall j | i < j < |ps| :: !Sets(ps[j]))
  }

  predicate NeverSet(ps: seq<Pass>) {
    forall p <- ps :: !Sets(p)
  }

  ghost predicate SetBy(ps: seq<Pass>, i: nat, n: Network) {
    LastToWork(ps, i) && ps[i].configured.value != "" && n == Network(ps[i].configured, ps[i].configured.value)
  }

  ghost predicate ClearedBy(ps: seq<Pass>, k: nat, i: nat, n: Network) {
    LastToClear(ps, k, i) && n == Network(Some(""), ps[i].subnet.value)
  }

  /** The three ways a history can end, and the record and the daemon's network in each. */
  ghost predicate Follows(bootstrap: string, ps: seq<Pass>, n: Network) {
    || (NeverSet(ps) && n == Network(None, bootstrap))
    || (exists i: nat :: SetBy(ps, i, n))
    || (exists k: nat, i: nat :: ClearedBy(ps, k, i, n))
  }

  /** A pass that does not work changes nothing; one that works records its option. */
  lemma PassEffect(n: Network, p: Pass)
    ensures !Works(p) ==> NextNetwork(n, p) == n
    ensures Works(p) ==> Some(Recorded(NextNetwork(n, p))) == p.configured
    ensures Sets(p) && (Recorded(n) != "" ==> n == Network(Some(n.running), n.running)) ==>
              NextNetwork(n, p) == Network(p.configured, p.configured.value)
  {
  }

  lemma IdlePassFollows(bootstrap: string, init: seq<Pass>, p: Pass, n: Network)
    requires Follows(bootstrap, init, n) && !Works(p)
    ensures Follows(bootstrap, init + [p], n)
  {
    var ps := init + [p];
    if i: nat :| SetBy(init, i, n) {
      assert SetBy(ps, i, n);
    } else if k: nat, i: nat :| ClearedBy(init, k, i, n) {
      assert ClearedBy(ps, k, i, n);
    }
  }

  lemma SettingPassFollows(bootstrap: string, init: seq<Pass>, p: Pass, n: Network)
    requires Follows(bootstrap, init, n) && Sets(p)
    ensures Follows(bootstrap, init + [p], NextNetwork(n, p))
  {
    PassEffect(n, p);
    assert SetBy(init + [p], |init|, NextNetwork(n, p));
  }

  lemma ClearingPassFollows(bootstrap: string, init: seq<Pass>, p: Pass, n: Network)
    requires Follows(bootstrap, init, n) && Works(p) && !Sets(p)
    ensures Follows(bootstrap, init + [p], NextNetwork(n, p))
  {
    var ps := init + [p];
    if k: nat :| SetBy(init, k, n) {
      assert ClearedBy(ps, k, |init|, NextNetwork(n, p));
    } else if k: nat, i: nat :| ClearedBy(init, k, i, n) {
      assert ClearedBy(ps, k, i, n);
    }
  }

  /**
   * Over every run of option changes and failures: while no pass has set an option nothing is recorded
   * and the daemon has what bootstrap applied; when the last pass to work set one, that option is
   * recorded and in the daemon; otherwise "" is recorded, and the daemon has the subnet of the pass
   * that cleared the last option, whatever later passes find.
   */
  lemma {:induction false} NetworkFollowsHistory(bootstrap: string, ps: seq<Pass>)
    ensures Follows(bootstrap, ps, RunNetwork(Network(None, bootstrap), ps))
  {
    if ps != [] {
      var init, p := ps[..|ps| - 1], ps[|ps| - 1];
      var n := RunNetwork(Network(None, bootstrap), init);
      NetworkFollowsHistory(bootstrap, init);
      assert init + [p] == ps;
      if !Works(p) {
        PassEffect(n, p);
        IdlePassFollows(bootstrap, init, p, n);
      } else if Sets(p) {
        SettingPassFollows(bootstrap, init, p, n);
      } else {
        ClearingPassFollows(bootstrap, init, p, n);
      }
    }
  }

  lemma OnlySet(bootstrap: string, ps: seq<Pass>, i: nat, m: Network, n: Network)
    requires SetBy(ps, i, m) && Follows(bootstrap, ps, n)
    ensures SetBy(ps, i, n) && m == n
  {
    assert ps[i] in ps && Sets(ps[i]);
    forall k: nat, j: nat ensures !ClearedBy(ps, k, j, n) {
    }
  }

  lemma OnlyCleared(ps: seq<Pass>, k: nat, i: nat, l: nat, j: nat)
    requires LastToClear(ps, k, i) && LastToClear(ps, l, j)
    ensures k == l && i == j
  {
  }

  /** Those three ways exclude one another, so the history determines the outcome. */
  lemma HistoryDetermines(bootstrap: string, ps: seq<Pass>, m: Network, n: Network)
    requires Follows(bootstrap, ps, m) && Follows(bootstrap, ps, n)
    ensures m == n
  {
    if i: nat :| SetBy(ps, i, m) {
      OnlySet(bootstrap, ps, i, m, n);
    } else if i: nat :| SetBy(ps, i, n) {
      OnlySet(bootstrap, ps, i, n, m);
    } else if k: nat, i: nat :| ClearedBy(ps, k, i, m) {
      assert ps[k] in ps && Sets(ps[k]);
      var l: nat, j: nat :| ClearedBy(ps, l, j, n);
      OnlyCleared(ps, k, i, l, j);
    }
  }

  /** An option that was never set leaves whatever bootstrap applied, and nothing recorded. */
  lemma {:induction false} NeverSetLeavesBootstrap(bootstrap: string, ps: seq<Pass>)
    requires NeverSet(ps)
    ensures RunNetwork(Network(None, bootstrap), ps) == Network(None, bootstrap)
  {
    NetworkFollowsHistory(bootstrap, ps);
    HistoryDetermines(bootstrap, ps, RunNetwork(Network(None, bootstrap), ps), Network(None, bootstrap));
  }
}
