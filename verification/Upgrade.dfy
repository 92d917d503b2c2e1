/**
 * The rolling snap upgrade (src/cluster.py, src/relation_handlers.py): the record the leader
 * publishes, how one unit upgrades itself, and how leader and non-leaders react to the record.
 */
module Upgrade {
  import opened Wrappers
  import opened Ordering

  type Unit = string
  type Nonce = string

  /** The JSON object under "upgrade-info" in the peer application databag. */
  datatype Info = Info(nonce: Nonce, channel: string, nodes: seq<Unit>)

  datatype Health = HealthOk | HealthWarn | HealthErr | HealthUnknown

  /**
   * What the environment answers during one `perform_upgrade`: whether pgrep finds a running command,
   * whether the snap refresh succeeds, the health readings the poll gets before its 900 s deadline,
   * and the reading taken after the poll.
   */
  datatype Attempt = Attempt(commandsRunning: bool, refreshed: bool, polled: seq<Health>, final: Health)

  datatype UpgradeResult = Upgraded | CommandsRunning | RefreshFailed | PollTimeout | Unhealthy

  /** The three readings before position t are all OK. */
  predicate ThreeOkBefore(readings: seq<Health>, t: nat) {
    3 <= t <= |readings| && readings[t - 3].HealthOk? && readings[t - 2].HealthOk? && readings[t - 1].HealthOk?
  }

  predicate PollsHealthy(readings: seq<Health>) {
    exists t | 0 <= t <= |readings| :: ThreeOkBefore(readings, t)
  }

  predicate Succeeds(a: Attempt) {
    !a.commandsRunning && a.refreshed && PollsHealthy(a.polled) && a.final.HealthOk?
  }

  /** In plain terms: no command ran, the refresh worked, and the health was OK three times in a row and once more. */
  lemma SucceedsMeans(a: Attempt)
    ensures Succeeds(a) <==>
      && !a.commandsRunning && a.refreshed && a.final == HealthOk
      && exists t | 0 <= t < |a.polled| - 2 ::
           a.polled[t] == HealthOk && a.polled[t + 1] == HealthOk && a.polled[t + 2] == HealthOk
  {
    if PollsHealthy(a.polled) {
      var t :| 0 <= t <= |a.polled| && ThreeOkBefore(a.polled, t);
      assert a.polled[t - 3] == HealthOk && a.polled[t - 3 + 1] == HealthOk && a.polled[t - 3 + 2] == HealthOk;
    }
    if t :| 0 <= t < |a.polled| - 2 && a.polled[t] == HealthOk && a.polled[t + 1] == HealthOk && a.polled[t + 2] == HealthOk {
      assert ThreeOkBefore(a.polled, t + 3);
    }
  }

  /** `list.remove`: drops the first occurrence, or reports that there is none. */
  function RemoveFirst(xs: seq<Unit>, x: Unit): (r: Option<seq<Unit>>)
    ensures r.None? <==> x !in xs
    ensures r.Some? ==> multiset(r.value) == multiset(xs) - multiset{x} && |r.value| == |xs| - 1
  {
    if xs == [] then None
    else
      assert xs == [xs[0]] + xs[1..];
      if xs[0] == x then Some(xs[1..])
      else
        var rest := RemoveFirst(xs[1..], x);
        if rest.None? then None else Some([xs[0]] + rest.value)
  }

  /** What the leader's reaction to a relation-changed event makes of the record; None is "cleared". */
  function LeaderNext(info: Info, unit: Option<Unit>, upgradeDone: Option<Nonce>): Option<Info> {
    if unit.None? || upgradeDone.None? || upgradeDone.value == "" || upgradeDone.value != info.nonce then Some(info)
    else
      var rest := RemoveFirst(info.nodes, unit.value);
      if rest.None? then Some(info)
      else if rest.value == [] then None
      else Some(info.(nodes := rest.value))
  }

  /** A unit acts on the record only when it heads the list. */
  predicate Heads(unit: Unit, info: Info) {
    info.nodes != [] && info.nodes[0] == unit
  }

  /** The peer relation's databags and the snap channel this unit has installed. */
  class MicroClusterPeers {
    const self: Unit
    var upgradeInfo: Option<Info>
    var upgradeDone: map<Unit, Nonce>
    var channel: Option<string>
    var installed: string

    constructor (self: Unit, installed: string)
      ensures this.self == self && this.installed == installed
      ensures upgradeInfo.None? && upgradeDone == map[] && channel.None?
    {
      this.self := self;
      this.installed := installed;
      upgradeInfo, upgradeDone, channel := None, map[], None;
    }

    /** The health poll: true once three readings in a row were OK, false at the deadline. */
    static method PollOk(readings: seq<Health>) returns (healthy: bool, taken: nat)
      ensures taken <= |readings|
      ensures healthy ==> ThreeOkBefore(readings, taken) && forall t | 0 <= t < taken :: !ThreeOkBefore(readings, t)
      ensures !healthy ==> taken == |readings| && !PollsHealthy(readings)
    {
      var consecutive := 0;
      taken := 0;
      while taken < |readings|
        invariant 0 <= taken <= |readings| && 0 <= consecutive <= 2 && consecutive <= taken
        invariant forall k | taken - consecutive <= k < taken :: readings[k].HealthOk?
        invariant consecutive < 2 && consecutive < taken ==> !readings[taken - consecutive - 1].HealthOk?
        invariant forall t | 0 <= t <= taken :: !ThreeOkBefore(readings, t)
      {
        if readings[taken].HealthOk? {
          consecutive := consecutive + 1;
        } else {
          consecutive := 0;
        }
        taken := taken + 1;
        if consecutive >= 3 {
          return true, taken;
        }
      }
      healthy := false;
    }

    /** `perform_upgrade`: refuse while commands run, refresh the snap, poll, then look once more. */
    method PerformUpgrade(target: string, a: Attempt) returns (r: UpgradeResult)
      modifies this`installed
      ensures r.Upgraded? <==> Succeeds(a)
      ensures r.CommandsRunning? <==> a.commandsRunning
      ensures r.RefreshFailed? <==> !a.commandsRunning && !a.refreshed
      ensures r.PollTimeout? <==> !a.commandsRunning && a.refreshed && !PollsHealthy(a.polled)
      ensures installed == if a.commandsRunning || !a.refreshed then old(installed) else target
    {
      if a.commandsRunning {
        return CommandsRunning;
      }
      if !a.refreshed {
        return RefreshFailed;
      }
      installed := target;
      var healthy, _ := PollOk(a.polled);
      if !healthy {
        return PollTimeout;
      }
      r := if a.final.HealthOk? then Upgraded else Unhealthy;
    }

    /**
     * `init_upgrade` on the leader: the channel is recorded first, then the leader upgrades itself,
     * and only then is a round published to the joined peers, in sorted order.
     */
    method InitUpgrade(snapChannel: string, a: Attempt, nonce: Nonce, joined: seq<Unit>) returns (r: UpgradeResult)
      modifies this`channel, this`installed, this`upgradeInfo
      ensures channel == Some(snapChannel)
      ensures r.Upgraded? <==> Succeeds(a)
      ensures upgradeInfo == if Succeeds(a) then Some(Info(nonce, snapChannel, Sort(joined, StrLe))) else old(upgradeInfo)
      ensures Succeeds(a) ==>
                var nodes := upgradeInfo.value.nodes;
                multiset(nodes) == multiset(joined)
                && forall i, j | 0 <= i < j < |nodes| ::
                     nodes[i] <= nodes[j]
                     || exists k | 0 <= k < |nodes[i]| && k < |nodes[j]| ::
                          nodes[i][..k] == nodes[j][..k] && nodes[i][k] < nodes[j][k]
      ensures installed == if a.commandsRunning || !a.refreshed then old(installed) else snapChannel
    {
      SortedStrings(joined);
      channel := Some(snapChannel);
      r := PerformUpgrade(snapChannel, a);
      if r.Upgraded? {
        upgradeInfo := Some(Info(nonce, snapChannel, Sort(joined, StrLe)));
      }
    }

    /** `_handle_upgrade_leader`, called only while a record is present. */
    method HandleUpgradeLeader(unit: Option<Unit>)
      requires upgradeInfo.Some?
      modifies this`upgradeInfo
      ensures upgradeInfo == LeaderNext(old(upgradeInfo).value, unit,
                               if unit.Some? && unit.value in upgradeDone then Some(upgradeDone[unit.value]) else None)
    {
      if unit.None? || unit.value !in upgradeDone || upgradeDone[unit.value] == "" {
        return;
      }
      var info := upgradeInfo.value;
      if upgradeDone[unit.value] != info.nonce {
        return;
      }
      var nodes := RemoveFirst(info.nodes, unit.value);
      if nodes.None? {
        return;
      }
      if nodes.value != [] {
        upgradeInfo := Some(Info(info.nonce, info.channel, nodes.value));
      } else {
        upgradeInfo := None;
      }
    }

    /**
     * `_handle_upgrade_nonldr` with the request and done events it emits: the head of the list
     * upgrades itself to the record's channel and then publishes the record's nonce.
     */
    method HandleUpgradeNonLeader(info: Info, a: Attempt) returns (published: bool)
      modifies this`installed, this`upgradeDone
      ensures published <==> info.nodes != [] && info.nodes[0] == self && Succeeds(a)
      ensures upgradeDone == if published then old(upgradeDone)[self := info.nonce] else old(upgradeDone)
      ensures installed == if info.nodes != [] && info.nodes[0] == self && !a.commandsRunning && a.refreshed then info.channel else old(installed)
    {
      published := false;
      if info.nodes == [] {
        return;
      }
      var unit := info.nodes[0];
      if unit != self {
        return;
      }
      var r := PerformUpgrade(info.channel, a);
      if r.Upgraded? {
        upgradeDone := upgradeDone[self := info.nonce];
        published := true;
      }
    }
  }
}
