/** The batched push of cluster configuration to the daemon (src/microceph.py). */
module ClusterConfigs {
  import opened Ordering

  /** One call of the daemon's config endpoint. */
  datatype Write = Write(key: string, value: string, skipRestart: bool)

  /** The requested keys whose value the daemon does not have yet. */
  predicate Differs(daemon: map<string, string>, configs: map<string, string>, key: string) {
    key in configs && !(key in daemon && daemon[key] == configs[key])
  }

  function Changed(daemon: map<string, string>, configs: map<string, string>, keys: seq<string>): (r: seq<string>)
    ensures forall k <- r :: Differs(daemon, configs, k) && k in configs
  {
    if keys == [] then []
    else (if Differs(daemon, configs, keys[0]) then [keys[0]] else []) + Changed(daemon, configs, keys[1..])
  }

  /** The first n writes for the changed keys: all but the last key's skip the restart. */
  function Written(configs: map<string, string>, changed: seq<string>, n: nat): (r: seq<Write>)
    requires n <= |changed| && forall k <- changed :: k in configs
    ensures |r| == n && forall i | 0 <= i < n :: r[i] == Write(changed[i], configs[changed[i]], i < |changed| - 1)
  {
    if n == 0 then []
    else
      assert changed[n - 1] in changed;
      Written(configs, changed, n - 1) + [Write(changed[n - 1], configs[changed[n - 1]], n - 1 < |changed| - 1)]
  }

  /** The daemon's map after these keys were written. */
  function Overlay(daemon: map<string, string>, configs: map<string, string>, keys: seq<string>): (r: map<string, string>)
    requires forall k <- keys :: k in configs
  {
    if keys == [] then daemon
    else
      var last := keys[|keys| - 1];
      assert last in keys;
      Overlay(daemon, configs, keys[..|keys| - 1])[last := configs[last]]
  }

  lemma {:induction false} OverlayAt(daemon: map<string, string>, configs: map<string, string>, keys: seq<string>, k: string)
    requires forall k <- keys :: k in configs
    ensures var r := Overlay(daemon, configs, keys);
      (k in r <==> k in daemon || k in keys) && (k in r ==> r[k] == if k in keys then configs[k] else daemon[k])
  {
    if keys != [] {
      var init, last := keys[..|keys| - 1], keys[|keys| - 1];
      assert keys == init + [last];
      OverlayAt(daemon, configs, init, k);
    }
  }

  class Daemon {
    var config: map<string, string>
    var log: seq<Write>

    constructor (initial: map<string, string>)
      ensures config == initial && log == []
    {
      config, log := initial, [];
    }

    /** The inner `set_config`, which checks once more against what was read at the start. */
    method SetConfig(fromDb: map<string, string>, key: string, value: string, skipRestart: bool, rejected: set<string>)
      returns (ok: bool)
      modifies this
      ensures var skipped := key in fromDb && fromDb[key] == value;
        && ok == (skipped || key !in rejected)
        && config == (if ok && !skipped then old(config)[key := value] else old(config))
        && log == if ok && !skipped then old(log) + [Write(key, value, skipRestart)] else old(log)
    {
      if key in fromDb && value == fromDb[key] {
        return true;
      }
      if key in rejected {
        return false;
      }
      config := config[key := value];
      log := log + [Write(key, value, skipRestart)];
      ok := true;
    }

    /** The list of changed items, in sorted order. */
    static method ChangedItems(fromDb: map<string, string>, configs: map<string, string>) returns (changed: seq<string>)
      ensures changed == Changed(fromDb, configs, SortedSet(configs.Keys))
    {
      var keys := SortedSet(configs.Keys);
      changed := [];
      for i := 0 to |keys|
        invariant changed == Changed(fromDb, configs, keys[..i])
      {
        ChangedAppend(fromDb, configs, keys[..i], keys[i]);
        assert keys[..i + 1] == keys[..i] + [keys[i]];
        if !(keys[i] in fromDb && configs[keys[i]] == fromDb[keys[i]]) {
          changed := changed + [keys[i]];
        }
      }
      assert keys[..|keys|] == keys;
    }

    /** The two write loops of `update_cluster_configs`; n is how many writes went through. */
    method PushChanged(configs: map<string, string>, changed: seq<string>, rejected: set<string>) returns (ok: bool, n: nat)
      requires forall k <- changed :: Differs(config, configs, k) && k in configs
      modifies this
      ensures n <= |changed| && log == old(log) + Written(configs, changed, n)
      ensures config == Overlay(old(config), configs, changed[..n])
      ensures (ok <==> n == |changed|) && (forall k <- changed[..n] :: k !in rejected)
      ensures n < |changed| ==> changed[n] in rejected
    {
      var fromDb := config;
      n := 0;
      ok := true;
      while n < |changed|
        invariant n <= |changed| && ok
        invariant log == old(log) + Written(configs, changed, n)
        invariant config == Overlay(fromDb, configs, changed[..n])
        invariant forall k <- changed[..n] :: k !in rejected
      {
        assert changed[n] in changed;
        ok := SetConfig(fromDb, changed[n], configs[changed[n]], n < |changed| - 1, rejected);
        if !ok {
          return;
        }
        assert changed[..n + 1] == changed[..n] + [changed[n]] && changed[..n + 1][..n] == changed[..n];
        n := n + 1;
      }
    }

    /**
     * `update_cluster_configs`; a rejected or unavailable write raises and ends it. The writes are
     * the changed keys in sorted order, so far as it got, and only the last key's may restart.
     */
    method UpdateClusterConfigs(configs: map<string, string>, rejected: set<string>) returns (ok: bool, n: nat)
      modifies this
      ensures var changed := Changed(old(config), configs, SortedSet(configs.Keys));
        && n <= |changed| && log == old(log) + Written(configs, changed, n)
        && (ok <==> n == |changed|) && (ok <==> forall k <- changed :: k !in rejected)
        && (n < |changed| ==> changed[n] in rejected) && (forall k <- changed[..n] :: k !in rejected)
        && config == Overlay(old(config), configs, changed[..n])
      ensures ok ==> config == old(config) + configs
    {
      var changed := ChangedItems(config, configs);
      ok, n := PushChanged(configs, changed, rejected);
      assert changed[..|changed|] == changed;
      assert n < |changed| ==> changed[n] in changed;
      OverlayChanged(old(config), configs);
    }
  }

  /** Writing just the changed keys installs the whole request. */
  lemma OverlayChanged(daemon: map<string, string>, configs: map<string, string>)
    ensures Overlay(daemon, configs, Changed(daemon, configs, SortedSet(configs.Keys))) == daemon + configs
  {
    var changed := Changed(daemon, configs, SortedSet(configs.Keys));
    var r := Overlay(daemon, configs, changed);
    forall k ensures k in r <==> k in daemon + configs {
      ChangedMembers(daemon, configs, SortedSet(configs.Keys), k);
      OverlayAt(daemon, configs, changed, k);
    }
    forall k <- r ensures r[k] == (daemon + configs)[k] {
      ChangedMembers(daemon, configs, SortedSet(configs.Keys), k);
      OverlayAt(daemon, configs, changed, k);
    }
  }

  lemma {:induction false} ChangedAppend(daemon: map<string, string>, configs: map<string, string>, keys: seq<string>, key: string)
    ensures Changed(daemon, configs, keys + [key])
            == Changed(daemon, configs, keys) + if Differs(daemon, configs, key) then [key] else []
  {
    if keys == [] {
      assert keys + [key] == [key];
      assert Changed(daemon, configs, [key][1..]) == [];
    } else {
      assert (keys + [key])[1..] == keys[1..] + [key];
      ChangedAppend(daemon, configs, keys[1..], key);
    }
  }

  lemma {:induction false} ChangedMembers(daemon: map<string, string>, configs: map<string, string>, keys: seq<string>, k: string)
    ensures k in Changed(daemon, configs, keys) <==> k in keys && Differs(daemon, configs, k)
  {
    if keys != [] {
      ChangedMembers(daemon, configs, keys[1..], k);
      assert keys == [keys[0]] + keys[1..];
    }
  }

  lemma {:induction false} ChangedDistinct(daemon: map<string, string>, configs: map<string, string>, keys: seq<string>)
    requires Distinct(keys)
    ensures Distinct(Changed(daemon, configs, keys))
  {
    if keys != [] {
      assert forall i | 0 <= i < |keys[1..]| :: keys[1..][i] == keys[i + 1];
      ChangedDistinct(daemon, configs, keys[1..]);
      ChangedMembers(daemon, configs, keys[1..], keys[0]);
    }
  }

  lemma {:induction false} ChangedSorted(daemon: map<string, string>, configs: map<string, string>, keys: seq<string>)
    requires SortedBy(keys, StrLe)
    ensures SortedBy(Changed(daemon, configs, keys), StrLe)
  {
    if keys != [] {
      ChangedSorted(daemon, configs, keys[1..]);
      forall k <- Changed(daemon, configs, keys[1..]) ensures StrLe(keys[0], k) {
        ChangedMembers(daemon, configs, keys[1..], k);
        var i :| 0 <= i < |keys[1..]| && keys[1..][i] == k;
        assert keys[i + 1] == k;
      }
    }
  }

  /** The changed keys: each requested key whose value the daemon does not have, once, in sorted order. */
  lemma ChangedExactly(daemon: map<string, string>, configs: map<string, string>)
    ensures var changed := Changed(daemon, configs, SortedSet(configs.Keys));
      Distinct(changed) && SortedBy(changed, StrLe)
      && forall k :: k in changed <==> k in configs && (k !in daemon || daemon[k] != configs[k])
  {
    SortedSetOrdered(configs.Keys);
    ChangedSorted(daemon, configs, SortedSet(configs.Keys));
    ChangedDistinct(daemon, configs, SortedSet(configs.Keys));
    forall k ensures k in Changed(daemon, configs, SortedSet(configs.Keys)) <==> Differs(daemon, configs, k) {
      ChangedMembers(daemon, configs, SortedSet(configs.Keys), k);
    }
  }

  /**
   * A successful push restarts services exactly once, with its last write, if and only if the request
   * changes something.
   */
  lemma SingleRestart(daemon: map<string, string>, configs: map<string, string>)
    ensures var changed := Changed(daemon, configs, SortedSet(configs.Keys)); var writes := Written(configs, changed, |changed|);
      && (forall i | 0 <= i < |writes| :: !writes[i].skipRestart <==> i == |writes| - 1)
      && (writes == [] <==> daemon + configs == daemon)
  {
    ChangedExactly(daemon, configs);
    NothingDiffers(daemon, configs);
    var changed := Changed(daemon, configs, SortedSet(configs.Keys));
    if changed != [] {
      assert changed[0] in changed;
    }
  }

  lemma NothingDiffers(daemon: map<string, string>, configs: map<string, string>)
    ensures (forall k :: !Differs(daemon, configs, k)) <==> daemon + configs == daemon
  {
    if daemon + configs == daemon {
      forall k ensures !Differs(daemon, configs, k) {
        if k in configs { assert (daemon + configs)[k] == configs[k]; }
      }
    } else {
      var k :| k in daemon + configs && !(k in daemon && daemon[k] == (daemon + configs)[k]);
      assert Differs(daemon, configs, k);
    }
  }
}
