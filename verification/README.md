# Verified model of the MicroCeph charm

A Dafny 4.11 model of the parts of the MicroCeph charm that keep state over an unbounded run of Juju
events, with proofs of what those parts promise in every run. Verify all of it with
`dafny verify dfyconfig.toml`.

External commands (snap, microceph, ceph, the daemon's socket) are steps with an outcome the model
does not choose: the outcome is a parameter of the handler, and every theorem holds for all outcomes
unless it says otherwise. Databags, the monitors' key store, the daemon's service list and Juju's
stored state are fields of classes; a handler is a method proved against a function or predicate of
the old state, and the theorems about runs are about that same function or predicate.

| file | models |
|---|---|
| `Upgrade.dfy` | one unit's part in a rolling upgrade: health poll, refresh, reaction to the peer record |
| `UpgradeProtocol.dfy` | every run of the rolling upgrade: any unit may lead, readers may be stale, rounds may follow each other |
| `SnapTracks.dfy` | which snap track may follow which, and the recorded channel |
| `Broker.dfy`, `BrokerHistory.dfy`, `BrokerFaults.dfy` | the broker's permission tables, the capabilities derived from them, the request history, failing commands |
| `Nfs.dfy`, `NfsHandler.dfy` | the NFS host allocator and its handlers |
| `LeaderConfig.dfy` | the immutable public network and the reconciled cluster network |
| `ClusterConfigs.dfy` | the batched configuration push |
| `Networks.dfy`, `Ipv4.dfy`, `Ipv6.dfy` | subnet lists in general, IPv4 subnets as 32 bits plus a prefix length (section 3.1 of RFC 4632), and IPv6 subnets as eight groups plus a prefix length (section 2.3 of RFC 4291) |
| `DeviceFlags.dfy`, `Storage.dfy` | the flag parser, and the cache of config-driven OSD enrolment |
| `MonAddresses.dfy` | the published mon list |
| `PlacementGroups.dfy` | pool sizing |
| `Ordering.dfy`, `Text.dfy`, `Wrappers.dfy` | sorting, str methods, option and result types |

JSON encoding is taken to be injective, so a stored JSON text is modelled by the value it encodes, and
the joined capability string by the list of its grants. Health readings are an arbitrary sequence.

## Results worth knowing

- The order and completion of a rolling upgrade hold even when a non-leader acts on any record ever
  published, and whatever unit leads. A round without peers is published with an empty list, which is
  still a record, and stays until another round replaces it (`ClearableIffPeers`).
- "No downgrade" holds over every run of requests for named tracks. It fails through `latest`, which is
  always accepted: `LatestDowngradeExample` goes from squid to quincy. `NoDowngradeThroughLatest` extends
  it to every run under a condition on the exits from `latest`, which `ExitIsSafeIff` proves exact.
- An enable that raises after the host was enabled is not counted. `LimitKeptIff` says exactly when the
  limit of three hosts holds all the same and `EnsureReturns` when the result is right, for every order
  of the candidates; `LostReplyOvershoots` and `LostReplyMisreports` show both failures on the loop.
  Exclusivity of hosts holds in every case.
- The broker grants nothing beyond the saved requests whatever fails. That it grants everything fails
  when a key cannot be read, since an unreadable key counts as missing and is written back so
  (`HiddenServiceForgets`, `HiddenGroupForgets`). `ExactRunIff` says exactly when nothing is lost.

## Model

| member | source | states |
|---|---|---|
| Upgrade.MicroClusterPeers.PollOk | src/cluster.py:182-206 | the poll ends at the first point where three readings in a row were OK, and fails only if the readings before its deadline hold no such point |
| Upgrade.MicroClusterPeers.PerformUpgrade | src/cluster.py:156-215 | succeeds exactly when no command runs, the refresh works, the poll succeeds and one more reading is OK; the new channel is installed as soon as the refresh worked |
| Upgrade.SucceedsMeans | src/cluster.py:156-215 | an upgrade succeeds exactly when no command ran, the refresh worked, some three readings in a row were OK and the reading after the poll was OK |
| Upgrade.MicroClusterPeers.InitUpgrade | src/cluster.py:217-236 | the channel is recorded first and whatever follows; a round is published only after the leader's own successful upgrade, and lists the joined units in the order of their code points |
| Ordering.StrLeMeans | src/cluster.py:230 | the order of `sorted` on strings: a prefix comes first, else the first differing code point decides |
| Upgrade.MicroClusterPeers.HandleUpgradeLeader | src/relation_handlers.py:228-261 | the record after the event is the one `LeaderNext` gives, the function every run theorem below is about |
| Upgrade.MicroClusterPeers.HandleUpgradeNonLeader | src/relation_handlers.py:291-307 | only the head of the list that was read upgrades, and it publishes the record's nonce only after a successful upgrade |
| UpgradeProtocol.UpgradeOrder | src/relation_handlers.py:228-307 | in every run each published list is a suffix of its round's sorted list of distinct units, all units taken off have published the nonce, and a unit can begin only after every unit before it has |
| UpgradeProtocol.CollectTakesHead | src/relation_handlers.py:248-254 | `nodes.remove` always takes the head, whatever version of the record the sender had read |
| UpgradeProtocol.CollectInEveryRun | src/relation_handlers.py:228-261 | in every run an event changes the record exactly when its source published the current nonce and is still listed, and then the list loses its head and nothing else; martian and repeated dones change nothing |
| UpgradeProtocol.UpgradeCompletion | src/cluster.py:156-252 | in every run a cleared round had peers, and its starter and every listed unit have upgraded to its channel through three OK readings in a row and one more |
| UpgradeProtocol.RunKeepsInv | src/relation_handlers.py:203-307 | the invariant behind both, kept by every step of every run |
| UpgradeProtocol.PairsClearRound | src/cluster.py:238-252 | with one successful upgrade attempt per listed node, whatever each attempt looked like, one (node, leader) pair of steps per node clears the round |
| UpgradeProtocol.ClearableIffPeers | src/relation_handlers.py:263-269 | a fresh round can be cleared without starting another one if and only if it has peers |
| SnapTracks.ClusterUpgrades.HandleConfigLeaderCharmUpgrade | src/charm.py:1158-1167 | the recorded channel moves only for an accepted request on a healthy cluster, and then to the requested channel |
| SnapTracks.TrackOfChannel | src/cluster.py:131-136 | a channel's track is what stands before its first slash |
| SnapTracks.AcceptedIff | src/microceph.py:693-717 | between named tracks a request is accepted exactly when the new track exists under its lower-case name and its first letter, counted from q, is no earlier than the old one's; when it is refused, and that all else raises |
| SnapTracks.LatestIff | src/microceph.py:697-709 | `latest` is always accepted; from `latest` a track is accepted exactly when it is no earlier than the release that the store's version 17 to 20 stands for |
| SnapTracks.SuccessionOrdersLetters | src/microceph.py:711-717 | the succession q..z,a..p ranks the 26 letters without ties |
| SnapTracks.NoDowngrade | src/microceph.py:693-717 | over every run of requests for named tracks the recorded channel never moves to an older track |
| SnapTracks.NoDowngradeThroughLatest | src/microceph.py:693-717 | over every run, with any visits to `latest`, the last named track on record is no older than the one before the run, if each exit finds `latest` standing for a track no older than the last named one |
| SnapTracks.ExitIsSafeIff | src/microceph.py:697-709 | that condition is exact: after any run that ends on `latest`, no exit can reach an older track if and only if it holds |
| SnapTracks.LatestDowngradeExample | src/microceph.py:697-698 | squid, latest, quincy is accepted while the store maps latest to version 17 |
| Broker.PermissionStore.PoolPermissionList | src/ceph_broker.py:154-176 | the nested loops build permissions in sorted order, under each its groups in order, under each its pools, then the object prefixes |
| Broker.PermissionStore.AddPoolToGroup | src/ceph_broker.py:191-201 | the group gains the pool once and every listed service's capabilities are recomputed, each of these reads, writes and updates failing or not on its own |
| Broker.PermissionStore.AddPermissionsToKey | src/ceph_broker.py:897-929 | group, service and capabilities change in that order, each read failing or not on its own; a failing write leaves exactly what was written before it |
| BrokerHistory.PermissionsContain | src/ceph_broker.py:154-176 | a computed list grants exactly the pools of the named groups and the stored prefixes |
| BrokerHistory.PermissionsOrdered | src/ceph_broker.py:154-176 | pools come before prefixes, and in the order of their permissions |
| BrokerHistory.GroupsGrantsOrdered | src/ceph_broker.py:164-168 | under one permission, groups and pools come in the order in which they are stored |
| BrokerHistory.ListsOnlyExtend | src/ceph_broker.py:191-201 | successful requests only append to the stored lists, so that order is the order of arrival |
| BrokerHistory.StepKeepsInv | src/ceph_broker.py:191-201 | incremental refinement: each successful request keeps "S is in G.services iff S names G" and repeat-free lists, and leaves every service's installed capabilities equal to the recomputed ones |
| BrokerHistory.RunIsExact | src/ceph_broker.py:897-929 | after any history of successful requests the two tables hold exactly what the history asked for |
| BrokerHistory.GrantedIffJustified | src/ceph_broker.py:154-201 | confluence: a service holds a permission on a pool exactly when the history asked for that permission, or for none and it is rwx, on some group, and for the pool in that group |
| BrokerHistory.OrderDoesNotMatter | src/ceph_broker.py:897-929 | reordering or repeating requests changes no pool grant, and further requests never take one away |
| BrokerHistory.PrefixesAreLastAsked | src/ceph_broker.py:915-916 | a service's prefix capabilities are those of its last request that carried any, and none if no request did |
| BrokerFaults.NeverOverGrants | src/ceph_broker.py:179-201 | in every run, whatever single reads, writes and capability updates fail, a service is granted a permission on a pool only if a saved request asked for exactly that permission, or for none and it is rwx, on a group for which a saved request asked for the pool |
| BrokerFaults.KeepsTablesIff | src/ceph_broker.py:78-92 | a request of either kind keeps all earlier pools, members and group names if and only if it saves nothing over a key it could not read, or that key held nothing but what the request puts in |
| BrokerFaults.UpdateGrantsAllIff | src/ceph_broker.py:179-188 | an update computes every pool grant the tables call for if and only if each pool of a named group can be read from such a group, and an unreadable service has nothing to be granted |
| BrokerFaults.KeepsCapsIff | src/ceph_broker.py:191-201 | every pool grant the tables call for is still installed after a request if and only if each service's last update reads enough, or the service was not updated and holds the new grants already |
| BrokerFaults.ExactRunIff | src/ceph_broker.py:897-929 | over every run, the tables hold exactly what was written and every grant that follows is installed after each request, if and only if every request meets both conditions |
| BrokerFaults.GrantedIffSaved | src/ceph_broker.py:154-201 | in such a run a service holds a permission on a pool exactly when the requests that were saved justify it |
| BrokerFaults.HiddenServiceForgets | src/ceph_broker.py:913-924 | a service that asks for a second group while only its own key is unreadable loses the grants of the first |
| BrokerFaults.HiddenGroupForgets | src/ceph_broker.py:913-921 | a service that joins a group while only the group's key is unreadable wipes its pools and is granted none of them |
| Nfs.LoopReachesExactly | src/ceph_nfs.py:272-328 | the outcomes the run theorems are about are exactly those the loop reaches over some order of the candidates |
| Nfs.BindAddressMeans | src/ceph_nfs.py:345-358 | a host has a bind address exactly when its peer data has either one, and the NFS binding's wins |
| Nfs.EnsureReturns | src/ceph_nfs.py:317-328 | `_ensure_nfs_cluster` returns True exactly when the cluster then has a host, in whatever order hosts are tried, if and only if the cluster had one before, or no usable host would lose its reply, or some usable host would not |
| Nfs.EnsureSize | src/ceph_nfs.py:294-315 | the cluster's size after the call is its size before plus the hosts counted plus those whose reply was lost |
| Nfs.LimitKeptIff | src/ceph_nfs.py:278-315 | a cluster of at most three hosts has at most three after the call, in whatever order hosts are tried, if and only if it was full, or no usable host would lose its reply, or all usable hosts together fit |
| Nfs.LostReplyOvershoots | src/ceph_nfs.py:294-315 | the loop over four free hosts, of which the first one tried raises after being enabled, ends with all four in the cluster |
| Nfs.LostReplyMisreports | src/ceph_nfs.py:294-319 | with one free host that raises after being enabled, the call returns False and leaves a cluster of one host |
| Nfs.RunIsExclusive | src/ceph_nfs.py:272-328 | over every run no host is in two NFS clusters, and while every call meets the condition of LimitKeptIff no cluster exceeds three hosts |
| NfsHandler.CephNfsProviderHandler.FillCluster | src/ceph_nfs.py:272-328 | lists the free hosts in some order and ends with the services and the result that `Ensure` gives for it, the function the conditions above are about |
| NfsHandler.CephNfsProviderHandler.ServiceRelation | src/ceph_nfs.py:231-270 | the relation's data is filled in exactly when the cluster has a counted host and the manager calls worked, and cleared otherwise |
| NfsHandler.CephNfsProviderHandler.Reconcile | src/ceph_nfs.py:197-216 | whatever fails, relations are serviced in order until one is not, and data is filled in for those that were; with working calls the pass ends with min(hosts, 3 x relations) hosts in use, and a pass over a saturated allocation enables nothing; assignments are never taken away |
| NfsHandler.CephNfsProviderHandler.RemoveNfsCluster | src/ceph_nfs.py:404-422 | all and only the cluster's hosts are freed, unless one cannot be disabled, which raises |
| NfsHandler.CephNfsProviderHandler.Departed | src/ceph_nfs.py:369-402 | it raises exactly when a host of the cluster cannot be disabled; otherwise the cluster's hosts are freed, every other relation is serviced once, in order, from the freed list, an error is reported exactly when one was not serviced, and with working calls min(hosts, 3 x other relations) hosts are in use |
| NfsHandler.SaturatedCount | src/ceph_nfs.py:385-402 | conservation: an allocation with no free host, or only full clusters, uses exactly min(hosts, 3 x relations) hosts |
| NfsHandler.HandlersAreExclusive | src/ceph_nfs.py:197-422 | whatever the handlers did so far, their service list has exclusive hosts, and small clusters unless a call started that could overshoot |
| LeaderConfig.Leader.RecordAppliedPublicNetwork | src/charm.py:1004-1022 | the baseline is written from the option only if nothing was written, and a malformed option raises without writing |
| LeaderConfig.Leader.CheckNetworks | src/charm.py:278-322 | blocks exactly on a malformed option or when baseline and option differ as sets of entries |
| LeaderConfig.FirstWriteWins | src/charm.py:987-1022 | over every run of bootstraps, retries, adoptions and upgrades the baseline is the value of the first event that writes one, and never changes afterwards |
| LeaderConfig.BlocksMeans | src/charm.py:278-322 | blocks exactly on a malformed entry of either option, or when the baseline's entries are not, as a set, those of the option's canonical form |
| LeaderConfig.BlocksIffSubnetsDiffer | src/charm.py:292-322 | well-formed options block if and only if they denote another set of subnets, however they are ordered, repeated or spelled |
| LeaderConfig.IpBlocksIffSubnetsDiffer | src/charm.py:292-322 | the same for the options the charm accepts, which may mix IPv4 and IPv6 subnets |
| LeaderConfig.Leader.HandleClusterNetwork | src/charm.py:1024-1090 | a normal return means the record equals the option; a raise leaves record and daemon as they were |
| LeaderConfig.NetworkFollowsHistory | src/charm.py:1024-1090 | over every run, while no working pass set an option nothing is recorded and the daemon has bootstrap's value; when the last working pass set one, record and daemon have it; otherwise "" is recorded and the daemon has the subnet of the working pass that cleared the last option |
| LeaderConfig.HistoryDetermines | src/charm.py:1024-1090 | these cases exclude one another, so the passes alone determine record and daemon |
| LeaderConfig.NeverSetLeavesBootstrap | src/charm.py:1033-1037 | an option that was never set leaves what bootstrap applied and records nothing |
| ClusterConfigs.Daemon.UpdateClusterConfigs | src/microceph.py:238-264 | success means the daemon's map overridden by the request; the writes issued are a prefix of the changed keys in sorted order, complete exactly on success |
| ClusterConfigs.ChangedExactly | src/microceph.py:256-260 | the changed keys are each requested key whose value the daemon does not have, once, in sorted order |
| ClusterConfigs.SingleRestart | src/microceph.py:255-264 | exactly the last write restarts services, and there is one if and only if the request changes the map |
| Networks.TokensOfJoin | src/utils.py:175-177 | splitting undoes joining with commas |
| Networks.TokensConcat | src/utils.py:175-177 | a comma or any blank separates: what stands before and after it is split on its own |
| Networks.TokensArePlain | src/utils.py:175-177 | no entry is empty or has a comma or blank in it, and a text without any is one entry |
| Text.BlankCodes | src/utils.py:177 | which code points split() and strip() take for blanks |
| Networks.ParseNetworks | src/utils.py:180-205 | accepts exactly the values all of whose entries are subnets with a prefix length, names the first bad entry otherwise, and returns the canonical forms in order of first mention |
| Networks.FirstOccurrencesOrdered | src/utils.py:203-205 | dropping repeats keeps distinct entries in the order of their first occurrence |
| Networks.Reparse | src/utils.py:180-205 | the canonical list has no repeats, and parsing it again, joined by commas, gives it back |
| Networks.SameSubnets | src/utils.py:183-187 | two canonical lists hold the same strings exactly when the values denote the same subnets |
| Ipv4.ReadShownSubnet | src/utils.py:199-205 | a canonical IPv4 subnet, written in dotted decimal with its prefix length, reads back as itself |
| Ipv4.NetmaskSpelling | src/utils.py:199-205 | a prefix length spelled as a dotted netmask denotes the same subnet |
| Ipv4.ReadAddressIff | src/utils.py:199-205 | an IPv4 address is read from its dotted decimal form without leading zeros, and from nothing else |
| Ipv4.ReadMaskIff | src/utils.py:199-205 | after the slash stands a prefix length in digits, its netmask or its host mask, and nothing else |
| Ipv4.ReadSubnetIff | src/utils.py:199-205 | a subnet is read from its address, with host bits clear, and its mask, and from nothing else |
| Ipv6.ReadShownSubnet6 | src/utils.py:199-205 | an IPv6 subnet, written with its longest run of zero groups compressed, reads back as itself, scope id included |
| Ipv6.Spellings6 | src/utils.py:199-205 | an IPv6 address reads the same spelled out and with any run of zero groups left out |
| Ipv6.ReadPartsIff | src/utils.py:199-205 | the parts between colons give eight groups exactly when they are those groups, or leave one run of zero groups out |
| Ipv6.ReadHexIgnoresCase | src/utils.py:199-205 | upper-case digits read as lower-case ones |
| Ipv6.LongestRun | src/utils.py:205 | the double colon is written for the first of the longest runs of zero groups |
| Ipv6.ReadSubnet6Iff | src/utils.py:199-205 | a subnet is read from its address, with host bits clear, and its prefix length in digits, and from nothing else |
| Ipv6.MappedSpelling | src/utils.py:199-205 | the dotted form of an IPv4-mapped address reads as the same groups |
| Ipv6.IpIsLawful | src/utils.py:199-205 | reading and writing subnets of both versions satisfies the law the list theorems ask for |
| Ipv6.IpReparse | src/utils.py:180-205 | for every accepted list, of either version or mixed, the canonical form is free of repeats and stable under parsing it again |
| DeviceFlags.ParseDeviceAddFlags | src/device_flags.py:45-72 | accepts exactly the options whose non-blank entries are all known, and sets exactly the flags mentioned |
| DeviceFlags.ParseMeans | src/device_flags.py:62-72 | the six known flags, and the field each sets |
| DeviceFlags.ParseConcat | src/device_flags.py:62-72 | a comma joins two options into the field-wise OR of both, if both are accepted |
| DeviceFlags.ParseDependsOnMembers | src/device_flags.py:62-72 | order, repeats and blank entries do not matter |
| DeviceFlags.ParseIgnoresCase | src/device_flags.py:63 | nor does the case of letters |
| DeviceFlags.ParsePadded | src/device_flags.py:57-63 | nor do blanks around the option |
| DeviceFlags.ParseFlagsText | src/device_flags.py:62-72 | parsing reads back any set of flags that was written down |
| Storage.StorageHandler.NormalizeStorageConfig | src/storage.py:304-378 | nothing at all without OSD devices; no request exactly when a flag is unknown; else stripped OSD devices and OSD flags as given, and a WAL or DB part only with its devices, then with its size and flags |
| Storage.BlanksDoNotMatter | src/storage.py:380-383 | blanks around any option leave the request as it is |
| Storage.OrphanWalDoesNotMatter | src/storage.py:347-359 | without WAL devices no WAL size and no WAL flags change the request |
| Storage.OrphanDbDoesNotMatter | src/storage.py:348-368 | without DB devices no DB size and no DB flags change the request |
| Storage.TidyIff | src/storage.py:304-378 | a request can come out if and only if it is stripped and free of orphans, and then writing it down and normalizing it gives it back |
| Storage.StorageHandler.HasIgnoredWalDbConfig | src/storage.py:385-413 | true exactly when a WAL or DB option is set or a WAL or DB flag is mentioned |
| Storage.ScanAgreesWithParser | src/storage.py:399-413 | the scan of the raw option agrees with the parser on whether a WAL or DB flag is present |
| Storage.StorageHandler.IsCachedOsdConfig | src/storage.py:476-533 | a hit exactly when the signature or the legacy fields denote the request's triple |
| Storage.SameTripleIff | src/storage.py:427-436 | the cacheable part tells requests apart by device match, OSD wipe and OSD encrypt, and by nothing else |
| Storage.HitIffApplied | src/storage.py:476-533 | when the stored fields agree, a hit means exactly that the triple is the last one applied |
| Storage.OneHitIffAgree | src/storage.py:495-530 | a readable signature leaves one triple that hits if and only if it agrees with the legacy fields |
| Storage.StorageHandler.OnConfigChanged | src/storage.py:256-302 | a valid, ready event issues one command exactly when its triple differs from the last one applied since the last clear; the stored fields keep agreeing whatever happens |
| Storage.IssuesMeans | src/storage.py:256-302 | a command is issued exactly for well-formed options on a ready unit that name other OSD devices, or mention an OSD flag differently, than what was applied last, and when that changes |
| Storage.OutcomeMeans | src/storage.py:256-302 | when each outcome occurs, in terms of the options as written |
| Storage.RemarksMean | src/storage.py:385-425 | when ignored and unapplied WAL and DB settings are remarked upon |
| Storage.AppliedIsLastSinceClear | src/storage.py:256-302 | over every run that last triple is the one of the last command that did not fail with no clear after it, or the inherited one while there was neither |
| MonAddresses.SameForAnyOrder | src/utils.py:101-164 | the same addresses reported in any order, with the same live set, give the identical list |
| MonAddresses.ListIsSubset | src/utils.py:114-164 | the list is a sub-multiset of the report and empty only if the report is |
| MonAddresses.ListIsLive | src/utils.py:142-164 | it holds exactly the live reported addresses, or all of them when none is live |
| MonAddresses.ListIsOrdered | src/utils.py:101-111 | the list is in the order of the normalised addresses, and of the addresses themselves where those are equal |
| MonAddresses.ListCounts | src/utils.py:142-164 | each address in it occurs as often as it was reported |
| MonAddresses.CephClientProvides.LookupSystemInterfaces | src/charm.py:604-622 | the first of the machine's own addresses that is in the list, or "" when none is |
| MonAddresses.CephClientProvides.PublishMonData | src/relation_handlers.py:685-735 | the databags after publishing are `UnitAfter` and `AppAfter` of those before |
| MonAddresses.UnitAfterAt | src/relation_handlers.py:726-735 | each relation ends with this unit's own mon address, or without one, and other relations are untouched |
| MonAddresses.AppAfterAt | src/relation_handlers.py:734-735 | each relation ends with the whole list in the application's databag, and other relations are untouched |
| MonAddresses.RepublishChangesNothing | src/relation_handlers.py:685-735 | publishing an unchanged mon set again, reported in any order, changes no databag |
| PlacementGroups.GetPgs | src/ceph.py:959-1061 | the calculation for the OSD count, target and weight that the options and their defaults give, and 200 when no OSD is known or expected |
| PlacementGroups.PgsMeans | src/ceph.py:1040-1061 | over exact arithmetic, with n the floor of the quotient but at least 2, the result is the power of two r with 3n <= 4r and 2r < 3n |
| PlacementGroups.RoundedIsUnique | src/ceph.py:1049-1061 | only one power of two lies within those bounds |
| PlacementGroups.PgsMonotone | src/ceph.py:1040-1061 | more OSDs or weight never mean fewer placement groups, a larger pool size never means more |
| PlacementGroups.ClusterBudget | src/ceph.py:1040-1061 | pools whose weights add up to at most 100 use at most 150 replicas per OSD and two per unit of pool size |

## Left out

- Namespaced broker groups: an add-permissions request stores an already prefixed group name, which is prefixed again when it is read back (src/ceph_broker.py:911-924, src/ceph_broker.py:116-118); the permission model is namespace-free.
- Broker dispatch: the other operations, the request envelope and the response databag; only add-pool and add-permissions touch the permission tables.
- UpgradeProtocol.PairsClearRound: assumes that no listed unit is already inside an upgrade hook and that a unit outside the list leads meanwhile; a listed unit that becomes leader stops acting on the record, and its upgrade then waits.
- Upgrade: which units `all_joined_units` returns (the ops_sunbeam package is not part of this model; the joined units are a parameter), and statuses, deferrals and guards around the handlers.
- SnapTracks: case and existence of a track follow the store's answer; only ASCII letters are lower-cased.
- BrokerFaults.GrantedIffSaved: is about pool grants; that an unreadable service key also drops the stored prefixes is in the model but not stated.
- Nfs: relation data apart from whether it is filled in; volume, client key and fsid calls, which raise out of the hook when they fail; what a departing application keeps.
- LeaderConfig.Leader.HandleClusterNetwork: the daemon update and the record are one step, and a failed update changes nothing.
- LeaderConfig: the namespace-projects option, the quincy restriction and the space subnet lookup of bootstrap; the baseline is the option value, as in the code.
- Ipv6: the dotted form in which Python from version 3.13 on writes IPv4-mapped addresses; `MappedSpelling` proves that it reads as the same address.
- Storage: the OSD ledger of attached Juju storage, actions, and the text of commands; a stored signature that is valid JSON but no object counts as unreadable, as it does in the code.
- MonAddresses: parsing of messenger addresses and of ceph.conf; address normalisation is an arbitrary function, and the machine's own addresses are a list.
- PlacementGroups: floating-point rounding; OSD counts above zero and pool sizes above zero are exact, and a pool's other creation steps are not modelled.
- RGW, Keystone, Traefik, certificates, COS agent, maintenance actions, cluster join and removal.
