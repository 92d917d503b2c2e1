/**
 * The broker's permission store (src/ceph_broker.py): groups and services are two tables that refer
 * to each other, and the cephx capabilities are a third table kept up to date request by request.
 */
module Broker {
  import opened Ordering

  datatype Group = Group(pools: seq<string>, services: seq<string>)

  /** names: permission to group names, in order of arrival; prefixes: permission to object prefixes. */
  datatype Service = Service(names: map<string, seq<string>>, prefixes: map<string, seq<string>>)

  datatype Grant = PoolGrant(perm: string, pool: string) | PrefixGrant(perm: string, prefix: string)

  /** The two tables in the monitors' key store, and the OSD capabilities last installed for each client. */
  datatype Store = Store(groups: map<string, Group>, services: map<string, Service>, caps: map<string, seq<Grant>>)

  const EMPTY := Store(map[], map[], map[])

  /** A request; an absent "group-permission" is "". */
  datatype Request =
    | AddPool(pool: string, group: string)
    | AddPermissions(service: string, group: string, permission: string, prefixes: map<string, seq<string>>)

  /**
   * What may go wrong in one `update_service_permissions`: the service's key cannot be read, some group
   * keys cannot, or the capabilities are not installed. A failed read counts as a missing key. The
   * groups read go into a dict, so of several reads of one group only the last matters.
   */
  datatype Update = Update(serviceHidden: bool, hiddenGroups: set<string>, lost: bool)

  /**
   * What may go wrong while one request is handled: its own reads of the group and the service fail, a
   * write raises and ends the request, and each of the updates that follow goes its own way.
   */
  datatype Fault = Fault(groupHidden: bool, serviceHidden: bool, groupUnsaved: bool, serviceUnsaved: bool, updates: seq<Update>)
  {
    function UpdateAt(i: nat): Update {
      if i < |updates| then updates[i] else Update(false, {}, false)
    }
  }

  const NO_FAULT := Fault(false, false, false, false, [])

  function GetGroup(groups: map<string, Group>, name: string): Group {
    if name in groups then groups[name] else Group([], [])
  }

  function GetService(services: map<string, Service>, name: string): Service {
    if name in services then services[name] else Service(map[], map[])
  }

  function AppendNew(xs: seq<string>, x: string): seq<string> {
    if x in xs then xs else xs + [x]
  }

  function Effective(permission: string): string {
    if permission == "" then "rwx" else permission
  }

  // ---- the capability list of one service ----

  function PoolList(perm: string, pools: seq<string>): seq<Grant> {
    seq(|pools|, i requires 0 <= i < |pools| => PoolGrant(perm, pools[i]))
  }

  function PrefixList(perm: string, prefixes: seq<string>): seq<Grant> {
    seq(|prefixes|, i requires 0 <= i < |prefixes| => PrefixGrant(perm, prefixes[i]))
  }

  /** The grants of one permission over a list of groups, group by group. */
  function GroupsGrants(perm: string, names: seq<string>, groups: map<string, Group>): seq<Grant> {
    if names == [] then []
    else GroupsGrants(perm, names[..|names| - 1], groups) + PoolList(perm, GetGroup(groups, names[|names| - 1]).pools)
  }

  function PoolGrants(perms: seq<string>, names: map<string, seq<string>>, groups: map<string, Group>): seq<Grant>
    requires forall p <- perms :: p in names
  {
    if perms == [] then []
    else
      var perm := perms[|perms| - 1];
      PoolGrants(perms[..|perms| - 1], names, groups) + GroupsGrants(perm, names[perm], groups)
  }

  function PrefixGrants(perms: seq<string>, prefixes: map<string, seq<string>>): seq<Grant>
    requires forall p <- perms :: p in prefixes
  {
    if perms == [] then []
    else
      var perm := perms[|perms| - 1];
      PrefixGrants(perms[..|perms| - 1], prefixes) + PrefixList(perm, prefixes[perm])
  }

  /** Permissions in sorted order; under each, its groups in order of arrival; prefixes at the end. */
  function Permissions(service: Service, groups: map<string, Group>): seq<Grant> {
    PoolGrants(SortedSet(service.names.Keys), service.names, groups)
    + PrefixGrants(SortedSet(service.prefixes.Keys), service.prefixes)
  }

  // ---- one request as a state transition ----

  function Visible<V>(m: map<string, V>, hidden: set<string>): map<string, V> {
    m - hidden
  }

  function Join(g: Group, pool: string): Group {
    g.(pools := AppendNew(g.pools, pool))
  }

  function Enroll(g: Group, service: string): Group {
    g.(services := AppendNew(g.services, service))
  }

  function NameGroup(names: map<string, seq<string>>, perm: string, group: string): map<string, seq<string>> {
    names[perm := AppendNew(if perm in names then names[perm] else [], group)]
  }

  function Permit(svc: Service, group: string, permission: string, prefixes: map<string, seq<string>>): Service {
    Service(NameGroup(svc.names, Effective(permission), group), if prefixes == map[] then svc.prefixes else prefixes)
  }

  function ReadGroup(groups: map<string, Group>, name: string, hidden: bool): Group {
    if hidden then Group([], []) else GetGroup(groups, name)
  }

  function ReadService(services: map<string, Service>, name: string, hidden: bool): Service {
    if hidden then Service(map[], map[]) else GetService(services, name)
  }

  /** The capabilities `update_service_permissions` computes from what it can read. */
  function CapsOf(services: map<string, Service>, groups: map<string, Group>, name: string, u: Update): seq<Grant> {
    Permissions(ReadService(services, name, u.serviceHidden), Visible(groups, u.hiddenGroups))
  }

  /** The capabilities after the listed services have been updated one after the other. */
  function Refresh(s: Store, listed: seq<string>, f: Fault): map<string, seq<Grant>> {
    if listed == [] then s.caps
    else
      var name, u := listed[|listed| - 1], f.UpdateAt(|listed| - 1);
      var before := Refresh(s, listed[..|listed| - 1], f);
      if u.lost then before else before[name := CapsOf(s.services, s.groups, name, u)]
  }

  function ApplyPool(s: Store, pool: string, group: string, f: Fault): Store {
    var g := ReadGroup(s.groups, group, f.groupHidden);
    if f.groupUnsaved then s
    else
      var saved := s.(groups := s.groups[group := Join(g, pool)]);
      saved.(caps := Refresh(saved, g.services, f))
  }

  /** The group is saved first, then the service, then the service's capabilities are installed. */
  function ApplyPermissions(s: Store, name: string, svc: Service, group: string, f: Fault): Store {
    if f.groupUnsaved then s
    else
      var groups := s.groups[group := Enroll(ReadGroup(s.groups, group, f.groupHidden), name)];
      if f.serviceUnsaved then s.(groups := groups)
      else
        var u := f.UpdateAt(0);
        Store(groups, s.services[name := svc],
              if u.lost then s.caps else s.caps[name := Permissions(svc, Visible(groups, u.hiddenGroups))])
  }

  function Apply(s: Store, r: Request, f: Fault): Store {
    match r
    case AddPool(pool, group) => ApplyPool(s, pool, group, f)
    case AddPermissions(name, group, permission, prefixes) =>
      var svc := Permit(ReadService(s.services, name, f.serviceHidden), group, permission, prefixes);
      ApplyPermissions(s, name, svc, group, f)
  }

  // ---- the handlers ----

  class PermissionStore {
    var groups: map<string, Group>
    var services: map<string, Service>
    var caps: map<string, seq<Grant>>

    constructor ()
      ensures Contents() == EMPTY
    {
      groups, services, caps := map[], map[], map[];
    }

    function Contents(): Store
      reads this
    {
      Store(groups, services, caps)
    }

    /** The inner loops of `pool_permission_list_for_service`: the pools of one permission's groups. */
    static method AppendPoolGrants(start: seq<Grant>, perm: string, names: seq<string>, groups: map<string, Group>)
      returns (permissions: seq<Grant>)
      ensures permissions == start + GroupsGrants(perm, names, groups)
    {
      permissions := start;
      for j := 0 to |names|
        invariant permissions == start + GroupsGrants(perm, names[..j], groups)
      {
        var pools := GetGroup(groups, names[j]).pools;
        ghost var before := permissions;
        for k := 0 to |pools|
          invariant permissions == before + PoolList(perm, pools[..k])
        {
          permissions := permissions + [PoolGrant(perm, pools[k])];
        }
        assert pools[..|pools|] == pools && names[..j + 1][..j] == names[..j];
      }
      assert names[..|names|] == names;
    }

    /** `pool_permission_list_for_service`. */
    static method PoolPermissionList(service: Service, groups: map<string, Group>) returns (permissions: seq<Grant>)
      ensures permissions == Permissions(service, groups)
    {
      permissions := [];
      var perms := SortedSet(service.names.Keys);
      for i := 0 to |perms|
        invariant permissions == PoolGrants(perms[..i], service.names, groups)
      {
        permissions := AppendPoolGrants(permissions, perms[i], service.names[perms[i]], groups);
        assert perms[..i + 1][..i] == perms[..i];
      }
      assert perms[..|perms|] == perms;
      permissions := AppendPrefixGrants(permissions, service.prefixes);
    }

    /** The last loop of `pool_permission_list_for_service`. */
    static method AppendPrefixGrants(start: seq<Grant>, prefixes: map<string, seq<string>>) returns (permissions: seq<Grant>)
      ensures permissions == start + PrefixGrants(SortedSet(prefixes.Keys), prefixes)
    {
      permissions := start;
      var perms := SortedSet(prefixes.Keys);
      for i := 0 to |perms|
        invariant permissions == start + PrefixGrants(perms[..i], prefixes)
      {
        var list := prefixes[perms[i]];
        ghost var before := permissions;
        for k := 0 to |list|
          invariant permissions == before + PrefixList(perms[i], list[..k])
        {
          permissions := permissions + [PrefixGrant(perms[i], list[k])];
        }
        assert list[..|list|] == list && perms[..i + 1][..i] == perms[..i];
      }
      assert perms[..|perms|] == perms;
    }

    /** `update_service_permissions` for a service read from the store. */
    method UpdateServicePermissions(name: string, u: Update)
      modifies this`caps
      ensures caps == if u.lost then old(caps) else old(caps)[name := CapsOf(services, groups, name, u)]
    {
      var service := ReadService(services, name, u.serviceHidden);
      var permissions := PoolPermissionList(service, Visible(groups, u.hiddenGroups));
      if !u.lost {
        caps := caps[name := permissions];
      }
    }

    /** `add_pool_to_group`, reached from the pool-creating operations. */
    method AddPoolToGroup(pool: string, group: string, f: Fault) returns (saved: bool)
      modifies this
      ensures Contents() == Apply(old(Contents()), AddPool(pool, group), f)
      ensures saved == !f.groupUnsaved
    {
      var g := ReadGroup(groups, group, f.groupHidden);
      if pool !in g.pools {
        g := g.(pools := g.pools + [pool]);
      }
      if f.groupUnsaved {
        return false;
      }
      groups := groups[group := g];
      ghost var before := Contents();
      for i := 0 to |g.services|
        invariant groups == before.groups && services == before.services
        invariant caps == Refresh(before, g.services[..i], f)
      {
        UpdateServicePermissions(g.services[i], f.UpdateAt(i));
        assert g.services[..i + 1][..i] == g.services[..i];
      }
      assert g.services[..|g.services|] == g.services;
      saved := true;
    }

    /** The nested default and append on `group_names`. */
    static method AppendGroupName(start: map<string, seq<string>>, perm: string, group: string)
      returns (names: map<string, seq<string>>)
      ensures names == NameGroup(start, perm, group)
    {
      names := start;
      if perm !in names {
        names := names[perm := []];
      }
      if group !in names[perm] {
        names := names[perm := names[perm] + [group]];
      }
    }

    /** The first half of `handle_add_permissions_to_key`: the service joins the group, which is saved. */
    method SaveMember(name: string, groupName: string, f: Fault) returns (saved: bool)
      modifies this`groups
      ensures saved == !f.groupUnsaved
      ensures groups == if f.groupUnsaved then old(groups)
                        else old(groups)[groupName := Enroll(ReadGroup(old(groups), groupName, f.groupHidden), name)]
    {
      var group := ReadGroup(groups, groupName, f.groupHidden);
      if name !in group.services {
        group := group.(services := group.services + [name]);
      }
      saved := !f.groupUnsaved;
      if saved {
        groups := groups[groupName := group];
      }
    }

    /** The changes `handle_add_permissions_to_key` makes to the service object in memory. */
    static method PermitGroup(start: Service, groupName: string, permission: string, prefixes: map<string, seq<string>>)
      returns (service: Service)
      ensures service == Permit(start, groupName, permission, prefixes)
    {
      service := start;
      if prefixes != map[] {
        service := service.(prefixes := prefixes);
      }
      var perm := if permission == "" then "rwx" else permission;
      var names := AppendGroupName(service.names, perm, groupName);
      service := service.(names := names);
    }

    /** `save_service` followed by `update_service_permissions` on the object just saved. */
    method SaveService(name: string, service: Service, u: Update)
      modifies this`services, this`caps
      ensures services == old(services)[name := service]
      ensures caps == if u.lost then old(caps)
                      else old(caps)[name := Permissions(service, Visible(groups, u.hiddenGroups))]
    {
      services := services[name := service];
      var permissions := PoolPermissionList(service, Visible(groups, u.hiddenGroups));
      if !u.lost {
        caps := caps[name := permissions];
      }
    }

    /** `handle_add_permissions_to_key` for a request without a namespace. */
    method AddPermissionsToKey(name: string, groupName: string, permission: string, prefixes: map<string, seq<string>>, f: Fault)
      returns (saved: bool)
      modifies this
      ensures Contents() == Apply(old(Contents()), AddPermissions(name, groupName, permission, prefixes), f)
      ensures saved == (!f.groupUnsaved && !f.serviceUnsaved)
    {
      var service := PermitGroup(ReadService(services, name, f.serviceHidden), groupName, permission, prefixes);
      saved := SaveMember(name, groupName, f);
      if !saved || f.serviceUnsaved {
        return false;
      }
      SaveService(name, service, f.UpdateAt(0));
    }
  }
}
