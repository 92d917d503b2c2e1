/**
 * The permission store against the history of requests: what each service may do, in every run.
 */
module BrokerHistory {
  import opened Wrappers
  import opened Ordering
  import opened Broker

  // ---- what the history asks for ----

  ghost predicate PoolAsked(history: seq<Request>, pool: string, group: string) {
    AddPool(pool, group) in history
  }

  ghost predicate PermissionAsked(history: seq<Request>, service: string, group: string, perm: string) {
    exists r <- history :: r.AddPermissions? && r.service == service && r.group == group && Effective(r.permission) == perm
  }

  /** The grant the history justifies: the service holds the permission on a group that has the pool. */
  ghost predicate Justified(history: seq<Request>, service: string, perm: string, pool: string) {
    exists group :: PermissionAsked(history, service, group, perm) && PoolAsked(history, pool, group)
  }

  /** In terms of the requests' own fields; a request without a permission asks for rwx. */
  lemma JustifiedMeans(history: seq<Request>, service: string, perm: string, pool: string)
    ensures Justified(history, service, perm, pool)
            <==> exists r <- history ::
                   r.AddPermissions? && r.service == service && AddPool(pool, r.group) in history
                   && (if r.permission == "" then perm == "rwx" else perm == r.permission)
  {
    if r :| r in history && r.AddPermissions? && r.service == service && AddPool(pool, r.group) in history
            && (if r.permission == "" then perm == "rwx" else perm == r.permission) {
      assert PermissionAsked(history, service, r.group, perm) && PoolAsked(history, pool, r.group);
    }
  }

  ghost predicate Granted(s: Store, service: string, grant: Grant) {
    service in s.caps && grant in s.caps[service]
  }

  /** The object prefixes of the last request of the service that carried any. */
  function LastPrefixes(history: seq<Request>, service: string): map<string, seq<string>> {
    if history == [] then map[]
    else
      var r := history[|history| - 1];
      if r.AddPermissions? && r.service == service && r.prefixes != map[] then r.prefixes
      else LastPrefixes(history[..|history| - 1], service)
  }

  function RunFrom(s: Store, history: seq<Request>, faults: seq<Fault>): Store
    requires |history| == |faults|
  {
    if history == [] then s
    else
      Apply(RunFrom(s, history[..|history| - 1], faults[..|faults| - 1]), history[|history| - 1], faults[|faults| - 1])
  }

  function Run(history: seq<Request>): Store {
    if history == [] then EMPTY else Apply(Run(history[..|history| - 1]), history[|history| - 1], NO_FAULT)
  }

  // ---- what a computed capability list contains ----

  ghost predicate Names(service: Service, perm: string, group: string) {
    perm in service.names && group in service.names[perm]
  }

  lemma {:induction false} GroupsGrantsContain(perm: string, names: seq<string>, groups: map<string, Group>, g: Grant)
    ensures g in GroupsGrants(perm, names, groups)
            <==> g.PoolGrant? && g.perm == perm && exists n <- names :: g.pool in GetGroup(groups, n).pools
  {
    if names != [] {
      var n := names[|names| - 1];
      var init := names[..|names| - 1];
      GroupsGrantsContain(perm, init, groups, g);
      var pools := GetGroup(groups, n).pools;
      assert g in PoolList(perm, pools) <==> g.PoolGrant? && g.perm == perm && g.pool in pools by {
        if g.PoolGrant? && g.perm == perm && g.pool in pools {
          var i :| 0 <= i < |pools| && pools[i] == g.pool;
          assert PoolList(perm, pools)[i] == g;
        }
      }
      assert forall m :: m in names <==> m in init || m == n by { assert names == init + [n]; }
    }
  }

  lemma {:induction false} PoolGrantsContain(perms: seq<string>, names: map<string, seq<string>>, groups: map<string, Group>, g: Grant)
    requires forall p <- perms :: p in names
    ensures g in PoolGrants(perms, names, groups)
            <==> g.PoolGrant? && g.perm in perms && exists n <- names[g.perm] :: g.pool in GetGroup(groups, n).pools
  {
    if perms != [] {
      var last := perms[|perms| - 1];
      PoolGrantsContain(perms[..|perms| - 1], names, groups, g);
      GroupsGrantsContain(last, names[last], groups, g);
      assert perms == perms[..|perms| - 1] + [last];
    }
  }

  lemma {:induction false} PrefixGrantsContain(perms: seq<string>, prefixes: map<string, seq<string>>, g: Grant)
    requires forall p <- perms :: p in prefixes
    ensures g in PrefixGrants(perms, prefixes) <==> g.PrefixGrant? && g.perm in perms && g.prefix in prefixes[g.perm]
  {
    if perms != [] {
      var last := perms[|perms| - 1];
      PrefixGrantsContain(perms[..|perms| - 1], prefixes, g);
      assert perms == perms[..|perms| - 1] + [last];
      var list := prefixes[last];
      assert g in PrefixList(last, list) <==> g.PrefixGrant? && g.perm == last && g.prefix in list by {
        if g.PrefixGrant? && g.perm == last && g.prefix in list {
          var i :| 0 <= i < |list| && list[i] == g.prefix;
          assert PrefixList(last, list)[i] == g;
        }
      }
    }
  }

  /** A computed list grants exactly the pools of the named groups and the stored prefixes. */
  lemma {:induction false} PermissionsContain(service: Service, groups: map<string, Group>, g: Grant)
    ensures g in Permissions(service, groups) <==>
      match g
      case PoolGrant(perm, pool) => exists n :: Names(service, perm, n) && pool in GetGroup(groups, n).pools
      case PrefixGrant(perm, prefix) => perm in service.prefixes && prefix in service.prefixes[perm]
  {
    PoolGrantsContain(SortedSet(service.names.Keys), service.names, groups, g);
    PrefixGrantsContain(SortedSet(service.prefixes.Keys), service.prefixes, g);
    if g.PoolGrant? {
      if g in Permissions(service, groups) {
        var n :| n in service.names[g.perm] && g.pool in GetGroup(groups, n).pools;
        assert Names(service, g.perm, n);
      }
    }
  }

  // ---- the invariant of fault-free runs ----

  ghost predicate NamesSomehow(service: Service, group: string) {
    exists perm :: Names(service, perm, group)
  }

  /** Each group lists a service exactly when the service names the group under some permission. */
  ghost predicate TwoWay(s: Store) {
    forall service, group ::
      service in GetGroup(s.groups, group).services <==> NamesSomehow(GetService(s.services, service), group)
  }

  ghost predicate NoRepeats(s: Store) {
    && (forall g <- s.groups :: Distinct(s.groups[g].pools) && Distinct(s.groups[g].services))
    && (forall n <- s.services, p | p in s.services[n].names :: Distinct(s.services[n].names[p]))
  }

  /** The installed capabilities are those recomputed from the stored tables. */
  ghost predicate CapsExact(s: Store) {
    s.caps.Keys == s.services.Keys
    && forall n <- s.services :: s.caps[n] == Permissions(s.services[n], s.groups)
  }

  ghost predicate Inv(s: Store) {
    TwoWay(s) && NoRepeats(s) && CapsExact(s)
  }

  ghost predicate PoolsMatch(s: Store, history: seq<Request>) {
    forall pool, group :: pool in GetGroup(s.groups, group).pools <==> PoolAsked(history, pool, group)
  }

  ghost predicate NamesMatch(s: Store, history: seq<Request>) {
    forall service, group, perm ::
      Names(GetService(s.services, service), perm, group) <==> PermissionAsked(history, service, group, perm)
  }

  ghost predicate PrefixesMatch(s: Store, history: seq<Request>) {
    forall service :: GetService(s.services, service).prefixes == LastPrefixes(history, service)
  }

  ghost predicate TablesMatch(s: Store, history: seq<Request>) {
    PoolsMatch(s, history) && NamesMatch(s, history) && PrefixesMatch(s, history)
  }

  lemma {:induction false} VisibleAll<V>(m: map<string, V>)
    ensures Visible(m, {}) == m
  {
  }

  lemma {:induction false} GroupsGrantsFrame(perm: string, names: seq<string>, a: map<string, Group>, b: map<string, Group>)
    requires forall n <- names :: GetGroup(a, n).pools == GetGroup(b, n).pools
    ensures GroupsGrants(perm, names, a) == GroupsGrants(perm, names, b)
  {
    if names != [] {
      assert names[|names| - 1] in names;
      GroupsGrantsFrame(perm, names[..|names| - 1], a, b);
    }
  }

  lemma {:induction false} PoolGrantsFrame(perms: seq<string>, names: map<string, seq<string>>, a: map<string, Group>, b: map<string, Group>)
    requires forall p <- perms :: p in names
    requires forall p <- perms, n | n in names[p] :: GetGroup(a, n).pools == GetGroup(b, n).pools
    ensures PoolGrants(perms, names, a) == PoolGrants(perms, names, b)
  {
    if perms != [] {
      var last := perms[|perms| - 1];
      assert last in perms;
      PoolGrantsFrame(perms[..|perms| - 1], names, a, b);
      GroupsGrantsFrame(last, names[last], a, b);
    }
  }

  /** A service's capabilities depend only on the pools of the groups it names. */
  lemma {:induction false} PermissionsFrame(service: Service, a: map<string, Group>, b: map<string, Group>)
    requires forall perm, n | Names(service, perm, n) :: GetGroup(a, n).pools == GetGroup(b, n).pools
    ensures Permissions(service, a) == Permissions(service, b)
  {
    forall p <- SortedSet(service.names.Keys), n | n in service.names[p]
      ensures GetGroup(a, n).pools == GetGroup(b, n).pools
    {
      assert Names(service, p, n);
    }
    PoolGrantsFrame(SortedSet(service.names.Keys), service.names, a, b);
  }

  /** The last update of the service among the listed ones that is not lost. */
  function LastUpdate(listed: seq<string>, f: Fault, name: string): Option<Update> {
    if listed == [] then None
    else
      var last := |listed| - 1;
      if listed[last] == name && !f.UpdateAt(last).lost then Some(f.UpdateAt(last)) else LastUpdate(listed[..last], f, name)
  }

  lemma {:induction false} RefreshAt(s: Store, listed: seq<string>, f: Fault, name: string)
    ensures var caps := Refresh(s, listed, f); var u := LastUpdate(listed, f, name);
      && (name in caps <==> name in s.caps || u.Some?)
      && (name in caps ==> caps[name] == if u.Some? then CapsOf(s.services, s.groups, name, u.value) else s.caps[name])
  {
    if listed != [] {
      RefreshAt(s, listed[..|listed| - 1], f, name);
    }
  }

  /** Without faults every listed service is updated. */
  lemma {:induction false} LastUpdateWithoutFaults(listed: seq<string>, name: string)
    ensures LastUpdate(listed, NO_FAULT, name) == if name in listed then Some(Update(false, {}, false)) else None
  {
    if listed != [] {
      LastUpdateWithoutFaults(listed[..|listed| - 1], name);
      assert listed == listed[..|listed| - 1] + [listed[|listed| - 1]];
    }
  }

  lemma {:induction false} RefreshWithoutFaults(s: Store, listed: seq<string>, name: string)
    ensures var caps := Refresh(s, listed, NO_FAULT);
      && (name in caps <==> name in s.caps || name in listed)
      && (name in caps ==>
            caps[name] == if name in listed then CapsOf(s.services, s.groups, name, Update(false, {}, false)) else s.caps[name])
  {
    RefreshAt(s, listed, NO_FAULT, name);
    LastUpdateWithoutFaults(listed, name);
  }

  /** What a fault-free add-pool changes. */
  ghost predicate PoolStep(s: Store, t: Store, pool: string, group: string) {
    var members := GetGroup(s.groups, group).services;
    && t.services == s.services
    && t.groups == s.groups[group := Join(GetGroup(s.groups, group), pool)]
    && (forall n :: n in t.caps <==> n in s.caps || n in members)
    && (forall n <- t.caps ::
          t.caps[n] == if n in members then Permissions(GetService(s.services, n), t.groups) else s.caps[n])
  }

  lemma {:induction false} AddPoolEffect(s: Store, pool: string, group: string)
    ensures PoolStep(s, Apply(s, AddPool(pool, group), NO_FAULT), pool, group)
  {
    var t := Apply(s, AddPool(pool, group), NO_FAULT);
    VisibleAll(s.groups);
    VisibleAll(t.groups);
    VisibleAll(s.services);
    forall n: string { RefreshWithoutFaults(s.(groups := t.groups), GetGroup(s.groups, group).services, n); }
  }

  /** What a fault-free add-permissions changes in the tables. */
  ghost predicate PermitTables(s: Store, t: Store, r: Request)
    requires r.AddPermissions?
  {
    && t.groups == s.groups[r.group := Enroll(GetGroup(s.groups, r.group), r.service)]
    && t.services == s.services[r.service := Permit(GetService(s.services, r.service), r.group, r.permission, r.prefixes)]
  }

  ghost predicate PermitStep(s: Store, t: Store, r: Request)
    requires r.AddPermissions?
  {
    PermitTables(s, t, r) && t.caps == s.caps[r.service := Permissions(t.services[r.service], t.groups)]
  }

  lemma {:induction false} AddPermissionsEffect(s: Store, r: Request)
    requires r.AddPermissions?
    ensures PermitStep(s, Apply(s, r, NO_FAULT), r)
  {
    VisibleAll(s.groups);
    VisibleAll(s.services);
    VisibleAll(s.groups[r.group := Enroll(GetGroup(s.groups, r.group), r.service)]);
  }

  lemma {:induction false} PoolKeepsTwoWay(s: Store, t: Store, pool: string, group: string)
    requires TwoWay(s) && PoolStep(s, t, pool, group)
    ensures TwoWay(t)
  {
    forall service, g
      ensures service in GetGroup(t.groups, g).services <==> NamesSomehow(GetService(t.services, service), g)
    {
      assert GetGroup(t.groups, g).services == GetGroup(s.groups, g).services;
    }
  }

  lemma {:induction false} PoolKeepsOutsider(s: Store, t: Store, pool: string, group: string, n: string)
    requires TwoWay(s) && PoolStep(s, t, pool, group)
    requires n in s.services && n !in GetGroup(s.groups, group).services
    ensures Permissions(s.services[n], s.groups) == Permissions(s.services[n], t.groups)
  {
    assert GetService(s.services, n) == s.services[n] && !NamesSomehow(s.services[n], group);
    forall perm, m | Names(s.services[n], perm, m) ensures GetGroup(s.groups, m).pools == GetGroup(t.groups, m).pools {
      assert NamesSomehow(s.services[n], m);
    }
    PermissionsFrame(s.services[n], s.groups, t.groups);
  }

  /** A service outside the group names it under no permission, so its capabilities need no update. */
  lemma {:induction false} PoolKeepsCaps(s: Store, t: Store, pool: string, group: string)
    requires TwoWay(s) && CapsExact(s) && PoolStep(s, t, pool, group)
    ensures CapsExact(t)
  {
    var members := GetGroup(s.groups, group).services;
    forall n <- members ensures n in s.services {
      assert NamesSomehow(GetService(s.services, n), group);
    }
    forall n <- t.services ensures t.caps[n] == Permissions(t.services[n], t.groups) {
      if n !in members {
        PoolKeepsOutsider(s, t, pool, group, n);
      }
    }
  }

  lemma {:induction false} PermitNames(svc: Service, r: Request, group: string)
    requires r.AddPermissions?
    ensures var permitted := Permit(svc, r.group, r.permission, r.prefixes);
      forall perm :: Names(permitted, perm, group) <==> Names(svc, perm, group) || (perm == Effective(r.permission) && group == r.group)
  {
  }

  lemma {:induction false} PermitKeepsTwoWay(s: Store, t: Store, r: Request)
    requires TwoWay(s) && r.AddPermissions? && PermitTables(s, t, r)
    ensures TwoWay(t)
  {
    forall service, group
      ensures service in GetGroup(t.groups, group).services <==> NamesSomehow(GetService(t.services, service), group)
    {
      var before := GetService(s.services, service);
      if service == r.service {
        PermitNames(before, r, group);
        if group == r.group {
          assert Names(t.services[service], Effective(r.permission), group);
        }
      }
      assert service in GetGroup(s.groups, group).services <==> NamesSomehow(before, group);
    }
  }

  lemma {:induction false} PermitKeepsOther(s: Store, t: Store, r: Request, n: string)
    requires r.AddPermissions? && PermitTables(s, t, r) && n in s.services
    ensures Permissions(s.services[n], s.groups) == Permissions(s.services[n], t.groups)
  {
    assert forall m :: GetGroup(s.groups, m).pools == GetGroup(t.groups, m).pools;
    PermissionsFrame(s.services[n], s.groups, t.groups);
  }

  lemma {:induction false} PermitKeepsCaps(s: Store, t: Store, r: Request)
    requires CapsExact(s) && r.AddPermissions? && PermitStep(s, t, r)
    ensures CapsExact(t)
  {
    forall n <- t.services ensures t.caps[n] == Permissions(t.services[n], t.groups) {
      if n != r.service {
        PermitKeepsOther(s, t, r, n);
      }
    }
  }

  lemma {:induction false} AppendNewKeepsDistinct(xs: seq<string>, x: string)
    requires Distinct(xs)
    ensures Distinct(AppendNew(xs, x))
  {
  }

  lemma {:induction false} PoolKeepsNoRepeats(s: Store, t: Store, pool: string, group: string)
    requires NoRepeats(s) && PoolStep(s, t, pool, group)
    ensures NoRepeats(t)
  {
    AppendNewKeepsDistinct(GetGroup(s.groups, group).pools, pool);
  }

  lemma {:induction false} PermitKeepsNoRepeats(s: Store, t: Store, r: Request)
    requires NoRepeats(s) && r.AddPermissions? && PermitTables(s, t, r)
    ensures NoRepeats(t)
  {
    AppendNewKeepsDistinct(GetGroup(s.groups, r.group).services, r.service);
    var names := GetService(s.services, r.service).names;
    var perm := Effective(r.permission);
    AppendNewKeepsDistinct(if perm in names then names[perm] else [], r.group);
  }

  /**
   * Incremental refinement: every fault-free request keeps the two tables in agreement with each
   * other, keeps their lists free of repeats, and leaves every service's installed capabilities
   * equal to the ones recomputed from the tables.
   */
  lemma {:induction false} StepKeepsInv(s: Store, r: Request)
    requires Inv(s)
    ensures Inv(Apply(s, r, NO_FAULT))
  {
    var t := Apply(s, r, NO_FAULT);
    match r {
      case AddPool(pool, group) =>
        AddPoolEffect(s, pool, group);
        PoolKeepsNoRepeats(s, t, pool, group);
        PoolKeepsTwoWay(s, t, pool, group);
        PoolKeepsCaps(s, t, pool, group);
      case AddPermissions(_, _, _, _) =>
        AddPermissionsEffect(s, r);
        PermitKeepsNoRepeats(s, t, r);
        PermitKeepsTwoWay(s, t, r);
        PermitKeepsCaps(s, t, r);
    }
  }

  // ---- the tables against the history ----

  lemma {:induction false} PoolAskedAppend(history: seq<Request>, r: Request, pool: string, group: string)
    ensures PoolAsked(history + [r], pool, group) <==> PoolAsked(history, pool, group) || r == AddPool(pool, group)
  {
  }

  lemma {:induction false} PermissionAskedAppend(history: seq<Request>, r: Request, service: string, group: string, perm: string)
    ensures PermissionAsked(history + [r], service, group, perm)
            <==> PermissionAsked(history, service, group, perm)
                 || (r.AddPermissions? && r.service == service && r.group == group && Effective(r.permission) == perm)
  {
    assert forall q :: q in history + [r] <==> q in history || q == r;
  }

  lemma {:induction false} PoolKeepsMatch(s: Store, t: Store, history: seq<Request>, pool: string, group: string)
    requires TablesMatch(s, history) && PoolStep(s, t, pool, group)
    ensures TablesMatch(t, history + [AddPool(pool, group)])
  {
    var r := AddPool(pool, group);
    forall p, g ensures p in GetGroup(t.groups, g).pools <==> PoolAsked(history + [r], p, g) {
      PoolAskedAppend(history, r, p, g);
      assert p in GetGroup(s.groups, g).pools <==> PoolAsked(history, p, g);
    }
    forall n, g, perm ensures Names(GetService(t.services, n), perm, g) <==> PermissionAsked(history + [r], n, g, perm) {
      PermissionAskedAppend(history, r, n, g, perm);
    }
    assert (history + [r])[..|history|] == history;
  }

  lemma {:induction false} PermitKeepsNames(s: Store, t: Store, history: seq<Request>, r: Request, n: string, g: string, perm: string)
    requires NamesMatch(s, history) && r.AddPermissions? && PermitTables(s, t, r)
    ensures Names(GetService(t.services, n), perm, g) <==> PermissionAsked(history + [r], n, g, perm)
  {
    PermissionAskedAppend(history, r, n, g, perm);
    assert Names(GetService(s.services, n), perm, g) <==> PermissionAsked(history, n, g, perm);
    PermitNames(GetService(s.services, n), r, g);
  }

  lemma {:induction false} PermitKeepsMatch(s: Store, t: Store, history: seq<Request>, r: Request)
    requires TablesMatch(s, history) && r.AddPermissions? && PermitTables(s, t, r)
    ensures TablesMatch(t, history + [r])
  {
    forall p, g ensures p in GetGroup(t.groups, g).pools <==> PoolAsked(history + [r], p, g) {
      PoolAskedAppend(history, r, p, g);
      assert GetGroup(t.groups, g).pools == GetGroup(s.groups, g).pools;
    }
    forall n, g, perm ensures Names(GetService(t.services, n), perm, g) <==> PermissionAsked(history + [r], n, g, perm) {
      PermitKeepsNames(s, t, history, r, n, g, perm);
    }
    assert (history + [r])[..|history|] == history;
  }

  /** After any history of successful requests the tables agree with it and the capabilities are exact. */
  lemma {:induction false} RunIsExact(history: seq<Request>)
    ensures Inv(Run(history)) && TablesMatch(Run(history), history)
  {
    if history != [] {
      var init, r := history[..|history| - 1], history[|history| - 1];
      RunIsExact(init);
      var s := Run(init);
      StepKeepsInv(s, r);
      assert init + [r] == history;
      match r {
        case AddPool(pool, group) =>
          AddPoolEffect(s, pool, group);
          PoolKeepsMatch(s, Run(history), init, pool, group);
        case AddPermissions(_, _, _, _) =>
          AddPermissionsEffect(s, r);
          PermitKeepsMatch(s, Run(history), init, r);
      }
    }
  }

  // ---- what a service may do ----

  lemma {:induction false} GrantedAsJustified(history: seq<Request>, service: string, perm: string, pool: string)
    ensures Granted(Run(history), service, PoolGrant(perm, pool)) <==> Justified(history, service, perm, pool)
  {
    RunIsExact(history);
    var s := Run(history);
    var svc := GetService(s.services, service);
    PermissionsContain(svc, s.groups, PoolGrant(perm, pool));
    if Granted(s, service, PoolGrant(perm, pool)) {
      var n :| Names(svc, perm, n) && pool in GetGroup(s.groups, n).pools;
      assert PermissionAsked(history, service, n, perm) && PoolAsked(history, pool, n);
    }
    if Justified(history, service, perm, pool) {
      var n :| PermissionAsked(history, service, n, perm) && PoolAsked(history, pool, n);
      assert Names(svc, perm, n) && pool in GetGroup(s.groups, n).pools;
    }
  }

  /**
   * Confluence. After any history of successful requests, a service holds a permission on a pool
   * exactly when some request asked for that permission, or for none in particular and the permission
   * is rwx, on a group for which another request asked for the pool.
   */
  lemma {:induction false} GrantedIffJustified(history: seq<Request>, service: string, perm: string, pool: string)
    ensures Granted(Run(history), service, PoolGrant(perm, pool))
            <==> exists r <- history ::
                   r.AddPermissions? && r.service == service && AddPool(pool, r.group) in history
                   && (if r.permission == "" then perm == "rwx" else perm == r.permission)
  {
    GrantedAsJustified(history, service, perm, pool);
    JustifiedMeans(history, service, perm, pool);
  }

  lemma {:induction false} LastPrefixesAt(history: seq<Request>, service: string, i: nat)
    requires i < |history| && history[i].AddPermissions? && history[i].service == service && history[i].prefixes != map[]
    requires forall j | i < j < |history| && history[j].AddPermissions? && history[j].service == service :: history[j].prefixes == map[]
    ensures LastPrefixes(history, service) == history[i].prefixes
  {
    if i < |history| - 1 {
      LastPrefixesAt(history[..|history| - 1], service, i);
    }
  }

  lemma {:induction false} NoPrefixes(history: seq<Request>, service: string)
    requires forall r <- history | r.AddPermissions? && r.service == service :: r.prefixes == map[]
    ensures LastPrefixes(history, service) == map[]
  {
    if history != [] {
      assert history[|history| - 1] in history && forall r <- history[..|history| - 1] :: r in history;
      NoPrefixes(history[..|history| - 1], service);
    }
  }

  /**
   * The prefix capabilities of a service are those of its last request that carried any, and none if
   * no request of the service did.
   */
  lemma {:induction false} PrefixesAreLastAsked(history: seq<Request>, service: string, perm: string, prefix: string)
    ensures forall i: nat | i < |history| && history[i].AddPermissions? && history[i].service == service
                            && history[i].prefixes != map[]
                            && forall j | i < j < |history| && history[j].AddPermissions? && history[j].service == service ::
                                 history[j].prefixes == map[] ::
              Granted(Run(history), service, PrefixGrant(perm, prefix))
              <==> perm in history[i].prefixes && prefix in history[i].prefixes[perm]
    ensures (forall r <- history | r.AddPermissions? && r.service == service :: r.prefixes == map[]) ==>
              !Granted(Run(history), service, PrefixGrant(perm, prefix))
  {
    RunIsExact(history);
    var s := Run(history);
    PermissionsContain(GetService(s.services, service), s.groups, PrefixGrant(perm, prefix));
    assert GetService(s.services, service).prefixes == LastPrefixes(history, service);
    forall i: nat | i < |history| && history[i].AddPermissions? && history[i].service == service
                    && history[i].prefixes != map[]
                    && forall j | i < j < |history| && history[j].AddPermissions? && history[j].service == service ::
                         history[j].prefixes == map[]
      ensures LastPrefixes(history, service) == history[i].prefixes
    {
      LastPrefixesAt(history, service, i);
    }
    if forall r <- history | r.AddPermissions? && r.service == service :: r.prefixes == map[] {
      NoPrefixes(history, service);
    }
  }

  /** Reordering or repeating requests changes no pool grant; further requests never take one away. */
  lemma {:induction false} OrderDoesNotMatter(a: seq<Request>, b: seq<Request>, service: string, perm: string, pool: string)
    requires forall r <- a :: r in b
    ensures Granted(Run(a), service, PoolGrant(perm, pool)) ==> Granted(Run(b), service, PoolGrant(perm, pool))
    ensures (forall r <- b :: r in a) ==>
              (Granted(Run(a), service, PoolGrant(perm, pool)) <==> Granted(Run(b), service, PoolGrant(perm, pool)))
  {
    GrantedAsJustified(a, service, perm, pool);
    GrantedAsJustified(b, service, perm, pool);
    if Justified(a, service, perm, pool) {
      var n :| PermissionAsked(a, service, n, perm) && PoolAsked(a, pool, n);
      assert PermissionAsked(b, service, n, perm) && PoolAsked(b, pool, n);
    }
    if Justified(b, service, perm, pool) && forall r <- b :: r in a {
      var n :| PermissionAsked(b, service, n, perm) && PoolAsked(b, pool, n);
      assert PermissionAsked(a, service, n, perm) && PoolAsked(a, pool, n);
    }
  }

  // ---- the order of what is listed ----

  /** Without faults a request only ever appends to the stored lists. */
  lemma {:induction false} ListsOnlyExtend(s: Store, r: Request, g: string, n: string, perm: string)
    ensures var t := Apply(s, r, NO_FAULT);
      && GetGroup(s.groups, g).pools <= GetGroup(t.groups, g).pools
      && GetGroup(s.groups, g).services <= GetGroup(t.groups, g).services
      && (perm in GetService(s.services, n).names ==>
            perm in GetService(t.services, n).names && GetService(s.services, n).names[perm] <= GetService(t.services, n).names[perm])
  {
    if r.AddPool? {
      AddPoolEffect(s, r.pool, r.group);
    } else {
      AddPermissionsEffect(s, r);
    }
  }

  lemma {:induction false} PoolGrantsOrdered(perms: seq<string>, names: map<string, seq<string>>, groups: map<string, Group>, i: nat, j: nat)
    requires (forall p <- perms :: p in names) && SortedBy(perms, StrLe)
    requires i < j < |PoolGrants(perms, names, groups)|
    ensures var r := PoolGrants(perms, names, groups); r[i].PoolGrant? && r[j].PoolGrant? && StrLe(r[i].perm, r[j].perm)
  {
    var init, last := perms[..|perms| - 1], perms[|perms| - 1];
    var before := PoolGrants(init, names, groups);
    var r := PoolGrants(perms, names, groups);
    PoolGrantsContain(perms, names, groups, r[i]);
    PoolGrantsContain(perms, names, groups, r[j]);
    GroupsGrantsContain(last, names[last], groups, r[j]);
    if j < |before| {
      PoolGrantsOrdered(init, names, groups, i, j);
    } else {
      assert r[j] in GroupsGrants(last, names[last], groups);
      StrLeTotal(last, last);
    }
  }

  /** A capability list has pools before prefixes, and the pools in the order of their permissions. */
  lemma {:induction false} PermissionsOrdered(service: Service, groups: map<string, Group>, i: nat, j: nat)
    requires i < j < |Permissions(service, groups)|
    ensures var r := Permissions(service, groups);
      && (r[i].PrefixGrant? ==> r[j].PrefixGrant?)
      && (r[i].PoolGrant? && r[j].PoolGrant? ==> StrLe(r[i].perm, r[j].perm))
  {
    var perms := SortedSet(service.names.Keys);
    var pools := PoolGrants(perms, service.names, groups);
    var r := Permissions(service, groups);
    SortedSetOrdered(service.names.Keys);
    if j < |pools| {
      PoolGrantsOrdered(perms, service.names, groups, i, j);
    } else {
      assert r[j] in PrefixGrants(SortedSet(service.prefixes.Keys), service.prefixes);
      PrefixGrantsContain(SortedSet(service.prefixes.Keys), service.prefixes, r[j]);
    }
  }

  /** Under one permission, groups and pools come in the order in which they are stored. */
  lemma {:induction false} GroupsGrantsOrdered(perm: string, a: seq<string>, b: seq<string>, groups: map<string, Group>)
    ensures GroupsGrants(perm, a + b, groups) == GroupsGrants(perm, a, groups) + GroupsGrants(perm, b, groups)
    ensures forall n :: var r := GroupsGrants(perm, [n], groups); var pools := GetGroup(groups, n).pools;
      |r| == |pools| && forall i | 0 <= i < |r| :: r[i] == PoolGrant(perm, pools[i])
  {
    forall n ensures GroupsGrants(perm, [n], groups) == PoolList(perm, GetGroup(groups, n).pools) {
      assert [n][..0] == [];
    }
    if b == [] {
      assert a + b == a;
    } else {
      var init := b[..|b| - 1];
      assert (a + b)[..|a + b| - 1] == a + init;
      GroupsGrantsOrdered(perm, a, init, groups);
    }
  }
}
