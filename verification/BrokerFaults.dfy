/**
 * The permission store when commands fail: a key that cannot be read counts as missing, a write can
 * raise and end the request half way, and capability updates can be lost.
 */
module BrokerFaults {
  import opened Broker
  import opened BrokerHistory

  ghost predicate PoolsBounded(groups: map<string, Group>, history: seq<Request>) {
    forall pool, group :: pool in GetGroup(groups, group).pools ==> PoolAsked(history, pool, group)
  }

  ghost predicate ServiceBounded(name: string, svc: Service, history: seq<Request>) {
    forall perm, group :: Names(svc, perm, group) ==> PermissionAsked(history, name, group, perm)
  }

  ghost predicate ListBounded(name: string, grants: seq<Grant>, history: seq<Request>) {
    forall perm, pool :: PoolGrant(perm, pool) in grants ==> Justified(history, name, perm, pool)
  }

  /** Nothing in the tables or the capabilities goes beyond what the history asked for. */
  ghost predicate Bounded(s: Store, history: seq<Request>) {
    && PoolsBounded(s.groups, history)
    && (forall n <- s.services :: ServiceBounded(n, s.services[n], history))
    && (forall n <- s.caps :: ListBounded(n, s.caps[n], history))
  }

  lemma {:induction false} LongerHistory(s: Store, history: seq<Request>, r: Request)
    requires Bounded(s, history)
    ensures Bounded(s, history + [r])
  {
    forall n, g, perm | PermissionAsked(history, n, g, perm) ensures PermissionAsked(history + [r], n, g, perm) {
      PermissionAskedAppend(history, r, n, g, perm);
    }
    forall n, perm, pool | Justified(history, n, perm, pool) ensures Justified(history + [r], n, perm, pool) {
      var g :| PermissionAsked(history, n, g, perm) && PoolAsked(history, pool, g);
      assert PermissionAsked(history + [r], n, g, perm) && PoolAsked(history + [r], pool, g);
    }
  }

  lemma {:induction false} ComputedIsBounded(name: string, svc: Service, groups: map<string, Group>, history: seq<Request>)
    requires PoolsBounded(groups, history) && ServiceBounded(name, svc, history)
    ensures ListBounded(name, Permissions(svc, groups), history)
  {
    forall perm, pool | PoolGrant(perm, pool) in Permissions(svc, groups) ensures Justified(history, name, perm, pool) {
      PermissionsContain(svc, groups, PoolGrant(perm, pool));
      var g :| Names(svc, perm, g) && pool in GetGroup(groups, g).pools;
      assert PermissionAsked(history, name, g, perm) && PoolAsked(history, pool, g);
    }
  }

  lemma {:induction false} ReadsAreBounded(s: Store, hidden: set<string>, history: seq<Request>)
    requires Bounded(s, history)
    ensures PoolsBounded(Visible(s.groups, hidden), history)
    ensures forall n, unread :: ServiceBounded(n, ReadService(s.services, n, unread), history)
  {
    forall n, unread ensures ServiceBounded(n, ReadService(s.services, n, unread), history) {
      if n in s.services {
        assert ServiceBounded(n, s.services[n], history);
      }
    }
    forall pool, g | pool in GetGroup(Visible(s.groups, hidden), g).pools ensures PoolAsked(history, pool, g) {
      assert pool in GetGroup(s.groups, g).pools;
    }
  }

  lemma {:induction false} UpdateIsBounded(s: Store, name: string, u: Update, history: seq<Request>)
    requires Bounded(s, history)
    ensures ListBounded(name, CapsOf(s.services, s.groups, name, u), history)
  {
    ReadsAreBounded(s, u.hiddenGroups, history);
    ComputedIsBounded(name, ReadService(s.services, name, u.serviceHidden), Visible(s.groups, u.hiddenGroups), history);
  }

  lemma {:induction false} RefreshIsBounded(s: Store, listed: seq<string>, f: Fault, history: seq<Request>)
    requires Bounded(s, history)
    ensures Bounded(s.(caps := Refresh(s, listed, f)), history)
  {
    var caps := Refresh(s, listed, f);
    forall n <- caps ensures ListBounded(n, caps[n], history) {
      RefreshAt(s, listed, f, n);
      var u := LastUpdate(listed, f, n);
      if u.Some? { UpdateIsBounded(s, n, u.value, history); }
    }
  }

  lemma {:induction false} PoolIsBounded(s: Store, pool: string, group: string, f: Fault, history: seq<Request>)
    requires Bounded(s, history) && PoolAsked(history, pool, group)
    ensures Bounded(ApplyPool(s, pool, group, f), history)
  {
    var g := ReadGroup(s.groups, group, f.groupHidden);
    var saved := s.(groups := s.groups[group := Join(g, pool)]);
    forall p, n | p in GetGroup(saved.groups, n).pools ensures PoolAsked(history, p, n) {
      assert p in GetGroup(s.groups, n).pools || (n == group && p == pool);
    }
    RefreshIsBounded(saved, g.services, f, history);
  }

  lemma {:induction false} EnrollIsBounded(s: Store, name: string, group: string, hidden: bool, history: seq<Request>)
    requires Bounded(s, history)
    ensures Bounded(s.(groups := s.groups[group := Enroll(ReadGroup(s.groups, group, hidden), name)]), history)
  {
    var saved := s.(groups := s.groups[group := Enroll(ReadGroup(s.groups, group, hidden), name)]);
    forall p, n | p in GetGroup(saved.groups, n).pools ensures PoolAsked(history, p, n) {
      assert p in GetGroup(s.groups, n).pools;
    }
  }

  lemma {:induction false} PermitIsBounded(s: Store, name: string, svc: Service, group: string, f: Fault, history: seq<Request>)
    requires Bounded(s, history) && (f.groupUnsaved || f.serviceUnsaved || ServiceBounded(name, svc, history))
    ensures Bounded(ApplyPermissions(s, name, svc, group, f), history)
  {
    var saved := s.(groups := s.groups[group := Enroll(ReadGroup(s.groups, group, f.groupHidden), name)]);
    EnrollIsBounded(s, name, group, f.groupHidden, history);
    if !f.groupUnsaved && !f.serviceUnsaved {
      ReadsAreBounded(saved, f.UpdateAt(0).hiddenGroups, history);
      ComputedIsBounded(name, svc, Visible(saved.groups, f.UpdateAt(0).hiddenGroups), history);
    }
  }

  // ---- requests that are saved ----

  predicate Saved(r: Request, f: Fault) {
    !f.groupUnsaved && (r.AddPermissions? ==> !f.serviceUnsaved)
  }

  /** The requests of the history that were saved; the others were answered with an error. */
  function SavedPart(history: seq<Request>, faults: seq<Fault>): seq<Request>
    requires |history| == |faults|
  {
    if history == [] then []
    else
      var i := |history| - 1;
      SavedPart(history[..i], faults[..i]) + if Saved(history[i], faults[i]) then [history[i]] else []
  }

  /** Whatever fails while a request is handled, nothing goes beyond what was saved. */
  lemma {:induction false} StepIsBounded(s: Store, history: seq<Request>, r: Request, f: Fault)
    requires Bounded(s, history)
    ensures Bounded(Apply(s, r, f), if Saved(r, f) then history + [r] else history)
  {
    var now := if Saved(r, f) then history + [r] else history;
    LongerHistory(s, history, r);
    match r {
      case AddPool(pool, group) =>
        if !f.groupUnsaved { PoolIsBounded(s, pool, group, f, now); }
      case AddPermissions(name, group, permission, prefixes) =>
        var before := ReadService(s.services, name, f.serviceHidden);
        var svc := Permit(before, group, permission, prefixes);
        ReadsAreBounded(s, {}, now);
        if Saved(r, f) {
          forall perm, g | Names(svc, perm, g) ensures PermissionAsked(now, name, g, perm) {
            PermitNames(before, r, g);
            PermissionAskedAppend(history, r, name, g, perm);
          }
        }
        PermitIsBounded(s, name, svc, group, f, now);
    }
  }

  lemma {:induction false} RunIsBounded(history: seq<Request>, faults: seq<Fault>)
    requires |history| == |faults|
    ensures Bounded(RunFrom(EMPTY, history, faults), SavedPart(history, faults))
  {
    if history != [] {
      var i := |history| - 1;
      RunIsBounded(history[..i], faults[..i]);
      var asked := SavedPart(history[..i], faults[..i]);
      StepIsBounded(RunFrom(EMPTY, history[..i], faults[..i]), asked, history[i], faults[i]);
      assert asked + [] == asked;
    }
  }

  lemma {:induction false} SavedPartIsPart(history: seq<Request>, faults: seq<Fault>)
    requires |history| == |faults|
    ensures forall r <- SavedPart(history, faults) :: r in history
  {
    if history != [] {
      SavedPartIsPart(history[..|history| - 1], faults[..|history| - 1]);
    }
  }

  /**
   * Over every run, whatever reads, writes and updates fail, no service is granted a pool that the
   * saved requests do not justify.
   */
  lemma {:induction false} NeverOverGrants(history: seq<Request>, faults: seq<Fault>, service: string, perm: string, pool: string)
    requires |history| == |faults|
    requires Granted(RunFrom(EMPTY, history, faults), service, PoolGrant(perm, pool))
    ensures Justified(SavedPart(history, faults), service, perm, pool) && Justified(history, service, perm, pool)
    ensures var saved := SavedPart(history, faults);
      exists r <- saved ::
        r.AddPermissions? && r.service == service && AddPool(pool, r.group) in saved
        && (if r.permission == "" then perm == "rwx" else perm == r.permission)
  {
    RunIsBounded(history, faults);
    SavedPartIsPart(history, faults);
    JustifiedMeans(SavedPart(history, faults), service, perm, pool);
    var asked := SavedPart(history, faults);
    var g :| PermissionAsked(asked, service, g, perm) && PoolAsked(asked, pool, g);
    assert PermissionAsked(history, service, g, perm) && PoolAsked(history, pool, g);
  }

  // ---- what a request keeps ----

  /** Every pool and member of every group, and every group a service names, is still there. */
  ghost predicate TablesKept(s: Store, t: Store) {
    && (forall g, p :: p in GetGroup(s.groups, g).pools ==> p in GetGroup(t.groups, g).pools)
    && (forall g, n :: n in GetGroup(s.groups, g).services ==> n in GetGroup(t.groups, g).services)
    && (forall n, perm, g :: Names(GetService(s.services, n), perm, g) ==> Names(GetService(t.services, n), perm, g))
  }

  /**
   * A key that cannot be read counts as missing and is written back so. Nothing is lost exactly when
   * nothing is saved over it, or it could be read, or it held nothing but what the request puts in.
   */
  ghost predicate Lossless(s: Store, r: Request, f: Fault) {
    f.groupUnsaved ||
    match r
    case AddPool(pool, group) =>
      var g := GetGroup(s.groups, group);
      !f.groupHidden || (g.services == [] && forall p <- g.pools :: p == pool)
    case AddPermissions(name, group, permission, _) =>
      var g, svc := GetGroup(s.groups, group), GetService(s.services, name);
      && (!f.groupHidden || (g.pools == [] && forall n <- g.services :: n == name))
      && (f.serviceUnsaved || !f.serviceHidden
          || forall perm, n | Names(svc, perm, n) :: perm == Effective(permission) && n == group)
  }

  lemma PoolKeepsIff(s: Store, pool: string, group: string, f: Fault)
    ensures var r := AddPool(pool, group); TablesKept(s, Apply(s, r, f)) <==> Lossless(s, r, f)
  {
    var before, t := GetGroup(s.groups, group), Apply(s, AddPool(pool, group), f);
    var after := GetGroup(t.groups, group);
    if !f.groupUnsaved {
      assert after == Join(ReadGroup(s.groups, group, f.groupHidden), pool);
      assert forall g | g != group :: GetGroup(t.groups, g) == GetGroup(s.groups, g);
      assert before.services != [] ==> before.services[0] in before.services;
    }
  }

  lemma PermitKeepsIff(s: Store, r: Request, f: Fault)
    requires r.AddPermissions? && !f.groupUnsaved
    ensures TablesKept(s, Apply(s, r, f)) <==> Lossless(s, r, f)
  {
    var before, t := GetGroup(s.groups, r.group), Apply(s, r, f);
    var svc, read := GetService(s.services, r.service), ReadService(s.services, r.service, f.serviceHidden);
    assert GetGroup(t.groups, r.group) == Enroll(ReadGroup(s.groups, r.group, f.groupHidden), r.service);
    assert forall g | g != r.group :: GetGroup(t.groups, g) == GetGroup(s.groups, g);
    assert before.pools != [] ==> before.pools[0] in before.pools;
    assert forall n | n != r.service :: GetService(t.services, n) == GetService(s.services, n);
    if !f.serviceUnsaved {
      forall g { PermitNames(read, r, g); }
    }
  }

  /** A request keeps everything earlier requests put into the tables if and only if it is lossless. */
  lemma KeepsTablesIff(s: Store, r: Request, f: Fault)
    ensures TablesKept(s, Apply(s, r, f)) <==> Lossless(s, r, f)
  {
    if r.AddPool? {
      PoolKeepsIff(s, r.pool, r.group, f);
    } else if !f.groupUnsaved {
      PermitKeepsIff(s, r, f);
    }
  }

  // ---- what an update installs ----

  /** Each pool of a group the service names can be read from such a group. */
  ghost predicate ReadsEnough(svc: Service, groups: map<string, Group>, hidden: set<string>) {
    forall perm, n, pool | Names(svc, perm, n) && pool in GetGroup(groups, n).pools ::
      exists m :: Names(svc, perm, m) && m !in hidden && pool in GetGroup(groups, m).pools
  }

  ghost predicate NothingToGrant(svc: Service, groups: map<string, Group>) {
    forall perm, n | Names(svc, perm, n) :: GetGroup(groups, n).pools == []
  }

  ghost predicate GrantsAll(caps: seq<Grant>, svc: Service, groups: map<string, Group>) {
    forall perm, n, pool | Names(svc, perm, n) && pool in GetGroup(groups, n).pools :: PoolGrant(perm, pool) in caps
  }

  /** What an update of this service manages to read. */
  ghost predicate UpdateReads(svc: Service, groups: map<string, Group>, u: Update) {
    if u.serviceHidden then NothingToGrant(svc, groups) else ReadsEnough(svc, groups, u.hiddenGroups)
  }

  lemma ComputedGrantsAllIff(svc: Service, groups: map<string, Group>, hidden: set<string>)
    ensures GrantsAll(Permissions(svc, Visible(groups, hidden)), svc, groups) <==> ReadsEnough(svc, groups, hidden)
  {
    forall perm, pool
      ensures PoolGrant(perm, pool) in Permissions(svc, Visible(groups, hidden))
              <==> exists m :: Names(svc, perm, m) && m !in hidden && pool in GetGroup(groups, m).pools
    {
      PermissionsContain(svc, Visible(groups, hidden), PoolGrant(perm, pool));
      forall m ensures pool in GetGroup(Visible(groups, hidden), m).pools <==> m !in hidden && pool in GetGroup(groups, m).pools {
      }
    }
  }

  /** An update computes every pool grant the tables call for if and only if it reads enough of them. */
  lemma UpdateGrantsAllIff(s: Store, name: string, u: Update)
    ensures var svc := GetService(s.services, name);
      GrantsAll(CapsOf(s.services, s.groups, name, u), svc, s.groups) <==> UpdateReads(svc, s.groups, u)
  {
    var svc := GetService(s.services, name);
    if u.serviceHidden {
      forall g ensures g !in CapsOf(s.services, s.groups, name, u) {
        PermissionsContain(Service(map[], map[]), Visible(s.groups, u.hiddenGroups), g);
      }
      if !NothingToGrant(svc, s.groups) {
        var perm, n :| Names(svc, perm, n) && GetGroup(s.groups, n).pools != [];
        assert GetGroup(s.groups, n).pools[0] in GetGroup(s.groups, n).pools;
      }
    } else {
      ComputedGrantsAllIff(svc, s.groups, u.hiddenGroups);
    }
  }

  /** Every pool grant the tables call for is installed, for one service and for all. */
  ghost predicate ServiceComplete(s: Store, n: string) {
    forall perm, g, pool | Names(GetService(s.services, n), perm, g) && pool in GetGroup(s.groups, g).pools ::
      Granted(s, n, PoolGrant(perm, pool))
  }

  ghost predicate CapsComplete(s: Store) {
    forall n :: ServiceComplete(s, n)
  }

  /** After an add-pool: each service's last update reads enough, or it had none and holds the pool already. */
  ghost predicate PoolUpdatesSuffice(s: Store, pool: string, group: string, f: Fault) {
    var g := ReadGroup(s.groups, group, f.groupHidden);
    var groups := s.groups[group := Join(g, pool)];
    forall n ::
      var svc, u := GetService(s.services, n), LastUpdate(g.services, f, n);
      if u.Some? then UpdateReads(svc, groups, u.value)
      else forall perm | Names(svc, perm, group) :: Granted(s, n, PoolGrant(perm, pool))
  }

  /** After an add-permissions: the update reads enough, or is lost and the group's pools are held already. */
  ghost predicate PermitUpdateSuffices(s: Store, r: Request, f: Fault)
    requires r.AddPermissions?
  {
    var g := ReadGroup(s.groups, r.group, f.groupHidden);
    var svc := Permit(ReadService(s.services, r.service, f.serviceHidden), r.group, r.permission, r.prefixes);
    var u := f.UpdateAt(0);
    if u.lost then forall pool <- g.pools :: Granted(s, r.service, PoolGrant(Effective(r.permission), pool))
    else ReadsEnough(svc, s.groups[r.group := Enroll(g, r.service)], u.hiddenGroups)
  }

  ghost predicate UpdatesSuffice(s: Store, r: Request, f: Fault) {
    Saved(r, f) ==> if r.AddPool? then PoolUpdatesSuffice(s, r.pool, r.group, f) else PermitUpdateSuffices(s, r, f)
  }

  lemma {:induction false} PoolCompleteIff(s: Store, pool: string, group: string, f: Fault, n: string)
    requires ServiceComplete(s, n) && !f.groupUnsaved
    ensures var g := ReadGroup(s.groups, group, f.groupHidden); var t := ApplyPool(s, pool, group, f);
      var svc, u := GetService(s.services, n), LastUpdate(g.services, f, n);
      ServiceComplete(t, n) <==> if u.Some? then UpdateReads(svc, t.groups, u.value)
                                 else forall perm | Names(svc, perm, group) :: Granted(s, n, PoolGrant(perm, pool))
  {
    var g, t := ReadGroup(s.groups, group, f.groupHidden), ApplyPool(s, pool, group, f);
    var svc, u := GetService(s.services, n), LastUpdate(g.services, f, n);
    var saved := s.(groups := t.groups);
    RefreshAt(saved, g.services, f, n);
    if u.Some? {
      UpdateGrantsAllIff(saved, n, u.value);
      assert ServiceComplete(t, n) <==> GrantsAll(t.caps[n], svc, t.groups);
    } else {
      assert GetGroup(t.groups, group) == Join(g, pool) && pool in Join(g, pool).pools;
      forall perm, m, p | Names(svc, perm, m) && p in GetGroup(t.groups, m).pools
        ensures Granted(s, n, PoolGrant(perm, p)) || (m == group && p == pool)
      {
        assert p in GetGroup(s.groups, m).pools || (m == group && p == pool);
      }
    }
  }

  lemma {:induction false} LostPermitCompleteIff(s: Store, r: Request, f: Fault)
    requires r.AddPermissions? && ServiceComplete(s, r.service) && Saved(r, f) && f.UpdateAt(0).lost
    ensures ServiceComplete(Apply(s, r, f), r.service) <==> PermitUpdateSuffices(s, r, f)
  {
    var t, g := Apply(s, r, f), ReadGroup(s.groups, r.group, f.groupHidden);
    var read, svc := ReadService(s.services, r.service, f.serviceHidden), GetService(t.services, r.service);
    forall m { PermitNames(read, r, m); }
    assert GetGroup(t.groups, r.group).pools == g.pools && Names(svc, Effective(r.permission), r.group);
    forall perm, m, p | Names(svc, perm, m) && p in GetGroup(t.groups, m).pools
      ensures Granted(s, r.service, PoolGrant(perm, p)) || (perm == Effective(r.permission) && m == r.group && p in g.pools)
    {
      assert p in GetGroup(s.groups, m).pools;
    }
  }

  lemma {:induction false} PermitCompleteIff(s: Store, r: Request, f: Fault)
    requires r.AddPermissions? && ServiceComplete(s, r.service) && Saved(r, f)
    ensures ServiceComplete(Apply(s, r, f), r.service) <==> PermitUpdateSuffices(s, r, f)
  {
    if f.UpdateAt(0).lost {
      LostPermitCompleteIff(s, r, f);
    } else {
      var t := Apply(s, r, f);
      var svc := GetService(t.services, r.service);
      ComputedGrantsAllIff(svc, t.groups, f.UpdateAt(0).hiddenGroups);
      assert t.caps[r.service] == Permissions(svc, Visible(t.groups, f.UpdateAt(0).hiddenGroups));
      assert ServiceComplete(t, r.service) <==> GrantsAll(t.caps[r.service], svc, t.groups);
    }
  }

  lemma {:induction false} OthersStayComplete(s: Store, r: Request, f: Fault, n: string)
    requires ServiceComplete(s, n) && r.AddPermissions? && (n != r.service || !Saved(r, f))
    ensures ServiceComplete(Apply(s, r, f), n)
  {
    var t := Apply(s, r, f);
    assert GetService(t.services, n) == GetService(s.services, n);
    forall perm, g, p | Names(GetService(t.services, n), perm, g) && p in GetGroup(t.groups, g).pools
      ensures Granted(t, n, PoolGrant(perm, p))
    {
      assert p in GetGroup(s.groups, g).pools;
      assert Granted(s, n, PoolGrant(perm, p));
    }
  }

  /** A request leaves every grant the tables call for installed if and only if its updates suffice. */
  lemma {:induction false} KeepsCapsIff(s: Store, r: Request, f: Fault)
    requires CapsComplete(s)
    ensures CapsComplete(Apply(s, r, f)) <==> UpdatesSuffice(s, r, f)
  {
    var t := Apply(s, r, f);
    if r.AddPool? {
      if Saved(r, f) {
        forall n { PoolCompleteIff(s, r.pool, r.group, f, n); }
      }
    } else {
      forall n | n != r.service || !Saved(r, f) ensures ServiceComplete(t, n) { OthersStayComplete(s, r, f, n); }
      if Saved(r, f) { PermitCompleteIff(s, r, f); }
    }
  }

  // ---- runs that lose nothing ----

  ghost predicate Enrolls(r: Request, n: string, g: string) {
    r.AddPermissions? && r.service == n && r.group == g
  }

  /** Some request that saved its group put the service there. */
  ghost predicate Enrolled(history: seq<Request>, faults: seq<Fault>, n: string, g: string)
    requires |history| == |faults|
  {
    exists i | 0 <= i < |history| :: Enrolls(history[i], n, g) && !faults[i].groupUnsaved
  }

  /** The tables hold exactly what was written, and the capabilities all that follows from them. */
  ghost predicate Exact(s: Store, history: seq<Request>, faults: seq<Fault>)
    requires |history| == |faults|
  {
    && PoolsMatch(s, SavedPart(history, faults)) && NamesMatch(s, SavedPart(history, faults))
    && (forall n, g :: n in GetGroup(s.groups, g).services <==> Enrolled(history, faults, n, g))
    && CapsComplete(s)
  }

  /** What a request adds to the tables: its own pool, member or group name, if that is saved, and no more. */
  ghost predicate AddsOnly(s: Store, t: Store, r: Request, f: Fault) {
    && (forall p, g :: p in GetGroup(t.groups, g).pools ==> p in GetGroup(s.groups, g).pools || (Saved(r, f) && r == AddPool(p, g)))
    && (forall p, g :: Saved(r, f) && r == AddPool(p, g) ==> p in GetGroup(t.groups, g).pools)
    && (forall n, g :: n in GetGroup(t.groups, g).services ==>
          n in GetGroup(s.groups, g).services || (Enrolls(r, n, g) && !f.groupUnsaved))
    && (forall n, g :: Enrolls(r, n, g) && !f.groupUnsaved ==> n in GetGroup(t.groups, g).services)
  }

  ghost predicate NamesOnly(s: Store, t: Store, r: Request, f: Fault) {
    && (forall n, perm, g :: Names(GetService(t.services, n), perm, g) ==>
          Names(GetService(s.services, n), perm, g) || (Saved(r, f) && Enrolls(r, n, g) && perm == Effective(r.permission)))
    && (forall n, perm, g :: Saved(r, f) && Enrolls(r, n, g) && perm == Effective(r.permission) ==>
          Names(GetService(t.services, n), perm, g))
  }

  /** The group a request writes, and that it writes no other. */
  lemma {:induction false} WrittenGroup(s: Store, r: Request, f: Fault, g: string)
    ensures var t := Apply(s, r, f); var read := ReadGroup(s.groups, g, f.groupHidden);
      GetGroup(t.groups, g) == if f.groupUnsaved || g != r.group then GetGroup(s.groups, g)
                               else if r.AddPool? then Join(read, r.pool) else Enroll(read, r.service)
  {
  }

  lemma {:induction false} WritesAddOnly(s: Store, t: Store, r: Request, f: Fault)
    requires forall g :: GetGroup(t.groups, g) == if f.groupUnsaved || g != r.group then GetGroup(s.groups, g)
                         else if r.AddPool? then Join(ReadGroup(s.groups, g, f.groupHidden), r.pool)
                         else Enroll(ReadGroup(s.groups, g, f.groupHidden), r.service)
    ensures AddsOnly(s, t, r, f)
  {
  }

  lemma {:induction false} StepAddsOnly(s: Store, r: Request, f: Fault)
    ensures AddsOnly(s, Apply(s, r, f), r, f)
  {
    forall g { WrittenGroup(s, r, f, g); }
    WritesAddOnly(s, Apply(s, r, f), r, f);
  }

  lemma {:induction false} StepNamesOnly(s: Store, r: Request, f: Fault)
    ensures NamesOnly(s, Apply(s, r, f), r, f)
  {
    if r.AddPermissions? {
      var read := ReadService(s.services, r.service, f.serviceHidden);
      forall g { PermitNames(read, r, g); }
    }
  }

  lemma {:induction false} EnrolledAppend(history: seq<Request>, faults: seq<Fault>, r: Request, f: Fault, n: string, g: string)
    requires |history| == |faults|
    ensures Enrolled(history + [r], faults + [f], n, g) <==> Enrolled(history, faults, n, g) || (Enrolls(r, n, g) && !f.groupUnsaved)
  {
    var h, fs, last := history + [r], faults + [f], |history|;
    assert h[last] == r && fs[last] == f;
    if Enrolled(history, faults, n, g) {
      var i :| 0 <= i < last && Enrolls(history[i], n, g) && !faults[i].groupUnsaved;
      assert h[i] == history[i] && fs[i] == faults[i];
    }
  }

  lemma {:induction false} SavedAppend(history: seq<Request>, faults: seq<Fault>, r: Request, f: Fault)
    requires |history| == |faults|
    ensures var asked, now := SavedPart(history, faults), SavedPart(history + [r], faults + [f]);
      && (forall p, g :: PoolAsked(now, p, g) <==> PoolAsked(asked, p, g) || (Saved(r, f) && r == AddPool(p, g)))
      && (forall n, g, perm :: PermissionAsked(now, n, g, perm) <==>
            PermissionAsked(asked, n, g, perm) || (Saved(r, f) && Enrolls(r, n, g) && perm == Effective(r.permission)))
  {
    var asked := SavedPart(history, faults);
    assert (history + [r])[..|history|] == history && (faults + [f])[..|history|] == faults;
    assert asked + [] == asked;
    forall p, g { PoolAskedAppend(asked, r, p, g); }
    forall n, g, perm { PermissionAskedAppend(asked, r, n, g, perm); }
  }

  /** From exact tables, a request leads to exact tables if and only if it keeps what they hold. */
  lemma {:induction false} StepExactIff(s: Store, history: seq<Request>, faults: seq<Fault>, r: Request, f: Fault)
    requires |history| == |faults| && Exact(s, history, faults)
    ensures Exact(Apply(s, r, f), history + [r], faults + [f]) <==> Lossless(s, r, f) && UpdatesSuffice(s, r, f)
  {
    StepAddsOnly(s, r, f);
    StepNamesOnly(s, r, f);
    SavedAppend(history, faults, r, f);
    forall n, g { EnrolledAppend(history, faults, r, f, n, g); }
    KeepsTablesIff(s, r, f);
    KeepsCapsIff(s, r, f);
    ExactIffKept(s, Apply(s, r, f), history, faults, r, f);
  }

  lemma {:induction false} ExactIffKept(s: Store, t: Store, history: seq<Request>, faults: seq<Fault>, r: Request, f: Fault)
    requires |history| == |faults| && Exact(s, history, faults) && AddsOnly(s, t, r, f) && NamesOnly(s, t, r, f)
    requires var asked, now := SavedPart(history, faults), SavedPart(history + [r], faults + [f]);
      && (forall p, g :: PoolAsked(now, p, g) <==> PoolAsked(asked, p, g) || (Saved(r, f) && r == AddPool(p, g)))
      && (forall n, g, perm :: PermissionAsked(now, n, g, perm) <==>
            PermissionAsked(asked, n, g, perm) || (Saved(r, f) && Enrolls(r, n, g) && perm == Effective(r.permission)))
    requires forall n, g :: Enrolled(history + [r], faults + [f], n, g)
                            <==> Enrolled(history, faults, n, g) || (Enrolls(r, n, g) && !f.groupUnsaved)
    ensures Exact(t, history + [r], faults + [f]) <==> TablesKept(s, t) && CapsComplete(t)
  {
  }

  /** After the first i requests. */
  ghost predicate ExactAt(history: seq<Request>, faults: seq<Fault>, i: nat)
    requires i <= |history| == |faults|
  {
    Exact(RunFrom(EMPTY, history[..i], faults[..i]), history[..i], faults[..i])
  }

  ghost predicate HarmlessAt(history: seq<Request>, faults: seq<Fault>, i: nat)
    requires i < |history| == |faults|
  {
    var s := RunFrom(EMPTY, history[..i], faults[..i]);
    Lossless(s, history[i], faults[i]) && UpdatesSuffice(s, history[i], faults[i])
  }

  ghost predicate AlwaysExact(history: seq<Request>, faults: seq<Fault>)
    requires |history| == |faults|
  {
    forall i | 0 <= i <= |history| :: ExactAt(history, faults, i)
  }

  ghost predicate Harmless(history: seq<Request>, faults: seq<Fault>)
    requires |history| == |faults|
  {
    forall i | 0 <= i < |history| :: HarmlessAt(history, faults, i)
  }

  lemma {:induction false} PrefixIsSame(history: seq<Request>, faults: seq<Fault>, i: nat, k: nat)
    requires k <= i <= |history| == |faults|
    ensures ExactAt(history[..i], faults[..i], k) <==> ExactAt(history, faults, k)
    ensures k < i ==> (HarmlessAt(history[..i], faults[..i], k) <==> HarmlessAt(history, faults, k))
  {
    assert history[..i][..k] == history[..k] && faults[..i][..k] == faults[..k];
  }

  lemma {:induction false} AlwaysExactAppend(history: seq<Request>, faults: seq<Fault>, i: nat)
    requires |history| == |faults| == i + 1
    ensures AlwaysExact(history, faults) <==> AlwaysExact(history[..i], faults[..i]) && ExactAt(history, faults, i + 1)
  {
    if AlwaysExact(history, faults) {
      forall k | 0 <= k <= i ensures ExactAt(history[..i], faults[..i], k) {
        assert ExactAt(history, faults, k);
        PrefixIsSame(history, faults, i, k);
      }
    } else {
      var k: nat :| k <= i + 1 && !ExactAt(history, faults, k);
      if k <= i { PrefixIsSame(history, faults, i, k); }
    }
  }

  lemma {:induction false} HarmlessAppend(history: seq<Request>, faults: seq<Fault>, i: nat)
    requires |history| == |faults| == i + 1
    ensures Harmless(history, faults) <==> Harmless(history[..i], faults[..i]) && HarmlessAt(history, faults, i)
  {
    if Harmless(history, faults) {
      forall k | 0 <= k < i ensures HarmlessAt(history[..i], faults[..i], k) {
        assert HarmlessAt(history, faults, k);
        PrefixIsSame(history, faults, i, k);
      }
    } else {
      var k: nat :| k <= i && !HarmlessAt(history, faults, k);
      if k < i { PrefixIsSame(history, faults, i, k); }
    }
  }

  lemma {:induction false} ExactAtTheEnd(history: seq<Request>, faults: seq<Fault>)
    requires |history| == |faults| && AlwaysExact(history, faults)
    ensures Exact(RunFrom(EMPTY, history, faults), history, faults)
  {
    assert ExactAt(history, faults, |history|);
    assert history[..|history|] == history && faults[..|faults|] == faults;
  }

  lemma {:induction false} LastStepIff(history: seq<Request>, faults: seq<Fault>, i: nat)
    requires |history| == |faults| == i + 1 && ExactAt(history, faults, i)
    ensures ExactAt(history, faults, i + 1) <==> HarmlessAt(history, faults, i)
  {
    assert history[..i + 1] == history && faults[..i + 1] == faults;
    assert history[..i] + [history[i]] == history && faults[..i] + [faults[i]] == faults;
    StepExactIff(RunFrom(EMPTY, history[..i], faults[..i]), history[..i], faults[..i], history[i], faults[i]);
  }

  lemma {:induction false} EmptyRunIsExact()
    ensures AlwaysExact([], []) && Harmless([], [])
  {
  }

  /**
   * Over every run: the tables hold exactly what was written, and every grant that follows from them
   * is installed, after each request, if and only if each request is lossless and its updates suffice.
   */
  lemma {:induction false} ExactRunIff(history: seq<Request>, faults: seq<Fault>)
    requires |history| == |faults|
    ensures AlwaysExact(history, faults) <==> Harmless(history, faults)
  {
    if history == [] {
      EmptyRunIsExact();
    } else {
      var i := |history| - 1;
      ExactRunIff(history[..i], faults[..i]);
      AlwaysExactAppend(history, faults, i);
      HarmlessAppend(history, faults, i);
      if AlwaysExact(history[..i], faults[..i]) {
        PrefixIsSame(history, faults, i, i);
        LastStepIff(history, faults, i);
      }
    }
  }

  /** Confluence in spite of failures: in such a run a service holds exactly the grants the saved requests justify. */
  lemma {:induction false} GrantedIffSaved(history: seq<Request>, faults: seq<Fault>, service: string, perm: string, pool: string)
    requires |history| == |faults| && Harmless(history, faults)
    ensures Granted(RunFrom(EMPTY, history, faults), service, PoolGrant(perm, pool))
            <==> var saved := SavedPart(history, faults);
                 exists r <- saved ::
                   r.AddPermissions? && r.service == service && AddPool(pool, r.group) in saved
                   && (if r.permission == "" then perm == "rwx" else perm == r.permission)
  {
    var s, asked := RunFrom(EMPTY, history, faults), SavedPart(history, faults);
    ExactRunIff(history, faults);
    ExactAtTheEnd(history, faults);
    JustifiedMeans(asked, service, perm, pool);
    assert ServiceComplete(s, service);
    if Granted(s, service, PoolGrant(perm, pool)) {
      NeverOverGrants(history, faults, service, perm, pool);
    }
    if Justified(asked, service, perm, pool) {
      var g :| PermissionAsked(asked, service, g, perm) && PoolAsked(asked, pool, g);
      assert Names(GetService(s.services, service), perm, g) && pool in GetGroup(s.groups, g).pools;
    }
  }

  // ---- two runs that forget ----

  lemma FirstPool(pool: string, group: string)
    ensures Apply(EMPTY, AddPool(pool, group), NO_FAULT) == Store(map[group := Group([pool], [])], map[], map[])
  {
    assert AppendNew([], pool) == [pool];
    var saved := EMPTY.(groups := map[group := Group([pool], [])]);
    assert Refresh(saved, [], NO_FAULT) == map[];
  }

  /** The state after a pool was added to a group and a service joined it. */
  function Joined(pool: string, group: string, service: string): Store {
    Apply(Apply(EMPTY, AddPool(pool, group), NO_FAULT), AddPermissions(service, group, "", map[]), NO_FAULT)
  }

  lemma JoinedTables(pool: string, group: string, service: string)
    ensures var s := Joined(pool, group, service);
      && s.groups == map[group := Group([pool], [service])]
      && s.services == map[service := Service(map["rwx" := [group]], map[])]
      && service in s.caps && s.caps[service] == Permissions(s.services[service], Visible(s.groups, {}))
  {
    FirstPool(pool, group);
    assert AppendNew([], service) == [service] && AppendNew([], group) == [group];
    assert NameGroup(map[], "rwx", group) == map["rwx" := [group]];
  }

  lemma JoinedHolds(pool: string, group: string, service: string)
    ensures var s := Joined(pool, group, service);
      && s.groups == map[group := Group([pool], [service])]
      && s.services == map[service := Service(map["rwx" := [group]], map[])]
      && Granted(s, service, PoolGrant("rwx", pool))
  {
    var s := Joined(pool, group, service);
    JoinedTables(pool, group, service);
    assert Names(s.services[service], "rwx", group) && pool in GetGroup(s.groups, group).pools;
    VisibleAll(s.groups);
    PermissionsContain(s.services[service], s.groups, PoolGrant("rwx", pool));
  }

  /** The three requests of both runs, the last of which meets the fault. */
  function Three(pool: string, group: string, service: string, last: Request): seq<Request> {
    [AddPool(pool, group), AddPermissions(service, group, "", map[]), last]
  }

  lemma {:induction false} RunTwo(a: Request, b: Request, f: Fault, g: Fault)
    requires Saved(a, f) && Saved(b, g)
    ensures RunFrom(EMPTY, [a, b], [f, g]) == Apply(Apply(EMPTY, a, f), b, g) && SavedPart([a, b], [f, g]) == [a, b]
  {
    RunAppend([], [], a, f);
    RunAppend([a], [f], b, g);
    assert [] + [a] == [a] && [] + [f] == [f] && [a] + [b] == [a, b] && [f] + [g] == [f, g];
  }

  lemma {:induction false} RunThree(a: Request, b: Request, c: Request, f: Fault, g: Fault, h: Fault)
    requires Saved(a, f) && Saved(b, g) && Saved(c, h)
    ensures RunFrom(EMPTY, [a, b, c][..2], [f, g, h][..2]) == Apply(Apply(EMPTY, a, f), b, g)
    ensures RunFrom(EMPTY, [a, b, c], [f, g, h]) == Apply(Apply(Apply(EMPTY, a, f), b, g), c, h)
    ensures SavedPart([a, b, c], [f, g, h]) == [a, b, c]
  {
    RunTwo(a, b, f, g);
    RunAppend([a, b], [f, g], c, h);
    assert [a, b] + [c] == [a, b, c] && [f, g] + [h] == [f, g, h];
    assert [a, b, c][..2] == [a, b] && [f, g, h][..2] == [f, g];
  }

  lemma {:induction false} RunAppend(history: seq<Request>, faults: seq<Fault>, r: Request, f: Fault)
    requires |history| == |faults|
    ensures RunFrom(EMPTY, history + [r], faults + [f]) == Apply(RunFrom(EMPTY, history, faults), r, f)
    ensures SavedPart(history + [r], faults + [f]) == SavedPart(history, faults) + if Saved(r, f) then [r] else []
  {
    assert (history + [r])[..|history|] == history && (faults + [f])[..|history|] == faults;
  }

  /** A service whose record holds one group only, without pools, is granted no pool. */
  lemma NothingFromEmptyGroup(groups: map<string, Group>, group: string, pool: string)
    requires GetGroup(groups, group).pools == []
    ensures PoolGrant("rwx", pool) !in Permissions(Permit(Service(map[], map[]), group, "", map[]), Visible(groups, {}))
  {
    VisibleAll(groups);
    PermissionsContain(Permit(Service(map[], map[]), group, "", map[]), groups, PoolGrant("rwx", pool));
  }

  lemma BothAsked(history: seq<Request>, pool: string, group: string, service: string)
    requires AddPool(pool, group) in history && AddPermissions(service, group, "", map[]) in history
    ensures Justified(history, service, "rwx", pool)
  {
    assert PermissionAsked(history, service, group, "rwx") && PoolAsked(history, pool, group);
  }

  /** A service that asks for another group while only its own key is unreadable loses what it was granted. */
  lemma HiddenServiceForgets(pool: string, group: string, other: string, service: string)
    requires group != other
    ensures var history := Three(pool, group, service, AddPermissions(service, other, "", map[]));
      var faults := [NO_FAULT, NO_FAULT, NO_FAULT.(serviceHidden := true)];
      && Granted(RunFrom(EMPTY, history[..2], faults[..2]), service, PoolGrant("rwx", pool))
      && Justified(SavedPart(history, faults), service, "rwx", pool)
      && !Granted(RunFrom(EMPTY, history, faults), service, PoolGrant("rwx", pool))
  {
    var last, f := AddPermissions(service, other, "", map[]), NO_FAULT.(serviceHidden := true);
    RunThree(AddPool(pool, group), AddPermissions(service, group, "", map[]), last, NO_FAULT, NO_FAULT, f);
    JoinedHolds(pool, group, service);
    var history := Three(pool, group, service, last);
    assert history[0] in history && history[1] in history;
    BothAsked(history, pool, group, service);
    NothingFromEmptyGroup(Apply(Joined(pool, group, service), last, f).groups, other, pool);
  }

  /** A service that joins a group while only the group's key is unreadable is granted none of its pools. */
  lemma HiddenGroupForgets(pool: string, group: string, service: string, joining: string)
    requires service != joining
    ensures var history := Three(pool, group, service, AddPermissions(joining, group, "", map[]));
      var faults := [NO_FAULT, NO_FAULT, NO_FAULT.(groupHidden := true)];
      && Justified(SavedPart(history, faults), joining, "rwx", pool)
      && !Granted(RunFrom(EMPTY, history, faults), joining, PoolGrant("rwx", pool))
  {
    var last, f := AddPermissions(joining, group, "", map[]), NO_FAULT.(groupHidden := true);
    RunThree(AddPool(pool, group), AddPermissions(service, group, "", map[]), last, NO_FAULT, NO_FAULT, f);
    JoinedHolds(pool, group, service);
    var history := Three(pool, group, service, last);
    assert history[0] in history && history[2] in history;
    BothAsked(history, pool, group, joining);
    NothingFromEmptyGroup(Apply(Joined(pool, group, service), last, f).groups, group, pool);
  }
}
