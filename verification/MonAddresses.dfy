/** The published mon addresses (src/utils.py, src/relation_handlers.py). */
module MonAddresses {
  import opened Ordering

  /**
   * How addresses are normalised: `_normalize_ip` gives the canonical text of a bare IP address and
   * leaves anything else alone, so it gives "" for "" only.
   */
  datatype Normalizer = Normalizer(apply: string -> string)

  /** The sort key `_normalize_ip(a) or a`. */
  function Key(n: Normalizer, a: string): string {
    if n.apply(a) != "" then n.apply(a) else a
  }

  /** Order by key, then by the address itself. */
  predicate AddressLe(n: Normalizer, a: string, b: string) {
    if Key(n, a) == Key(n, b) then StrLe(a, b) else StrLe(Key(n, a), Key(n, b))
  }

  /** `_sort_mon_addresses` */
  function SortMonAddresses(n: Normalizer, addrs: seq<string>): seq<string> {
    Sort(addrs, (a, b) => AddressLe(n, a, b))
  }

  lemma AddressOrder(n: Normalizer)
    ensures TotalOrder((a, b) => AddressLe(n, a, b))
  {
    StrLeTotalOrder();
    var le := (a, b) => AddressLe(n, a, b);
    forall a, b ensures le(a, b) || le(b, a) {}
    forall a, b | le(a, b) && le(b, a) ensures a == b {}
    forall a, b, c | le(a, b) && le(b, c) ensures le(a, c) {}
  }

  function Live(n: Normalizer, addrs: seq<string>, live: set<string>): (r: seq<string>)
    ensures forall a :: multiset(r)[a] == if n.apply(a) in live then multiset(addrs)[a] else 0
  {
    if addrs == [] then []
    else
      assert addrs == [addrs[0]] + addrs[1..];
      (if n.apply(addrs[0]) in live then [addrs[0]] else []) + Live(n, addrs[1..], live)
  }

  /** `get_mon_addresses`, given what the service API (or ceph.conf) and the live monmap report. */
  function GetMonAddresses(n: Normalizer, addrs: seq<string>, live: set<string>): seq<string> {
    if Live(n, addrs, live) != [] then SortMonAddresses(n, Live(n, addrs, live)) else SortMonAddresses(n, addrs)
  }

  /** Reported in any order, the same addresses and the same live set give the identical list. */
  lemma SameForAnyOrder(n: Normalizer, a: seq<string>, b: seq<string>, live: set<string>)
    requires multiset(a) == multiset(b)
    ensures GetMonAddresses(n, a, live) == GetMonAddresses(n, b, live)
  {
    var x, y := Live(n, a, live), Live(n, b, live);
    assert multiset(x) == multiset(y);
    assert |multiset(x)| == |x| && |multiset(y)| == |y|;
    SortSame(n, a, b);
    SortSame(n, x, y);
  }

  lemma SortSame(n: Normalizer, a: seq<string>, b: seq<string>)
    requires multiset(a) == multiset(b)
    ensures SortMonAddresses(n, a) == SortMonAddresses(n, b)
  {
    AddressOrder(n);
    SortCanonical(a, b, (p, q) => AddressLe(n, p, q));
  }

  /** The list repeats nothing beyond the report, and is empty only if the report is. */
  lemma ListIsSubset(n: Normalizer, addrs: seq<string>, live: set<string>)
    ensures var r := GetMonAddresses(n, addrs, live);
      multiset(r) <= multiset(addrs) && (r == [] <==> addrs == [])
  {
    var kept := Live(n, addrs, live);
    assert multiset(kept) <= multiset(addrs);
    if addrs == [] {
      assert kept == [];
    }
  }

  lemma SameMultisetMembers(a: seq<string>, b: seq<string>)
    requires multiset(a) == multiset(b)
    ensures forall x :: x in a <==> x in b
  {
    forall x ensures x in a <==> x in b {
      assert x in a <==> x in multiset(a);
      assert x in b <==> x in multiset(b);
    }
  }

  lemma LiveMembers(n: Normalizer, addrs: seq<string>, live: set<string>, a: string)
    ensures a in Live(n, addrs, live) <==> a in addrs && n.apply(a) in live
  {
    assert a in addrs <==> multiset(addrs)[a] > 0;
    assert a in Live(n, addrs, live) <==> multiset(Live(n, addrs, live))[a] > 0;
  }

  /** It holds exactly the live ones of the reported addresses, or all of them when none is live. */
  lemma ListIsLive(n: Normalizer, addrs: seq<string>, live: set<string>, a: string)
    ensures a in GetMonAddresses(n, addrs, live)
            <==> a in addrs && (n.apply(a) in live || forall b <- addrs :: n.apply(b) !in live)
  {
    var kept := Live(n, addrs, live);
    LiveMembers(n, addrs, live, a);
    forall b <- addrs ensures b in kept <==> n.apply(b) in live { LiveMembers(n, addrs, live, b); }
    if kept != [] {
      LiveMembers(n, addrs, live, kept[0]);
      SameMultisetMembers(kept, SortMonAddresses(n, kept));
    } else {
      SameMultisetMembers(addrs, SortMonAddresses(n, addrs));
    }
  }

  /** In which order: by normalised address, or the address itself where that is "", and then by the address itself. */
  lemma ListIsOrdered(n: Normalizer, addrs: seq<string>, live: set<string>, i: nat, j: nat)
    requires i < j < |GetMonAddresses(n, addrs, live)|
    ensures var r := GetMonAddresses(n, addrs, live);
      var a, b := (if n.apply(r[i]) != "" then n.apply(r[i]) else r[i]), (if n.apply(r[j]) != "" then n.apply(r[j]) else r[j]);
      StrLe(a, b) && (a == b ==> StrLe(r[i], r[j]))
  {
    var kept := if Live(n, addrs, live) != [] then Live(n, addrs, live) else addrs;
    var le := (a, b) => AddressLe(n, a, b);
    AddressOrder(n);
    SortSorted(kept, le);
    var r := Sort(kept, le);
    assert GetMonAddresses(n, addrs, live) == r;
    assert le(r[i], r[j]);
    StrLeTotal(Key(n, r[i]), Key(n, r[i]));
  }

  /** How often: as often as reported. */
  lemma ListCounts(n: Normalizer, addrs: seq<string>, live: set<string>, a: string)
    ensures multiset(GetMonAddresses(n, addrs, live))[a]
            == if n.apply(a) in live || forall b <- addrs :: n.apply(b) !in live then multiset(addrs)[a] else 0
  {
    var kept := Live(n, addrs, live);
    forall b <- addrs ensures b in kept <==> n.apply(b) in live { LiveMembers(n, addrs, live, b); }
    if kept != [] {
      LiveMembers(n, addrs, live, kept[0]);
    }
  }

  /** One unit's databags on every relation of the provider. */
  class CephClientProvides {
    var unitAddress: map<string, string>
    var appAddresses: map<string, seq<string>>

    constructor ()
      ensures unitAddress == map[] && appAddresses == map[]
    {
      unitAddress, appAddresses := map[], map[];
    }

    /**
     * `_lookup_system_interfaces`: the first of this machine's addresses that is in the list, else "".
     */
    static method LookupSystemInterfaces(own: seq<string>, monHosts: seq<string>) returns (r: string)
      ensures r == FirstIn(own, monHosts)
      ensures || (r == "" && forall a <- own :: a !in monHosts)
              || exists i | 0 <= i < |own| :: own[i] == r && r in monHosts && forall j | 0 <= j < i :: own[j] !in monHosts
    {
      FirstInMeans(own, monHosts);
      for i := 0 to |own|
        invariant FirstIn(own, monHosts) == FirstIn(own[i..], monHosts)
      {
        if own[i] in monHosts {
          return own[i];
        }
      }
      r := "";
    }

    /**
     * `_publish_mon_data`, once the mon list could be fetched: every relation gets this unit's own
     * mon address, or loses a stale one, and the leader publishes the whole list.
     */
    method PublishMonData(relations: seq<string>, addrs: seq<string>, own: seq<string>, isLeader: bool)
      modifies this
      ensures unitAddress == UnitAfter(old(unitAddress), relations, addrs, own)
      ensures appAddresses == if isLeader then AppAfter(old(appAddresses), relations, addrs) else old(appAddresses)
    {
      if addrs == [] {
        AppAfterNothing(appAddresses, relations);
        return;
      }
      var selfAddr := LookupSystemInterfaces(own, addrs);
      for i := 0 to |relations|
        invariant unitAddress == UnitAfter(old(unitAddress), relations[..i], addrs, own)
        invariant appAddresses == if isLeader then AppAfter(old(appAddresses), relations[..i], addrs) else old(appAddresses)
      {
        assert relations[..i + 1][..i] == relations[..i];
        if selfAddr != "" {
          unitAddress := unitAddress[relations[i] := selfAddr];
        } else if relations[i] in unitAddress {
          unitAddress := unitAddress - {relations[i]};
        }
        if isLeader {
          appAddresses := appAddresses[relations[i] := addrs];
        }
      }
      assert relations[..|relations|] == relations;
    }
  }

  function FirstIn(own: seq<string>, list: seq<string>): string {
    if own == [] then "" else if own[0] in list then own[0] else FirstIn(own[1..], list)
  }

  /** The first of the own addresses that is in the list, or "" when none is. */
  lemma {:induction false} FirstInMeans(own: seq<string>, list: seq<string>)
    ensures var r := FirstIn(own, list);
      || (r == "" && forall a <- own :: a !in list)
      || exists i | 0 <= i < |own| :: own[i] == r && r in list && forall j | 0 <= j < i :: own[j] !in list
  {
    if own != [] && own[0] !in list {
      var rest := own[1..];
      FirstInMeans(rest, list);
      assert own == [own[0]] + rest;
      if i :| 0 <= i < |rest| && rest[i] == FirstIn(rest, list) && rest[i] in list && forall j | 0 <= j < i :: rest[j] !in list {
        assert own[i + 1] == rest[i];
        forall j | 0 <= j < i + 1 ensures own[j] !in list {
          if j > 0 { assert own[j] == rest[j - 1]; }
        }
      }
    }
  }

  /** The unit databags after publishing; writing "" to a databag removes the key. */
  function UnitAfter(bag: map<string, string>, relations: seq<string>, addrs: seq<string>, own: seq<string>): map<string, string> {
    if addrs == [] || relations == [] then bag
    else
      var before := UnitAfter(bag, relations[..|relations| - 1], addrs, own);
      var relation := relations[|relations| - 1];
      if FirstIn(own, addrs) != "" then before[relation := FirstIn(own, addrs)] else before - {relation}
  }

  function AppAfter(bag: map<string, seq<string>>, relations: seq<string>, addrs: seq<string>): map<string, seq<string>> {
    if addrs == [] || relations == [] then bag
    else AppAfter(bag, relations[..|relations| - 1], addrs)[relations[|relations| - 1] := addrs]
  }

  lemma AppAfterNothing(bag: map<string, seq<string>>, relations: seq<string>)
    ensures AppAfter(bag, relations, []) == bag
  {
  }

  lemma {:induction false} UnitAfterAt(bag: map<string, string>, relations: seq<string>, addrs: seq<string>, own: seq<string>, r: string)
    requires addrs != []
    ensures var after := UnitAfter(bag, relations, addrs, own); var mine := FirstIn(own, addrs);
      if r in relations then (r in after <==> mine != "") && (r in after ==> after[r] == mine)
      else (r in after <==> r in bag) && (r in after ==> after[r] == bag[r])
  {
    if relations != [] {
      UnitAfterAt(bag, relations[..|relations| - 1], addrs, own, r);
      assert relations == relations[..|relations| - 1] + [relations[|relations| - 1]];
    }
  }

  lemma {:induction false} AppAfterAt(bag: map<string, seq<string>>, relations: seq<string>, addrs: seq<string>, r: string)
    requires addrs != []
    ensures var after := AppAfter(bag, relations, addrs);
      if r in relations then r in after && after[r] == addrs
      else (r in after <==> r in bag) && (r in after ==> after[r] == bag[r])
  {
    if relations != [] {
      AppAfterAt(bag, relations[..|relations| - 1], addrs, r);
      assert relations == relations[..|relations| - 1] + [relations[|relations| - 1]];
    }
  }

  lemma UnitIdempotent(bag: map<string, string>, relations: seq<string>, addrs: seq<string>, own: seq<string>)
    requires addrs != []
    ensures var unit := UnitAfter(bag, relations, addrs, own); UnitAfter(unit, relations, addrs, own) == unit
  {
    var unit := UnitAfter(bag, relations, addrs, own);
    var again := UnitAfter(unit, relations, addrs, own);
    forall r: string ensures (r in again <==> r in unit) && (r in unit ==> again[r] == unit[r]) {
      UnitAfterAt(bag, relations, addrs, own, r);
      UnitAfterAt(unit, relations, addrs, own, r);
    }
  }

  lemma AppIdempotent(bag: map<string, seq<string>>, relations: seq<string>, addrs: seq<string>)
    requires addrs != []
    ensures var app := AppAfter(bag, relations, addrs); AppAfter(app, relations, addrs) == app
  {
    var app := AppAfter(bag, relations, addrs);
    var again := AppAfter(app, relations, addrs);
    forall r: string ensures (r in again <==> r in app) && (r in app ==> again[r] == app[r]) {
      AppAfterAt(bag, relations, addrs, r);
      AppAfterAt(app, relations, addrs, r);
    }
  }

  /** Publishing an unchanged mon set again, reported in any order, changes no databag. */
  lemma RepublishChangesNothing(n: Normalizer, a: seq<string>, b: seq<string>, live: set<string>, relations: seq<string>,
                                own: seq<string>, unitBag: map<string, string>, appBag: map<string, seq<string>>)
    requires multiset(a) == multiset(b)
    ensures var first, again := GetMonAddresses(n, a, live), GetMonAddresses(n, b, live);
      var unit, app := UnitAfter(unitBag, relations, first, own), AppAfter(appBag, relations, first);
      UnitAfter(unit, relations, again, own) == unit && AppAfter(app, relations, again) == app
  {
    SameForAnyOrder(n, a, b, live);
    var addrs := GetMonAddresses(n, a, live);
    if addrs != [] {
      UnitIdempotent(unitBag, relations, addrs, own);
      AppIdempotent(appBag, relations, addrs);
    }
  }
}
