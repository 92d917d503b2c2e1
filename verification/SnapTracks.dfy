/** Which snap track may follow which, and the channel the leader records (src/microceph.py, src/cluster.py). */
module SnapTracks {
  import opened Wrappers
  import opened Text

  /** What the snap store answers: the tracks microceph has, and the version "latest" stands for. */
  datatype Store = Store(tracks: set<string>, latestVersion: string)

  datatype Failure = UnknownMajorVersion | NoFirstLetter | NotALetter

  function MajorName(version: string): Option<string> {
    if version == "17" then Some("quincy")
    else if version == "18" then Some("reef")
    else if version == "19" then Some("squid")
    else if version == "20" then Some("tentacle")
    else None
  }

  const QUINCY := 16

  function Alphabet(): (r: string)
    ensures |r| == 26
  {
    seq(26, i requires 0 <= i < 26 => 'a' + i as char)
  }

  /** q, r, ... z, a, b, ... p */
  function Succession(): string {
    Alphabet()[QUINCY..] + Alphabet()[..QUINCY]
  }

  /** The first position of c at or after i. */
  function IndexFrom(s: string, c: char, i: nat): (r: Option<nat>)
    requires i <= |s|
    ensures r.None? <==> c !in s[i..]
    ensures r.Some? ==> i <= r.value < |s| && s[r.value] == c && c !in s[i..r.value]
    decreases |s| - i
  {
    if i == |s| then None
    else if s[i] == c then Some(i)
    else IndexFrom(s, c, i + 1)
  }

  function FirstLetterRank(track: string): Result<nat, Failure> {
    if track == "" then Err(NoFirstLetter)
    else
      match IndexFrom(Succession(), track[0], 0)
      case None => Err(NotALetter)
      case Some(i) => Ok(i)
  }

  /** `can_upgrade_snap`; an Err is one of the exceptions its lookups raise. */
  function CanUpgradeSnap(store: Store, current: string, target: string): Result<bool, Failure> {
    if target == "" then Ok(false)
    else if target == "latest" then Ok(true)
    else if Lower(target) !in store.tracks then Ok(false)
    else if current == "latest" && MajorName(store.latestVersion).None? then Err(UnknownMajorVersion)
    else
      var from := if current == "latest" then MajorName(store.latestVersion).value else current;
      match (FirstLetterRank(from), FirstLetterRank(target))
      case (Ok(i), Ok(j)) => Ok(i <= j)
      case (Err(e), _) => Err(e)
      case (_, Err(e)) => Err(e)
  }

  /** channel.split("/")[0] */
  function Track(channel: string): string {
    Split(channel, '/')[0]
  }

  /** One pass of the leader's upgrade check: the option, the store's answers and the cluster's health. */
  datatype Request = Request(snapChannel: string, store: Store, healthy: bool)

  /** The channel property: the recorded one, or the option while nothing is recorded. */
  function EffectiveChannel(recorded: Option<string>, snapChannel: string): string {
    if recorded.Some? && recorded.value != "" then recorded.value else snapChannel
  }

  /** An accepted request is recorded whether or not the upgrade that follows succeeds. */
  function NextChannel(recorded: Option<string>, r: Request): Option<string> {
    var current := EffectiveChannel(recorded, r.snapChannel);
    if current != r.snapChannel && CanUpgradeSnap(r.store, Track(current), Track(r.snapChannel)) == Ok(true) && r.healthy
    then Some(r.snapChannel)
    else recorded
  }

  function RunRequests(recorded: Option<string>, rs: seq<Request>): Option<string>
    decreases |rs|
  {
    if rs == [] then recorded else RunRequests(NextChannel(recorded, rs[0]), rs[1..])
  }

  datatype CheckResult = NothingRequested | Blocked | Raised(e: Failure) | Accepted

  /** The leader's record of the channel, in the peer application databag. */
  class ClusterUpgrades {
    var recorded: Option<string>

    constructor (initial: Option<string>)
      ensures recorded == initial
    {
      recorded := initial;
    }

    /** `handle_config_leader_charm_upgrade` up to and including the assignment in `init_upgrade`. */
    method HandleConfigLeaderCharmUpgrade(r: Request) returns (result: CheckResult)
      modifies this
      ensures recorded == NextChannel(old(recorded), r)
      ensures result.NothingRequested? <==>
                old(recorded).None? || old(recorded).value == "" || old(recorded).value == r.snapChannel
      ensures result.Accepted? <==>
                && old(recorded).Some? && old(recorded).value != "" && old(recorded).value != r.snapChannel && r.healthy
                && CanUpgradeSnap(r.store, Track(old(recorded).value), Track(r.snapChannel)) == Ok(true)
      ensures result.Raised? <==>
                && old(recorded).Some? && old(recorded).value != "" && old(recorded).value != r.snapChannel
                && CanUpgradeSnap(r.store, Track(old(recorded).value), Track(r.snapChannel)).Err?
      ensures result.Raised? ==>
                CanUpgradeSnap(r.store, Track(old(recorded).value), Track(r.snapChannel)) == Err(result.e)
      ensures recorded == if result.Accepted? then Some(r.snapChannel) else old(recorded)
    {
      var current := EffectiveChannel(recorded, r.snapChannel);
      if current == r.snapChannel {
        return NothingRequested;
      }
      match CanUpgradeSnap(r.store, Track(current), Track(r.snapChannel)) {
        case Err(e) => return Raised(e);
        case Ok(false) => return Blocked;
        case Ok(true) =>
      }
      if !r.healthy {
        return Blocked;
      }
      recorded := Some(r.snapChannel);
      result := Accepted;
    }
  }

  // ---- properties ----

  predicate LowerLetter(c: char) {
    'a' <= c <= 'z'
  }

  /** The succession q..z,a..p ranks the 26 letters without ties: a strict total order. */
  lemma SuccessionOrdersLetters(c: char, d: char)
    requires LowerLetter(c) && LowerLetter(d)
    ensures var i := IndexFrom(Succession(), c, 0); i.Some? && i.value == (c as int - 'q' as int + 26) % 26
    ensures IndexFrom(Succession(), c, 0) == IndexFrom(Succession(), d, 0) <==> c == d
  {
    LetterIndex(c);
    LetterIndex(d);
  }

  lemma LetterIndex(c: char)
    requires LowerLetter(c)
    ensures var i := IndexFrom(Succession(), c, 0); i.Some? && i.value == (c as int - 'q' as int + 26) % 26
  {
    var k := (c as int - 'q' as int + 26) % 26;
    assert forall j | 0 <= j < 26 :: Succession()[j] as int == 'a' as int + (j + QUINCY) % 26;
    assert Succession()[k] == c;
    assert forall j | 0 <= j < 26 && j != k :: Succession()[j] != c;
  }

  predicate AvoidsLatest(rs: seq<Request>) {
    forall r <- rs :: Track(r.snapChannel) != "latest"
  }

  /** The second track is no older than the first. */
  predicate NotOlder(a: string, b: string) {
    FirstLetterRank(a).Ok? && FirstLetterRank(b).Ok? && FirstLetterRank(a).value <= FirstLetterRank(b).value
  }

  lemma TrackRank(track: string)
    requires track != "" && LowerLetter(track[0])
    ensures FirstLetterRank(track) == Ok((track[0] as int - 'q' as int + 26) % 26)
  {
    LetterIndex(track[0]);
  }

  /** The track is what stands before the first slash of a channel, or the whole of it. */
  lemma TrackOfChannel(track: string, rest: string)
    requires '/' !in track
    ensures Track(track + "/" + rest) == track && Track(track) == track
  {
    SplitWhole(track, '/');
    SplitConcat(track, rest, '/');
  }

  lemma LetterRank(track: string)
    ensures FirstLetterRank(track) ==
            if track == "" then Err(NoFirstLetter)
            else if 'a' <= track[0] <= 'z' then Ok((track[0] as int - 'q' as int + 26) % 26)
            else Err(NotALetter)
  {
    if track != "" {
      if 'a' <= track[0] <= 'z' {
        LetterIndex(track[0]);
      } else {
        assert forall j | 0 <= j < 26 :: 'a' <= Succession()[j] <= 'z';
      }
    }
  }

  /**
   * Between named tracks: accepted exactly when the new track exists under its lower-case name and both
   * start with a lower-case letter, the new one's no earlier than the old one's counted from q.
   */
  lemma AcceptedIff(store: Store, current: string, target: string)
    requires current != "latest" && target != "latest"
    ensures CanUpgradeSnap(store, current, target) == Ok(true) <==>
      && target != "" && Lower(target) in store.tracks && current != ""
      && 'a' <= current[0] <= 'z' && 'a' <= target[0] <= 'z'
      && (current[0] as int - 'q' as int + 26) % 26 <= (target[0] as int - 'q' as int + 26) % 26
    ensures CanUpgradeSnap(store, current, target) == Ok(false) <==>
      || target == "" || Lower(target) !in store.tracks
      || (current != "" && 'a' <= current[0] <= 'z' && 'a' <= target[0] <= 'z'
          && (current[0] as int - 'q' as int + 26) % 26 > (target[0] as int - 'q' as int + 26) % 26)
  {
    LetterRank(current);
    LetterRank(target);
  }

  /** Any track may move to latest, and from latest to any track no earlier than the version latest stands for. */
  lemma LatestIff(store: Store, current: string, target: string)
    ensures CanUpgradeSnap(store, current, "latest") == Ok(true)
    ensures target != "latest" ==>
      (CanUpgradeSnap(store, "latest", target) == Ok(true) <==>
         && target != "" && Lower(target) in store.tracks && 'a' <= target[0] <= 'z'
         && ((store.latestVersion == "17" && 0 <= (target[0] as int - 'q' as int + 26) % 26)
             || (store.latestVersion == "18" && 1 <= (target[0] as int - 'q' as int + 26) % 26)
             || (store.latestVersion == "19" && 2 <= (target[0] as int - 'q' as int + 26) % 26)
             || (store.latestVersion == "20" && 3 <= (target[0] as int - 'q' as int + 26) % 26)))
  {
    LetterRank(target);
    LetterRank("quincy");
    LetterRank("reef");
    LetterRank("squid");
    LetterRank("tentacle");
  }

  /** An accepted request for a named track, over a named track, is not a downgrade. */
  lemma AcceptedIsNotOlder(store: Store, current: string, target: string)
    requires current != "latest" && target != "latest" && CanUpgradeSnap(store, current, target) == Ok(true)
    ensures NotOlder(current, target)
  {
  }

  lemma NotOlderTransitive(a: string, b: string, c: string)
    requires NotOlder(a, b) && NotOlder(b, c)
    ensures NotOlder(a, c)
  {
  }

  /** Over every run of requests for named tracks the recorded channel never moves to an older track. */
  lemma {:induction false} NoDowngrade(recorded: Option<string>, rs: seq<Request>)
    requires recorded.Some? ==> Track(recorded.value) != "latest"
    requires AvoidsLatest(rs)
    ensures var last := RunRequests(recorded, rs);
      last == recorded
      || (recorded.Some? && last.Some? && NotOlder(Track(recorded.value), Track(last.value)))
    decreases |rs|
  {
    if rs != [] {
      var next := NextChannel(recorded, rs[0]);
      assert rs[0] in rs && forall r <- rs[1..] :: r in rs;
      if next != recorded {
        var current := EffectiveChannel(recorded, rs[0].snapChannel);
        AcceptedIsNotOlder(rs[0].store, Track(current), Track(rs[0].snapChannel));
      }
      NoDowngrade(next, rs[1..]);
      var last := RunRequests(next, rs[1..]);
      if next != recorded && last != next {
        NotOlderTransitive(Track(recorded.value), Track(next.value), Track(last.value));
      }
    }
  }

  /** From "latest", which any track may move to, the named track b is accepted. */
  predicate DetourReaches(store: Store, b: string) {
    b != "latest" && CanUpgradeSnap(store, "latest", b) == Ok(true)
  }

  lemma DetourReachesIff(store: Store, b: string)
    requires MajorName(store.latestVersion).Some?
    ensures DetourReaches(store, b)
            <==> b != "latest" && b != "" && Lower(b) in store.tracks && NotOlder(MajorName(store.latestVersion).value, b)
  {
  }

  lemma MajorIsReached(store: Store, major: string)
    requires MajorName(store.latestVersion) == Some(major) && major in store.tracks
    ensures DetourReaches(store, major)
  {
    TrackRank(major);
    LowerFixesLowercase(major);
    DetourReachesIff(store, major);
  }

  lemma DetourFromMajor(store: Store, a: string, major: string, b: string)
    requires MajorName(store.latestVersion) == Some(major) && NotOlder(a, major) && DetourReaches(store, b)
    ensures NotOlder(a, b)
  {
    DetourReachesIff(store, b);
    NotOlderTransitive(a, major, b);
  }

  /**
   * A detour over "latest" escapes that order: going from a named track a through "latest" is safe,
   * whatever track comes next, if and only if "latest" stands for a track no older than a.
   */
  lemma DetourIsSafeIff(store: Store, a: string, major: string)
    requires MajorName(store.latestVersion) == Some(major) && major in store.tracks
    ensures (forall b :: DetourReaches(store, b) ==> NotOlder(a, b)) <==> NotOlder(a, major)
  {
    MajorIsReached(store, major);
    if NotOlder(a, major) {
      forall b | DetourReaches(store, b) ensures NotOlder(a, b) { DetourFromMajor(store, a, major, b); }
    }
  }

  // ---- runs that visit latest ----

  function NamedAfter(named: string, recorded: Option<string>): string {
    if recorded.Some? && Track(recorded.value) != "latest" then Track(recorded.value) else named
  }

  /** The named track that was last on record, if `named` was before the run. */
  function LastNamed(named: string, recorded: Option<string>, rs: seq<Request>): string
    decreases |rs|
  {
    if rs == [] then named
    else var next := NextChannel(recorded, rs[0]); LastNamed(NamedAfter(named, next), next, rs[1..])
  }

  /** The request moves the record from latest to a named track. */
  predicate Exits(recorded: Option<string>, r: Request) {
    && recorded.Some? && Track(recorded.value) == "latest"
    && NextChannel(recorded, r) != recorded && Track(r.snapChannel) != "latest"
  }

  /** Whenever the run leaves latest, latest stands for a track no older than the last named one. */
  predicate SafeExits(named: string, recorded: Option<string>, rs: seq<Request>)
    decreases |rs|
  {
    rs == [] ||
    var next := NextChannel(recorded, rs[0]);
    && (Exits(recorded, rs[0]) ==>
          var major := MajorName(rs[0].store.latestVersion); major.Some? && NotOlder(named, major.value))
    && SafeExits(NamedAfter(named, next), next, rs[1..])
  }

  lemma StepIsNotOlder(named: string, recorded: Option<string>, r: Request)
    requires recorded.Some? && Track(recorded.value) != "latest" ==> named == Track(recorded.value)
    requires SafeExits(named, recorded, [r])
    ensures var after := NamedAfter(named, NextChannel(recorded, r)); after == named || NotOlder(named, after)
  {
    var next := NextChannel(recorded, r);
    if next != recorded && Track(r.snapChannel) != "latest" {
      if Track(recorded.value) != "latest" {
        AcceptedIsNotOlder(r.store, Track(recorded.value), Track(r.snapChannel));
      } else {
        DetourFromMajor(r.store, named, MajorName(r.store.latestVersion).value, Track(r.snapChannel));
      }
    }
  }

  /**
   * Over every run, with any visits to latest, the last named track on record is no older than the one
   * before the run, if latest is left safely every time.
   */
  lemma {:induction false} NoDowngradeThroughLatest(named: string, recorded: Option<string>, rs: seq<Request>)
    requires recorded.Some? && Track(recorded.value) != "latest" ==> named == Track(recorded.value)
    requires SafeExits(named, recorded, rs)
    ensures var last := LastNamed(named, recorded, rs); last == named || NotOlder(named, last)
    decreases |rs|
  {
    if rs != [] {
      var next := NextChannel(recorded, rs[0]);
      var after := NamedAfter(named, next);
      StepIsNotOlder(named, recorded, rs[0]);
      NoDowngradeThroughLatest(after, next, rs[1..]);
      var last := LastNamed(after, next, rs[1..]);
      if after != named && last != after {
        NotOlderTransitive(named, after, last);
      }
    }
  }

  lemma WholeIsTrack(track: string)
    requires '/' !in track
    ensures Track(track) == track
  {
    SplitWhole(track, '/');
  }

  /** And that condition is exact: after any run that ends on latest, no exit can downgrade if and only if. */
  lemma ExitIsSafeIff(named: string, recorded: Option<string>, rs: seq<Request>, store: Store, major: string)
    requires MajorName(store.latestVersion) == Some(major) && major in store.tracks
    requires var last := RunRequests(recorded, rs); last.Some? && Track(last.value) == "latest"
    ensures var last, a := RunRequests(recorded, rs), LastNamed(named, recorded, rs);
      (forall r: Request | r.store == store && Exits(last, r) :: NotOlder(a, Track(r.snapChannel))) <==> NotOlder(a, major)
  {
    var last, a := RunRequests(recorded, rs), LastNamed(named, recorded, rs);
    var toMajor := Request(major, store, true);
    WholeIsTrack(major);
    MajorIsReached(store, major);
    assert last.value != "" by { assert Track("") == ""; }
    assert Exits(last, toMajor);
    if NotOlder(a, major) {
      forall r: Request | r.store == store && Exits(last, r) ensures NotOlder(a, Track(r.snapChannel)) {
        DetourFromMajor(store, a, major, Track(r.snapChannel));
      }
    }
  }

  lemma LowerFixesLowercase(s: string)
    requires forall c <- s :: !('A' <= c <= 'Z')
    ensures Lower(s) == s
  {
    forall i | 0 <= i < |s| ensures Lower(s)[i] == s[i] { assert s[i] in s; }
  }

  /** The detour does happen: squid, latest, quincy while the store still maps "latest" to version 17. */
  lemma LatestDowngradeExample()
    ensures var store := Store({"quincy"}, "17");
      CanUpgradeSnap(store, "squid", "latest") == Ok(true) && DetourReaches(store, "quincy") && !NotOlder("squid", "quincy")
  {
    TrackRank("squid");
    TrackRank("quincy");
    LowerFixesLowercase("quincy");
  }
}
