/**
 * Every run of the rolling upgrade: any unit may lead at any moment, non-leaders may read any version
 * of the record ever published, hooks may run again, and several rounds may follow each other.
 */
module UpgradeProtocol {
  import opened Wrappers
  import opened Ordering
  import opened Upgrade

  /** A completed `perform_upgrade`: the channel installed and what the environment answered. */
  datatype Proof = Proof(channel: string, attempt: Attempt)

  /** History of one round: what the leader first published and how it upgraded itself. */
  datatype Round = Round(channel: string, nodes: seq<Unit>, starter: Unit, own: Proof)

  /**
   * versions: every value the record has held, the current one last (None: cleared or never set);
   * running: units inside an upgrade hook, with the record they read; published: which unit has ever
   * published which nonce, and on what evidence; cleared: the rounds the leader has cleared.
   */
  datatype System = System(
    versions: seq<Option<Info>>,
    rounds: map<Nonce, Round>,
    running: map<Unit, Info>,
    published: map<(Unit, Nonce), Proof>,
    cleared: set<Nonce>)
  {
    function Current(): Option<Info>
      requires versions != []
    {
      versions[|versions| - 1]
    }
  }

  const INITIAL := System([None], map[], map[], map[], {})

  datatype Step =
    | Start(starter: Unit, channel: string, joined: seq<Unit>, nonce: Nonce, own: Attempt)
    | Begin(unit: Unit, version: nat)
    | Finish(unit: Unit, attempt: Attempt)
    | Collect(source: Option<Unit>, seen: Option<Nonce>)

  /** Nonces are fresh, and the leader reads only nonces the unit has published at some time. */
  predicate Enabled(s: System, step: Step) {
    s.versions != [] &&
    match step
    case Start(_, _, joined, nonce, own) => nonce !in s.rounds && nonce != "" && Distinct(joined) && Succeeds(own)
    case Begin(unit, version) =>
      unit !in s.running && version < |s.versions| && s.versions[version].Some? && Heads(unit, s.versions[version].value)
    case Finish(unit, _) => unit in s.running
    case Collect(source, seen) =>
      s.Current().Some? && (source.Some? && seen.Some? ==> (source.value, seen.value) in s.published)
  }

  /** One step; a step that is not enabled changes nothing, so every list of steps is a run. */
  function Apply(s: System, step: Step): System {
    if !Enabled(s, step) then s
    else
      match step
      case Start(starter, channel, joined, nonce, own) =>
        var nodes := Sort(joined, StrLe);
        s.(versions := s.versions + [Some(Info(nonce, channel, nodes))],
           rounds := s.rounds[nonce := Round(channel, nodes, starter, Proof(channel, own))])
      case Begin(unit, version) => s.(running := s.running[unit := s.versions[version].value])
      case Finish(unit, attempt) =>
        var info := s.running[unit];
        var rest := s.(running := s.running - {unit});
        if Succeeds(attempt) then rest.(published := s.published[(unit, info.nonce) := Proof(info.channel, attempt)])
        else rest
      case Collect(source, seen) =>
        var info := s.Current().value;
        var next := LeaderNext(info, source, seen);
        if next == Some(info) then s
        else s.(versions := s.versions + [next], cleared := if next.None? then s.cleared + {info.nonce} else s.cleared)
  }

  function Run(s: System, steps: seq<Step>): System
    decreases |steps|
  {
    if steps == [] then s else Run(Apply(s, steps[0]), steps[1..])
  }

  // ---- the invariant ----

  /** How many nodes have been taken off the round's list in this version of its record. */
  function Taken(s: System, info: Info): int {
    if info.nonce in s.rounds then |s.rounds[info.nonce].nodes| - |info.nodes| else 0
  }

  ghost predicate FirstHavePublished(s: System, nonce: Nonce, n: int) {
    nonce in s.rounds && 0 <= n <= |s.rounds[nonce].nodes|
    && forall j | 0 <= j < n :: (s.rounds[nonce].nodes[j], nonce) in s.published
  }

  /** The record is a suffix of the round's list, and all that was taken off has published. */
  ghost predicate SuffixOfRound(s: System, info: Info) {
    && info.nonce in s.rounds
    && info.channel == s.rounds[info.nonce].channel
    && |info.nodes| <= |s.rounds[info.nonce].nodes|
    && info.nodes == s.rounds[info.nonce].nodes[Taken(s, info)..]
    && FirstHavePublished(s, info.nonce, Taken(s, info))
  }

  /** While the nonce's round is current, nothing older than this many taken nodes is in the record. */
  ghost predicate NotAhead(s: System, nonce: Nonce, taken: int) {
    s.versions != [] && (s.Current().Some? && s.Current().value.nonce == nonce ==> taken <= Taken(s, s.Current().value))
  }

  ghost predicate GoodRecord(s: System, info: Info) {
    SuffixOfRound(s, info) && NotAhead(s, info.nonce, Taken(s, info))
  }

  ghost predicate GoodProof(s: System, unit: Unit, nonce: Nonce) {
    && (unit, nonce) in s.published && nonce in s.rounds
    && Succeeds(s.published[(unit, nonce)].attempt)
    && s.published[(unit, nonce)].channel == s.rounds[nonce].channel
    && exists j: nat | j < |s.rounds[nonce].nodes| ::
         s.rounds[nonce].nodes[j] == unit && FirstHavePublished(s, nonce, j) && NotAhead(s, nonce, j)
  }

  ghost predicate GoodRound(n: Nonce, r: Round) {
    n != "" && Distinct(r.nodes) && SortedBy(r.nodes, StrLe) && Succeeds(r.own.attempt) && r.own.channel == r.channel
  }

  ghost predicate GoodClear(s: System, n: Nonce) {
    n in s.rounds && s.rounds[n].nodes != [] && FirstHavePublished(s, n, |s.rounds[n].nodes|)
  }

  ghost predicate Inv(s: System) {
    && s.versions != []
    && (forall k | 0 <= k < |s.versions| && s.versions[k].Some? :: GoodRecord(s, s.versions[k].value))
    && (forall u <- s.running :: Heads(u, s.running[u]) && GoodRecord(s, s.running[u]))
    && (forall un <- s.published :: GoodProof(s, un.0, un.1))
    && (forall n <- s.rounds :: GoodRound(n, s.rounds[n]))
    && (forall n <- s.cleared :: GoodClear(s, n))
  }

  lemma {:induction false} SortDistinct(joined: seq<Unit>)
    requires Distinct(joined)
    ensures Distinct(Sort(joined, StrLe)) && SortedBy(Sort(joined, StrLe), StrLe)
  {
    DistinctMultiset(joined);
    DistinctMultiset(Sort(joined, StrLe));
    StrLeTotalOrder();
    SortSorted(joined, StrLe);
  }

  /** History only grows and the current record only shrinks, so what holds of a unit or a record stays. */
  ghost predicate Grows(s: System, t: System) {
    && s.versions != [] && t.versions != []
    && (forall n <- s.rounds :: n in t.rounds && t.rounds[n] == s.rounds[n])
    && (forall un <- s.published :: un in t.published)
    && (t.Current().Some? && t.Current().value.nonce in s.rounds ==>
          s.Current().Some? && s.Current().value.nonce == t.Current().value.nonce
          && |t.Current().value.nodes| <= |s.Current().value.nodes|)
  }

  lemma {:induction false} GrowsKeepsRecord(s: System, t: System, info: Info)
    requires Grows(s, t) && GoodRecord(s, info)
    ensures GoodRecord(t, info)
  {
  }

  lemma {:induction false} GrowsKeepsProof(s: System, t: System, unit: Unit, nonce: Nonce)
    requires Grows(s, t) && GoodProof(s, unit, nonce) && t.published[(unit, nonce)] == s.published[(unit, nonce)]
    ensures GoodProof(t, unit, nonce)
  {
    var j: nat :| j < |s.rounds[nonce].nodes| && s.rounds[nonce].nodes[j] == unit
      && FirstHavePublished(s, nonce, j) && NotAhead(s, nonce, j);
    assert FirstHavePublished(t, nonce, j) && NotAhead(t, nonce, j);
  }

  /** Whatever is new in the later state is good there. */
  ghost predicate NewIsGood(s: System, t: System) {
    && (forall k | 0 <= k < |t.versions| && t.versions[k].Some? ::
          (k < |s.versions| && t.versions[k] == s.versions[k]) || GoodRecord(t, t.versions[k].value))
    && (forall u <- t.running ::
          (u in s.running && t.running[u] == s.running[u]) || (Heads(u, t.running[u]) && GoodRecord(t, t.running[u])))
    && (forall un <- t.published ::
          (un in s.published && t.published[un] == s.published[un]) || GoodProof(t, un.0, un.1))
    && (forall n <- t.rounds :: n in s.rounds || GoodRound(n, t.rounds[n]))
    && (forall n <- t.cleared :: n in s.cleared || GoodClear(t, n))
  }

  lemma {:induction false} GrowsKeepsInv(s: System, t: System)
    requires Inv(s) && Grows(s, t) && NewIsGood(s, t)
    ensures Inv(t)
  {
    forall k | 0 <= k < |t.versions| && t.versions[k].Some? ensures GoodRecord(t, t.versions[k].value) {
      if k < |s.versions| && t.versions[k] == s.versions[k] { GrowsKeepsRecord(s, t, t.versions[k].value); }
    }
    forall u <- t.running ensures Heads(u, t.running[u]) && GoodRecord(t, t.running[u]) {
      if u in s.running && t.running[u] == s.running[u] { GrowsKeepsRecord(s, t, t.running[u]); }
    }
    forall un <- t.published ensures GoodProof(t, un.0, un.1) {
      if un in s.published && t.published[un] == s.published[un] { GrowsKeepsProof(s, t, un.0, un.1); }
    }
    forall n <- t.cleared ensures GoodClear(t, n) {
      if n in s.cleared { assert GoodClear(s, n); }
    }
  }

  lemma {:induction false} StartIsGood(s: System, step: Step)
    requires step.Start? && Enabled(s, step)
    ensures Grows(s, Apply(s, step)) && NewIsGood(s, Apply(s, step))
  {
    SortDistinct(step.joined);
    var t := Apply(s, step);
    assert GoodRecord(t, t.Current().value);
  }

  lemma {:induction false} BeginIsGood(s: System, step: Step)
    requires step.Begin? && Enabled(s, step) && GoodRecord(s, s.versions[step.version].value)
    ensures Grows(s, Apply(s, step)) && NewIsGood(s, Apply(s, step))
  {
    var t := Apply(s, step);
    GrowsKeepsRecord(s, t, t.running[step.unit]);
  }

  /** A unit that heads a good record and upgrades well publishes good evidence. */
  lemma {:induction false} FinishIsGood(s: System, step: Step)
    requires step.Finish? && Enabled(s, step)
    requires Heads(step.unit, s.running[step.unit]) && GoodRecord(s, s.running[step.unit])
    ensures Grows(s, Apply(s, step)) && NewIsGood(s, Apply(s, step))
  {
    var t := Apply(s, step);
    var info := s.running[step.unit];
    if Succeeds(step.attempt) {
      GrowsKeepsRecord(s, t, info);
      assert t.rounds[info.nonce].nodes[Taken(t, info)] == step.unit;
      assert GoodProof(t, step.unit, info.nonce);
    }
  }

  /** An accepted done always takes the head of the list, whatever version its sender had read. */
  lemma {:induction false} CollectTakesHead(s: System, source: Unit)
    requires s.versions != [] && s.Current().Some? && source in s.Current().value.nodes
    requires GoodRecord(s, s.Current().value) && GoodProof(s, source, s.Current().value.nonce)
    requires Distinct(s.rounds[s.Current().value.nonce].nodes)
    ensures s.Current().value.nodes[0] == source
    ensures RemoveFirst(s.Current().value.nodes, source) == Some(s.Current().value.nodes[1..])
  {
    var info := s.Current().value;
    var nodes := s.rounds[info.nonce].nodes;
    var j: nat :| j < |nodes| && nodes[j] == source && NotAhead(s, info.nonce, j);
    var i: nat :| i < |info.nodes| && info.nodes[i] == source;
    assert info.nodes[i] == nodes[Taken(s, info) + i];
    assert i == 0;
  }

  /** The state after the head of the current list has been taken off. */
  function Advance(s: System): System
    requires s.versions != [] && s.Current().Some? && s.Current().value.nodes != []
  {
    var info := s.Current().value;
    if |info.nodes| == 1 then s.(versions := s.versions + [None], cleared := s.cleared + {info.nonce})
    else s.(versions := s.versions + [Some(info.(nodes := info.nodes[1..]))])
  }

  lemma {:induction false} CollectAdvances(s: System, source: Unit)
    requires s.versions != [] && s.Current().Some? && source in s.Current().value.nodes && s.Current().value.nonce != ""
    requires (source, s.Current().value.nonce) in s.published
    requires RemoveFirst(s.Current().value.nodes, source) == Some(s.Current().value.nodes[1..])
    ensures Apply(s, Collect(Some(source), Some(s.Current().value.nonce))) == Advance(s)
  {
  }

  lemma {:induction false} AdvanceIsGood(s: System)
    requires s.versions != [] && s.Current().Some? && s.Current().value.nodes != []
    requires GoodRecord(s, s.Current().value) && (s.Current().value.nodes[0], s.Current().value.nonce) in s.published
    ensures Grows(s, Advance(s)) && NewIsGood(s, Advance(s))
  {
    var info := s.Current().value;
    var t := Advance(s);
    var nodes := s.rounds[info.nonce].nodes;
    assert info.nodes[0] == nodes[Taken(s, info)];
    assert FirstHavePublished(t, info.nonce, Taken(s, info) + 1);
    if t.Current().Some? {
      assert info.nodes[1..] == nodes[Taken(s, info) + 1..];
      assert GoodRecord(t, t.Current().value);
    } else {
      assert GoodClear(t, info.nonce);
    }
  }

  /** The current record and its round are good. */
  lemma {:induction false} CurrentIsGood(s: System)
    requires Inv(s) && s.Current().Some?
    ensures var info := s.Current().value; GoodRecord(s, info) && info.nonce != "" && Distinct(s.rounds[info.nonce].nodes)
  {
    assert GoodRound(s.Current().value.nonce, s.rounds[s.Current().value.nonce]);
  }

  lemma {:induction false} StepKeepsInv(s: System, step: Step)
    requires Inv(s)
    ensures Inv(Apply(s, step))
  {
    if Enabled(s, step) {
      match step {
        case Start(_, _, _, _, _) =>
          StartIsGood(s, step);
          GrowsKeepsInv(s, Apply(s, step));
        case Begin(_, _) =>
          BeginIsGood(s, step);
          GrowsKeepsInv(s, Apply(s, step));
        case Finish(_, _) =>
          FinishIsGood(s, step);
          GrowsKeepsInv(s, Apply(s, step));
        case Collect(source, seen) =>
          if source.Some? && seen == Some(s.Current().value.nonce) && source.value in s.Current().value.nodes {
            CurrentIsGood(s);
            CollectTakesHead(s, source.value);
            CollectAdvances(s, source.value);
            AdvanceIsGood(s);
            GrowsKeepsInv(s, Advance(s));
          }
      }
    }
  }

  /** Every reachable state satisfies the invariant, for every list of steps. */
  lemma {:induction false} RunKeepsInv(s: System, steps: seq<Step>)
    requires Inv(s)
    ensures Inv(Run(s, steps))
    decreases |steps|
  {
    if steps != [] {
      StepKeepsInv(s, steps[0]);
      RunKeepsInv(Apply(s, steps[0]), steps[1..]);
    }
  }

  // ---- what holds of every run ----

  lemma {:induction false} InitialInv()
    ensures Inv(INITIAL)
  {
    assert INITIAL.Current().None?;
  }

  /**
   * Upgrade order. In every run each published record lists a suffix of its round's sorted list of
   * distinct units, whatever was taken off has published the nonce, and a unit can begin only when
   * every unit before it in the round has published the nonce.
   */
  lemma UpgradeOrder(steps: seq<Step>)
    ensures var s := Run(INITIAL, steps);
      && (forall k | 0 <= k < |s.versions| && s.versions[k].Some? :: SuffixOfRound(s, s.versions[k].value))
      && (forall n <- s.rounds :: SortedBy(s.rounds[n].nodes, StrLe) && Distinct(s.rounds[n].nodes))
      && (forall n <- s.rounds, i, j | 0 <= i < j < |s.rounds[n].nodes| ::
            var a, b := s.rounds[n].nodes[i], s.rounds[n].nodes[j];
            a <= b || exists k | 0 <= k < |a| && k < |b| :: a[..k] == b[..k] && a[k] < b[k])
      && (forall unit, version: nat | Enabled(s, Begin(unit, version)) ::
            var info := s.versions[version].value;
            s.rounds[info.nonce].nodes[Taken(s, info)] == unit && FirstHavePublished(s, info.nonce, Taken(s, info)))
  {
    InitialInv();
    RunKeepsInv(INITIAL, steps);
    var s := Run(INITIAL, steps);
    forall n <- s.rounds ensures SortedBy(s.rounds[n].nodes, StrLe) && Distinct(s.rounds[n].nodes) {
      assert GoodRound(n, s.rounds[n]);
    }
    forall n <- s.rounds, i, j | 0 <= i < j < |s.rounds[n].nodes|
      ensures var a, b := s.rounds[n].nodes[i], s.rounds[n].nodes[j];
        a <= b || exists k | 0 <= k < |a| && k < |b| :: a[..k] == b[..k] && a[k] < b[k]
    {
      assert SortedBy(s.rounds[n].nodes, StrLe);
      StrLeMeans(s.rounds[n].nodes[i], s.rounds[n].nodes[j]);
    }
  }

  /** An upgrade to this channel whose poll saw three OK readings in a row and whose last reading was OK. */
  ghost predicate HealthyUpgrade(p: Proof, channel: string) {
    && p.channel == channel && !p.attempt.commandsRunning && p.attempt.refreshed && p.attempt.final == HealthOk
    && exists t | 0 <= t < |p.attempt.polled| - 2 ::
         p.attempt.polled[t] == HealthOk && p.attempt.polled[t + 1] == HealthOk && p.attempt.polled[t + 2] == HealthOk
  }

  /**
   * Upgrade completion. In every run, a cleared round had peers, and its starter and every unit it
   * listed have upgraded to the round's channel through a healthy poll.
   */
  lemma UpgradeCompletion(steps: seq<Step>)
    ensures var s := Run(INITIAL, steps);
      forall n <- s.cleared ::
        n in s.rounds && s.rounds[n].nodes != [] && HealthyUpgrade(s.rounds[n].own, s.rounds[n].channel)
        && forall u <- s.rounds[n].nodes :: (u, n) in s.published && HealthyUpgrade(s.published[(u, n)], s.rounds[n].channel)
  {
    InitialInv();
    RunKeepsInv(INITIAL, steps);
    var s := Run(INITIAL, steps);
    forall n <- s.cleared
      ensures s.rounds[n].nodes != [] && HealthyUpgrade(s.rounds[n].own, s.rounds[n].channel)
      ensures forall u <- s.rounds[n].nodes :: (u, n) in s.published && HealthyUpgrade(s.published[(u, n)], s.rounds[n].channel)
    {
      assert GoodClear(s, n) && GoodRound(n, s.rounds[n]);
      SucceedsMeans(s.rounds[n].own.attempt);
      forall u <- s.rounds[n].nodes
        ensures (u, n) in s.published && HealthyUpgrade(s.published[(u, n)], s.rounds[n].channel)
      {
        assert GoodProof(s, u, n);
        SucceedsMeans(s.published[(u, n)].attempt);
      }
    }
  }

  /**
   * A relation-changed event on the leader changes the record exactly when its source has published
   * the current nonce and is still listed; the list then loses its head and nothing else.
   */
  ghost predicate TakesHeadOrNothing(s: System, source: Option<Unit>, seen: Option<Nonce>)
    requires s.versions != [] && s.Current().Some?
  {
    var info := s.Current().value;
    var t := Apply(s, Collect(source, seen));
    if source.Some? && seen == Some(info.nonce) && source.value in info.nodes
    then info.nodes[0] == source.value && t == Advance(s)
    else t == s
  }

  lemma {:induction false} CollectEffect(s: System, source: Option<Unit>, seen: Option<Nonce>)
    requires Inv(s) && Enabled(s, Collect(source, seen))
    ensures TakesHeadOrNothing(s, source, seen)
  {
    var info := s.Current().value;
    CurrentIsGood(s);
    if source.Some? && seen == Some(info.nonce) && source.value in info.nodes {
      CollectTakesHead(s, source.value);
      CollectAdvances(s, source.value);
    }
  }

  /** Wrong-nonce and repeated dones change nothing in any run; every accepted one drops the head. */
  lemma CollectInEveryRun(steps: seq<Step>, source: Option<Unit>, seen: Option<Nonce>)
    requires Enabled(Run(INITIAL, steps), Collect(source, seen))
    ensures TakesHeadOrNothing(Run(INITIAL, steps), source, seen)
  {
    InitialInv();
    RunKeepsInv(INITIAL, steps);
    CollectEffect(Run(INITIAL, steps), source, seen);
  }

  // ---- progress ----

  lemma {:induction false} RunThree(s: System, a: Step, b: Step, c: Step, rest: seq<Step>)
    ensures Run(s, [a, b, c] + rest) == Run(Apply(Apply(Apply(s, a), b), c), rest)
  {
    RunFirst(s, a, [b, c] + rest);
    RunFirst(Apply(s, a), b, [c] + rest);
    RunFirst(Apply(Apply(s, a), b), c, rest);
    assert [a, b, c] + rest == [a] + ([b, c] + rest);
    assert [b, c] + rest == [b] + ([c] + rest);
  }

  lemma {:induction false} RunFirst(s: System, a: Step, rest: seq<Step>)
    ensures Run(s, [a] + rest) == Run(Apply(s, a), rest)
  {
    assert ([a] + rest)[1..] == rest;
  }

  /** For each node in turn: it reads the newest record and upgrades, then the leader takes it off. */
  function PairsFor(nodes: seq<Unit>, nonce: Nonce, newest: nat, attempts: seq<Attempt>): (steps: seq<Step>)
    requires |attempts| == |nodes|
    ensures |steps| == 3 * |nodes|
  {
    if nodes == [] then []
    else
      [Begin(nodes[0], newest), Finish(nodes[0], attempts[0]), Collect(Some(nodes[0]), Some(nonce))]
      + PairsFor(nodes[1..], nonce, newest + 1, attempts[1..])
  }

  /** The state after the unit has read the newest record and upgraded itself. */
  function Upgraded(s: System, unit: Unit, good: Attempt): System
    requires s.versions != []
  {
    Apply(Apply(s, Begin(unit, |s.versions| - 1)), Finish(unit, good))
  }

  lemma {:induction false} UpgradedEffect(s: System, head: Unit, good: Attempt)
    requires s.versions != [] && s.Current().Some? && Heads(head, s.Current().value)
    requires Succeeds(good) && head !in s.running
    ensures var b := Upgraded(s, head, good);
      && b.versions == s.versions && b.cleared == s.cleared && b.running == s.running
      && (head, s.Current().value.nonce) in b.published
  {
    var a := Apply(s, Begin(head, |s.versions| - 1));
    assert a.running - {head} == s.running;
  }

  lemma {:induction false} UpgradedKeepsInv(s: System, unit: Unit, good: Attempt)
    requires Inv(s)
    ensures Inv(Upgraded(s, unit, good))
  {
    StepKeepsInv(s, Begin(unit, |s.versions| - 1));
    StepKeepsInv(Apply(s, Begin(unit, |s.versions| - 1)), Finish(unit, good));
  }

  lemma {:induction false} OnePair(s: System, head: Unit, good: Attempt)
    requires Inv(s) && s.Current().Some? && Heads(head, s.Current().value) && Succeeds(good) && head !in s.running
    ensures var info := s.Current().value; var t := Apply(Upgraded(s, head, good), Collect(Some(head), Some(info.nonce)));
      && Inv(t) && t.running == s.running && |t.versions| == |s.versions| + 1
      && (|info.nodes| == 1 ==> t.Current().None? && info.nonce in t.cleared)
      && (|info.nodes| > 1 ==> t.Current() == Some(info.(nodes := info.nodes[1..])))
  {
    var nonce := s.Current().value.nonce;
    var b := Upgraded(s, head, good);
    UpgradedEffect(s, head, good);
    UpgradedKeepsInv(s, head, good);
    CollectEffect(b, Some(head), Some(nonce));
    StepKeepsInv(b, Collect(Some(head), Some(nonce)));
  }

  predicate AllSucceed(attempts: seq<Attempt>) {
    forall a <- attempts :: Succeeds(a)
  }

  /** The first pair of steps leads to a state from which the other pairs go on. */
  lemma {:induction false} FirstPair(s: System, attempts: seq<Attempt>) returns (t: System)
    requires Inv(s) && s.Current().Some? && s.Current().value.nodes != [] && s.Current().value.nodes[0] !in s.running
    requires |attempts| == |s.Current().value.nodes| && Succeeds(attempts[0])
    ensures Inv(t) && t.running == s.running && |t.versions| == |s.versions| + 1
    ensures var info := s.Current().value;
      && (|info.nodes| == 1 ==> t.Current().None? && info.nonce in t.cleared)
      && (|info.nodes| > 1 ==> t.Current() == Some(info.(nodes := info.nodes[1..])))
      && Run(s, PairsFor(info.nodes, info.nonce, |s.versions| - 1, attempts))
         == Run(t, PairsFor(info.nodes[1..], info.nonce, |s.versions|, attempts[1..]))
  {
    var info := s.Current().value;
    var head, collect := info.nodes[0], Collect(Some(info.nodes[0]), Some(info.nonce));
    t := Apply(Upgraded(s, head, attempts[0]), collect);
    OnePair(s, head, attempts[0]);
    RunThree(s, Begin(head, |s.versions| - 1), Finish(head, attempts[0]), collect,
             PairsFor(info.nodes[1..], info.nonce, |s.versions|, attempts[1..]));
  }

  /** With successful node upgrades, one (node, leader) pair per listed node clears the round. */
  lemma {:induction false} PairsClearRound(s: System, attempts: seq<Attempt>)
    requires Inv(s) && s.Current().Some? && s.Current().value.nodes != []
    requires |attempts| == |s.Current().value.nodes| && AllSucceed(attempts)
    requires forall u <- s.Current().value.nodes :: u !in s.running
    ensures var info := s.Current().value; var t := Run(s, PairsFor(info.nodes, info.nonce, |s.versions| - 1, attempts));
      t.versions != [] && t.Current().None? && info.nonce in t.cleared
    decreases |attempts|
  {
    var info := s.Current().value;
    assert attempts[0] in attempts && info.nodes[0] in info.nodes;
    var t := FirstPair(s, attempts);
    if |info.nodes| > 1 {
      assert forall a <- attempts[1..] :: a in attempts;
      assert forall u <- info.nodes[1..] :: u in info.nodes;
      PairsClearRound(t, attempts[1..]);
    }
  }

  predicate NoStart(steps: seq<Step>) {
    forall step <- steps :: !step.Start?
  }

  /** A record with an empty list is still a record: no done can ever clear it. */
  lemma {:induction false} EmptyRoundStays(s: System, steps: seq<Step>)
    requires s.versions != [] && s.Current().Some? && s.Current().value.nodes == [] && NoStart(steps)
    ensures Run(s, steps).versions == s.versions && Run(s, steps).cleared == s.cleared
    decreases |steps|
  {
    if steps != [] {
      assert NoStart(steps[1..]);
      EmptyRoundStays(Apply(s, steps[0]), steps[1..]);
    }
  }

  lemma FreshRound(s: System, start: Step)
    requires Inv(s) && start.Start? && Enabled(s, start)
    requires forall u <- start.joined :: u !in s.running
    ensures var t := Apply(s, start);
      && Inv(t) && t.Current().Some? && t.Current().value.nonce == start.nonce && start.nonce !in t.cleared
      && |t.Current().value.nodes| == |start.joined|
      && forall u <- t.Current().value.nodes :: u !in t.running
  {
    var t := Apply(s, start);
    StepKeepsInv(s, start);
    var nodes := t.Current().value.nodes;
    assert multiset(nodes) == multiset(start.joined);
    assert |multiset(nodes)| == |multiset(start.joined)|;
    forall u <- nodes ensures u !in t.running { assert u in multiset(start.joined); }
    assert forall n <- s.cleared :: GoodClear(s, n);
  }

  lemma FreshRoundClears(s: System, start: Step, good: Attempt)
    requires Inv(s) && start.Start? && Enabled(s, start) && Succeeds(good)
    requires forall u <- start.joined :: u !in s.running
    requires start.joined != []
    ensures exists steps :: NoStart(steps) && start.nonce in Run(Apply(s, start), steps).cleared
  {
    var t := Apply(s, start);
    FreshRound(s, start);
    var info := t.Current().value;
    var attempts := seq(|info.nodes|, i requires 0 <= i < |info.nodes| => good);
    PairsClearRound(t, attempts);
    PairsHaveNoStart(info.nodes, info.nonce, |t.versions| - 1, attempts);
    assert start.nonce in Run(t, PairsFor(info.nodes, info.nonce, |t.versions| - 1, attempts)).cleared;
  }

  /** A fresh round can be cleared by some run without another round if and only if it has peers. */
  lemma ClearableIffPeers(s: System, start: Step, good: Attempt)
    requires Inv(s) && start.Start? && Enabled(s, start) && Succeeds(good)
    requires forall u <- start.joined :: u !in s.running
    ensures (exists steps :: NoStart(steps) && start.nonce in Run(Apply(s, start), steps).cleared) <==> start.joined != []
  {
    if start.joined != [] {
      FreshRoundClears(s, start, good);
    } else {
      FreshRound(s, start);
      var t := Apply(s, start);
      forall steps | NoStart(steps) ensures start.nonce !in Run(t, steps).cleared { EmptyRoundStays(t, steps); }
    }
  }

  lemma {:induction false} PairsHaveNoStart(nodes: seq<Unit>, nonce: Nonce, newest: nat, attempts: seq<Attempt>)
    requires |attempts| == |nodes|
    ensures NoStart(PairsFor(nodes, nonce, newest, attempts))
  {
    if nodes != [] { PairsHaveNoStart(nodes[1..], nonce, newest + 1, attempts[1..]); }
  }
}
