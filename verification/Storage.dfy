/** Config-driven OSD enrolment and its cache of the last applied request (src/storage.py). */
module Storage {
  import opened Wrappers
  import opened Text
  import opened DeviceFlags

  /** The six storage options as the operator wrote them. */
  datatype Config = Config(
    osdDevices: string, walDevices: string, dbDevices: string, walSize: string, dbSize: string, deviceAddFlags: string)

  datatype Request = Request(
    osdMatch: Option<string>, walMatch: Option<string>, dbMatch: Option<string>,
    walSize: Option<string>, dbSize: Option<string>, flags: Flags)
  {
    function Wal(): Part {
      Part(walMatch, walSize, flags.wipeWal, flags.encryptWal)
    }

    function Db(): Part {
      Part(dbMatch, dbSize, flags.wipeDb, flags.encryptDb)
    }
  }

  /** What a request asks of WAL devices, or of DB devices. */
  datatype Part = Part(devices: Option<string>, size: Option<string>, wipe: bool, encrypt: bool)

  const NO_PART := Part(None, None, false, false)
  const NOTHING := Request(None, None, None, None, None, NONE)

  /** The part of a request that can trigger a new command. */
  datatype Triple = Triple(osdMatch: string, wipeOsd: bool, encryptOsd: bool)

  /**
   * The stored signature, a JSON text: the current form holds exactly one triple; older charm
   * revisions stored wider objects; anything that is not a JSON object cannot be read.
   */
  datatype Signature =
    | NoSignature
    | Exact(triple: Triple)
    | Wide(osdMatch: Option<string>, wipeOsd: Option<bool>, encryptOsd: Option<bool>)
    | Unreadable(text: string)

  /** The four stored fields. */
  datatype Cache = Cache(lastOsdDevices: string, lastWipeOsd: bool, lastEncryptOsd: bool, lastSignature: Signature)

  const EMPTY_CACHE := Cache("", false, false, NoSignature)

  datatype Command = Succeeded | NoDevicesMatched | Failed

  /** A config-changed event: the options, whether the service is ready, and how a command would end. */
  datatype Event = Event(config: Config, ready: bool, command: Command)

  datatype Outcome =
    | Cleared(ignoredWalDb: bool)
    | BlockedByFlags | BlockedByWalSize | BlockedByDbSize
    | Deferred
    | AlreadyApplied(auxiliary: bool)
    | Applied
    | BlockedByCommand

  // ---- normalising ----

  function NormalizedValue(raw: string): Option<string> {
    if Strip(raw) == "" then None else Some(Strip(raw))
  }

  /** The request an option set stands for; None when the flags are unknown. */
  function Normalize(c: Config): Option<Request> {
    var osd := NormalizedValue(c.osdDevices);
    if osd.None? then Some(NOTHING)
    else
      match Parse(c.deviceAddFlags)
      case None => None
      case Some(f) =>
        var wal, db := NormalizedValue(c.walDevices), NormalizedValue(c.dbDevices);
        Some(Request(osd, wal, db,
                     if wal.Some? then NormalizedValue(c.walSize) else None,
                     if db.Some? then NormalizedValue(c.dbSize) else None,
                     Flags(f.wipeOsd, f.encryptOsd, wal.Some? && f.wipeWal, wal.Some? && f.encryptWal,
                           db.Some? && f.wipeDb, db.Some? && f.encryptDb)))
  }

  /** Without devices the part asks for nothing; with devices it has the size and the flags given for it. */
  predicate PartFollows(p: Part, devices: string, size: string, wipe: bool, encrypt: bool) {
    if Strip(devices) == "" then p == NO_PART
    else p.devices == Some(Strip(devices)) && p.wipe == wipe && p.encrypt == encrypt
         && p.size == if Strip(size) == "" then None else Some(Strip(size))
  }

  predicate SizesGiven(r: Request) {
    (r.walMatch.Some? ==> r.walSize.Some?) && (r.dbMatch.Some? ==> r.dbSize.Some?)
  }

  function TripleOf(r: Request): Triple
    requires r.osdMatch.Some?
  {
    Triple(r.osdMatch.value, r.flags.wipeOsd, r.flags.encryptOsd)
  }

  /** A request for OSDs that passes validation; these are the ones that can reach the command. */
  function Wanted(c: Config): Option<Request> {
    match Normalize(c)
    case Some(r) => if r.osdMatch.Some? && SizesGiven(r) then Some(r) else None
    case None => None
  }

  /** The cacheable part of a request tells requests apart by exactly these three settings. */
  lemma SameTripleIff(r: Request, q: Request)
    requires r.osdMatch.Some? && q.osdMatch.Some?
    ensures TripleOf(r) == TripleOf(q)
            <==> r.osdMatch == q.osdMatch && r.flags.wipeOsd == q.flags.wipeOsd && r.flags.encryptOsd == q.flags.encryptOsd
  {
  }

  /** The contract of `_normalize_storage_config`, of the function that specifies it. */
  lemma NormalizeMeans(c: Config)
    ensures Strip(c.osdDevices) == "" ==> Normalize(c) == Some(NOTHING)
    ensures Normalize(c).None? <==> Strip(c.osdDevices) != "" && !AllValid(Entries(c.deviceAddFlags))
    ensures Normalize(c).Some? && Normalize(c).value != NOTHING ==>
              var r, f := Normalize(c).value, Mentioned(Entries(c.deviceAddFlags));
              && r.osdMatch == Some(Strip(c.osdDevices))
              && r.flags.wipeOsd == f.wipeOsd && r.flags.encryptOsd == f.encryptOsd
              && PartFollows(r.Wal(), c.walDevices, c.walSize, f.wipeWal, f.encryptWal)
              && PartFollows(r.Db(), c.dbDevices, c.dbSize, f.wipeDb, f.encryptDb)
  {
  }

  // ---- the cache ----

  function OrFalse(b: Option<bool>): bool {
    b.Some? && b.value
  }

  /** The signature, as far as it can be read, denotes this triple. */
  predicate SignatureDenotes(s: Signature, t: Triple) {
    match s
    case NoSignature => false
    case Exact(u) => u == t
    case Wide(osd, wipe, encrypt) => osd == Some(t.osdMatch) && OrFalse(wipe) == t.wipeOsd && OrFalse(encrypt) == t.encryptOsd
    case Unreadable(_) => false
  }

  function LegacyTriple(c: Cache): Triple {
    Triple(c.lastOsdDevices, c.lastWipeOsd, c.lastEncryptOsd)
  }

  /** What `_is_cached_osd_config` accepts: either stored form denotes the triple. */
  predicate Hits(c: Cache, t: Triple) {
    SignatureDenotes(c.lastSignature, t) || LegacyTriple(c) == t
  }

  /** The stored fields, including inherited ones, all stand for the same last applied triple. */
  ghost predicate Coherent(c: Cache, applied: Option<Triple>) {
    match applied
    case None => c == EMPTY_CACHE
    case Some(t) =>
      && t.osdMatch != "" && LegacyTriple(c) == t
      && (c.lastSignature.NoSignature? || c.lastSignature.Unreadable? || SignatureDenotes(c.lastSignature, t))
  }

  class StorageHandler {
    var cache: Cache
    var commands: seq<Request>
    ghost var applied: Option<Triple>

    ghost predicate Valid()
      reads this
    {
      Coherent(cache, applied)
    }

    /** A unit starts from whatever an earlier revision stored, as long as the fields agree. */
    constructor (inherited: Cache, ghost last: Option<Triple>)
      requires Coherent(inherited, last)
      ensures Valid() && cache == inherited && applied == last && commands == []
    {
      cache, commands, applied := inherited, [], last;
    }

    /** `_normalize_storage_config` */
    static method NormalizeStorageConfig(c: Config) returns (r: Option<Request>)
      ensures r == Normalize(c)
      ensures Strip(c.osdDevices) == "" ==> r == Some(NOTHING)
      ensures r.None? <==> Strip(c.osdDevices) != "" && !AllValid(Entries(c.deviceAddFlags))
      ensures r.Some? && r.value != NOTHING ==> var f := Mentioned(Entries(c.deviceAddFlags));
        && r.value.osdMatch == Some(Strip(c.osdDevices))
        && r.value.flags.wipeOsd == f.wipeOsd && r.value.flags.encryptOsd == f.encryptOsd
        && PartFollows(r.value.Wal(), c.walDevices, c.walSize, f.wipeWal, f.encryptWal)
        && PartFollows(r.value.Db(), c.dbDevices, c.dbSize, f.wipeDb, f.encryptDb)
    {
      NormalizeMeans(c);
      var osdMatch := NormalizedValue(c.osdDevices);
      if osdMatch.None? {
        return Some(NOTHING);
      }
      var parsed := ParseDeviceAddFlags(c.deviceAddFlags);
      if parsed.Err? {
        return None;
      }
      var flags := parsed.value;
      var walMatch, dbMatch := NormalizedValue(c.walDevices), NormalizedValue(c.dbDevices);
      var rawWalSize, rawDbSize := NormalizedValue(c.walSize), NormalizedValue(c.dbSize);
      var walSize := if walMatch.Some? then rawWalSize else None;
      var dbSize := if dbMatch.Some? then rawDbSize else None;
      if walMatch.None? && (rawWalSize.Some? || flags.wipeWal || flags.encryptWal) {
        flags := flags.(wipeWal := false, encryptWal := false);
      }
      if dbMatch.None? && (rawDbSize.Some? || flags.wipeDb || flags.encryptDb) {
        flags := flags.(wipeDb := false, encryptDb := false);
      }
      r := Some(Request(osdMatch, walMatch, dbMatch, walSize, dbSize, flags));
    }

    /** The scan of the raw flags in `_has_ignored_waldb_config`. */
    static method ScanWalDbFlags(deviceAddFlags: string) returns (found: bool)
      ensures found <==> MentionsWalDb(Entries(deviceAddFlags))
    {
      var raw := Split(deviceAddFlags, ',');
      ghost var entries := Normalized(raw);
      found := false;
      for i := 0 to |raw|
        invariant found <==> MentionsWalDb(entries[..i])
      {
        MentionsAppend(entries[..i], entries[i]);
        assert entries[..i + 1] == entries[..i] + [entries[i]];
        if Strip(raw[i]) != "" && IsWalDbFlag(Lower(Strip(raw[i]))) {
          found := true;
        }
      }
      assert entries[..|raw|] == entries;
    }

    /** `_has_ignored_waldb_config` */
    static method HasIgnoredWalDbConfig(c: Config) returns (ignored: bool)
      ensures ignored <==> WalDbOptionsSet(c) || MentionsWalDb(Entries(c.deviceAddFlags))
    {
      if WalDbOptionsSet(c) {
        return true;
      }
      ignored := ScanWalDbFlags(c.deviceAddFlags);
    }

    /** `_is_cached_osd_config` */
    method IsCachedOsdConfig(r: Request) returns (hit: bool)
      requires r.osdMatch.Some?
      ensures hit <==> Hits(cache, TripleOf(r))
      ensures hit <==>
        || (cache.lastOsdDevices == r.osdMatch.value && cache.lastWipeOsd == r.flags.wipeOsd && cache.lastEncryptOsd == r.flags.encryptOsd)
        || (match cache.lastSignature
            case Exact(u) => Some(u.osdMatch) == r.osdMatch && u.wipeOsd == r.flags.wipeOsd && u.encryptOsd == r.flags.encryptOsd
            case Wide(osd, wipe, encrypt) =>
              osd == r.osdMatch && (wipe == Some(true) <==> r.flags.wipeOsd) && (encrypt == Some(true) <==> r.flags.encryptOsd)
            case _ => false)
    {
      var requested := TripleOf(r);
      if !cache.lastSignature.NoSignature? {
        if cache.lastSignature == Exact(requested) {
          return true;
        }
        match cache.lastSignature {
          case Exact(t) =>
            if t.osdMatch == requested.osdMatch && t.wipeOsd == requested.wipeOsd && t.encryptOsd == requested.encryptOsd {
              return true;
            }
          case Wide(osd, wipe, encrypt) =>
            if osd == r.osdMatch && OrFalse(wipe) == requested.wipeOsd && OrFalse(encrypt) == requested.encryptOsd {
              return true;
            }
          case _ =>
        }
      }
      hit := cache.lastOsdDevices == requested.osdMatch && cache.lastWipeOsd == requested.wipeOsd
        && cache.lastEncryptOsd == requested.encryptOsd;
    }

    /** `_set_osd_config_cache` */
    method SetOsdConfigCache(r: Request)
      requires r.osdMatch.Some? && r.osdMatch.value != ""
      modifies this`cache, this`applied
      ensures Valid() && applied == Some(TripleOf(r)) && cache.lastSignature == Exact(TripleOf(r))
    {
      var t := TripleOf(r);
      cache := Cache(t.osdMatch, t.wipeOsd, t.encryptOsd, Exact(t));
      applied := Some(t);
    }

    /** `_reset_osd_config_cache` */
    method ResetOsdConfigCache()
      modifies this`cache, this`applied
      ensures Valid() && applied.None? && cache == EMPTY_CACHE
    {
      cache := EMPTY_CACHE;
      applied := None;
    }

    /** `_apply_osd_config`: a command that matched no device counts as applied. */
    method ApplyOsdConfig(r: Request, command: Command) returns (ok: bool)
      requires Valid() && r.osdMatch.Some? && r.osdMatch.value != ""
      modifies this
      ensures Valid() && commands == old(commands) + [r] && ok == !command.Failed?
      ensures applied == if ok then Some(TripleOf(r)) else old(applied)
      ensures if ok then cache.lastSignature == Exact(TripleOf(r)) else cache == old(cache)
    {
      commands := commands + [r];
      ok := !command.Failed?;
      if ok {
        SetOsdConfigCache(r);
      }
    }

    /**
     * `_on_config_changed_osd_devices`. A valid, ready event issues a command exactly when its triple
     * differs from the last one applied since the last clear; whatever happens, the stored fields
     * keep agreeing.
     */
    method OnConfigChanged(e: Event) returns (o: Outcome)
      requires Valid()
      modifies this
      ensures Valid() && applied == NextApplied(old(applied), e)
      ensures commands == old(commands) + if Issues(old(applied), e) then [Wanted(e.config).value] else []
      ensures o == OutcomeOf(old(applied), e)
      ensures !o.Cleared? && !o.Applied? ==> cache == old(cache)
      ensures o.AlreadyApplied? || o.Applied? || o.BlockedByCommand? ==>
                var c := e.config;
                (commands == old(commands) <==>
                   && old(applied).Some? && old(applied).value.osdMatch == Strip(c.osdDevices)
                   && (old(applied).value.wipeOsd <==> "wipe:osd" in Entries(c.deviceAddFlags))
                   && (old(applied).value.encryptOsd <==> "encrypt:osd" in Entries(c.deviceAddFlags)))
    {
      NormalizedIsStripped(e.config);
      IssuesMeans(applied, e);
      OutcomeMeans(applied, e);
      var request := NormalizeStorageConfig(e.config);
      if request.None? {
        return BlockedByFlags;
      }
      var r := request.value;
      if r.osdMatch.None? {
        var ignored := HasIgnoredWalDbConfig(e.config);
        ResetOsdConfigCache();
        return Cleared(ignored);
      }
      if r.walMatch.Some? && r.walSize.None? {
        return BlockedByWalSize;
      }
      if r.dbMatch.Some? && r.dbSize.None? {
        return BlockedByDbSize;
      }
      assert Wanted(e.config) == Some(r);
      if !e.ready {
        return Deferred;
      }
      HitIffApplied(cache, applied, TripleOf(r));
      var hit := IsCachedOsdConfig(r);
      if hit {
        return AlreadyApplied(HasAuxiliary(r));
      }
      var ok := ApplyOsdConfig(r, e.command);
      o := if ok then Applied else BlockedByCommand;
    }
  }

  // ---- what an event means, without the cache ----

  predicate HasAuxiliary(r: Request) {
    r.walMatch.Some? || r.dbMatch.Some? || r.flags.wipeWal || r.flags.encryptWal || r.flags.wipeDb || r.flags.encryptDb
  }

  /** The event is valid and ready, and asks for something else than what was last applied. */
  predicate Issues(applied: Option<Triple>, e: Event) {
    Wanted(e.config).Some? && e.ready && applied != Some(TripleOf(Wanted(e.config).value))
  }

  /** What an event does to the last applied triple. */
  datatype Effect = Clear | Take(triple: Triple) | Keep

  function EffectOf(applied: Option<Triple>, e: Event): Effect {
    if NormalizedValue(e.config.osdDevices).None? then Clear
    else if Issues(applied, e) && !e.command.Failed? then Take(TripleOf(Wanted(e.config).value))
    else Keep
  }

  function After(applied: Option<Triple>, x: Effect): Option<Triple> {
    match x
    case Clear => None
    case Take(t) => Some(t)
    case Keep => applied
  }

  function NextApplied(applied: Option<Triple>, e: Event): Option<Triple> {
    After(applied, EffectOf(applied, e))
  }

  function OutcomeOf(applied: Option<Triple>, e: Event): Outcome {
    Decide(Normalize(e.config), applied, e)
  }

  /** The outcome for a normalized request. */
  function Decide(request: Option<Request>, applied: Option<Triple>, e: Event): Outcome {
    match request
    case None => BlockedByFlags
    case Some(r) =>
      if r.osdMatch.None? then Cleared(WalDbOptionsSet(e.config) || MentionsWalDb(Entries(e.config.deviceAddFlags)))
      else if r.walMatch.Some? && r.walSize.None? then BlockedByWalSize
      else if r.dbMatch.Some? && r.dbSize.None? then BlockedByDbSize
      else if !e.ready then Deferred
      else if applied == Some(TripleOf(r)) then AlreadyApplied(HasAuxiliary(r))
      else if e.command.Failed? then BlockedByCommand
      else Applied
  }

  /** The options name OSD devices, all flags are known, and WAL and DB devices have their size. */
  predicate WellFormed(c: Config) {
    && Strip(c.osdDevices) != "" && AllValid(Entries(c.deviceAddFlags))
    && (Strip(c.walDevices) != "" ==> Strip(c.walSize) != "") && (Strip(c.dbDevices) != "" ==> Strip(c.dbSize) != "")
  }

  /** The options ask for what was applied last. */
  predicate Repeats(c: Config, applied: Option<Triple>) {
    && applied.Some? && applied.value.osdMatch == Strip(c.osdDevices)
    && (applied.value.wipeOsd <==> "wipe:osd" in Entries(c.deviceAddFlags))
    && (applied.value.encryptOsd <==> "encrypt:osd" in Entries(c.deviceAddFlags))
  }

  lemma WantedMeans(c: Config)
    ensures Wanted(c).Some? <==> WellFormed(c)
    ensures Wanted(c).Some? ==> Wanted(c) == Normalize(c) && Wanted(c).value.osdMatch.Some?
    ensures Wanted(c).Some? ==>
      var t := TripleOf(Wanted(c).value);
      t.osdMatch == Strip(c.osdDevices)
      && (t.wipeOsd <==> "wipe:osd" in Entries(c.deviceAddFlags)) && (t.encryptOsd <==> "encrypt:osd" in Entries(c.deviceAddFlags))
  {
    NormalizeMeans(c);
  }

  /** A command is issued for well-formed options on a ready unit that ask for something else than what was applied last. */
  lemma IssuesMeans(applied: Option<Triple>, e: Event)
    ensures Issues(applied, e) <==> WellFormed(e.config) && e.ready && !Repeats(e.config, applied)
    ensures NextApplied(applied, e) ==
            if Strip(e.config.osdDevices) == "" then None
            else if Issues(applied, e) && !e.command.Failed? then
              Some(Triple(Strip(e.config.osdDevices), "wipe:osd" in Entries(e.config.deviceAddFlags),
                          "encrypt:osd" in Entries(e.config.deviceAddFlags)))
            else applied
  {
    WantedMeans(e.config);
  }

  /** What a normalized request says about the options, setting by setting. */
  ghost predicate Reads(request: Option<Request>, c: Config) {
    && (request.None? <==> Strip(c.osdDevices) != "" && !AllValid(Entries(c.deviceAddFlags)))
    && (request.Some? ==> (request.value.osdMatch.None? <==> Strip(c.osdDevices) == ""))
    && (request.Some? && request.value.osdMatch.Some? ==>
          var r := request.value;
          && (r.walMatch.Some? <==> Strip(c.walDevices) != "") && (r.dbMatch.Some? <==> Strip(c.dbDevices) != "")
          && (r.walMatch.Some? ==> (r.walSize.Some? <==> Strip(c.walSize) != ""))
          && (r.dbMatch.Some? ==> (r.dbSize.Some? <==> Strip(c.dbSize) != ""))
          && (r.walMatch.None? ==> !r.flags.wipeWal && !r.flags.encryptWal)
          && (r.dbMatch.None? ==> !r.flags.wipeDb && !r.flags.encryptDb))
  }

  lemma NormalizeReads(c: Config)
    ensures Reads(Normalize(c), c)
  {
    NormalizeMeans(c);
  }

  lemma DecideMeans(request: Option<Request>, applied: Option<Triple>, e: Event)
    requires Reads(request, e.config)
    ensures var c, o := e.config, Decide(request, applied, e);
      && (o.Cleared? <==> Strip(c.osdDevices) == "")
      && (o.BlockedByFlags? <==> Strip(c.osdDevices) != "" && !AllValid(Entries(c.deviceAddFlags)))
      && (o.BlockedByWalSize? <==>
            Strip(c.osdDevices) != "" && AllValid(Entries(c.deviceAddFlags)) && Strip(c.walDevices) != "" && Strip(c.walSize) == "")
      && (o.BlockedByDbSize? <==>
            Strip(c.osdDevices) != "" && AllValid(Entries(c.deviceAddFlags))
            && (Strip(c.walDevices) != "" ==> Strip(c.walSize) != "") && Strip(c.dbDevices) != "" && Strip(c.dbSize) == "")
      && (o.Deferred? <==> WellFormed(c) && !e.ready)
      && (o.AlreadyApplied? ==> (o.auxiliary <==> Strip(c.walDevices) != "" || Strip(c.dbDevices) != ""))
      && (o.Cleared? ==> o.ignoredWalDb == (WalDbOptionsSet(c) || MentionsWalDb(Entries(c.deviceAddFlags))))
      && (o.AlreadyApplied? <==> WellFormed(c) && e.ready && applied == Some(TripleOf(request.value)))
  {
  }

  /** Every outcome in terms of the options as they were written. */
  lemma OutcomeMeans(applied: Option<Triple>, e: Event)
    ensures var c, o := e.config, OutcomeOf(applied, e);
      && (o.Cleared? <==> Strip(c.osdDevices) == "")
      && (o.BlockedByFlags? <==> Strip(c.osdDevices) != "" && !AllValid(Entries(c.deviceAddFlags)))
      && (o.BlockedByWalSize? <==>
            Strip(c.osdDevices) != "" && AllValid(Entries(c.deviceAddFlags)) && Strip(c.walDevices) != "" && Strip(c.walSize) == "")
      && (o.BlockedByDbSize? <==>
            Strip(c.osdDevices) != "" && AllValid(Entries(c.deviceAddFlags))
            && (Strip(c.walDevices) != "" ==> Strip(c.walSize) != "") && Strip(c.dbDevices) != "" && Strip(c.dbSize) == "")
      && (o.Deferred? <==> WellFormed(c) && !e.ready)
      && (o.AlreadyApplied? <==> WellFormed(c) && e.ready && Repeats(c, applied))
      && (o.Applied? <==> WellFormed(c) && e.ready && !Repeats(c, applied) && !e.command.Failed?)
      && (o.BlockedByCommand? <==> WellFormed(c) && e.ready && !Repeats(c, applied) && e.command.Failed?)
  {
    NormalizeReads(e.config);
    DecideMeans(Normalize(e.config), applied, e);
    WantedMeans(e.config);
  }

  /** What the two log messages depend on. */
  lemma RemarksMean(applied: Option<Triple>, e: Event)
    ensures var c, o := e.config, OutcomeOf(applied, e); var entries := Entries(c.deviceAddFlags);
      && (o.Cleared? ==>
            (o.ignoredWalDb <==>
               || Strip(c.walDevices) != "" || Strip(c.dbDevices) != "" || Strip(c.walSize) != "" || Strip(c.dbSize) != ""
               || "wipe:wal" in entries || "encrypt:wal" in entries || "wipe:db" in entries || "encrypt:db" in entries))
      && (o.AlreadyApplied? ==> (o.auxiliary <==> Strip(c.walDevices) != "" || Strip(c.dbDevices) != ""))
  {
    NormalizeReads(e.config);
    DecideMeans(Normalize(e.config), applied, e);
    WalDbMentions(Entries(e.config.deviceAddFlags));
  }

  lemma WalDbMentions(entries: seq<string>)
    ensures MentionsWalDb(entries)
            <==> "wipe:wal" in entries || "encrypt:wal" in entries || "wipe:db" in entries || "encrypt:db" in entries
  {
  }

  // ---- properties ----

  predicate IsWalDbFlag(flag: string) {
    flag in {"wipe:wal", "encrypt:wal", "wipe:db", "encrypt:db"}
  }

  predicate WalDbOptionsSet(c: Config) {
    || NormalizedValue(c.walDevices).Some? || NormalizedValue(c.dbDevices).Some?
    || NormalizedValue(c.walSize).Some? || NormalizedValue(c.dbSize).Some?
  }

  predicate MentionsWalDb(entries: seq<string>) {
    exists e <- entries :: IsWalDbFlag(e)
  }

  lemma MentionsAppend(entries: seq<string>, flag: string)
    ensures MentionsWalDb(entries + [flag]) <==> MentionsWalDb(entries) || (flag != "" && IsWalDbFlag(flag))
  {
    assert forall x :: x in entries + [flag] <==> x in entries || x == flag;
  }

  lemma NormalizedIsStripped(c: Config)
    ensures Normalize(c).Some? && Normalize(c).value.osdMatch.Some? ==> Normalize(c).value.osdMatch.value != ""
  {
  }

  // ---- which options mean the same request ----

  function Padded(c: Config, left: string, right: string): Config {
    Config(left + c.osdDevices + right, left + c.walDevices + right, left + c.dbDevices + right,
           left + c.walSize + right, left + c.dbSize + right, left + c.deviceAddFlags + right)
  }

  /** Blanks around any option change nothing. */
  lemma BlanksDoNotMatter(c: Config, left: string, right: string)
    requires Blank(left) && Blank(right)
    ensures Normalize(Padded(c, left, right)) == Normalize(c)
  {
    StripPadded(left, c.osdDevices, right);
    StripPadded(left, c.walDevices, right);
    StripPadded(left, c.dbDevices, right);
    StripPadded(left, c.walSize, right);
    StripPadded(left, c.dbSize, right);
    ParsePadded(left, c.deviceAddFlags, right);
  }

  function WithFlags(c: Config, extra: string): Config {
    c.(deviceAddFlags := c.deviceAddFlags + "," + extra)
  }

  /** Without WAL devices neither a WAL size nor any WAL flags change the request. */
  lemma OrphanWalDoesNotMatter(c: Config, size: string, extra: string, f: Flags)
    requires Strip(c.walDevices) == "" && Parse(extra) == Some(f) && f == NONE.(wipeWal := f.wipeWal, encryptWal := f.encryptWal)
    ensures Normalize(WithFlags(c.(walSize := size), extra)) == Normalize(c)
  {
    ParseConcat(c.deviceAddFlags, extra);
  }

  /** Nor without DB devices a DB size or DB flags. */
  lemma OrphanDbDoesNotMatter(c: Config, size: string, extra: string, f: Flags)
    requires Strip(c.dbDevices) == "" && Parse(extra) == Some(f) && f == NONE.(wipeDb := f.wipeDb, encryptDb := f.encryptDb)
    ensures Normalize(WithFlags(c.(dbSize := size), extra)) == Normalize(c)
  {
    ParseConcat(c.deviceAddFlags, extra);
  }

  predicate Stripped(o: Option<string>) {
    o.Some? ==> o.value != "" && Strip(o.value) == o.value
  }

  predicate TidyPart(p: Part) {
    Stripped(p.devices) && Stripped(p.size) && (p.devices.None? ==> p == NO_PART)
  }

  /** Stripped values, no orphaned WAL or DB part, and nothing at all without OSD devices. */
  predicate Tidy(r: Request) {
    Stripped(r.osdMatch) && TidyPart(r.Wal()) && TidyPart(r.Db()) && (r.osdMatch.None? ==> r == NOTHING)
  }

  function TextOf(o: Option<string>): string {
    if o.Some? then o.value else ""
  }

  /** The options that spell the request out. */
  function Written(r: Request): Config {
    Config(TextOf(r.osdMatch), TextOf(r.walMatch), TextOf(r.dbMatch), TextOf(r.walSize), TextOf(r.dbSize), FlagsText(r.flags))
  }

  lemma NormalizedIsTidy(c: Config)
    requires Normalize(c).Some?
    ensures Tidy(Normalize(c).value)
  {
    StripTwice(c.osdDevices);
    StripTwice(c.walDevices);
    StripTwice(c.dbDevices);
    StripTwice(c.walSize);
    StripTwice(c.dbSize);
  }

  /** Tidy requests, written down and normalized, come back; and only tidy requests ever come out. */
  lemma TidyIff(r: Request)
    ensures Tidy(r) <==> Normalize(Written(r)) == Some(r)
    ensures Tidy(r) <==> exists c :: Normalize(c) == Some(r)
  {
    if Tidy(r) {
      ParseFlagsText(r.flags);
      assert Normalize(Written(r)) == Some(r);
    }
    if c :| Normalize(c) == Some(r) {
      NormalizedIsTidy(c);
    }
  }

  /** The independent scan of the raw option agrees with the parser on whether a WAL or DB flag is present. */
  lemma ScanAgreesWithParser(flags: string)
    requires Parse(flags).Some?
    ensures var f := Parse(flags).value;
      MentionsWalDb(Entries(flags)) <==> f.wipeWal || f.encryptWal || f.wipeDb || f.encryptDb
  {
  }

  /**
   * Cache coherence: when the stored fields agree, a request is a hit if and only if its triple is
   * the last one applied.
   */
  lemma HitIffApplied(c: Cache, applied: Option<Triple>, t: Triple)
    requires Coherent(c, applied) && t.osdMatch != ""
    ensures Hits(c, t) <==> applied == Some(t)
  {
  }

  /** Agreement is needed: a readable signature hits one triple only if it denotes the legacy fields' triple. */
  lemma OneHitIffAgree(c: Cache, s: Triple)
    requires SignatureDenotes(c.lastSignature, s)
    ensures (forall t, u :: Hits(c, t) && Hits(c, u) ==> t == u) <==> SignatureDenotes(c.lastSignature, LegacyTriple(c))
  {
    assert Hits(c, s) && Hits(c, LegacyTriple(c));
  }

  // ---- the last applied triple, from the history ----

  /** The last applied triple after these events, for a unit that starts with what was applied before. */
  function RunEvents(start: Option<Triple>, es: seq<Event>): Option<Triple> {
    if es == [] then start else NextApplied(RunEvents(start, es[..|es| - 1]), es[|es| - 1])
  }

  function Effects(start: Option<Triple>, es: seq<Event>): seq<Effect> {
    if es == [] then []
    else Effects(start, es[..|es| - 1]) + [EffectOf(RunEvents(start, es[..|es| - 1]), es[|es| - 1])]
  }

  /** Effect i took the triple and nothing after it changed that. */
  predicate LastTook(xs: seq<Effect>, i: nat, t: Triple) {
    i < |xs| && xs[i] == Take(t) && forall j | i < j < |xs| :: xs[j] == Keep
  }

  lemma LastTookAppend(xs: seq<Effect>, x: Effect, t: Triple)
    ensures (exists i: nat :: LastTook(xs + [x], i, t)) <==> x == Take(t) || (x == Keep && exists i: nat :: LastTook(xs, i, t))
  {
    if x == Take(t) {
      assert LastTook(xs + [x], |xs|, t);
    }
    if x == Keep && exists i: nat :: LastTook(xs, i, t) {
      var i: nat :| LastTook(xs, i, t);
      assert LastTook(xs + [x], i, t);
    }
    if exists i: nat :: LastTook(xs + [x], i, t) {
      var i: nat :| LastTook(xs + [x], i, t);
      if i < |xs| {
        assert (xs + [x])[|xs|] == x;
        assert LastTook(xs, i, t) by { assert forall j | i < j < |xs| :: (xs + [x])[j] == xs[j]; }
      }
    }
  }

  predicate AllKeep(xs: seq<Effect>) {
    forall i | 0 <= i < |xs| :: xs[i] == Keep
  }

  lemma AllKeepAppend(xs: seq<Effect>, x: Effect)
    ensures AllKeep(xs + [x]) <==> AllKeep(xs) && x == Keep
  {
    assert (xs + [x])[|xs|] == x;
    assert forall i | 0 <= i < |xs| :: (xs + [x])[i] == xs[i];
  }

  function Fold(start: Option<Triple>, xs: seq<Effect>): Option<Triple> {
    if xs == [] then start else After(Fold(start, xs[..|xs| - 1]), xs[|xs| - 1])
  }

  lemma {:induction false} FoldIsLast(start: Option<Triple>, xs: seq<Effect>, t: Triple)
    ensures Fold(start, xs) == Some(t) <==> (exists i: nat :: LastTook(xs, i, t)) || (start == Some(t) && AllKeep(xs))
  {
    if xs != [] {
      var init, x := xs[..|xs| - 1], xs[|xs| - 1];
      FoldIsLast(start, init, t);
      LastTookAppend(init, x, t);
      assert init + [x] == xs;
      AllKeepAppend(init, x);
    }
  }

  lemma {:induction false} RunIsFold(start: Option<Triple>, es: seq<Event>)
    ensures RunEvents(start, es) == Fold(start, Effects(start, es))
  {
    if es != [] {
      var init := es[..|es| - 1];
      RunIsFold(start, init);
      FoldAppend(start, Effects(start, init), EffectOf(RunEvents(start, init), es[|es| - 1]));
    }
  }

  lemma FoldAppend(start: Option<Triple>, xs: seq<Effect>, x: Effect)
    ensures Fold(start, xs + [x]) == After(Fold(start, xs), x)
  {
    assert (xs + [x])[..|xs|] == xs;
  }

  /**
   * Over every run the applied triple is the one of the last successful command since the last clear,
   * or the inherited one while there was neither.
   */
  lemma AppliedIsLastSinceClear(start: Option<Triple>, es: seq<Event>, t: Triple)
    ensures RunEvents(start, es) == Some(t)
            <==> (exists i: nat :: LastTook(Effects(start, es), i, t)) || (start == Some(t) && AllKeep(Effects(start, es)))
  {
    RunIsFold(start, es);
    FoldIsLast(start, Effects(start, es), t);
  }
}
