/** The device-add-flags option (src/device_flags.py). */
module DeviceFlags {
  import opened Wrappers
  import opened Text

  datatype Flags = Flags(
    wipeOsd: bool, encryptOsd: bool, wipeWal: bool, encryptWal: bool, wipeDb: bool, encryptDb: bool)

  const NONE := Flags(false, false, false, false, false, false)

  predicate IsValidFlag(flag: string) {
    flag in {"wipe:osd", "encrypt:osd", "wipe:wal", "encrypt:wal", "wipe:db", "encrypt:db"}
  }

  function SetFlag(f: Flags, flag: string): Flags
    requires IsValidFlag(flag)
  {
    if flag == "wipe:osd" then f.(wipeOsd := true)
    else if flag == "encrypt:osd" then f.(encryptOsd := true)
    else if flag == "wipe:wal" then f.(wipeWal := true)
    else if flag == "encrypt:wal" then f.(encryptWal := true)
    else if flag == "wipe:db" then f.(wipeDb := true)
    else f.(encryptDb := true)
  }

  function Normalized(raw: seq<string>): (r: seq<string>)
    ensures |r| == |raw| && forall i | 0 <= i < |raw| :: r[i] == Lower(Strip(raw[i]))
  {
    if raw == [] then [] else [Lower(Strip(raw[0]))] + Normalized(raw[1..])
  }

  /** The entries of the option, stripped and lower-cased; blank ones are "". */
  function Entries(s: string): seq<string> {
    Normalized(Split(s, ','))
  }

  predicate AllValid(entries: seq<string>) {
    forall e <- entries :: e == "" || IsValidFlag(e)
  }

  /** The flags a collection of entries mentions. */
  function Mentioned(entries: seq<string>): Flags {
    Flags("wipe:osd" in entries, "encrypt:osd" in entries, "wipe:wal" in entries,
          "encrypt:wal" in entries, "wipe:db" in entries, "encrypt:db" in entries)
  }

  lemma MentionedAppend(entries: seq<string>, flag: string)
    ensures flag == "" ==> Mentioned(entries + [flag]) == Mentioned(entries)
    ensures IsValidFlag(flag) ==> Mentioned(entries + [flag]) == SetFlag(Mentioned(entries), flag)
    ensures AllValid(entries + [flag]) <==> AllValid(entries) && (flag == "" || IsValidFlag(flag))
  {
    assert forall x :: x in entries + [flag] <==> x in entries || x == flag;
  }

  lemma OneMoreEntry(entries: seq<string>, i: nat)
    requires i < |entries|
    ensures entries[i] == "" ==> Mentioned(entries[..i + 1]) == Mentioned(entries[..i])
    ensures IsValidFlag(entries[i]) ==> Mentioned(entries[..i + 1]) == SetFlag(Mentioned(entries[..i]), entries[i])
    ensures AllValid(entries[..i + 1]) <==> AllValid(entries[..i]) && (entries[i] == "" || IsValidFlag(entries[i]))
    ensures AllValid(entries) ==> entries[i] == "" || IsValidFlag(entries[i])
  {
    assert entries[..i + 1] == entries[..i] + [entries[i]];
    MentionedAppend(entries[..i], entries[i]);
  }

  /** `parse_device_add_flags`: an Err is the first unknown flag. */
  method ParseDeviceAddFlags(s: string) returns (r: Result<Flags, string>)
    ensures r.Ok? <==> AllValid(Entries(s))
    ensures r.Ok? ==> r.value == Mentioned(Entries(s))
    ensures r.Err? ==> r.error != "" && !IsValidFlag(r.error)
                       && exists i | 0 <= i < |Entries(s)| :: Entries(s)[i] == r.error && AllValid(Entries(s)[..i])
  {
    var result := NONE;
    if s == "" || Strip(s) == "" {
      BlankHasNoEntries(s);
      return Ok(result);
    }
    r := ParseEntries(Split(s, ','));
  }

  /** The loop of `parse_device_add_flags`. */
  method ParseEntries(raw: seq<string>) returns (r: Result<Flags, string>)
    ensures r.Ok? <==> AllValid(Normalized(raw))
    ensures r.Ok? ==> r.value == Mentioned(Normalized(raw))
    ensures r.Err? ==> r.error != "" && !IsValidFlag(r.error)
                       && exists i | 0 <= i < |raw| :: Normalized(raw)[i] == r.error && AllValid(Normalized(raw)[..i])
  {
    var result := NONE;
    ghost var entries := Normalized(raw);
    for i := 0 to |raw|
      invariant AllValid(entries[..i])
      invariant result == Mentioned(entries[..i])
    {
      var flag := Lower(Strip(raw[i]));
      assert entries[i] == flag;
      OneMoreEntry(entries, i);
      if flag != "" {
        if !IsValidFlag(flag) {
          return Err(flag);
        }
        result := SetFlag(result, flag);
      }
    }
    assert entries[..|raw|] == entries;
    r := Ok(result);
  }

  /** The specification as a function, for the lemmas. */
  function Parse(s: string): Option<Flags> {
    if AllValid(Entries(s)) then Some(Mentioned(Entries(s))) else None
  }

  // ---- properties ----

  /** Six flags are known, and each sets the field of its name. */
  lemma ParseMeans(s: string)
    ensures Parse(s).Some? <==> forall e <- Entries(s) ::
      || e == "" || e == "wipe:osd" || e == "encrypt:osd" || e == "wipe:wal" || e == "encrypt:wal"
      || e == "wipe:db" || e == "encrypt:db"
    ensures Parse(s).Some? ==>
      var f := Parse(s).value;
      && (f.wipeOsd <==> "wipe:osd" in Entries(s)) && (f.encryptOsd <==> "encrypt:osd" in Entries(s))
      && (f.wipeWal <==> "wipe:wal" in Entries(s)) && (f.encryptWal <==> "encrypt:wal" in Entries(s))
      && (f.wipeDb <==> "wipe:db" in Entries(s)) && (f.encryptDb <==> "encrypt:db" in Entries(s))
  {
  }

  lemma {:induction false} StripLeftBlank(s: string)
    ensures StripLeft(s) == "" <==> forall c <- s :: IsSpace(c)
  {
    if s != "" {
      StripLeftBlank(s[1..]);
      assert s == [s[0]] + s[1..];
    }
  }

  lemma {:induction false} StripRightBlank(s: string)
    ensures StripRight(s) == "" <==> forall c <- s :: IsSpace(c)
  {
    if s != "" {
      StripRightBlank(s[..|s| - 1]);
      assert s == s[..|s| - 1] + [s[|s| - 1]];
    }
  }

  lemma {:induction false} StripLeftSuffix(s: string)
    ensures forall c <- StripLeft(s) :: c in s
    ensures (forall c <- StripLeft(s) :: IsSpace(c)) ==> StripLeft(s) == ""
  {
    if s != "" && IsSpace(s[0]) {
      StripLeftSuffix(s[1..]);
    } else if s != "" {
      assert s[0] in s;
    }
  }

  lemma StripBlank(s: string)
    ensures Strip(s) == "" <==> forall c <- s :: IsSpace(c)
  {
    StripLeftBlank(s);
    StripLeftSuffix(s);
    StripRightBlank(StripLeft(s));
  }

  lemma {:induction false} BlankHasNoEntries(s: string)
    requires Strip(s) == ""
    ensures Entries(s) == [""]
  {
    StripBlank(s);
    assert !IsSpace(',');
    SplitWhole(s, ',');
  }

  lemma {:induction false} NormalizedConcat(a: seq<string>, b: seq<string>)
    ensures Normalized(a + b) == Normalized(a) + Normalized(b)
  {
  }

  lemma EntriesConcat(a: string, b: string)
    ensures Entries(a + "," + b) == Entries(a) + Entries(b)
  {
    SplitConcat(a, b, ',');
    NormalizedConcat(Split(a, ','), Split(b, ','));
  }

  function Or(f: Flags, g: Flags): Flags {
    Flags(f.wipeOsd || g.wipeOsd, f.encryptOsd || g.encryptOsd, f.wipeWal || g.wipeWal,
          f.encryptWal || g.encryptWal, f.wipeDb || g.wipeDb, f.encryptDb || g.encryptDb)
  }

  /** Homomorphism: a comma joins two options into the field-wise OR of both, if both are accepted. */
  lemma ParseConcat(a: string, b: string)
    ensures Parse(a + "," + b) == if Parse(a).Some? && Parse(b).Some? then Some(Or(Parse(a).value, Parse(b).value)) else None
  {
    EntriesConcat(a, b);
    var ea, eb := Entries(a), Entries(b);
    assert forall x :: x in ea + eb <==> x in ea || x in eb;
  }

  /** Order, repeats and blank entries do not matter: only which entries occur does. */
  lemma ParseDependsOnMembers(a: string, b: string)
    requires forall e :: e != "" ==> (e in Entries(a) <==> e in Entries(b))
    ensures Parse(a) == Parse(b)
  {
  }

  /** Nor does the case of letters: options that differ in it only are read alike. */
  lemma ParseIgnoresCase(s: string, t: string)
    requires |s| == |t| && forall i | 0 <= i < |s| ::
               s[i] == t[i]
               || ('A' <= s[i] <= 'Z' && t[i] as int == s[i] as int + 32)
               || ('A' <= t[i] <= 'Z' && s[i] as int == t[i] as int + 32)
    ensures Entries(s) == Entries(t) && Parse(s) == Parse(t)
  {
    assert Lower(s) == Lower(t) by {
      forall i | 0 <= i < |s| ensures Lower(s)[i] == Lower(t)[i] {
      }
    }
    EntriesOfLower(s);
    EntriesOfLower(t);
  }

  lemma EntriesOfLower(s: string)
    ensures Entries(Lower(s)) == Entries(s)
  {
    SplitLower(s);
    var raw := Split(s, ',');
    forall i | 0 <= i < |raw| ensures Lower(Strip(Split(Lower(s), ',')[i])) == Lower(Strip(raw[i])) {
      StripLower(raw[i]);
      LowerTwice(Strip(raw[i]));
    }
  }

  lemma LowerTwice(s: string)
    ensures Lower(Lower(s)) == Lower(s)
  {
  }

  function LowerAll(xs: seq<string>): (r: seq<string>)
    ensures |r| == |xs| && forall i | 0 <= i < |xs| :: r[i] == Lower(xs[i])
  {
    if xs == [] then [] else [Lower(xs[0])] + LowerAll(xs[1..])
  }

  lemma {:induction false} SplitLower(s: string)
    ensures Split(Lower(s), ',') == LowerAll(Split(s, ','))
  {
    if s != "" {
      var rest := Split(s[1..], ',');
      SplitLower(s[1..]);
      assert Lower(s)[1..] == Lower(s[1..]);
      assert Lower([s[0]] + rest[0]) == [LowerChar(s[0])] + Lower(rest[0]);
    }
  }

  lemma {:induction false} StripLower(s: string)
    ensures Strip(Lower(s)) == Lower(Strip(s))
  {
    StripLeftLower(s);
    StripRightLower(StripLeft(s));
  }

  lemma LowerParts(s: string)
    requires s != ""
    ensures Lower(s)[1..] == Lower(s[1..]) && Lower(s)[..|s| - 1] == Lower(s[..|s| - 1])
    ensures Lower(s)[0] == LowerChar(s[0]) && Lower(s)[|s| - 1] == LowerChar(s[|s| - 1])
  {
  }

  lemma SpaceLower(c: char)
    ensures IsSpace(LowerChar(c)) <==> IsSpace(c)
  {
  }

  lemma {:induction false} StripLeftLower(s: string)
    ensures StripLeft(Lower(s)) == Lower(StripLeft(s))
  {
    if s != "" {
      LowerParts(s);
      SpaceLower(s[0]);
      StripLeftLower(s[1..]);
    }
  }

  lemma {:induction false} StripRightLower(s: string)
    ensures StripRight(Lower(s)) == Lower(StripRight(s))
  {
    if s != "" {
      var init := s[..|s| - 1];
      LowerParts(s);
      SpaceLower(s[|s| - 1]);
      StripRightLower(init);
    }
  }

  lemma StripOneMore(c: char, s: string)
    requires IsSpace(c)
    ensures Strip([c] + s) == Strip(s) == Strip(s + [c])
  {
    StripPadded([c], s, "");
    StripPadded("", s, [c]);
    assert [c] + s + "" == [c] + s && "" + s + [c] == s + [c];
  }

  lemma NormalizedSame(a: seq<string>, b: seq<string>)
    requires |a| == |b| && forall i | 0 <= i < |a| :: Strip(a[i]) == Strip(b[i])
    ensures Normalized(a) == Normalized(b)
  {
    assert forall i | 0 <= i < |a| :: Normalized(a)[i] == Normalized(b)[i];
  }

  lemma EntriesPadLeft(c: char, s: string)
    requires IsSpace(c)
    ensures Entries([c] + s) == Entries(s)
  {
    var pieces, padded := Split(s, ','), Split([c] + s, ',');
    assert ([c] + s)[1..] == s && c != ',';
    assert padded == [[c] + pieces[0]] + pieces[1..];
    StripOneMore(c, pieces[0]);
    NormalizedSame(padded, pieces);
  }

  lemma EntriesPadRight(s: string, c: char)
    requires IsSpace(c)
    ensures Entries(s + [c]) == Entries(s)
  {
    var pieces, padded := Split(s, ','), Split(s + [c], ',');
    var last := |pieces| - 1;
    SplitPadRight(s, ',', c);
    StripOneMore(c, pieces[last]);
    NormalizedSame(padded, pieces);
  }

  lemma BlankParts(s: string, i: nat)
    requires Blank(s) && s != "" && i <= |s|
    ensures Blank(s[..i]) && Blank(s[i..]) && IsSpace(s[0]) && IsSpace(s[|s| - 1])
  {
    assert s[0] in s && s[|s| - 1] in s;
  }

  lemma {:induction false} EntriesPadded(left: string, s: string)
    requires Blank(left)
    ensures Entries(left + s) == Entries(s)
  {
    if left == "" {
      assert left + s == s;
    } else {
      var c, rest := left[0], left[1..] + s;
      assert left + s == [c] + rest;
      BlankParts(left, 1);
      EntriesPadLeft(c, rest);
      EntriesPadded(left[1..], s);
    }
  }

  lemma {:induction false} EntriesPaddedRight(s: string, right: string)
    requires Blank(right)
    ensures Entries(s + right) == Entries(s)
  {
    if right == "" {
      assert s + right == s;
    } else {
      var c, init := right[|right| - 1], s + right[..|right| - 1];
      assert s + right == init + [c];
      BlankParts(right, |right| - 1);
      EntriesPadRight(init, c);
      EntriesPaddedRight(s, right[..|right| - 1]);
    }
  }

  /** Nor do blanks around the option. */
  lemma ParsePadded(left: string, s: string, right: string)
    requires Blank(left) && Blank(right)
    ensures Entries(left + s + right) == Entries(s) && Parse(left + s + right) == Parse(s)
  {
    EntriesPaddedRight(left + s, right);
    EntriesPadded(left, s);
  }

  /** An entry of plain characters is read as it stands. */
  lemma PlainEntry(flag: string)
    requires flag != "" && forall c <- flag :: c == ':' || 'a' <= c <= 'z'
    ensures Entries(flag) == [flag]
  {
    assert flag[0] in flag && flag[|flag| - 1] in flag && ',' !in flag;
    SplitWhole(flag, ',');
    assert StripLeft(flag) == flag && StripRight(flag) == flag;
    assert Lower(flag) == flag by { assert forall i | 0 <= i < |flag| :: flag[i] in flag; }
    assert Normalized([flag]) == [flag];
  }

  // ---- writing flags down ----

  function FlagText(isSet: bool, flag: string): string {
    if isSet then flag else ""
  }

  /** An option that sets exactly these flags. */
  function FlagsText(f: Flags): string {
    OsdText(f) + "," + (WalText(f) + "," + DbText(f))
  }

  function OsdText(f: Flags): string {
    FlagText(f.wipeOsd, "wipe:osd") + "," + FlagText(f.encryptOsd, "encrypt:osd")
  }

  function WalText(f: Flags): string {
    FlagText(f.wipeWal, "wipe:wal") + "," + FlagText(f.encryptWal, "encrypt:wal")
  }

  function DbText(f: Flags): string {
    FlagText(f.wipeDb, "wipe:db") + "," + FlagText(f.encryptDb, "encrypt:db")
  }

  lemma ParseFlagText(isSet: bool, flag: string)
    requires IsValidFlag(flag) && forall c <- flag :: c == ':' || 'a' <= c <= 'z'
    ensures Parse(FlagText(isSet, flag)) == Some(if isSet then SetFlag(NONE, flag) else NONE)
  {
    if isSet {
      PlainEntry(flag);
      MentionedAppend([], flag);
      assert [] + [flag] == [flag];
    } else {
      BlankHasNoEntries("");
    }
  }

  lemma ParseOsdText(f: Flags)
    ensures Parse(OsdText(f)) == Some(NONE.(wipeOsd := f.wipeOsd, encryptOsd := f.encryptOsd))
  {
    ParseFlagText(f.wipeOsd, "wipe:osd");
    ParseFlagText(f.encryptOsd, "encrypt:osd");
    ParseConcat(FlagText(f.wipeOsd, "wipe:osd"), FlagText(f.encryptOsd, "encrypt:osd"));
  }

  lemma ParseWalText(f: Flags)
    ensures Parse(WalText(f)) == Some(NONE.(wipeWal := f.wipeWal, encryptWal := f.encryptWal))
  {
    ParseFlagText(f.wipeWal, "wipe:wal");
    ParseFlagText(f.encryptWal, "encrypt:wal");
    ParseConcat(FlagText(f.wipeWal, "wipe:wal"), FlagText(f.encryptWal, "encrypt:wal"));
  }

  lemma ParseDbText(f: Flags)
    ensures Parse(DbText(f)) == Some(NONE.(wipeDb := f.wipeDb, encryptDb := f.encryptDb))
  {
    ParseFlagText(f.wipeDb, "wipe:db");
    ParseFlagText(f.encryptDb, "encrypt:db");
    ParseConcat(FlagText(f.wipeDb, "wipe:db"), FlagText(f.encryptDb, "encrypt:db"));
  }

  lemma ParseJoined(a: string, f: Flags, b: string, g: Flags)
    requires Parse(a) == Some(f) && Parse(b) == Some(g)
    ensures Parse(a + "," + b) == Some(Or(f, g))
  {
    ParseConcat(a, b);
  }

  /** Parsing reads back the flags that were written. */
  lemma ParseFlagsText(f: Flags)
    ensures Parse(FlagsText(f)) == Some(f)
  {
    var osd := NONE.(wipeOsd := f.wipeOsd, encryptOsd := f.encryptOsd);
    var wal := NONE.(wipeWal := f.wipeWal, encryptWal := f.encryptWal);
    var db := NONE.(wipeDb := f.wipeDb, encryptDb := f.encryptDb);
    ParseOsdText(f);
    ParseWalText(f);
    ParseDbText(f);
    ParseJoined(WalText(f), wal, DbText(f), db);
    ParseJoined(OsdText(f), osd, WalText(f) + "," + DbText(f), Or(wal, db));
  }
}
