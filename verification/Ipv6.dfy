/**
 * IPv6 subnets as eight 16-bit groups plus a prefix length (section 2.3 of RFC 4291), read and written
 * as Python's ipaddress does up to version 3.12, and lists that mix both IP versions.
 */
module Ipv6 {
  import opened Wrappers
  import opened Text
  import opened Networks
  import opened Ipv4
  import Ordering

  const GROUPS := 8
  const GROUP := 0x1_0000
  const BITS := 128

  datatype RawSubnet6 = RawSubnet6(groups: seq<nat>, scope: Option<string>, prefix: nat)

  predicate AreGroups(groups: seq<nat>) {
    forall i | 0 <= i < |groups| :: groups[i] < GROUP
  }

  function Value(groups: seq<nat>): nat {
    if groups == [] then 0 else Value(groups[..|groups| - 1]) * GROUP + groups[|groups| - 1]
  }

  /** A scope id after a per cent sign; a token has no separators in it. */
  predicate IsScope(scope: string) {
    scope != "" && forall c <- scope :: c != '%' && c != '/' && !IsSeparator(c)
  }

  predicate Canonical6(n: RawSubnet6) {
    && |n.groups| == GROUPS && AreGroups(n.groups) && (n.scope.Some? ==> IsScope(n.scope.value))
    && n.prefix <= BITS && Value(n.groups) % Pow2(BITS - n.prefix) == 0
  }

  function Zeros(count: nat): (r: seq<nat>)
    ensures |r| == count && forall i | 0 <= i < count :: r[i] == 0
  {
    if count == 0 then [] else Zeros(count - 1) + [0]
  }

  lemma {:induction false} ValueOfZeros(count: nat)
    ensures Value(Zeros(count)) == 0
  {
    if count > 0 {
      assert Zeros(count)[..count - 1] == Zeros(count - 1);
      ValueOfZeros(count - 1);
    }
  }

  lemma AnySubnet6()
    ensures Canonical6(RawSubnet6(Zeros(GROUPS), None, 0))
  {
    ValueOfZeros(GROUPS);
  }

  type Subnet6 = n: RawSubnet6 | Canonical6(n) witness (AnySubnet6(); RawSubnet6(Zeros(GROUPS), None, 0))

  // ---- one group ----

  predicate IsHex(c: char) {
    '0' <= c <= '9' || 'a' <= c <= 'f' || 'A' <= c <= 'F'
  }

  function HexValue(c: char): (v: nat)
    requires IsHex(c)
    ensures v < 16
  {
    if c <= '9' then c as nat - '0' as nat
    else if c <= 'F' then c as nat - 'A' as nat + 10
    else c as nat - 'a' as nat + 10
  }

  predicate AllHex(s: string) {
    s != "" && forall c <- s :: IsHex(c)
  }

  function ReadHex(s: string): nat
    requires forall c <- s :: IsHex(c)
  {
    if s == "" then 0
    else
      assert s[|s| - 1] in s && forall c <- s[..|s| - 1] :: c in s;
      16 * ReadHex(s[..|s| - 1]) + HexValue(s[|s| - 1])
  }

  function ShowHexDigit(n: nat): char
    requires n < 16
  {
    if n < 10 then '0' + n as char else 'a' + (n - 10) as char
  }

  function ShowHex(n: nat): string {
    if n < 16 then [ShowHexDigit(n)] else ShowHex(n / 16) + [ShowHexDigit(n % 16)]
  }

  lemma {:induction false} ReadShownHex(n: nat)
    ensures AllHex(ShowHex(n)) && ReadHex(ShowHex(n)) == n
  {
    if n >= 16 {
      ReadShownHex(n / 16);
      var s := ShowHex(n / 16);
      assert (s + [ShowHexDigit(n % 16)])[..|s|] == s;
    } else {
      assert ReadHex([ShowHexDigit(n)][..0]) == 0;
    }
  }

  lemma ShownHexLength(n: nat)
    requires n < GROUP
    ensures |ShowHex(n)| <= 4
  {
    var a := n / 16;
    var b := a / 16;
    var c := b / 16;
    assert c < 16;
    assert |ShowHex(c)| == 1;
    assert |ShowHex(b)| <= 2;
    assert |ShowHex(a)| <= 3;
  }

  function Pow16(e: nat): nat {
    if e == 0 then 1 else 16 * Pow16(e - 1)
  }

  lemma {:induction false} ReadHexBound(s: string)
    requires forall c <- s :: IsHex(c)
    ensures ReadHex(s) < Pow16(|s|)
  {
    if s != "" {
      assert s[|s| - 1] in s && forall c <- s[..|s| - 1] :: c in s;
      ReadHexBound(s[..|s| - 1]);
    }
  }

  lemma {:induction false} Pow16Grows(a: nat, b: nat)
    requires a <= b
    ensures Pow16(a) <= Pow16(b)
    decreases b - a
  {
    if a < b { Pow16Grows(a, b - 1); }
  }

  /** One to four hexadecimal digits. */
  function ReadGroup(s: string): (r: Option<nat>)
    ensures r.Some? ==> r.value < GROUP
  {
    if AllHex(s) && |s| <= 4 then
      ReadHexBound(s);
      Pow16Grows(|s|, 4);
      Some(ReadHex(s))
    else None
  }

  // ---- the parts between colons ----

  /** A part between colons: nothing, a group, or neither. */
  datatype Part = Gap | Group(value: nat) | Bad

  function ReadPart(text: string): (p: Part)
    ensures p.Group? ==> p.value < GROUP
  {
    if text == "" then Gap
    else match ReadGroup(text) case Some(g) => Group(g) case None => Bad
  }

  function ReadEach(texts: seq<string>): (r: seq<Part>)
    ensures |r| == |texts| && forall i | 0 <= i < |r| :: r[i] == ReadPart(texts[i])
  {
    seq(|texts|, i requires 0 <= i < |texts| => ReadPart(texts[i]))
  }

  predicate AllGroups(parts: seq<Part>) {
    forall i | 0 <= i < |parts| :: parts[i].Group? && parts[i].value < GROUP
  }

  function Values(parts: seq<Part>): (r: seq<nat>)
    requires AllGroups(parts)
    ensures |r| == |parts| && forall i | 0 <= i < |r| :: r[i] == parts[i].value
  {
    seq(|parts|, i requires 0 <= i < |parts| && AllGroups(parts) => parts[i].value)
  }

  function AsParts(groups: seq<nat>): (r: seq<Part>)
    ensures |r| == |groups| && forall i | 0 <= i < |r| :: r[i] == Group(groups[i])
  {
    seq(|groups|, i requires 0 <= i < |groups| => Group(groups[i]))
  }

  lemma ValuesOfParts(groups: seq<nat>)
    requires AreGroups(groups)
    ensures AllGroups(AsParts(groups)) && Values(AsParts(groups)) == groups
  {
  }

  /** The first gap at or after i that is neither the first nor the last part. */
  function InnerGap(parts: seq<Part>, i: nat): (r: Option<nat>)
    ensures r.Some? ==> i <= r.value < |parts| - 1 && parts[r.value] == Gap
    decreases |parts| - i
  {
    if i + 1 >= |parts| then None else if parts[i] == Gap then Some(i) else InnerGap(parts, i + 1)
  }

  /** How many parts stand before and after the double colon; eight and none without one. */
  function Layout(parts: seq<Part>): (r: Option<(nat, nat)>)
    ensures r.Some? ==> r.value.0 <= |parts| && r.value.1 <= |parts| && r.value.0 + r.value.1 <= GROUPS
  {
    if |parts| < 3 || |parts| > GROUPS + 1 then None
    else
      var last := |parts| - 1;
      match InnerGap(parts, 1)
      case None => if |parts| == GROUPS then Some((GROUPS, 0)) else None
      case Some(skip) =>
        if InnerGap(parts, skip + 1).Some? then None
        else if (parts[0] == Gap && skip != 1) || (parts[last] == Gap && skip != last - 1) then None
        else
          var high, low := if parts[0] == Gap then 0 else skip, if parts[last] == Gap then 0 else last - skip;
          if high + low >= GROUPS then None else Some((high, low))
  }

  /** Eight groups, or fewer around one double colon, which stands for the missing ones. */
  function ReadParts(parts: seq<Part>): (r: Option<seq<nat>>)
    ensures r.Some? ==> |r.value| == GROUPS && AreGroups(r.value)
  {
    match Layout(parts)
    case None => None
    case Some((high, low)) =>
      var before, after := parts[..high], parts[|parts| - low..];
      if AllGroups(before) && AllGroups(after) then Some(Values(before) + Zeros(GROUPS - high - low) + Values(after))
      else None
  }

  /** An address; its last part may be an IPv4 address, which stands for two groups. */
  function ReadAddress6(s: string): (r: Option<seq<nat>>)
    ensures r.Some? ==> |r.value| == GROUPS && AreGroups(r.value)
  {
    var texts := Split(s, ':');
    var last := |texts| - 1;
    if |texts| < 3 then None
    else if '.' !in texts[last] then ReadParts(ReadEach(texts))
    else
      match ReadAddress(texts[last])
      case None => None
      case Some(v4) => ReadParts(ReadEach(texts[..last]) + [Group(v4 / GROUP), Group(v4 % GROUP)])
  }

  // ---- writing an address ----

  /** How many groups from the i-th on are zero. */
  function ZerosFrom(groups: seq<nat>, i: nat): (r: nat)
    requires i <= |groups|
    ensures i + r <= |groups| && forall j | i <= j < i + r :: groups[j] == 0
    decreases |groups| - i
  {
    if i == |groups| || groups[i] != 0 then 0 else 1 + ZerosFrom(groups, i + 1)
  }

  /** Where the first of the longest runs of zero groups starts, looking from the i-th group on. */
  function LongestZeros(groups: seq<nat>, i: nat, best: nat): (r: nat)
    requires i <= |groups| && best <= |groups|
    ensures r <= |groups|
    decreases |groups| - i
  {
    if i == |groups| then best
    else LongestZeros(groups, i + 1, if ZerosFrom(groups, i) > ZerosFrom(groups, best) then i else best)
  }

  /** A double colon between these groups; at either end it leaves an extra gap. */
  function Around(before: seq<nat>, after: seq<nat>): seq<Part> {
    (if before == [] then [Gap] else AsParts(before)) + [Gap] + (if after == [] then [Gap] else AsParts(after))
  }

  /** The groups with a double colon in place of those from start to end. */
  function Compressed(groups: seq<nat>, start: nat, end: nat): seq<Part>
    requires start <= end <= |groups|
  {
    Around(groups[..start], groups[end..])
  }

  /** The longest run of two or more zero groups becomes a double colon. */
  function ShowParts(groups: seq<nat>): seq<Part> {
    var start := LongestZeros(groups, 0, 0);
    var end := start + ZerosFrom(groups, start);
    if end - start < 2 then AsParts(groups) else Compressed(groups, start, end)
  }

  function ShowPart(p: Part): string {
    if p.Group? then ShowHex(p.value) else ""
  }

  function ShowEach(parts: seq<Part>): (r: seq<string>)
    ensures |r| == |parts| && forall i | 0 <= i < |r| :: r[i] == ShowPart(parts[i])
  {
    seq(|parts|, i requires 0 <= i < |parts| => ShowPart(parts[i]))
  }

  function Written(parts: seq<Part>): string {
    Join(':', ShowEach(parts))
  }

  function ShowAddress6(groups: seq<nat>): string {
    Written(ShowParts(groups))
  }

  // ---- what is written reads back ----

  lemma {:induction false} NoInnerGap(parts: seq<Part>, i: nat)
    requires forall j | i <= j < |parts| - 1 :: parts[j] != Gap
    ensures InnerGap(parts, i) == None
    decreases |parts| - i
  {
    if i + 1 < |parts| { NoInnerGap(parts, i + 1); }
  }

  lemma {:induction false} FirstInnerGap(parts: seq<Part>, i: nat, skip: nat)
    requires i <= skip < |parts| - 1 && parts[skip] == Gap && forall j | i <= j < skip :: parts[j] != Gap
    ensures InnerGap(parts, i) == Some(skip)
    decreases skip - i
  {
    if i < skip { FirstInnerGap(parts, i + 1, skip); }
  }

  lemma AroundLayout(before: seq<nat>, after: seq<nat>)
    requires |before| + |after| < GROUPS
    ensures Layout(Around(before, after)) == Some((|before|, |after|))
  {
    var parts, skip := Around(before, after), if before == [] then 1 else |before|;
    FirstInnerGap(parts, 1, skip);
    NoInnerGap(parts, skip + 1);
  }

  lemma AroundEnds(before: seq<nat>, after: seq<nat>)
    ensures var parts := Around(before, after);
      parts[..|before|] == AsParts(before) && parts[|parts| - |after|..] == AsParts(after)
  {
  }

  lemma ReadLaidOut(parts: seq<Part>, before: seq<nat>, after: seq<nat>)
    requires |before| <= |parts| && |after| <= |parts| && AreGroups(before) && AreGroups(after)
    requires Layout(parts) == Some((|before|, |after|)) && |before| + |after| <= GROUPS
    requires parts[..|before|] == AsParts(before) && parts[|parts| - |after|..] == AsParts(after)
    ensures ReadParts(parts) == Some(before + Zeros(GROUPS - |before| - |after|) + after)
  {
    ValuesOfParts(before);
    ValuesOfParts(after);
  }

  lemma ReadAround(before: seq<nat>, after: seq<nat>)
    requires AreGroups(before) && AreGroups(after) && |before| + |after| < GROUPS
    ensures ReadParts(Around(before, after)) == Some(before + Zeros(GROUPS - |before| - |after|) + after)
  {
    AroundLayout(before, after);
    AroundEnds(before, after);
    ReadLaidOut(Around(before, after), before, after);
  }

  lemma ReadCompressed(groups: seq<nat>, start: nat, end: nat)
    requires |groups| == GROUPS && AreGroups(groups) && start < end <= GROUPS
    requires forall j | start <= j < end :: groups[j] == 0
    ensures ReadParts(Compressed(groups, start, end)) == Some(groups)
  {
    ZerosFillIn(groups, start, end);
    ReadAround(groups[..start], groups[end..]);
  }

  lemma ZerosFillIn(groups: seq<nat>, start: nat, end: nat)
    requires start <= end <= |groups| && forall j | start <= j < end :: groups[j] == 0
    ensures groups[..start] + Zeros(end - start) + groups[end..] == groups
  {
  }

  lemma ZerosBetween(a: seq<nat>, zeros: nat, b: seq<nat>)
    ensures var groups := a + Zeros(zeros) + b;
      && groups[..|a|] == a && groups[|a| + zeros..] == b && forall j | |a| <= j < |a| + zeros :: groups[j] == 0
  {
  }

  lemma ReadAllGroups(groups: seq<nat>)
    requires |groups| == GROUPS && AreGroups(groups)
    ensures ReadParts(AsParts(groups)) == Some(groups)
  {
    var parts := AsParts(groups);
    NoInnerGap(parts, 1);
    ValuesOfParts(groups);
    assert parts[..GROUPS] == parts && parts[|parts| - 0..] == [];
    assert groups + Zeros(0) + [] == groups;
  }

  predicate IsAddressChar(c: char) {
    IsHex(c) || c == ':'
  }

  /** Gaps and groups: what an address is written from. */
  predicate Writable(parts: seq<Part>) {
    |parts| >= 3 && forall i | 0 <= i < |parts| :: parts[i] == Gap || (parts[i].Group? && parts[i].value < GROUP)
  }

  lemma ReadShownPart(p: Part)
    requires p == Gap || (p.Group? && p.value < GROUP)
    ensures ReadPart(ShowPart(p)) == p && forall c <- ShowPart(p) :: IsHex(c)
  {
    if p.Group? {
      ReadShownHex(p.value);
      ShownHexLength(p.value);
    }
  }

  predicate AllPlain(texts: seq<string>) {
    forall i | 0 <= i < |texts| :: forall c <- texts[i] :: IsHex(c)
  }

  lemma {:induction false} SplitJoined(texts: seq<string>)
    requires texts != [] && AllPlain(texts)
    ensures Split(Join(':', texts), ':') == texts
    ensures forall c <- Join(':', texts) :: IsAddressChar(c)
  {
    assert ':' !in texts[0];
    SplitWhole(texts[0], ':');
    if |texts| > 1 {
      SplitJoined(texts[1..]);
      SplitConcat(texts[0], Join(':', texts[1..]), ':');
      assert [texts[0]] + texts[1..] == texts;
    } else {
      assert texts == [texts[0]];
    }
  }

  lemma ReadShownEach(parts: seq<Part>)
    requires Writable(parts)
    ensures ReadEach(ShowEach(parts)) == parts && AllPlain(ShowEach(parts))
  {
    forall i | 0 <= i < |parts|
      ensures ReadPart(ShowEach(parts)[i]) == parts[i] && forall c <- ShowEach(parts)[i] :: IsHex(c)
    {
      ReadShownPart(parts[i]);
    }
  }

  lemma JoinedHasSeparator(texts: seq<string>)
    requires |texts| >= 2
    ensures ':' in Join(':', texts)
  {
    assert Join(':', texts)[|texts[0]|] == ':';
  }

  lemma ReadSplit(s: string, texts: seq<string>)
    requires Split(s, ':') == texts && |texts| >= 3 && '.' !in texts[|texts| - 1]
    ensures ReadAddress6(s) == ReadParts(ReadEach(texts))
  {
  }

  /** Reading the written parts is reading the parts. */
  lemma ReadWritten(parts: seq<Part>)
    requires Writable(parts)
    ensures ReadAddress6(Written(parts)) == ReadParts(parts)
    ensures ':' in Written(parts) && forall c <- Written(parts) :: IsAddressChar(c)
  {
    var texts := ShowEach(parts);
    ReadShownEach(parts);
    SplitJoined(texts);
    JoinedHasSeparator(texts);
    assert '.' !in texts[|texts| - 1] by { assert !IsHex('.'); }
    ReadSplit(Join(':', texts), texts);
  }

  lemma CompressedIsWritable(groups: seq<nat>, start: nat, end: nat)
    requires AreGroups(groups) && start <= end <= |groups|
    ensures Writable(Compressed(groups, start, end))
  {
  }

  lemma ShownIsWritable(groups: seq<nat>)
    requires |groups| == GROUPS && AreGroups(groups)
    ensures Writable(ShowParts(groups))
  {
    var start := LongestZeros(groups, 0, 0);
    CompressedIsWritable(groups, start, start + ZerosFrom(groups, start));
  }

  lemma ReadShownParts(groups: seq<nat>)
    requires |groups| == GROUPS && AreGroups(groups)
    ensures ReadParts(ShowParts(groups)) == Some(groups)
  {
    var start := LongestZeros(groups, 0, 0);
    var end := start + ZerosFrom(groups, start);
    if end - start < 2 {
      ReadAllGroups(groups);
    } else {
      ReadCompressed(groups, start, end);
    }
  }

  lemma ReadShownAddress6(groups: seq<nat>)
    requires |groups| == GROUPS && AreGroups(groups)
    ensures ReadAddress6(ShowAddress6(groups)) == Some(groups)
    ensures ':' in ShowAddress6(groups) && forall c <- ShowAddress6(groups) :: IsAddressChar(c)
  {
    ShownIsWritable(groups);
    ReadShownParts(groups);
    ReadWritten(ShowParts(groups));
  }

  /** An address may be spelled out, or any run of zero groups left out of it: each spelling reads the same. */
  lemma Spellings6(groups: seq<nat>, start: nat, end: nat)
    requires |groups| == GROUPS && AreGroups(groups) && start < end <= GROUPS
    requires forall j | start <= j < end :: groups[j] == 0
    ensures ReadAddress6(Written(AsParts(groups))) == Some(groups)
    ensures ReadAddress6(Written(Compressed(groups, start, end))) == Some(groups)
  {
    ReadAllGroups(groups);
    ReadWritten(AsParts(groups));
    CompressedIsWritable(groups, start, end);
    ReadCompressed(groups, start, end);
    ReadWritten(Compressed(groups, start, end));
  }

  const MAPPED := 0xffff

  /** The dotted form in which later versions write an IPv4-mapped address reads as the same groups. */
  lemma MappedSpelling(v4: nat)
    requires v4 < ALL
    ensures ReadAddress6("::ffff" + [':'] + ShowAddress(v4)) == Some(Zeros(5) + [MAPPED, v4 / GROUP, v4 % GROUP])
  {
    var dotted, low := ShowAddress(v4), [MAPPED, v4 / GROUP, v4 % GROUP];
    var texts, parts := ["", "", "ffff", dotted], [Gap, Gap] + AsParts(low);
    ReadShownAddress(v4);
    SplitMapped(dotted);
    ShownAddressChars(v4);
    ReadMapped();
    assert ReadEach(texts[..3]) + [Group(v4 / GROUP), Group(v4 % GROUP)] == parts;
    FirstInnerGap(parts, 1, 1);
    NoInnerGap(parts, 2);
    ReadLaidOut(parts, [], low);
    assert [] + Zeros(5) + low == Zeros(5) + low;
  }

  lemma ReadMapped()
    ensures ReadEach(["", "", "ffff"]) == [Gap, Gap, Group(MAPPED)]
  {
    assert "f"[..0] == "" && "ff"[..1] == "f" && "fff"[..2] == "ff" && "ffff"[..3] == "fff";
    assert ReadHex("ffff") == MAPPED;
    assert ReadPart("ffff") == Group(MAPPED);
  }

  lemma SplitMapped(dotted: string)
    requires forall c <- dotted :: IsDigit(c) || c == '.'
    ensures Split("::ffff" + [':'] + dotted, ':') == ["", "", "ffff", dotted]
  {
    SplitWhole("ffff", ':');
    SplitWhole(dotted, ':');
    assert "::ffff"[1..] == ":ffff" && ":ffff"[1..] == "ffff";
    assert Split(":ffff", ':') == ["", "ffff"] && Split("::ffff", ':') == ["", "", "ffff"];
    SplitConcat("::ffff", dotted, ':');
  }

  // ---- what is accepted, and what is written ----

  /** Upper-case digits read as lower-case ones. */
  lemma {:induction false} ReadHexIgnoresCase(s: string)
    requires forall c <- s :: IsHex(c)
    ensures (forall c <- Lower(s) :: IsHex(c)) && ReadHex(Lower(s)) == ReadHex(s)
  {
    forall i | 0 <= i < |s| ensures IsHex(Lower(s)[i]) && HexValue(Lower(s)[i]) == HexValue(s[i]) {
      assert s[i] in s;
    }
    if s != "" {
      var init := s[..|s| - 1];
      assert forall c <- init :: c in s;
      ReadHexIgnoresCase(init);
      assert Lower(s)[..|s| - 1] == Lower(init);
    }
  }

  /** Lower-case digits are the way their number is written, but for leading zeros. */
  lemma {:induction false} ShownReadHex(s: string)
    requires AllHex(s) && forall c <- s :: !('A' <= c <= 'F')
    ensures var r := ReadHex(s); ShowHex(r) == s || (s[0] == '0' && |s| > 1 && ReadHex(s[1..]) == r)
  {
    var init, last := s[..|s| - 1], s[|s| - 1];
    assert last in s && s == init + [last] && ShowHexDigit(HexValue(last)) == last;
    if init != "" {
      assert forall c <- init :: c in s;
      ShownReadHex(init);
      assert ReadHex(s) / 16 == ReadHex(init) && ReadHex(s) % 16 == HexValue(last);
      if s[0] == '0' {
        DropLeadingZero(s);
      } else {
        assert init[0] == s[0];
        NonZeroHex(init);
      }
    } else {
      assert s == [last] && ReadHex(init) == 0;
    }
  }

  lemma {:induction false} DropLeadingZero(s: string)
    requires AllHex(s) && s[0] == '0' && |s| > 1
    ensures (forall c <- s[1..] :: IsHex(c)) && ReadHex(s[1..]) == ReadHex(s)
  {
    assert forall c <- s[1..] :: c in s;
    var init := s[..|s| - 1];
    assert forall c <- init :: c in s;
    assert s[1..][..|s[1..]| - 1] == init[1..] && s[1..][|s[1..]| - 1] == s[|s| - 1];
    if |init| > 1 {
      DropLeadingZero(init);
    } else {
      assert init == "0" && ReadHex(init[..0]) == 0 && ReadHex(init) == 0 && init[1..] == "";
    }
  }

  lemma {:induction false} NonZeroHex(s: string)
    requires AllHex(s) && s[0] != '0'
    ensures ReadHex(s) > 0
  {
    var init := s[..|s| - 1];
    if init != "" {
      assert forall c <- init :: c in s;
      NonZeroHex(init);
    } else {
      assert s == [s[0]] && s[0] in s;
    }
  }

  lemma LayoutShape(parts: seq<Part>)
    requires Layout(parts).Some?
    ensures var (high, low) := Layout(parts).value;
      if high + low == GROUPS then |parts| == GROUPS && high == GROUPS
      else parts == (if high == 0 then [Gap] else parts[..high]) + [Gap]
                    + (if low == 0 then [Gap] else parts[|parts| - low..])
  {
  }

  lemma ValuesBack(parts: seq<Part>)
    requires AllGroups(parts)
    ensures AsParts(Values(parts)) == parts && AreGroups(Values(parts))
  {
  }

  lemma ReadPartsShape(parts: seq<Part>, groups: seq<nat>) returns (start: nat, end: nat)
    requires ReadParts(parts) == Some(groups)
    ensures start <= end <= GROUPS && |groups| == GROUPS && forall j | start <= j < end :: groups[j] == 0
    ensures if start == end then parts == AsParts(groups) else parts == Compressed(groups, start, end)
  {
    var (high, low) := Layout(parts).value;
    var before, after := parts[..high], parts[|parts| - low..];
    LayoutShape(parts);
    ValuesBack(before);
    ValuesBack(after);
    ZerosBetween(Values(before), GROUPS - high - low, Values(after));
    start, end := high, GROUPS - low;
    if start == end {
      assert before == parts && groups == Values(before) + Zeros(0) + Values(after) == Values(before);
    }
  }

  /**
   * Eight groups are read from their eight parts, or from fewer with a double colon in place of one run
   * of zero groups, and from nothing else.
   */
  lemma ReadPartsIff(parts: seq<Part>, groups: seq<nat>)
    ensures ReadParts(parts) == Some(groups) <==>
      && |groups| == GROUPS && AreGroups(groups)
      && (parts == AsParts(groups)
          || exists start, end | 0 <= start < end <= GROUPS ::
               parts == Compressed(groups, start, end) && forall j | start <= j < end :: groups[j] == 0)
  {
    if ReadParts(parts) == Some(groups) {
      var start, end := ReadPartsShape(parts, groups);
    }
    if |groups| == GROUPS && AreGroups(groups) {
      if parts == AsParts(groups) { ReadAllGroups(groups); }
      forall start, end | 0 <= start < end <= GROUPS && parts == Compressed(groups, start, end)
                          && forall j | start <= j < end :: groups[j] == 0
        ensures ReadParts(parts) == Some(groups)
      {
        ReadCompressed(groups, start, end);
      }
    }
  }

  /** Where the double colon goes: the first of the longest runs of zero groups, if it is two groups long. */
  lemma LongestRun(groups: seq<nat>, i: nat)
    requires i <= |groups|
    ensures var start := LongestZeros(groups, 0, 0);
      ZerosFrom(groups, i) <= ZerosFrom(groups, start) && (i < start ==> ZerosFrom(groups, i) < ZerosFrom(groups, start))
    ensures i + ZerosFrom(groups, i) < |groups| ==> groups[i + ZerosFrom(groups, i)] != 0
  {
    LongestFrom(groups, 0, 0, i);
    ZerosEnd(groups, i);
  }

  lemma {:induction false} ZerosEnd(groups: seq<nat>, i: nat)
    requires i <= |groups|
    ensures i + ZerosFrom(groups, i) < |groups| ==> groups[i + ZerosFrom(groups, i)] != 0
    decreases |groups| - i
  {
    if i < |groups| && groups[i] == 0 { ZerosEnd(groups, i + 1); }
  }

  lemma {:induction false} LongestFrom(groups: seq<nat>, i: nat, best: nat, k: nat)
    requires i <= |groups| && best <= i && k <= |groups|
    requires forall j | 0 <= j < i :: ZerosFrom(groups, j) <= ZerosFrom(groups, best)
    requires forall j | 0 <= j < best :: ZerosFrom(groups, j) < ZerosFrom(groups, best)
    ensures var start := LongestZeros(groups, i, best);
      ZerosFrom(groups, k) <= ZerosFrom(groups, start) && (k < start ==> ZerosFrom(groups, k) < ZerosFrom(groups, start))
    decreases |groups| - i
  {
    if i < |groups| {
      LongestFrom(groups, i + 1, if ZerosFrom(groups, i) > ZerosFrom(groups, best) then i else best, k);
    } else {
      assert ZerosFrom(groups, |groups|) == 0;
    }
  }

  // ---- subnets ----

  /** An address with an optional scope id. */
  function ReadScoped(s: string): Option<(seq<nat>, Option<string>)> {
    var pieces := Split(s, '%');
    match ReadAddress6(pieces[0])
    case None => None
    case Some(groups) =>
      if |pieces| == 1 then Some((groups, None))
      else if |pieces| == 2 && pieces[1] != "" then Some((groups, Some(pieces[1])))
      else None
  }

  function Scoped(address: string, scope: Option<string>): string {
    if scope.Some? then address + ['%'] + scope.value else address
  }

  function ShowScoped(groups: seq<nat>, scope: Option<string>): string {
    Scoped(ShowAddress6(groups), scope)
  }

  /** ip_network on an IPv6 subnet: an address, then at most one slash; host bits must be clear. */
  function ReadSubnet6(token: string): Option<Subnet6> {
    var parts := Split(token, '/');
    if |parts| > 2 || (|parts| == 2 && !(AllDigits(parts[1]) && ReadDecimal(parts[1]) <= BITS)) then None
    else
      match ReadScoped(parts[0])
      case None => None
      case Some((groups, scope)) =>
        var n := RawSubnet6(groups, scope, if |parts| == 2 then ReadDecimal(parts[1]) else BITS);
        if |groups| == GROUPS && AreGroups(groups) && Canonical6(n) then Some(n) else None
  }

  function ShowSubnet6(n: Subnet6): string {
    ShowScoped(n.groups, n.scope) + ['/'] + ShowDecimal(n.prefix)
  }

  lemma SplitScoped(address: string, scope: Option<string>)
    requires '%' !in address && (scope.Some? ==> IsScope(scope.value))
    ensures Split(Scoped(address, scope), '%') == if scope.Some? then [address, scope.value] else [address]
  {
    SplitWhole(address, '%');
    if scope.Some? {
      SplitWhole(scope.value, '%');
      SplitConcat(address, scope.value, '%');
    }
  }

  lemma AddressChars(address: string)
    requires forall c <- address :: IsAddressChar(c)
    ensures '%' !in address && forall c <- address :: c != '/' && !IsSeparator(c)
  {
    forall c <- address ensures c != '%' && c != '/' && !IsSeparator(c) {
      assert IsAddressChar(c);
    }
  }

  /** Neither addresses nor scopes have slashes or separators in them. */
  lemma ScopedChars(address: string, scope: Option<string>)
    requires (forall c <- address :: IsAddressChar(c)) && (scope.Some? ==> IsScope(scope.value))
    ensures forall c <- Scoped(address, scope) :: c != '/' && !IsSeparator(c)
    ensures address <= Scoped(address, scope)
  {
    AddressChars(address);
    forall c <- Scoped(address, scope) ensures c != '/' && !IsSeparator(c) {
      assert c in address || c == '%' || (scope.Some? && c in scope.value);
    }
  }

  lemma ShownScopedChars(groups: seq<nat>, scope: Option<string>)
    requires |groups| == GROUPS && AreGroups(groups) && (scope.Some? ==> IsScope(scope.value))
    ensures ':' in ShowScoped(groups, scope)
    ensures forall c <- ShowScoped(groups, scope) :: c != '/' && !IsSeparator(c)
  {
    ReadShownAddress6(groups);
    ScopedChars(ShowAddress6(groups), scope);
  }

  lemma ReadShownScoped(groups: seq<nat>, scope: Option<string>)
    requires |groups| == GROUPS && AreGroups(groups) && (scope.Some? ==> IsScope(scope.value))
    ensures ReadScoped(ShowScoped(groups, scope)) == Some((groups, scope))
  {
    ReadShownAddress6(groups);
    AddressChars(ShowAddress6(groups));
    SplitScoped(ShowAddress6(groups), scope);
  }

  lemma SlashToken(a: string, p: string)
    requires AllDigits(p) && forall c <- a :: !IsSeparator(c)
    ensures IsToken(a + ['/'] + p) && '/' in a + ['/'] + p
  {
    var s := a + ['/'] + p;
    assert s[|a|] == '/';
    forall c <- s ensures !IsSeparator(c) {
      assert c in a || c == '/' || c in p;
    }
  }

  lemma ShownIsToken6(n: Subnet6)
    ensures IsToken(ShowSubnet6(n)) && '/' in ShowSubnet6(n) && ':' in ShowSubnet6(n)
  {
    var a := ShowScoped(n.groups, n.scope);
    ShownScopedChars(n.groups, n.scope);
    SlashToken(a, ShowDecimal(n.prefix));
    assert ':' in a && a <= ShowSubnet6(n);
  }

  /** Every IPv6 subnet reads back from its text. */
  lemma ReadShownSubnet6(n: Subnet6)
    ensures ReadSubnet6(ShowSubnet6(n)) == Some(n)
  {
    var a, p := ShowScoped(n.groups, n.scope), ShowDecimal(n.prefix);
    ReadShownScoped(n.groups, n.scope);
    ShownScopedChars(n.groups, n.scope);
    ReadShown(n.prefix);
    SplitSubnet(a, p);
    assert Split(ShowSubnet6(n), '/') == [a, p];
  }

  /** A subnet is read from its address, with its prefix length after a slash unless it is a single host. */
  lemma ReadSubnet6Iff(token: string, n: Subnet6)
    ensures ReadSubnet6(token) == Some(n) <==>
      || ('/' !in token && ReadScoped(token) == Some((n.groups, n.scope)) && n.prefix == BITS)
      || exists address, digits ::
           && '/' !in address && ReadScoped(address) == Some((n.groups, n.scope))
           && AllDigits(digits) && ReadDecimal(digits) == n.prefix && token == address + ['/'] + digits
  {
    var parts := Split(token, '/');
    if ReadSubnet6(token) == Some(n) {
      SplitJoins(token, '/');
      PiecesPlain(token, '/');
      if |parts| == 1 {
        assert parts == [parts[0]];
      } else {
        assert parts == [parts[0], parts[1]] && [parts[0], parts[1]][1..] == [parts[1]];
        assert token == parts[0] + ['/'] + parts[1];
      }
    }
    if '/' !in token { SplitWhole(token, '/'); }
    forall address, digits | '/' !in address && ReadScoped(address) == Some((n.groups, n.scope))
                             && AllDigits(digits) && ReadDecimal(digits) == n.prefix && token == address + ['/'] + digits
      ensures ReadSubnet6(token) == Some(n)
    {
      SplitSubnet(address, digits);
    }
  }

  lemma {:induction false} PiecesPlain(s: string, sep: char)
    ensures forall i | 0 <= i < |Split(s, sep)| :: sep !in Split(s, sep)[i]
  {
    if s != "" { PiecesPlain(s[1..], sep); }
  }

  // ---- both versions ----

  datatype Net = V4(v4: Subnet) | V6(v6: Subnet6)

  /** ip_network: version 4 is tried first. */
  function ReadNet(token: string): Option<Net> {
    match ReadSubnet(token)
    case Some(n) => Some(V4(n))
    case None =>
      match ReadSubnet6(token)
      case Some(n) => Some(V6(n))
      case None => None
  }

  function ShowNet(n: Net): string {
    match n
    case V4(a) => ShowSubnet(a)
    case V6(b) => ShowSubnet6(b)
  }

  const IP: Codec<Net> := Codec(ReadNet, ShowNet)

  /** Every subnet of either version is written as a token that reads back as itself. */
  lemma IpIsLawful()
    ensures Lawful(IP)
  {
    forall n: Net ensures IP.parse(IP.show(n)) == Some(n) && IsToken(IP.show(n)) && '/' in IP.show(n) {
      match n {
        case V4(a) =>
          ReadShownSubnet(a);
          ShownIsToken(a);
        case V6(b) =>
          ReadShownSubnet6(b);
          ShownIsToken6(b);
          if ReadSubnet(ShowSubnet6(b)).Some? { NoColonInSubnet(ShowSubnet6(b)); }
      }
    }
  }

  /** For every accepted list: the canonical form is free of repeats and stable under parsing it again. */
  lemma IpReparse(value: string)
    requires AllAccepted(IP, Tokens(value))
    ensures var canonical := CanonicalList(IP, value); var joined := Join(',', canonical);
      Ordering.Distinct(canonical) && AllAccepted(IP, Tokens(joined)) && CanonicalList(IP, joined) == canonical
  {
    IpIsLawful();
    Reparse(IP, value);
  }
}
