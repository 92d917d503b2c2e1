/** IPv4 subnets as 32 address bits plus a prefix length (section 3.1 of RFC 4632), read and written. */
module Ipv4 {
  import opened Wrappers
  import opened Text
  import opened Networks

  const ALL := 0x1_0000_0000

  function Pow2(e: nat): (r: nat)
    ensures r >= 1
  {
    if e == 0 then 1 else 2 * Pow2(e - 1)
  }

  datatype RawSubnet = RawSubnet(address: nat, prefix: nat)

  /** The address fits 32 bits and has no bit set after the prefix. */
  predicate Canonical(n: RawSubnet) {
    n.address < ALL && n.prefix <= 32 && n.address % Pow2(32 - n.prefix) == 0
  }

  lemma AnySubnet()
    ensures Canonical(RawSubnet(0, 0))
  {
  }

  type Subnet = n: RawSubnet | Canonical(n) witness (AnySubnet(); RawSubnet(0, 0))

  // ---- decimal numbers ----

  predicate IsDigit(c: char) {
    '0' <= c <= '9'
  }

  predicate AllDigits(s: string) {
    s != "" && forall c <- s :: IsDigit(c)
  }

  function DigitValue(c: char): nat
    requires IsDigit(c)
  {
    c as nat - '0' as nat
  }

  function ReadDecimal(s: string): nat
    requires forall c <- s :: IsDigit(c)
  {
    if s == "" then 0
    else
      assert s[|s| - 1] in s && forall c <- s[..|s| - 1] :: c in s;
      10 * ReadDecimal(s[..|s| - 1]) + DigitValue(s[|s| - 1])
  }

  function ShowDigit(n: nat): char
    requires n < 10
  {
    '0' + n as char
  }

  function ShowDecimal(n: nat): (s: string)
    ensures AllDigits(s)
  {
    if n < 10 then [ShowDigit(n)] else ShowDecimal(n / 10) + [ShowDigit(n % 10)]
  }

  lemma {:induction false} ReadShown(n: nat)
    ensures ReadDecimal(ShowDecimal(n)) == n
    ensures n > 0 ==> ShowDecimal(n)[0] != '0'
    ensures n < 10 ==> |ShowDecimal(n)| == 1
    ensures 10 <= n < 1000 ==> |ShowDecimal(n)| <= 3
  {
    if n >= 10 {
      ReadShown(n / 10);
      var s := ShowDecimal(n / 10);
      assert (s + [ShowDigit(n % 10)])[..|s|] == s;
      if n < 1000 && n / 10 >= 10 {
        ReadShown(n / 100);
        assert n / 10 / 10 == n / 100 && n / 100 < 10;
        assert |ShowDecimal(n / 100)| == 1;
      }
    } else {
      assert ReadDecimal([ShowDigit(n)][..0]) == 0;
    }
  }

  // ---- addresses ----

  /** One octet: one to three digits, no leading zero, at most 255. */
  function ReadOctet(s: string): Option<nat> {
    if AllDigits(s) && |s| <= 3 && (s == "0" || s[0] != '0') && ReadDecimal(s) <= 255 then Some(ReadDecimal(s)) else None
  }

  /** Four octets, most significant first. */
  function ReadAddress(s: string): (r: Option<nat>)
    ensures r.Some? ==> r.value < ALL
  {
    var parts := Split(s, '.');
    if |parts| != 4 then None
    else
      match (ReadOctet(parts[0]), ReadOctet(parts[1]), ReadOctet(parts[2]), ReadOctet(parts[3]))
      case (Some(a), Some(b), Some(c), Some(d)) => Some(((a * 256 + b) * 256 + c) * 256 + d)
      case _ => None
  }

  function Octet(address: nat, place: nat): nat {
    if place == 0 then address % 256 else Octet(address / 256, place - 1)
  }

  function ShowAddress(address: nat): string {
    ShowDecimal(Octet(address, 3)) + ['.'] + (ShowDecimal(Octet(address, 2)) + ['.']
    + (ShowDecimal(Octet(address, 1)) + ['.'] + ShowDecimal(Octet(address, 0))))
  }

  lemma ReadShownOctet(n: nat)
    requires n <= 255
    ensures ReadOctet(ShowDecimal(n)) == Some(n)
  {
    ReadShown(n);
  }

  lemma Separated(s: string, sep: char)
    requires AllDigits(s) && !IsDigit(sep)
    ensures Split(s, sep) == [s]
  {
    SplitWhole(s, sep);
  }

  lemma Recompose(address: nat)
    requires address < ALL
    ensures Octet(address, 3) <= 255 && Octet(address, 2) <= 255 && Octet(address, 1) <= 255 && Octet(address, 0) <= 255
    ensures ((Octet(address, 3) * 256 + Octet(address, 2)) * 256 + Octet(address, 1)) * 256 + Octet(address, 0) == address
  {
    var a := address / 256;
    var b := a / 256;
    var c := b / 256;
    assert Octet(address, 1) == a % 256 && Octet(address, 2) == b % 256 && Octet(address, 3) == c % 256;
    assert c < 256;
  }

  lemma ReadShownAddress(address: nat)
    requires address < ALL
    ensures ReadAddress(ShowAddress(address)) == Some(address)
  {
    Recompose(address);
    var a, b := ShowDecimal(Octet(address, 3)), ShowDecimal(Octet(address, 2));
    var c, d := ShowDecimal(Octet(address, 1)), ShowDecimal(Octet(address, 0));
    ReadShownOctet(Octet(address, 3));
    ReadShownOctet(Octet(address, 2));
    ReadShownOctet(Octet(address, 1));
    ReadShownOctet(Octet(address, 0));
    SplitFour(a, b, c, d);
  }

  lemma SplitFour(a: string, b: string, c: string, d: string)
    requires AllDigits(a) && AllDigits(b) && AllDigits(c) && AllDigits(d)
    ensures Split(a + ['.'] + (b + ['.'] + (c + ['.'] + d)), '.') == [a, b, c, d]
  {
    Separated(a, '.');
    Separated(b, '.');
    Separated(c, '.');
    Separated(d, '.');
    SplitConcat(c, d, '.');
    SplitConcat(b, c + ['.'] + d, '.');
    SplitConcat(a, b + ['.'] + (c + ['.'] + d), '.');
  }

  lemma ShownDigit(c: char)
    requires IsDigit(c)
    ensures ShowDigit(DigitValue(c)) == c
  {
  }

  /** Digits without a leading zero are the way their number is written. */
  lemma {:induction false} ShownRead(s: string)
    requires AllDigits(s) && (s == "0" || s[0] != '0')
    ensures ShowDecimal(ReadDecimal(s)) == s
    ensures s != "0" ==> ReadDecimal(s) > 0
  {
    var init, last := s[..|s| - 1], s[|s| - 1];
    assert last in s && s == init + [last];
    ShownDigit(last);
    if init != "" {
      assert forall c <- init :: c in s;
      assert init[0] == s[0] && init != "0";
      ShownRead(init);
      assert ReadDecimal(s) / 10 == ReadDecimal(init) && ReadDecimal(s) % 10 == DigitValue(last);
    } else {
      assert s == [last] && ReadDecimal(init) == 0;
    }
  }

  /** An octet is a number up to 255 written without leading zeros, and nothing else. */
  lemma ReadOctetIff(s: string, n: nat)
    ensures ReadOctet(s) == Some(n) <==> n <= 255 && s == ShowDecimal(n)
  {
    if ReadOctet(s) == Some(n) { ShownRead(s); }
    if n <= 255 { ReadShownOctet(n); }
  }

  lemma {:induction false} SplitJoins(s: string, sep: char)
    ensures Join(sep, Split(s, sep)) == s
  {
    if s != "" {
      var rest := Split(s[1..], sep);
      SplitJoins(s[1..], sep);
      assert s == [s[0]] + s[1..];
      if s[0] == sep {
        assert Join(sep, [""] + rest) == "" + [sep] + Join(sep, ([""] + rest)[1..]);
        assert ([""] + rest)[1..] == rest;
      } else if |rest| > 1 {
        var parts := [[s[0]] + rest[0]] + rest[1..];
        assert parts[1..] == rest[1..];
        assert Join(sep, parts) == ([s[0]] + rest[0]) + [sep] + Join(sep, rest[1..]);
      }
    }
  }

  lemma OctetsOf(a: nat, b: nat, c: nat, d: nat)
    requires a <= 255 && b <= 255 && c <= 255 && d <= 255
    ensures var address := ((a * 256 + b) * 256 + c) * 256 + d;
      Octet(address, 3) == a && Octet(address, 2) == b && Octet(address, 1) == c && Octet(address, 0) == d
  {
    var address := ((a * 256 + b) * 256 + c) * 256 + d;
    var x := address / 256;
    var y := x / 256;
    var z := y / 256;
    assert x == (a * 256 + b) * 256 + c && y == a * 256 + b && z == a;
    assert Octet(address, 1) == x % 256;
    assert Octet(address, 2) == Octet(x, 1) == y % 256;
    assert Octet(address, 3) == Octet(x, 2) == Octet(y, 1) == z % 256;
  }

  /** An address is read from the way it is written in dotted decimal, and from nothing else. */
  lemma ReadAddressIff(s: string, address: nat)
    ensures ReadAddress(s) == Some(address) <==> address < ALL && s == ShowAddress(address)
  {
    if ReadAddress(s) == Some(address) {
      var parts := Split(s, '.');
      var a, b := ReadOctet(parts[0]).value, ReadOctet(parts[1]).value;
      var c, d := ReadOctet(parts[2]).value, ReadOctet(parts[3]).value;
      ReadOctetIff(parts[0], a);
      ReadOctetIff(parts[1], b);
      ReadOctetIff(parts[2], c);
      ReadOctetIff(parts[3], d);
      OctetsOf(a, b, c, d);
      SplitJoins(s, '.');
      assert parts == [parts[0], parts[1], parts[2], parts[3]];
      JoinFour(parts[0], parts[1], parts[2], parts[3]);
    }
    if address < ALL { ReadShownAddress(address); }
  }

  lemma JoinFour(a: string, b: string, c: string, d: string)
    ensures Join('.', [a, b, c, d]) == a + ['.'] + (b + ['.'] + (c + ['.'] + d))
  {
    assert [c, d][1..] == [d] && Join('.', [c, d]) == c + ['.'] + d;
    assert [b, c, d][1..] == [c, d] && Join('.', [b, c, d]) == b + ['.'] + (c + ['.'] + d);
    assert [a, b, c, d][1..] == [b, c, d];
  }

  // ---- prefix lengths and masks ----

  /** The prefix length p in 0..from whose mask is the given number, found by trying each. */
  function MaskPrefix(mask: nat, from: nat): (r: Option<nat>)
    requires from <= 32
    ensures r.Some? ==> r.value <= from && mask == ALL - Pow2(32 - r.value)
  {
    if mask == ALL - Pow2(32 - from) then Some(from)
    else if from == 0 then None
    else MaskPrefix(mask, from - 1)
  }

  /** What follows the slash: a prefix length in digits, else a netmask, else a host mask. */
  function ReadMask(s: string): (r: Option<nat>)
    ensures r.Some? ==> r.value <= 32
  {
    if AllDigits(s) && ReadDecimal(s) <= 32 then Some(ReadDecimal(s))
    else
      match ReadAddress(s)
      case None => None
      case Some(mask) =>
        var direct := MaskPrefix(mask, 32);
        if direct.Some? then direct else MaskPrefix(ALL - 1 - mask, 32)
  }

  /** ip_network on an IPv4 subnet: an address, then at most one slash; host bits must be clear. */
  function ReadSubnet(token: string): Option<Subnet> {
    var parts := Split(token, '/');
    if |parts| > 2 then None
    else
      match (ReadAddress(parts[0]), if |parts| == 2 then ReadMask(parts[1]) else Some(32))
      case (Some(address), Some(prefix)) =>
        if address % Pow2(32 - prefix) == 0 then Some(RawSubnet(address, prefix)) else None
      case _ => None
  }

  function ShowSubnet(n: Subnet): string {
    ShowAddress(n.address) + ['/'] + ShowDecimal(n.prefix)
  }

  lemma ShownAddressChars(address: nat)
    ensures forall c <- ShowAddress(address) :: IsDigit(c) || c == '.'
    ensures ShowAddress(address) != ""
  {
  }

  lemma SplitSubnet(a: string, p: string)
    requires '/' !in a && AllDigits(p)
    ensures Split(a + ['/'] + p, '/') == [a, p]
  {
    SplitWhole(a, '/');
    Separated(p, '/');
    SplitConcat(a, p, '/');
  }

  lemma ShownIsToken(n: Subnet)
    ensures IsToken(ShowSubnet(n)) && '/' in ShowSubnet(n)
  {
    var a, p := ShowAddress(n.address), ShowDecimal(n.prefix);
    ShownAddressChars(n.address);
    assert (a + ['/'] + p)[|a|] == '/';
    forall c <- ShowSubnet(n) ensures !IsSeparator(c) {
      assert c in a || c == '/' || c in p;
    }
  }

  /** Every canonical subnet is written as a token that reads back as itself. */
  lemma ReadShownSubnet(n: Subnet)
    ensures ReadSubnet(ShowSubnet(n)) == Some(n)
  {
    ReadShownAddress(n.address);
    ReadShown(n.prefix);
    ShownAddressChars(n.address);
    SplitSubnet(ShowAddress(n.address), ShowDecimal(n.prefix));
  }

  lemma {:induction false} Pow2Injective(a: nat, b: nat)
    ensures Pow2(a) == Pow2(b) ==> a == b
  {
    if a > 0 && b > 0 {
      Pow2Injective(a - 1, b - 1);
    }
  }

  lemma {:induction false} MaskPrefixFinds(mask: nat, p: nat, from: nat)
    requires p <= from <= 32 && mask == ALL - Pow2(32 - p)
    ensures MaskPrefix(mask, from) == Some(p)
  {
    Pow2Injective(32 - p, 32 - from);
    if p < from {
      MaskPrefixFinds(mask, p, from - 1);
    }
  }

  /** A prefix length may also be spelled as its dotted netmask: both denote the same subnets. */
  lemma NetmaskSpelling(mask: nat, p: nat)
    requires p <= 32 && mask == ALL - Pow2(32 - p)
    ensures ReadMask(ShowAddress(mask)) == Some(p) == ReadMask(ShowDecimal(p))
  {
    ReadShownAddress(mask);
    ReadShown(p);
    MaskPrefixFinds(mask, p, 32);
    DotNotDigit(ShowDecimal(Octet(mask, 3)), ShowDecimal(Octet(mask, 2)) + ['.']
      + (ShowDecimal(Octet(mask, 1)) + ['.'] + ShowDecimal(Octet(mask, 0))));
  }

  lemma DotNotDigit(a: string, b: string)
    ensures !AllDigits(a + ['.'] + b)
  {
    var s := a + ['.'] + b;
    assert s[|a|] == '.' && s[|a|] in s;
  }

  // ---- what is accepted, and nothing else ----

  lemma {:induction false} Pow2Grows(a: nat, b: nat)
    requires a <= b
    ensures Pow2(a) <= Pow2(b)
    decreases b - a
  {
    if a < b { Pow2Grows(a, b - 1); }
  }

  lemma Pow2Even(a: nat)
    ensures Pow2(a) % 2 == 0 <==> a > 0
  {
    if a > 0 { assert Pow2(a) == 2 * Pow2(a - 1); }
  }

  lemma Pow2Top()
    ensures Pow2(32) == ALL
  {
    assert Pow2(8) == 256;
    assert Pow2(16) == 256 * Pow2(8) by { assert Pow2(12) == 16 * Pow2(8); }
    assert Pow2(24) == 256 * Pow2(16) by { assert Pow2(20) == 16 * Pow2(16); }
    assert Pow2(32) == 256 * Pow2(24) by { assert Pow2(28) == 16 * Pow2(24); }
  }

  /** The netmask of a prefix length has its first p bits set, the host mask all others. */
  function NetMask(p: nat): (r: nat)
    requires p <= 32
    ensures r < ALL
  {
    Pow2Top();
    Pow2Grows(32 - p, 32);
    ALL - Pow2(32 - p)
  }

  function HostMask(p: nat): (r: nat)
    requires p <= 32
    ensures r < ALL
  {
    Pow2Top();
    Pow2Grows(32 - p, 32);
    Pow2(32 - p) - 1
  }

  lemma MaskPrefixIff(mask: nat, p: nat)
    ensures MaskPrefix(mask, 32) == Some(p) <==> p <= 32 && mask == NetMask(p)
  {
    if p <= 32 && mask == NetMask(p) { MaskPrefixFinds(mask, p, 32); }
  }

  /** A host mask is no netmask, apart from the two that are read as netmasks. */
  lemma HostMaskIsNoNetmask(p: nat, q: nat)
    requires 0 < p < 32 && q <= 32
    ensures HostMask(p) != NetMask(q)
  {
    Pow2Top();
    Pow2Even(32 - p);
    Pow2Even(32 - q);
    Pow2Injective(32 - p, 32);
  }

  lemma EdgeMasks()
    ensures NetMask(0) == 0 == HostMask(32) && NetMask(32) == ALL - 1 == HostMask(0)
  {
    Pow2Top();
  }

  /** The mask as a number: a netmask, or a host mask that is not also one. */
  lemma MaskValueIff(mask: nat, p: nat)
    requires mask < ALL
    ensures var direct := MaskPrefix(mask, 32);
      (if direct.Some? then direct else MaskPrefix(ALL - 1 - mask, 32)) == Some(p)
      <==> p <= 32 && (mask == NetMask(p) || (0 < p < 32 && mask == HostMask(p)))
  {
    EdgeMasks();
    MaskPrefixIff(mask, p);
    MaskPrefixIff(ALL - 1 - mask, p);
    MaskPrefixIff(mask, 0);
    MaskPrefixIff(mask, 32);
    if direct: nat :| MaskPrefix(mask, 32) == Some(direct) {
      MaskPrefixIff(mask, direct);
      if 0 < p < 32 { HostMaskIsNoNetmask(p, direct); }
    }
  }

  lemma ShownOnce(a: nat, b: nat)
    requires a < ALL && b < ALL
    ensures ShowAddress(a) == ShowAddress(b) <==> a == b
  {
    ReadShownAddress(a);
    ReadShownAddress(b);
  }

  lemma ReadDottedMask(s: string, mask: nat, p: nat)
    requires ReadAddress(s) == Some(mask)
    ensures s == ShowAddress(mask) && !AllDigits(s)
    ensures ReadMask(s) == Some(p) <==> p <= 32 && (mask == NetMask(p) || (0 < p < 32 && mask == HostMask(p)))
  {
    ReadAddressIff(s, mask);
    ShownIsDotted(mask);
    MaskValueIff(mask, p);
  }

  /** After the slash stands a prefix length in digits, or its netmask or host mask in dotted decimal. */
  lemma ReadMaskIff(s: string, p: nat)
    ensures ReadMask(s) == Some(p) <==>
      p <= 32 && (|| (AllDigits(s) && ReadDecimal(s) == p)
                  || s == ShowAddress(NetMask(p))
                  || (0 < p < 32 && s == ShowAddress(HostMask(p))))
  {
    if mask: nat :| ReadAddress(s) == Some(mask) {
      ReadDottedMask(s, mask, p);
      if p <= 32 {
        ShownOnce(mask, NetMask(p));
        ShownOnce(mask, HostMask(p));
      }
    } else if p <= 32 {
      ReadShownAddress(NetMask(p));
      ReadShownAddress(HostMask(p));
    }
  }

  lemma ShownIsDotted(address: nat)
    ensures !AllDigits(ShowAddress(address))
  {
    DotNotDigit(ShowDecimal(Octet(address, 3)), ShowDecimal(Octet(address, 2)) + ['.']
      + (ShowDecimal(Octet(address, 1)) + ['.'] + ShowDecimal(Octet(address, 0))));
  }

  /** A subnet is read from its address, with a mask after a slash unless it is a single host, and from nothing else. */
  lemma ReadSubnetIff(token: string, n: Subnet)
    ensures ReadSubnet(token) == Some(n) <==>
      || (token == ShowAddress(n.address) && n.prefix == 32)
      || exists mask :: ReadMask(mask) == Some(n.prefix) && token == ShowAddress(n.address) + ['/'] + mask
  {
    ShownAddressChars(n.address);
    ReadShownAddress(n.address);
    SplitWhole(ShowAddress(n.address), '/');
    if ReadSubnet(token) == Some(n) {
      var parts := Split(token, '/');
      SplitJoins(token, '/');
      ReadAddressIff(parts[0], n.address);
      if |parts| == 1 {
        assert parts == [parts[0]];
      } else {
        assert parts == [parts[0], parts[1]] && [parts[0], parts[1]][1..] == [parts[1]];
        assert token == ShowAddress(n.address) + ['/'] + parts[1];
      }
    }
    forall mask | ReadMask(mask) == Some(n.prefix) && token == ShowAddress(n.address) + ['/'] + mask
      ensures ReadSubnet(token) == Some(n)
    {
      MaskHasNoSlash(mask);
      SplitWhole(mask, '/');
      SplitConcat(ShowAddress(n.address), mask, '/');
    }
  }

  lemma MaskHasNoSlash(mask: string)
    requires ReadMask(mask).Some?
    ensures '/' !in mask
  {
    if ReadAddress(mask).Some? {
      ReadAddressIff(mask, ReadAddress(mask).value);
      ShownAddressChars(ReadAddress(mask).value);
    }
  }

  // ---- no colons ----

  lemma {:induction false} SplitKeeps(s: string, sep: char, c: char)
    requires c in s && c != sep
    ensures exists i | 0 <= i < |Split(s, sep)| :: c in Split(s, sep)[i]
  {
    var rest := Split(s[1..], sep);
    if c in s[1..] {
      SplitKeeps(s[1..], sep, c);
      var i :| 0 <= i < |rest| && c in rest[i];
      var k := if s[0] == sep then i + 1 else i;
      assert Split(s, sep)[k] == if s[0] != sep && i == 0 then [s[0]] + rest[0] else rest[i];
    } else {
      assert s == [s[0]] + s[1..] && Split(s, sep)[0][0] == c;
    }
  }

  lemma NoColonInAddress(s: string)
    requires ReadAddress(s).Some?
    ensures ':' !in s
  {
    if ':' in s {
      SplitKeeps(s, '.', ':');
      var i :| 0 <= i < |Split(s, '.')| && ':' in Split(s, '.')[i];
    }
  }

  /** A token with a colon is no IPv4 subnet. */
  lemma NoColonInSubnet(token: string)
    requires ReadSubnet(token).Some?
    ensures ':' !in token
  {
    var parts := Split(token, '/');
    if ':' in token {
      SplitKeeps(token, '/', ':');
      var i :| 0 <= i < |parts| && ':' in parts[i];
      if i == 0 || !AllDigits(parts[1]) { NoColonInAddress(parts[i]); }
    }
  }
}
