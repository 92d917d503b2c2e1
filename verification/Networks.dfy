/** Lists of subnets as the operator writes them, and their canonical form (src/utils.py). */
module Networks {
  import opened Wrappers
  import opened Ordering
  import opened Text

  // ---- splitting ----

  predicate IsSeparator(c: char) {
    c == ',' || IsSpace(c)
  }

  /** The pieces between separators, empty ones included. */
  function Pieces(s: string): (r: seq<string>)
    ensures |r| >= 1
  {
    if s == "" then [""]
    else
      var rest := Pieces(s[1..]);
      if IsSeparator(s[0]) then [""] + rest else [[s[0]] + rest[0]] + rest[1..]
  }

  function NonEmpty(xs: seq<string>): seq<string> {
    if xs == [] then [] else (if xs[0] == "" then [] else [xs[0]]) + NonEmpty(xs[1..])
  }

  /** `split_space_or_comma` */
  function Tokens(s: string): seq<string> {
    NonEmpty(Pieces(s))
  }

  predicate IsToken(t: string) {
    t != "" && forall c <- t :: !IsSeparator(c)
  }

  lemma {:induction false} PiecesConcat(a: string, sep: char, b: string)
    requires IsSeparator(sep)
    ensures Pieces(a + [sep] + b) == Pieces(a) + Pieces(b)
  {
    var s := a + [sep] + b;
    if a == "" {
      assert s[1..] == b;
    } else {
      assert s[1..] == a[1..] + [sep] + b;
      PiecesConcat(a[1..], sep, b);
    }
  }

  lemma {:induction false} PiecesWhole(t: string)
    requires forall c <- t :: !IsSeparator(c)
    ensures Pieces(t) == [t]
  {
    if t != "" {
      assert t[0] in t && forall c <- t[1..] :: c in t;
      PiecesWhole(t[1..]);
      assert [t[0]] + t[1..] == t;
    }
  }

  lemma {:induction false} NonEmptyConcat(a: seq<string>, b: seq<string>)
    ensures NonEmpty(a + b) == NonEmpty(a) + NonEmpty(b)
  {
    if a == [] {
      assert a + b == b;
    } else {
      assert (a + b)[1..] == a[1..] + b;
      NonEmptyConcat(a[1..], b);
    }
  }

  /** Splitting undoes joining with commas. */
  lemma {:induction false} TokensOfJoin(xs: seq<string>)
    requires forall x <- xs :: IsToken(x)
    ensures Tokens(Join(',', xs)) == xs
  {
    if xs != [] {
      assert xs[0] in xs;
      PiecesWhole(xs[0]);
      assert NonEmpty([xs[0]]) == [xs[0]];
      if |xs| > 1 {
        assert forall x <- xs[1..] :: x in xs;
        TokensOfJoin(xs[1..]);
        PiecesConcat(xs[0], ',', Join(',', xs[1..]));
        NonEmptyConcat(Pieces(xs[0]), Pieces(Join(',', xs[1..])));
        assert [xs[0]] + xs[1..] == xs;
      } else {
        assert xs == [xs[0]];
      }
    }
  }

  /** A comma or a blank separates: whatever stands before and after it is split on its own. */
  lemma TokensConcat(a: string, sep: char, b: string)
    requires sep == ',' || IsSpace(sep)
    ensures Tokens(a + [sep] + b) == Tokens(a) + Tokens(b)
  {
    PiecesConcat(a, sep, b);
    NonEmptyConcat(Pieces(a), Pieces(b));
  }

  /** Nothing else does: no entry is empty or has a comma or a blank in it, and a text without any is one entry. */
  lemma {:induction false} TokensArePlain(s: string)
    ensures forall t <- Tokens(s) :: t != "" && forall c <- t :: c != ',' && !IsSpace(c)
    ensures (s != "" && forall c <- s :: c != ',' && !IsSpace(c)) ==> Tokens(s) == [s]
  {
    NonEmptyMembers(Pieces(s));
    forall t <- Tokens(s) ensures forall c <- t :: !IsSeparator(c) {
      PieceChars(s, t);
    }
    if s != "" && forall c <- s :: !IsSeparator(c) {
      PiecesWhole(s);
      assert NonEmpty([s]) == [s];
    }
  }

  lemma {:induction false} PieceChars(s: string, piece: string)
    requires piece in Pieces(s)
    ensures forall c <- piece :: !IsSeparator(c)
  {
    if s != "" {
      var rest := Pieces(s[1..]);
      if !IsSeparator(s[0]) && piece == [s[0]] + rest[0] {
        PieceChars(s[1..], rest[0]);
      } else if piece in rest {
        PieceChars(s[1..], piece);
      }
    }
  }

  lemma {:induction false} NonEmptyMembers(xs: seq<string>)
    ensures forall x :: x in NonEmpty(xs) <==> x in xs && x != ""
  {
    if xs != [] {
      NonEmptyMembers(xs[1..]);
      assert xs == [xs[0]] + xs[1..];
    }
  }

  // ---- keeping first occurrences ----

  /** list(dict.fromkeys(xs)) */
  function FirstOccurrences<N(==, !new)>(xs: seq<N>): (r: seq<N>)
    ensures forall x :: x in r <==> x in xs
    ensures |r| <= |xs|
  {
    if xs == [] then []
    else
      var init, last := xs[..|xs| - 1], xs[|xs| - 1];
      assert xs == init + [last];
      if last in init then FirstOccurrences(init) else FirstOccurrences(init) + [last]
  }

  /** x occurs in xs at a place up to which y has not occurred. */
  ghost predicate OccursBefore<N(!new)>(xs: seq<N>, x: N, y: N) {
    exists i | 0 <= i < |xs| :: xs[i] == x && y !in xs[..i + 1]
  }

  /** The members of r stand in the order of their first occurrence in xs. */
  ghost predicate InOrderOfFirst<N(!new)>(r: seq<N>, xs: seq<N>) {
    forall k, l | 0 <= k < l < |r| :: OccursBefore(xs, r[k], r[l])
  }

  lemma OccursBeforeAppend<N(!new)>(xs: seq<N>, last: N, x: N, y: N)
    ensures OccursBefore(xs, x, y) ==> OccursBefore(xs + [last], x, y)
    ensures x in xs && y !in xs ==> OccursBefore(xs + [last], x, y)
  {
    if OccursBefore(xs, x, y) {
      var i :| 0 <= i < |xs| && xs[i] == x && y !in xs[..i + 1];
      assert (xs + [last])[..i + 1] == xs[..i + 1] && (xs + [last])[i] == x;
    }
    if x in xs && y !in xs {
      var i :| 0 <= i < |xs| && xs[i] == x;
      assert (xs + [last])[..i + 1] == xs[..i + 1] && (xs + [last])[i] == x;
    }
  }

  lemma {:induction false} FirstOccurrencesOrdered<N(!new)>(xs: seq<N>)
    ensures Distinct(FirstOccurrences(xs)) && InOrderOfFirst(FirstOccurrences(xs), xs)
  {
    if xs != [] {
      var init, last := xs[..|xs| - 1], xs[|xs| - 1];
      FirstOccurrencesOrdered(init);
      var r := FirstOccurrences(xs);
      forall k, l | 0 <= k < l < |r| ensures OccursBefore(xs, r[k], r[l]) {
        assert init + [last] == xs;
        OccursBeforeAppend(init, last, r[k], r[l]);
        var before := FirstOccurrences(init);
        if l < |before| {
          assert OccursBefore(init, before[k], before[l]);
        } else {
          assert before[k] in before;
        }
      }
    }
  }

  lemma {:induction false} FirstOccurrencesOfDistinct<N(!new)>(xs: seq<N>)
    requires Distinct(xs)
    ensures FirstOccurrences(xs) == xs
  {
    if xs != [] {
      var init, last := xs[..|xs| - 1], xs[|xs| - 1];
      FirstOccurrencesOfDistinct(init);
      assert xs == init + [last];
    }
  }

  // ---- parsing against an address family ----

  /** How one kind of subnet is read and written; ip_network and str are two such pairs, one per IP version. */
  datatype Codec<!N(==)> = Codec(parse: string -> Option<N>, show: N -> string)

  /** What is written is a token with a prefix length, and reads back as the same subnet. */
  ghost predicate Lawful<N(!new)>(c: Codec<N>) {
    forall n :: c.parse(c.show(n)) == Some(n) && IsToken(c.show(n)) && '/' in c.show(n)
  }

  /** A token is accepted when it has a prefix length and denotes a subnet. */
  predicate Accepts<N(!new)>(c: Codec<N>, token: string) {
    '/' in token && c.parse(token).Some?
  }

  predicate AllAccepted<N(!new)>(c: Codec<N>, tokens: seq<string>) {
    forall t <- tokens :: Accepts(c, t)
  }

  function Parsed<N(!new)>(c: Codec<N>, tokens: seq<string>): (r: seq<N>)
    requires AllAccepted(c, tokens)
    ensures |r| == |tokens| && forall i | 0 <= i < |r| :: c.parse(tokens[i]) == Some(r[i])
  {
    if tokens == [] then []
    else
      assert Accepts(c, tokens[0]) && AllAccepted(c, tokens[1..]);
      [c.parse(tokens[0]).value] + Parsed(c, tokens[1..])
  }

  function Shown<N(!new)>(c: Codec<N>, nets: seq<N>): (r: seq<string>)
    ensures |r| == |nets| && forall i | 0 <= i < |r| :: r[i] == c.show(nets[i])
  {
    if nets == [] then [] else [c.show(nets[0])] + Shown(c, nets[1..])
  }

  /** The subnets an accepted value denotes, in order of first mention. */
  function Denoted<N(==, !new)>(c: Codec<N>, value: string): seq<N>
    requires AllAccepted(c, Tokens(value))
  {
    FirstOccurrences(Parsed(c, Tokens(value)))
  }

  /** `parse_networks`: an Err names the offending entry. */
  method ParseNetworks<N(==, !new)>(c: Codec<N>, value: string) returns (r: Result<seq<string>, string>)
    ensures r.Ok? <==> AllAccepted(c, Tokens(value))
    ensures r.Ok? <==> forall t <- Tokens(value) :: '/' in t && c.parse(t).Some?
    ensures r.Ok? ==> r.value == Shown(c, Denoted(c, value))
    ensures r.Err? ==> !Accepts(c, r.error) && exists i | 0 <= i < |Tokens(value)| ::
                         Tokens(value)[i] == r.error && AllAccepted(c, Tokens(value)[..i])
  {
    var tokens := Tokens(value);
    var networks: seq<N> := [];
    for i := 0 to |tokens|
      invariant |networks| == i && AllAccepted(c, tokens[..i])
      invariant forall j | 0 <= j < i :: c.parse(tokens[j]) == Some(networks[j])
    {
      var token := tokens[i];
      assert token in tokens;
      if '/' !in token {
        assert !Accepts(c, token);
        return Err(token);
      }
      var parsed := c.parse(token);
      if parsed.None? {
        assert !Accepts(c, token);
        return Err(token);
      }
      networks := networks + [parsed.value];
    }
    assert tokens[..|tokens|] == tokens;
    assert networks == Parsed(c, tokens);
    r := Ok(Shown(c, FirstOccurrences(networks)));
  }

  function CanonicalList<N(==, !new)>(c: Codec<N>, value: string): seq<string>
    requires AllAccepted(c, Tokens(value))
  {
    Shown(c, Denoted(c, value))
  }

  lemma ShownTokens<N(!new)>(c: Codec<N>, nets: seq<N>)
    requires Lawful(c)
    ensures forall x <- Shown(c, nets) :: IsToken(x) && Accepts(c, x)
    ensures AllAccepted(c, Shown(c, nets)) && Parsed(c, Shown(c, nets)) == nets
    ensures Distinct(nets) ==> Distinct(Shown(c, nets))
  {
    assert forall i | 0 <= i < |nets| :: c.parse(Shown(c, nets)[i]) == Some(nets[i]);
  }

  /** The canonical list has no repeats, and parsing it again, joined by commas, gives it back. */
  lemma Reparse<N(!new)>(c: Codec<N>, value: string)
    requires Lawful(c) && AllAccepted(c, Tokens(value))
    ensures Distinct(CanonicalList(c, value))
    ensures Tokens(Join(',', CanonicalList(c, value))) == CanonicalList(c, value)
    ensures AllAccepted(c, Tokens(Join(',', CanonicalList(c, value))))
    ensures CanonicalList(c, Join(',', CanonicalList(c, value))) == CanonicalList(c, value)
  {
    var nets := Denoted(c, value);
    FirstOccurrencesOrdered(Parsed(c, Tokens(value)));
    ShownTokens(c, nets);
    TokensOfJoin(Shown(c, nets));
    FirstOccurrencesOfDistinct(nets);
  }

  lemma ShownMembers<N(!new)>(c: Codec<N>, nets: seq<N>)
    requires Lawful(c)
    ensures forall n :: n in nets <==> c.show(n) in Shown(c, nets)
  {
    forall n ensures n in nets <==> c.show(n) in Shown(c, nets) {
      if c.show(n) in Shown(c, nets) {
        var i :| 0 <= i < |nets| && Shown(c, nets)[i] == c.show(n);
        assert c.parse(c.show(nets[i])) == Some(nets[i]);
      }
    }
  }

  lemma ShownSubset<N(!new)>(c: Codec<N>, a: seq<N>, b: seq<N>)
    requires Lawful(c)
    ensures (forall x <- Shown(c, a) :: x in Shown(c, b)) <==> (forall n <- a :: n in b)
  {
    ShownMembers(c, a);
    ShownMembers(c, b);
    if forall n <- a :: n in b {
      forall x <- Shown(c, a) ensures x in Shown(c, b) {
        var i :| 0 <= i < |a| && Shown(c, a)[i] == x;
        assert a[i] in b;
      }
    }
  }

  predicate SameMembers<T(==)>(a: seq<T>, b: seq<T>) {
    (forall x <- a :: x in b) && (forall x <- b :: x in a)
  }

  /** Two canonical lists hold the same strings exactly when the two values denote the same subnets. */
  lemma SameSubnets<N(!new)>(c: Codec<N>, a: string, b: string)
    requires Lawful(c) && AllAccepted(c, Tokens(a)) && AllAccepted(c, Tokens(b))
    ensures SameMembers(CanonicalList(c, a), CanonicalList(c, b))
            <==> SameMembers(Parsed(c, Tokens(a)), Parsed(c, Tokens(b)))
  {
    ShownSubset(c, Denoted(c, a), Denoted(c, b));
    ShownSubset(c, Denoted(c, b), Denoted(c, a));
  }
}
