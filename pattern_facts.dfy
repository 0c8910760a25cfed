/** What the two address patterns of src/Utilities/INETADDR.php accept and reject. */
module PatternFacts {
  import opened InetAddrPatterns
  import opened Fields

  /** No string accepted by p contains x. */
  ghost predicate Avoids(p: string -> bool, x: char) {
    forall y :: p(y) ==> x !in y
  }

  // ------------------------------------------------ repetitions as lists of pieces

  /** The pieces fs in order, each followed by c */
  function Terminated(fs: seq<string>, c: char): string {
    if fs == [] then [] else fs[0] + [c] + Terminated(fs[1..], c)
  }

  /** The pieces fs in order, each preceded by c */
  function Prefixed(fs: seq<string>, c: char): string {
    if fs == [] then [] else [c] + fs[0] + Prefixed(fs[1..], c)
  }

  /** Every piece of fs is in the language p */
  predicate AllIn(fs: seq<string>, p: string -> bool) {
    forall j :: 0 <= j < |fs| ==> p(fs[j])
  }

  lemma ConsSlices(h: string, c: char, r: string)
    ensures (h + [c] + r)[..|h|] == h && (h + [c] + r)[|h|] == c && (h + [c] + r)[|h| + 1..] == r
    ensures ([c] + h + r)[0] == c && ([c] + h + r)[1..|h| + 1] == h && ([c] + h + r)[|h| + 1..] == r
  {
  }

  lemma CutAt(t: string, k: nat)
    requires k < |t|
    ensures t == t[..k] + [t[k]] + t[k + 1..]
  {
  }

  lemma CutAfter(t: string, k: nat)
    requires 1 <= k <= |t|
    ensures t == [t[0]] + t[1..k] + t[k..]
  {
  }

  lemma WholeAt(s: string, i: nat)
    requires i <= |s|
    ensures s[..i] + s[i..] == s
  {
  }

  lemma Halves(t: string, d: string)
    ensures (t + d)[..|t|] == t && (t + d)[|t|..] == d
  {
  }

  lemma ConsPieces(h: string, fs: seq<string>, p: string -> bool)
    requires p(h) && AllIn(fs, p)
    ensures AllIn([h] + fs, p) && ([h] + fs)[0] == h && ([h] + fs)[1..] == fs
  {
  }

  /** The recursive reading of `(P c){lo,hi}` names its pieces. */
  lemma {:induction false} PiecesOf(s: string, p: string -> bool, c: char, lo: nat, hi: nat) returns (fs: seq<string>)
    requires PieceSepRep(s, p, c, lo, hi)
    ensures lo <= |fs| <= hi && AllIn(fs, p) && s == Terminated(fs, c)
    decreases hi
  {
    if lo == 0 && s == [] {
      fs := [];
    } else {
      var k :| 0 <= k < |s| && p(s[..k]) && s[k] == c && PieceSepRep(s[k + 1..], p, c, Dec(lo), hi - 1);
      var h, r := s[..k], s[k + 1..];
      var rs := PiecesOf(r, p, c, Dec(lo), hi - 1);
      fs := [h] + rs;
      ConsPieces(h, rs, p);
      CutAt(s, k);
    }
  }

  /** Any lo to hi pieces of P, each followed by c, are in `(P c){lo,hi}`. */
  lemma {:induction false} RepOfPieces(fs: seq<string>, p: string -> bool, c: char, lo: nat, hi: nat)
    requires lo <= |fs| <= hi && AllIn(fs, p)
    ensures PieceSepRep(Terminated(fs, c), p, c, lo, hi)
    decreases hi
  {
    if fs != [] {
      var h, r := fs[0], Terminated(fs[1..], c);
      RepOfPieces(fs[1..], p, c, Dec(lo), hi - 1);
      ConsSlices(h, c, r);
    }
  }

  /** The recursive reading of `(c P){lo,hi}` names its pieces. */
  lemma {:induction false} PrefixedPiecesOf(s: string, p: string -> bool, c: char, lo: nat, hi: nat) returns (fs: seq<string>)
    requires SepPieceRep(s, p, c, lo, hi)
    ensures lo <= |fs| <= hi && AllIn(fs, p) && s == Prefixed(fs, c)
    decreases hi
  {
    if lo == 0 && s == [] {
      fs := [];
    } else {
      var k :| 1 <= k <= |s| && s[0] == c && p(s[1..k]) && SepPieceRep(s[k..], p, c, Dec(lo), hi - 1);
      var h, r := s[1..k], s[k..];
      var rs := PrefixedPiecesOf(r, p, c, Dec(lo), hi - 1);
      fs := [h] + rs;
      ConsPieces(h, rs, p);
      CutAfter(s, k);
    }
  }

  /** Any lo to hi pieces of P, each preceded by c, are in `(c P){lo,hi}`. */
  lemma {:induction false} PrefixedRepOfPieces(fs: seq<string>, p: string -> bool, c: char, lo: nat, hi: nat)
    requires lo <= |fs| <= hi && AllIn(fs, p)
    ensures SepPieceRep(Prefixed(fs, c), p, c, lo, hi)
    decreases hi
  {
    if fs != [] {
      var h, r := fs[0], Prefixed(fs[1..], c);
      PrefixedRepOfPieces(fs[1..], p, c, Dec(lo), hi - 1);
      ConsSlices(h, c, r);
    }
  }

  // ------------------------------------------------ pieces against fields

  /** Pieces that avoid x, glued with c != x, avoid x. */
  lemma {:induction false} TerminatedAvoids(fs: seq<string>, c: char, x: char)
    requires x != c && forall j :: 0 <= j < |fs| ==> x !in fs[j]
    ensures x !in Terminated(fs, c)
    decreases |fs|
  {
    if fs != [] {
      TerminatedAvoids(fs[1..], c, x);
    }
  }

  /** A non-empty `(P c){..}` ends with c. */
  lemma {:induction false} TerminatedEnds(fs: seq<string>, c: char)
    requires fs != []
    ensures |Terminated(fs, c)| > 0 && Terminated(fs, c)[|Terminated(fs, c)| - 1] == c
    decreases |fs|
  {
    if fs[1..] != [] {
      TerminatedEnds(fs[1..], c);
    }
  }

  /** A non-empty `(:SEG){..}` ends with a hex digit. */
  lemma {:induction false} PrefixedEndsHex(fs: seq<string>)
    requires fs != [] && AllIn(fs, Ipv6Seg)
    ensures |Prefixed(fs, ':')| > 0 && IsHexDigit(Prefixed(fs, ':')[|Prefixed(fs, ':')| - 1])
    decreases |fs|
  {
    var h, r := fs[0], Prefixed(fs[1..], ':');
    if fs[1..] == [] {
      assert Prefixed(fs, ':') == [':'] + h;
    } else {
      PrefixedEndsHex(fs[1..]);
    }
  }

  lemma Regroup(h: string, c: char, r: string, u: string)
    ensures h + [c] + r + u == h + [c] + (r + u)
  {
  }

  lemma ConsAppend<T>(h: T, xs: seq<T>, ys: seq<T>)
    ensures [h] + (xs + ys) == ([h] + xs) + ys
    ensures xs != [] ==> [xs[0]] + xs[1..] == xs
  {
  }

  /** explode reads separator-free pieces back, whatever follows them. */
  lemma {:induction false} SplitTerminated(fs: seq<string>, u: string, c: char)
    requires forall j :: 0 <= j < |fs| ==> c !in fs[j]
    ensures Split(Terminated(fs, c) + u, c) == fs + Split(u, c)
    decreases |fs|
  {
    if fs == [] {
      assert Terminated(fs, c) + u == u;
    } else {
      var rs := fs[1..];
      forall j | 0 <= j < |rs| ensures c !in rs[j] { assert rs[j] == fs[j + 1]; }
      SplitTerminated(rs, u, c);
      SplitTerminatedCons(fs, u, c);
    }
  }

  lemma SplitTerminatedCons(fs: seq<string>, u: string, c: char)
    requires |fs| > 0 && c !in fs[0]
    requires Split(Terminated(fs[1..], c) + u, c) == fs[1..] + Split(u, c)
    ensures Split(Terminated(fs, c) + u, c) == fs + Split(u, c)
  {
    var h, rs := fs[0], fs[1..];
    var r := Terminated(rs, c);
    assert Terminated(fs, c) == h + [c] + r;
    Regroup(h, c, r, u);
    SplitCons(h, r + u, c);
    ConsAppend(h, rs, Split(u, c));
  }

  /** implode of fields is the first n fields, each followed by c, then the rest imploded. */
  lemma {:induction false} JoinTerminated(fs: seq<string>, n: nat, c: char)
    requires n < |fs|
    ensures Join(fs, c) == Terminated(fs[..n], c) + Join(fs[n..], c)
    decreases n
  {
    if n == 0 {
      assert fs[n..] == fs;
    } else {
      var rest := fs[1..];
      JoinTerminated(rest, n - 1, c);
      assert rest[..n - 1] == fs[..n][1..];
      assert rest[n - 1..] == fs[n..];
      Regroup(fs[0], c, Terminated(rest[..n - 1], c), Join(fs[n..], c));
    }
  }

  /** `(P c){n,n}P` splits into exactly n + 1 fields, each in P. */
  lemma RepThenPieceFields(s: string, i: nat, p: string -> bool, c: char, n: nat)
    requires i <= |s| && PieceSepRep(s[..i], p, c, n, n) && p(s[i..]) && Avoids(p, c)
    ensures |Split(s, c)| == n + 1 && AllIn(Split(s, c), p)
  {
    var fs := PiecesOf(s[..i], p, c, n, n);
    var d := s[i..];
    assert forall j :: 0 <= j < |fs| ==> c !in fs[j];
    WholeAt(s, i);
    SplitTerminated(fs, d, c);
    assert c !in d;
    SplitSeparatorFree(d, c);
    assert Split(s, c) == fs + [d];
  }

  /** Conversely, n + 1 fields in P make up `(P c){n,n}P`, split where the last field starts. */
  lemma FieldsRepThenPiece(s: string, p: string -> bool, c: char, n: nat) returns (i: nat)
    requires |Split(s, c)| == n + 1 && AllIn(Split(s, c), p)
    ensures i <= |s| && PieceSepRep(s[..i], p, c, n, n) && p(s[i..])
  {
    var f := Split(s, c);
    JoinSplit(s, c);
    JoinTerminated(f, n, c);
    assert f[n..] == [f[n]];
    var t := Terminated(f[..n], c);
    i := |t|;
    Halves(t, f[n]);
    RepOfPieces(f[..n], p, c, n, n);
  }

  // ------------------------------------------------ IPv4 octets

  function DigitValue(c: char): int { c as int - '0' as int }

  /** The number a run of decimal digits denotes. */
  function DecimalValue(s: string): int
    decreases |s|
  {
    if s == [] then 0 else 10 * DecimalValue(s[..|s| - 1]) + DigitValue(s[|s| - 1])
  }

  predicate AllDigits(s: string) { forall j :: 0 <= j < |s| ==> IsDigit(s[j]) }

  /** An octet read as a number: one to three decimal digits denoting at most 255, where a
      three-digit run may not start with 0 (two digits may). */
  predicate DecimalOctet(s: string) {
    1 <= |s| <= 3 && AllDigits(s) && DecimalValue(s) <= 255 && !(|s| == 3 && s[0] == '0')
  }

  /** Four dot-separated decimal octets. */
  predicate DottedQuad(s: string) {
    var f := Split(s, '.');
    |f| == 4 && forall j :: 0 <= j < 4 ==> DecimalOctet(f[j])
  }

  lemma Ipv4SegDigits(s: string)
    requires Ipv4Seg(s)
    ensures 1 <= |s| <= 3 && AllDigits(s)
  {
    if !(|s| == 3 && s[0] == '2' && s[1] == '5') {
      var lead := s[..|s| - 1];
      forall j | 0 <= j < |s| ensures IsDigit(s[j]) {
        if j < |s| - 1 { assert s[j] == lead[j]; }
      }
    }
  }

  lemma Ipv4SegAvoids(x: char)
    requires !IsDigit(x)
    ensures Avoids(Ipv4Seg, x)
  {
    forall y | Ipv4Seg(y) ensures x !in y { Ipv4SegDigits(y); }
  }

  /** The value of a run of at most three digits, spelled out. */
  lemma DecimalValueShort(s: string)
    requires 1 <= |s| <= 3
    ensures |s| == 1 ==> DecimalValue(s) == DigitValue(s[0])
    ensures |s| == 2 ==> DecimalValue(s) == 10 * DigitValue(s[0]) + DigitValue(s[1])
    ensures |s| == 3 ==> DecimalValue(s) == 100 * DigitValue(s[0]) + 10 * DigitValue(s[1]) + DigitValue(s[2])
  {
    assert s[..|s| - 1][..0] == [];
    if |s| >= 2 {
      assert s[..|s| - 1][..|s| - 2][..0] == [];
    }
  }

  /** IPV4SEG accepts exactly the decimal octets. */
  lemma OctetIff(s: string)
    ensures Ipv4Seg(s) <==> DecimalOctet(s)
  {
    if Ipv4Seg(s) {
      Ipv4SegDigits(s);
      DecimalValueShort(s);
    }
    if DecimalOctet(s) {
      DecimalValueShort(s);
      var lead := s[..|s| - 1];
      if |s| == 3 && s[0] == '2' && s[1] == '5' {
      } else if |s| == 3 && s[0] == '2' {
        assert s[1] <= '4';
        assert Ipv4SegLead(lead);
      } else if |s| == 3 {
        assert s[0] == '1';
        assert Ipv4SegLead(lead);
      } else {
        assert Ipv4SegLead(lead);
      }
    }
  }

  /** Two digits with a leading zero ("00" to "09") are accepted. */
  lemma LeadingZeroPairAccepted(d: char)
    requires IsDigit(d)
    ensures Ipv4Seg(['0', d])
  {
    assert ['0', d][..1] == ['0'];
  }

  /** Three digits starting with 0 ("000" to "099") are rejected. */
  lemma LeadingZeroTripleRejected(d: char, e: char)
    ensures !Ipv4Seg(['0', d, e])
  {
    OctetIff(['0', d, e]);
  }

  /** Runs of digits denoting 256 or more are rejected. */
  lemma LargeValueRejected(s: string)
    requires AllDigits(s) && DecimalValue(s) >= 256
    ensures !Ipv4Seg(s)
  {
    OctetIff(s);
  }

  // ------------------------------------------------ IPv4 addresses

  lemma LiteralToQuad(s: string)
    requires Ipv4Literal(s)
    ensures DottedQuad(s)
  {
    Ipv4SegAvoids('.');
    var i :| 0 <= i <= |s| && PieceSepRep(s[..i], Ipv4Seg, '.', 3, 3) && Ipv4Seg(s[i..]);
    RepThenPieceFields(s, i, Ipv4Seg, '.', 3);
    SegmentsOctets(Split(s, '.'));
  }

  lemma SegmentsOctets(f: seq<string>)
    requires |f| == 4 && AllIn(f, Ipv4Seg)
    ensures forall j :: 0 <= j < 4 ==> DecimalOctet(f[j])
  {
    forall j | 0 <= j < 4 ensures DecimalOctet(f[j]) {
      OctetIff(f[j]);
    }
  }

  lemma QuadToLiteral(s: string)
    requires DottedQuad(s)
    ensures Ipv4Literal(s)
  {
    var f := Split(s, '.');
    forall j | 0 <= j < 4 ensures Ipv4Seg(f[j]) {
      OctetIff(f[j]);
    }
    var i := FieldsRepThenPiece(s, Ipv4Seg, '.', 3);
  }

  /** IPV4ADDR's body is exactly four dot-separated decimal octets. */
  lemma Ipv4LiteralIff(s: string)
    ensures Ipv4Literal(s) <==> DottedQuad(s)
  {
    if Ipv4Literal(s) {
      LiteralToQuad(s);
    }
    if DottedQuad(s) {
      QuadToLiteral(s);
    }
  }

  /** Every IPV4ADDR match consists of four octets a.b.c.d, possibly followed by the one
      newline `$` lets through. */
  lemma MatchesIpv4Iff(s: string)
    ensures MatchesIpv4(s) <==>
      DottedQuad(s) || (|s| > 0 && s[|s| - 1] == '\n' && DottedQuad(s[..|s| - 1]))
  {
    Ipv4LiteralIff(s);
    if |s| > 0 {
      Ipv4LiteralIff(s[..|s| - 1]);
    }
  }

  /** Four decimal octets joined by dots form an IPv4 literal. */
  lemma Ipv4FromOctets(fs: seq<string>)
    requires |fs| == 4 && forall j :: 0 <= j < 4 ==> DecimalOctet(fs[j])
    ensures Ipv4Literal(Join(fs, '.'))
  {
    forall j | 0 <= j < 4 ensures '.' !in fs[j] {
      assert AllDigits(fs[j]);
    }
    SplitJoin(fs, '.');
    Ipv4LiteralIff(Join(fs, '.'));
  }

  /** An IPv4 literal holds only digits and dots. */
  lemma Ipv4LiteralAvoids(s: string, x: char)
    requires Ipv4Literal(s) && !IsDigit(x) && x != '.'
    ensures x !in s
  {
    var i :| 0 <= i <= |s| && PieceSepRep(s[..i], Ipv4Seg, '.', 3, 3) && Ipv4Seg(s[i..]);
    var fs := PiecesOf(s[..i], Ipv4Seg, '.', 3, 3);
    forall j | 0 <= j < |fs| ensures x !in fs[j] {
      Ipv4SegDigits(fs[j]);
    }
    TerminatedAvoids(fs, '.', x);
    var d := s[i..];
    Ipv4SegDigits(d);
    assert x !in d;
    WholeAt(s, i);
  }

  /** An IPv4 literal ends with a digit. */
  lemma Ipv4LiteralLast(s: string)
    requires Ipv4Literal(s)
    ensures |s| > 0 && IsDigit(s[|s| - 1])
  {
    var i :| 0 <= i <= |s| && PieceSepRep(s[..i], Ipv4Seg, '.', 3, 3) && Ipv4Seg(s[i..]);
    OctetSuffixLast(s, i);
  }

  lemma OctetSuffixLast(s: string, i: nat)
    requires i <= |s| && Ipv4Seg(s[i..])
    ensures |s| > 0 && IsDigit(s[|s| - 1])
  {
    var d := s[i..];
    Ipv4SegDigits(d);
    assert s[|s| - 1] == d[|d| - 1];
  }

  /** An IPV4ADDR match never holds a colon. */
  lemma MatchesIpv4NoColon(s: string)
    requires MatchesIpv4(s)
    ensures ':' !in s
  {
    if Ipv4Literal(s) {
      Ipv4LiteralAvoids(s, ':');
    } else {
      NewlineLiteralNoColon(s);
    }
  }

  lemma NewlineLiteralNoColon(s: string)
    requires |s| > 0 && s[|s| - 1] == '\n' && Ipv4Literal(s[..|s| - 1])
    ensures ':' !in s
  {
    Ipv4LiteralAvoids(s[..|s| - 1], ':');
    LastAvoids(s, ':');
  }

  lemma LastAvoids(s: string, x: char)
    requires |s| > 0 && s[|s| - 1] != x && x !in s[..|s| - 1]
    ensures x !in s
  {
    assert s == s[..|s| - 1] + [s[|s| - 1]];
  }

  lemma Join4(a: string, b: string, c: string, d: string, sep: char)
    ensures Join([a, b, c, d], sep) == a + [sep] + b + [sep] + c + [sep] + d
  {
    assert [a, b, c, d][1..] == [b, c, d];
    assert [b, c, d][1..] == [c, d];
    assert [c, d][1..] == [d];
    assert Join([c, d], sep) == c + [sep] + d;
    assert Join([b, c, d], sep) == b + [sep] + (c + [sep] + d);
    assert Join([a, b, c, d], sep) == a + [sep] + (b + [sep] + (c + [sep] + d));
  }

  /** a.b.c.d is an IPV4ADDR match when a, b, c and d are decimal octets. */
  lemma OctetsAccepted(a: string, b: string, c: string, d: string)
    requires DecimalOctet(a) && DecimalOctet(b) && DecimalOctet(c) && DecimalOctet(d)
    ensures MatchesIpv4(a + "." + b + "." + c + "." + d)
  {
    Ipv4FromOctets([a, b, c, d]);
    Join4(a, b, c, d, '.');
  }

  /** The well-known IPv4 addresses are IPV4ADDR matches. */
  lemma AnyIpv4Accepted()
    ensures MatchesIpv4(ANYv4)
  {
    assert DecimalOctet("0") by { DecimalValueShort("0"); }
    assert ANYv4 == "0" + "." + "0" + "." + "0" + "." + "0";
    OctetsAccepted("0", "0", "0", "0");
  }

  lemma BroadcastIpv4Accepted()
    ensures MatchesIpv4(BROADCASTv4)
  {
    assert DecimalOctet("255") by { DecimalValueShort("255"); }
    assert BROADCASTv4 == "255" + "." + "255" + "." + "255" + "." + "255";
    OctetsAccepted("255", "255", "255", "255");
  }

  lemma LocalIpv4Accepted()
    ensures MatchesIpv4(LOCALv4)
  {
    assert DecimalOctet("0") by { DecimalValueShort("0"); }
    assert DecimalOctet("1") by { DecimalValueShort("1"); }
    assert DecimalOctet("127") by { DecimalValueShort("127"); }
    assert LOCALv4 == "127" + "." + "0" + "." + "0" + "." + "1";
    OctetsAccepted("127", "0", "0", "1");
  }

  // ------------------------------------------------ IPv6 addresses

  /** s holds "::" somewhere. */
  predicate HasDoubleColon(s: string) {
    exists j :: 0 <= j < |s| - 1 && s[j] == ':' && s[j + 1] == ':'
  }

  lemma DoubleAt(s: string, j: nat)
    requires j + 1 < |s| && s[j] == ':' && s[j + 1] == ':'
    ensures HasDoubleColon(s)
  {
  }

  /** Eight colon-separated groups, each of one to four hex digits. */
  predicate EightGroups(s: string) {
    var f := Split(s, ':');
    |f| == 8 && AllIn(f, Ipv6Seg)
  }

  /** One or more hex digits: a group, of any length. */
  predicate HexRun(g: string) {
    |g| >= 1 && forall k :: 0 <= k < |g| ==> IsHexDigit(g[k])
  }

  /** s ends with a letter, a digit or a colon. */
  predicate EndsAlnumOrColon(s: string) {
    |s| > 0 && (IsAlnum(s[|s| - 1]) || s[|s| - 1] == ':')
  }

  lemma Ipv6SegAvoids(x: char)
    requires !IsHexDigit(x)
    ensures Avoids(Ipv6Seg, x)
  {
    forall y | Ipv6Seg(y) ensures x !in y {
      assert forall k :: 0 <= k < |y| ==> y[k] != x;
    }
  }

  lemma FullFormGroups(s: string)
    requires FullForm(s)
    ensures EightGroups(s)
  {
    Ipv6SegAvoids(':');
    var i :| 0 <= i <= |s| && PieceSepRep(s[..i], Ipv6Seg, ':', 7, 7) && Ipv6Seg(s[i..]);
    RepThenPieceFields(s, i, Ipv6Seg, ':', 7);
  }

  lemma GroupsFullForm(s: string)
    requires EightGroups(s)
    ensures FullForm(s)
  {
    var i := FieldsRepThenPiece(s, Ipv6Seg, ':', 7);
  }

  /** `(SEG:){7,7}SEG` is exactly eight colon-separated groups of one to four hex digits. */
  lemma FullFormIff(s: string)
    ensures FullForm(s) <==> EightGroups(s)
  {
    if FullForm(s) {
      FullFormGroups(s);
    }
    if EightGroups(s) {
      GroupsFullForm(s);
    }
  }

  /** A non-empty `(SEG:){lo,hi}` in front of position i leaves a colon just before i. */
  lemma ColonBefore(s: string, i: nat, lo: nat, hi: nat)
    requires i <= |s| && lo >= 1 && PieceSepRep(s[..i], Ipv6Seg, ':', lo, hi)
    ensures i >= 1 && s[i - 1] == ':'
  {
    var t := s[..i];
    var fs := PiecesOf(t, Ipv6Seg, ':', lo, hi);
    TerminatedEnds(fs, ':');
    assert s[i - 1] == t[|t| - 1];
  }

  /** A string ending in a group ends with a hex digit. */
  lemma SegSuffixEnds(s: string, i: nat)
    requires i <= |s| && Ipv6Seg(s[i..])
    ensures EndsAlnumOrColon(s)
  {
    var d := s[i..];
    assert s[|s| - 1] == d[|d| - 1];
  }

  lemma TrailingCompressedDouble(s: string)
    requires TrailingCompressed(s)
    ensures HasDoubleColon(s)
  {
    ColonBefore(s, |s| - 1, 1, 7);
    DoubleAt(s, |s| - 2);
  }

  lemma CompressedLastSegDouble(s: string)
    requires CompressedLastSeg(s)
    ensures HasDoubleColon(s)
  {
    var i :| 0 <= i < |s| && PieceSepRep(s[..i], Ipv6Seg, ':', 1, 6) && s[i] == ':' && Ipv6Seg(s[i + 1..]);
    ColonPairAt(s, i, 1, 6);
  }

  lemma CompressedDouble(s: string, heads: nat, tails: nat)
    requires Compressed(s, heads, tails)
    ensures HasDoubleColon(s)
  {
    var i :| 0 <= i <= |s| && PieceSepRep(s[..i], Ipv6Seg, ':', 1, heads)
             && SepPieceRep(s[i..], Ipv6Seg, ':', 1, tails);
    ColonBefore(s, i, 1, heads);
    ColonAt(s, i, 1, tails);
    DoubleAt(s, i - 1);
  }

  /** A non-empty `(:SEG){lo,hi}` from position i starts with a colon at i. */
  lemma ColonAt(s: string, i: nat, lo: nat, hi: nat)
    requires i <= |s| && lo >= 1 && SepPieceRep(s[i..], Ipv6Seg, ':', lo, hi)
    ensures i < |s| && s[i] == ':'
  {
    var u := s[i..];
    var gs := PrefixedPiecesOf(u, Ipv6Seg, ':', lo, hi);
    assert s[i] == u[0];
  }

  lemma CompressedFirstSegDouble(s: string)
    requires CompressedFirstSeg(s)
    ensures HasDoubleColon(s)
  {
    var i :| 0 <= i < |s| && Ipv6Seg(s[..i]) && s[i] == ':' && SepPieceRep(s[i + 1..], Ipv6Seg, ':', 1, 6);
    ColonAt(s, i + 1, 1, 6);
    DoubleAt(s, i);
  }

  lemma LeadingCompressedDouble(s: string)
    requires LeadingCompressed(s)
    ensures HasDoubleColon(s)
  {
    if SepPieceRep(s[1..], Ipv6Seg, ':', 1, 7) {
      ColonAt(s, 1, 1, 7);
    } else {
      assert s[1] == s[1..][0];
    }
    DoubleAt(s, 0);
  }

  lemma Ipv4EmbeddedDouble(s: string)
    requires Ipv4Embedded(s)
    ensures HasDoubleColon(s)
  {
    assert s[0] == s[..2][0] && s[1] == s[..2][1];
    DoubleAt(s, 0);
  }

  lemma Ipv4CompressedDouble(s: string)
    requires Ipv4Compressed(s)
    ensures HasDoubleColon(s)
  {
    var i :| 0 <= i < |s| && PieceSepRep(s[..i], Ipv6Seg, ':', 1, 4) && s[i] == ':' && Ipv4Literal(s[i + 1..]);
    ColonPairAt(s, i, 1, 4);
  }

  /** A non-empty `(SEG:){lo,hi}` in front of a colon at i makes "::". */
  lemma ColonPairAt(s: string, i: nat, lo: nat, hi: nat)
    requires i < |s| && lo >= 1 && PieceSepRep(s[..i], Ipv6Seg, ':', lo, hi) && s[i] == ':'
    ensures HasDoubleColon(s)
  {
    ColonBefore(s, i, lo, hi);
    DoubleAt(s, i - 1);
  }

  /** Every IPV6ADDR alternative but the full form and the link-local form holds "::". */
  lemma Ipv6Shapes(s: string)
    ensures Ipv6Literal(s) ==> FullForm(s) || LinkLocal(s) || HasDoubleColon(s)
  {
    if TrailingCompressed(s) {
      TrailingCompressedDouble(s);
    } else if CompressedLastSeg(s) {
      CompressedLastSegDouble(s);
    } else if Compressed(s, 5, 2) {
      CompressedDouble(s, 5, 2);
    } else if Compressed(s, 4, 3) {
      CompressedDouble(s, 4, 3);
    } else if Compressed(s, 3, 4) {
      CompressedDouble(s, 3, 4);
    } else if Compressed(s, 2, 5) {
      CompressedDouble(s, 2, 5);
    } else if CompressedFirstSeg(s) {
      CompressedFirstSegDouble(s);
    } else if LeadingCompressed(s) {
      LeadingCompressedDouble(s);
    } else if Ipv4Embedded(s) {
      Ipv4EmbeddedDouble(s);
    } else if Ipv4Compressed(s) {
      Ipv4CompressedDouble(s);
    }
  }

  /** The link-local form holds '%'. */
  lemma LinkLocalPercent(s: string)
    ensures LinkLocal(s) ==> '%' in s
  {
    if LinkLocal(s) {
      var i :| 5 <= i < |s| && SepPieceRep(s[5..i], Ipv6Seg, ':', 0, 4) && s[i] == '%' && Zone(s[i + 1..]);
    }
  }

  /** Without "::" and '%', IPV6ADDR's body is exactly eight groups of one to four hex digits. */
  lemma UncompressedIff(s: string)
    requires !HasDoubleColon(s) && '%' !in s
    ensures Ipv6Literal(s) <==> EightGroups(s)
  {
    Ipv6Shapes(s);
    LinkLocalPercent(s);
    FullFormIff(s);
  }

  /** The same for the whole match. */
  lemma UncompressedMatchIff(s: string)
    requires !HasDoubleColon(s) && '%' !in s && '\n' !in s
    ensures MatchesIpv6(s) <==> EightGroups(s)
  {
    UncompressedIff(s);
    if |s| > 0 {
      assert s[|s| - 1] != '\n';
    }
  }

  lemma JoinFirst(fs: seq<string>, c: char)
    requires |fs| >= 1 && |fs[0]| >= 1
    ensures |Join(fs, c)| >= 1 && Join(fs, c)[0] == fs[0][0]
  {
  }

  /** Non-empty colon-free groups joined by colons never hold "::". */
  lemma {:induction false} JoinNoDoubleColon(fs: seq<string>)
    requires |fs| >= 1 && forall j :: 0 <= j < |fs| ==> |fs[j]| >= 1 && ':' !in fs[j]
    ensures !HasDoubleColon(Join(fs, ':'))
    decreases |fs|
  {
    var s := Join(fs, ':');
    if |fs| > 1 {
      var h, rs := fs[0], fs[1..];
      var r := Join(rs, ':');
      assert forall j :: 0 <= j < |rs| ==> |rs[j]| >= 1 && ':' !in rs[j] by {
        forall j | 0 <= j < |rs| ensures |rs[j]| >= 1 && ':' !in rs[j] { assert rs[j] == fs[j + 1]; }
      }
      JoinNoDoubleColon(rs);
      JoinFirst(rs, ':');
      assert s == h + [':'] + r;
      forall j | 0 <= j < |s| - 1 ensures !(s[j] == ':' && s[j + 1] == ':') {
        if j < |h| {
          assert s[j] == h[j];
        } else if j == |h| {
          assert s[j + 1] == r[0];
        } else {
          assert s[j] == r[j - |h| - 1] && s[j + 1] == r[j - |h|];
        }
      }
    } else {
      assert s == fs[0];
    }
  }

  /** For groups of hex digits joined by colons, IPV6ADDR accepts exactly eight groups of at
      most four digits: so nine groups, or a group of five digits, are rejected. */
  lemma GroupsIff(fs: seq<string>)
    requires |fs| >= 1 && forall j :: 0 <= j < |fs| ==> HexRun(fs[j])
    ensures MatchesIpv6(Join(fs, ':')) <==> |fs| == 8 && forall j :: 0 <= j < 8 ==> |fs[j]| <= 4
  {
    var s := Join(fs, ':');
    forall j | 0 <= j < |fs| ensures |fs[j]| >= 1 && ':' !in fs[j] && '%' !in fs[j] && '\n' !in fs[j] {
      assert HexRun(fs[j]);
    }
    SplitJoin(fs, ':');
    JoinNoDoubleColon(fs);
    JoinAvoids(fs, ':', '%');
    JoinAvoids(fs, ':', '\n');
    UncompressedMatchIff(s);
  }

  lemma JoinCons(h: string, fs: seq<string>, c: char)
    requires |fs| >= 1
    ensures Join([h] + fs, c) == h + [c] + Join(fs, c)
  {
    assert ([h] + fs)[1..] == fs;
  }

  /** ANYv6 is eight zero groups joined by colons. */
  lemma AnyIpv6Groups()
    ensures Join(["0", "0", "0", "0", "0", "0", "0", "0"], ':') == ANYv6
  {
    var g, t := ["0"], "0";
    JoinCons("0", g, ':'); g, t := ["0"] + g, "0:" + t;
    JoinCons("0", g, ':'); g, t := ["0"] + g, "0:" + t;
    JoinCons("0", g, ':'); g, t := ["0"] + g, "0:" + t;
    JoinCons("0", g, ':'); g, t := ["0"] + g, "0:" + t;
    JoinCons("0", g, ':'); g, t := ["0"] + g, "0:" + t;
    JoinCons("0", g, ':'); g, t := ["0"] + g, "0:" + t;
    JoinCons("0", g, ':'); g, t := ["0"] + g, "0:" + t;
    assert g == ["0", "0", "0", "0", "0", "0", "0", "0"] && t == ANYv6;
  }

  /** ANYv6, all eight groups zero, is an IPV6ADDR match. */
  lemma AnyIpv6Accepted()
    ensures MatchesIpv6(ANYv6)
  {
    var zeros := ["0", "0", "0", "0", "0", "0", "0", "0"];
    AnyIpv6Groups();
    forall j | 0 <= j < |zeros| ensures ':' !in zeros[j] && Ipv6Seg(zeros[j]) {
      assert zeros[j] == "0";
    }
    SplitJoin(zeros, ':');
    GroupsFullForm(ANYv6);
    FullFormMatches(ANYv6);
  }

  lemma FullFormMatches(s: string)
    requires FullForm(s)
    ensures MatchesIpv6(s)
  {
  }

  lemma CompressedLastSegMatches(s: string, i: nat)
    requires i < |s| && PieceSepRep(s[..i], Ipv6Seg, ':', 1, 6) && s[i] == ':' && Ipv6Seg(s[i + 1..])
    ensures MatchesIpv6(s)
  {
  }

  /** BROADCASTv6, `FF02::1`, is an IPV6ADDR match. */
  lemma BroadcastIpv6Accepted()
    ensures MatchesIpv6(BROADCASTv6)
  {
    var s := BROADCASTv6;
    assert AllIn(["FF02"], Ipv6Seg);
    RepOfPieces(["FF02"], Ipv6Seg, ':', 1, 6);
    assert Terminated(["FF02"], ':') == "FF02:" by {
      assert ["FF02"][1..] == [];
    }
    assert s[..5] == "FF02:" && s[5] == ':' && s[6..] == "1";
    assert Ipv6Seg("1");
    CompressedLastSegMatches(s, 5);
  }

  /** LOCALv6, `::1`, and the unspecified address `::` are IPV6ADDR matches. */
  lemma LocalIpv6Accepted()
    ensures MatchesIpv6(LOCALv6) && MatchesIpv6("::")
  {
    assert AllIn(["1"], Ipv6Seg);
    PrefixedRepOfPieces(["1"], Ipv6Seg, ':', 1, 7);
    assert Prefixed(["1"], ':') == ":1" by {
      assert ["1"][1..] == [];
    }
    assert LOCALv6[1..] == ":1";
    assert LeadingCompressed(LOCALv6);
    assert "::"[1..] == ":";
    assert LeadingCompressed("::");
  }

  lemma AroundPrefix(pre: string, q: string)
    requires |pre| >= 2
    ensures (pre + q)[..2] == pre[..2] && (pre + q)[2..|pre|] == pre[2..] && (pre + q)[|pre|..] == q
  {
  }

  lemma DropLast(pre: string, q: string)
    requires |q| > 0
    ensures (pre + q)[..|pre + q| - 1] == pre + q[..|q| - 1] && (pre + q)[|pre + q| - 1] == q[|q| - 1]
  {
  }

  lemma EmbeddedLiteral(pre: string, q: string)
    requires |pre| >= 2 && pre[..2] == "::" && MappedPrefix(pre[2..]) && Ipv4Literal(q)
    ensures Ipv4Embedded(pre + q)
  {
    AroundPrefix(pre, q);
  }

  lemma EmbeddedMatch(pre: string, q: string)
    requires |pre| >= 2 && pre[..2] == "::" && MappedPrefix(pre[2..]) && MatchesIpv4(q)
    ensures MatchesIpv6(pre + q)
  {
    if Ipv4Literal(q) {
      EmbeddedLiteral(pre, q);
    } else {
      var q' := q[..|q| - 1];
      EmbeddedLiteral(pre, q');
      DropLast(pre, q);
    }
  }

  /** An IPV4ADDR match after `::`, `::ffff:` or `::ffff:0:` is an IPV6ADDR match. */
  lemma EmbeddedIpv4Accepted(q: string)
    requires MatchesIpv4(q)
    ensures MatchesIpv6("::" + q) && MatchesIpv6("::ffff:" + q) && MatchesIpv6("::ffff:0:" + q)
  {
    UnmappedAccepted(q);
    MappedAccepted(q);
    MappedZeroAccepted(q);
  }

  /** The three prefixes before an embedded IPv4 address: `::`, then an optional mapping part. */
  lemma EmbeddingPrefixes()
    ensures "::"[..2] == "::" && MappedPrefix("::"[2..])
    ensures "::ffff:"[..2] == "::" && MappedPrefix("::ffff:"[2..])
    ensures "::ffff:0:"[..2] == "::" && MappedPrefix("::ffff:0:"[2..])
  {
    assert "::"[2..] == [];
    MappedPrefixPlain();
    assert "::ffff:"[2..] == "ffff:";
    MappedPrefixZero();
    assert "::ffff:0:"[2..] == "ffff:0:";
  }

  lemma MappedPrefixPlain()
    ensures MappedPrefix("ffff:")
  {
    var m := "ffff:";
    assert m[..4] == "ffff";
    assert m[4..|m| - 1] == [];
  }

  lemma MappedPrefixZero()
    ensures MappedPrefix("ffff:0:")
  {
    var m := "ffff:0:";
    assert m[..4] == "ffff";
    var z := m[4..|m| - 1];
    assert |z| == 2 && z[0] == m[4] && z[1] == m[5];
    assert ZeroGroup(z);
  }

  lemma UnmappedAccepted(q: string)
    requires MatchesIpv4(q)
    ensures MatchesIpv6("::" + q)
  {
    EmbeddingPrefixes();
    EmbeddedMatch("::", q);
  }

  lemma MappedAccepted(q: string)
    requires MatchesIpv4(q)
    ensures MatchesIpv6("::ffff:" + q)
  {
    EmbeddingPrefixes();
    EmbeddedMatch("::ffff:", q);
  }

  lemma MappedZeroAccepted(q: string)
    requires MatchesIpv4(q)
    ensures MatchesIpv6("::ffff:0:" + q)
  {
    EmbeddingPrefixes();
    EmbeddedMatch("::ffff:0:", q);
  }

  lemma LinkLocalSlices(a: string, g: string, z: string)
    ensures var s, i := a + g + "%" + z, |a| + |g|;
      s[..|a|] == a && s[|a|..i] == g && s[i] == '%' && s[i + 1..] == z
  {
  }

  /** `fe80:`, at most four `:group` parts, '%' and a non-empty alphanumeric zone form an
      IPV6ADDR match. */
  lemma LinkLocalAccepted(gs: seq<string>, z: string)
    requires |gs| <= 4 && AllIn(gs, Ipv6Seg) && Zone(z)
    ensures MatchesIpv6("fe80:" + Prefixed(gs, ':') + "%" + z)
  {
    var g := Prefixed(gs, ':');
    var s := "fe80:" + g + "%" + z;
    PrefixedRepOfPieces(gs, Ipv6Seg, ':', 0, 4);
    LinkLocalSlices("fe80:", g, z);
  }

  lemma FullFormEnds(s: string)
    ensures FullForm(s) ==> EndsAlnumOrColon(s)
  {
    if FullForm(s) {
      var i :| 0 <= i <= |s| && PieceSepRep(s[..i], Ipv6Seg, ':', 7, 7) && Ipv6Seg(s[i..]);
      SegSuffixEnds(s, i);
    }
  }

  lemma CompressedLastSegEnds(s: string)
    ensures CompressedLastSeg(s) ==> EndsAlnumOrColon(s)
  {
    if CompressedLastSeg(s) {
      var i :| 0 <= i < |s| && PieceSepRep(s[..i], Ipv6Seg, ':', 1, 6) && s[i] == ':' && Ipv6Seg(s[i + 1..]);
      SegSuffixEnds(s, i + 1);
    }
  }

  lemma PrefixedSuffixEnds(s: string, i: nat, hi: nat)
    requires i < |s| && SepPieceRep(s[i..], Ipv6Seg, ':', 1, hi)
    ensures EndsAlnumOrColon(s)
  {
    var u := s[i..];
    var gs := PrefixedPiecesOf(u, Ipv6Seg, ':', 1, hi);
    PrefixedEndsHex(gs);
    assert s[|s| - 1] == u[|u| - 1];
  }

  lemma CompressedEnds(s: string, heads: nat, tails: nat)
    ensures Compressed(s, heads, tails) ==> EndsAlnumOrColon(s)
  {
    if Compressed(s, heads, tails) {
      var i :| 0 <= i <= |s| && PieceSepRep(s[..i], Ipv6Seg, ':', 1, heads)
               && SepPieceRep(s[i..], Ipv6Seg, ':', 1, tails);
      var gs := PrefixedPiecesOf(s[i..], Ipv6Seg, ':', 1, tails);
      PrefixedSuffixEnds(s, i, tails);
    }
  }

  lemma CompressedFirstSegEnds(s: string)
    ensures CompressedFirstSeg(s) ==> EndsAlnumOrColon(s)
  {
    if CompressedFirstSeg(s) {
      var i :| 0 <= i < |s| && Ipv6Seg(s[..i]) && s[i] == ':' && SepPieceRep(s[i + 1..], Ipv6Seg, ':', 1, 6);
      var gs := PrefixedPiecesOf(s[i + 1..], Ipv6Seg, ':', 1, 6);
      PrefixedSuffixEnds(s, i + 1, 6);
    }
  }

  lemma LeadingCompressedEnds(s: string)
    ensures LeadingCompressed(s) ==> EndsAlnumOrColon(s)
  {
    if LeadingCompressed(s) {
      if SepPieceRep(s[1..], Ipv6Seg, ':', 1, 7) {
        var gs := PrefixedPiecesOf(s[1..], Ipv6Seg, ':', 1, 7);
        PrefixedSuffixEnds(s, 1, 7);
      } else {
        assert s[|s| - 1] == s[1..][0];
      }
    }
  }

  lemma LinkLocalEnds(s: string)
    ensures LinkLocal(s) ==> EndsAlnumOrColon(s)
  {
    if LinkLocal(s) {
      var i :| 5 <= i < |s| && SepPieceRep(s[5..i], Ipv6Seg, ':', 0, 4) && s[i] == '%' && Zone(s[i + 1..]);
      var z := s[i + 1..];
      assert s[|s| - 1] == z[|z| - 1];
    }
  }

  lemma Ipv4EmbeddedEnds(s: string)
    ensures Ipv4Embedded(s) ==> EndsAlnumOrColon(s)
  {
    if Ipv4Embedded(s) {
      var i :| 2 <= i <= |s| && MappedPrefix(s[2..i]) && Ipv4Literal(s[i..]);
      var q := s[i..];
      Ipv4LiteralLast(q);
      assert s[|s| - 1] == q[|q| - 1];
    }
  }

  lemma Ipv4CompressedEnds(s: string)
    ensures Ipv4Compressed(s) ==> EndsAlnumOrColon(s)
  {
    if Ipv4Compressed(s) {
      var i :| 0 <= i < |s| && PieceSepRep(s[..i], Ipv6Seg, ':', 1, 4) && s[i] == ':' && Ipv4Literal(s[i + 1..]);
      var q := s[i + 1..];
      Ipv4LiteralLast(q);
      assert s[|s| - 1] == q[|q| - 1];
    }
  }

  /** Every IPV6ADDR body ends with a letter, a digit or a colon. */
  lemma Ipv6LiteralEnds(s: string)
    ensures Ipv6Literal(s) ==> EndsAlnumOrColon(s)
  {
    FullFormEnds(s);
    CompressedLastSegEnds(s);
    CompressedEnds(s, 5, 2);
    CompressedEnds(s, 4, 3);
    CompressedEnds(s, 3, 4);
    CompressedEnds(s, 2, 5);
    CompressedFirstSegEnds(s);
    LeadingCompressedEnds(s);
    LinkLocalEnds(s);
    Ipv4EmbeddedEnds(s);
    Ipv4CompressedEnds(s);
  }

  /** A '%' with nothing after it is never accepted: the zone may not be empty. */
  lemma EmptyZoneRejected(s: string)
    ensures !MatchesIpv6(s + "%")
  {
    var t := s + "%";
    Ipv6LiteralEnds(t);
    assert t[|t| - 1] == '%';
  }

  /** In particular `fe80::1%` is rejected. */
  lemma EmptyZoneExample()
    ensures !MatchesIpv6("fe80::1%")
  {
    EmptyZoneRejected("fe80::1");
    assert "fe80::1" + "%" == "fe80::1%";
  }

  lemma FullFormColon(s: string)
    ensures FullForm(s) ==> ':' in s
  {
    if FullForm(s) {
      var i :| 0 <= i <= |s| && PieceSepRep(s[..i], Ipv6Seg, ':', 7, 7) && Ipv6Seg(s[i..]);
      ColonBefore(s, i, 7, 7);
    }
  }

  /** Every IPV6ADDR body holds a colon. */
  lemma Ipv6LiteralColon(s: string)
    ensures Ipv6Literal(s) ==> ':' in s
  {
    Ipv6Shapes(s);
    FullFormColon(s);
    if HasDoubleColon(s) {
      var j :| 0 <= j < |s| - 1 && s[j] == ':' && s[j + 1] == ':';
    }
    if LinkLocal(s) {
      assert s[4] == s[..5][4];
    }
  }

  /** Every IPV6ADDR match holds a colon. */
  lemma MatchesIpv6Colon(s: string)
    ensures MatchesIpv6(s) ==> ':' in s
  {
    Ipv6LiteralColon(s);
    if |s| > 0 {
      var q := s[..|s| - 1];
      Ipv6LiteralColon(q);
      if ':' in q {
        var k :| 0 <= k < |q| && q[k] == ':';
        assert s[k] == ':';
      }
    }
  }

  lemma MatchesIpv4Colon(s: string)
    ensures MatchesIpv4(s) ==> ':' !in s
  {
    if MatchesIpv4(s) {
      MatchesIpv4NoColon(s);
    }
  }

  /** No string is accepted by both IPV4ADDR and IPV6ADDR. */
  lemma PatternsDisjoint(s: string)
    ensures !(MatchesIpv4(s) && MatchesIpv6(s))
  {
    MatchesIpv4Colon(s);
    MatchesIpv6Colon(s);
  }
}
