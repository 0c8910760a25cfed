/** The address enumerator of src/Utilities/INETADDR.php: the well-known addresses, the
    version tags, and the two anchored patterns IPV4ADDR and IPV6ADDR read as formal
    languages over strings. Each regex construct has a predicate of its own; a
    concatenation is an explicit split point `i` of the string. */
module InetAddrPatterns {
  import opened Definitions

  /** Well-known addresses. */
  const ANYv4: string := "0.0.0.0"
  const BROADCASTv4: string := "255.255.255.255"
  const LOCALv4: string := "127.0.0.1"
  const ANYv6: string := "0:0:0:0:0:0:0:0"
  const BROADCASTv6: string := "FF02::1"
  const LOCALv6: string := "::1"

  /** Version tags. */
  const IPv4: int := AF_INET
  const IPv6: int := AF_INET6

  /** `[0-9]` */
  predicate IsDigit(c: char) { '0' <= c <= '9' }

  /** `[0-9a-fA-F]` */
  predicate IsHexDigit(c: char) { IsDigit(c) || 'a' <= c <= 'f' || 'A' <= c <= 'F' }

  /** `[0-9a-zA-Z]` */
  predicate IsAlnum(c: char) { IsDigit(c) || 'a' <= c <= 'z' || 'A' <= c <= 'Z' }

  /** `n - 1`, floored at 0: the lower bound left after one repetition */
  function Dec(n: nat): nat { if n == 0 then 0 else n - 1 }

  /** `(P c){lo,hi}`: between lo and hi pieces, each followed by the character c */
  predicate PieceSepRep(s: string, p: string -> bool, c: char, lo: nat, hi: nat)
    decreases hi
  {
    || (lo == 0 && s == [])
    || (hi > 0 && exists k :: 0 <= k < |s| && p(s[..k]) && s[k] == c
                               && PieceSepRep(s[k + 1..], p, c, Dec(lo), hi - 1))
  }

  /** `(c P){lo,hi}`: between lo and hi pieces, each preceded by the character c */
  predicate SepPieceRep(s: string, p: string -> bool, c: char, lo: nat, hi: nat)
    decreases hi
  {
    || (lo == 0 && s == [])
    || (hi > 0 && exists k :: 1 <= k <= |s| && s[0] == c && p(s[1..k])
                               && SepPieceRep(s[k..], p, c, Dec(lo), hi - 1))
  }

  // ---------------------------------------------------------------- IPv4

  /** IPV4SEG, `25[0-5]|(2[0-4]|1{0,1}[0-9]){0,1}[0-9]` */
  predicate Ipv4Seg(s: string) {
    || (|s| == 3 && s[0] == '2' && s[1] == '5' && '0' <= s[2] <= '5')
    || (|s| >= 1 && Ipv4SegLead(s[..|s| - 1]) && IsDigit(s[|s| - 1]))
  }

  /** `(2[0-4]|1{0,1}[0-9]){0,1}`, the optional part before an octet's last digit */
  predicate Ipv4SegLead(s: string) {
    || s == []
    || (|s| == 2 && s[0] == '2' && '0' <= s[1] <= '4')
    || (|s| == 1 && IsDigit(s[0]))
    || (|s| == 2 && s[0] == '1' && IsDigit(s[1]))
  }

  /** The body of IPV4ADDR between its anchors, `(IPV4SEG\.){3,3}IPV4SEG` */
  predicate Ipv4Literal(s: string) {
    exists i :: 0 <= i <= |s| && PieceSepRep(s[..i], Ipv4Seg, '.', 3, 3) && Ipv4Seg(s[i..])
  }

  /** `preg_match(IPV4ADDR, s)`: IPV4ADDR is anchored by `^` and by `$`, which, without the
      D modifier, also matches just before a final newline */
  predicate MatchesIpv4(s: string) {
    Ipv4Literal(s) || (|s| > 0 && s[|s| - 1] == '\n' && Ipv4Literal(s[..|s| - 1]))
  }

  // ---------------------------------------------------------------- IPv6

  /** IPV6SEG, `[0-9a-fA-F]{1,4}` */
  predicate Ipv6Seg(s: string) {
    1 <= |s| <= 4 && forall j :: 0 <= j < |s| ==> IsHexDigit(s[j])
  }

  /** `(SEG:){7,7}SEG` */
  predicate FullForm(s: string) {
    exists i :: 0 <= i <= |s| && PieceSepRep(s[..i], Ipv6Seg, ':', 7, 7) && Ipv6Seg(s[i..])
  }

  /** `(SEG:){1,7}:` */
  predicate TrailingCompressed(s: string) {
    |s| >= 1 && PieceSepRep(s[..|s| - 1], Ipv6Seg, ':', 1, 7) && s[|s| - 1] == ':'
  }

  /** `(SEG:){1,6}:SEG` */
  predicate CompressedLastSeg(s: string) {
    exists i :: 0 <= i < |s| && PieceSepRep(s[..i], Ipv6Seg, ':', 1, 6) && s[i] == ':'
                && Ipv6Seg(s[i + 1..])
  }

  /** `(SEG:){1,heads}(:SEG){1,tails}` */
  predicate Compressed(s: string, heads: nat, tails: nat) {
    exists i :: 0 <= i <= |s| && PieceSepRep(s[..i], Ipv6Seg, ':', 1, heads)
                && SepPieceRep(s[i..], Ipv6Seg, ':', 1, tails)
  }

  /** `SEG:((:SEG){1,6})` */
  predicate CompressedFirstSeg(s: string) {
    exists i :: 0 <= i < |s| && Ipv6Seg(s[..i]) && s[i] == ':'
                && SepPieceRep(s[i + 1..], Ipv6Seg, ':', 1, 6)
  }

  /** `:((:SEG){1,7}|:)` */
  predicate LeadingCompressed(s: string) {
    |s| >= 1 && s[0] == ':' && (SepPieceRep(s[1..], Ipv6Seg, ':', 1, 7) || s[1..] == ":")
  }

  /** `[0-9a-zA-Z]{1,}` */
  predicate Zone(s: string) {
    |s| >= 1 && forall j :: 0 <= j < |s| ==> IsAlnum(s[j])
  }

  /** `fe80:(:SEG){0,4}%[0-9a-zA-Z]{1,}` */
  predicate LinkLocal(s: string) {
    |s| >= 5 && s[..5] == "fe80:"
    && exists i :: 5 <= i < |s| && SepPieceRep(s[5..i], Ipv6Seg, ':', 0, 4) && s[i] == '%'
                   && Zone(s[i + 1..])
  }

  /** `(:0{1,4}){0,1}` */
  predicate ZeroGroup(s: string) {
    s == [] || (2 <= |s| <= 5 && s[0] == ':' && forall j :: 1 <= j < |s| ==> s[j] == '0')
  }

  /** `(ffff(:0{1,4}){0,1}:){0,1}` */
  predicate MappedPrefix(s: string) {
    s == [] || (|s| >= 5 && s[..4] == "ffff" && s[|s| - 1] == ':' && ZeroGroup(s[4..|s| - 1]))
  }

  /** `::(ffff(:0{1,4}){0,1}:){0,1}IPV4` */
  predicate Ipv4Embedded(s: string) {
    |s| >= 2 && s[..2] == "::"
    && exists i :: 2 <= i <= |s| && MappedPrefix(s[2..i]) && Ipv4Literal(s[i..])
  }

  /** `(SEG:){1,4}:IPV4` */
  predicate Ipv4Compressed(s: string) {
    exists i :: 0 <= i < |s| && PieceSepRep(s[..i], Ipv6Seg, ':', 1, 4) && s[i] == ':'
                && Ipv4Literal(s[i + 1..])
  }

  /** The body of IPV6ADDR between its anchors: its twelve alternatives, in order */
  predicate Ipv6Literal(s: string) {
    || FullForm(s)
    || TrailingCompressed(s)
    || CompressedLastSeg(s)
    || Compressed(s, 5, 2)
    || Compressed(s, 4, 3)
    || Compressed(s, 3, 4)
    || Compressed(s, 2, 5)
    || CompressedFirstSeg(s)
    || LeadingCompressed(s)
    || LinkLocal(s)
    || Ipv4Embedded(s)
    || Ipv4Compressed(s)
  }

  /** `preg_match(IPV6ADDR, s)`, with the same reading of `$` as MatchesIpv4 */
  predicate MatchesIpv6(s: string) {
    Ipv6Literal(s) || (|s| > 0 && s[|s| - 1] == '\n' && Ipv6Literal(s[..|s| - 1]))
  }
}
