/** dhcp_flag_bcast of core/rtw_br_ext.c: the broadcast flag set in a DHCP request in place, and the UDP checksum
  * updated from the change instead of recomputed (section 3 of RFC 1624). */
module Dhcp {
  import opened Bytes
  import opened Seqs

  const ETH_HLEN: nat := 14
  const IPPROTO_UDP: byte := 17
  const CLIENT_PORT: u16 := 68
  const SERVER_PORT: u16 := 67
  /** Offsets in the UDP datagram: its header is 8 octets, and the DHCP message follows. */
  const CHECK_AT: nat := 6
  const SECS_AT: nat := 16
  const FLAGS_AT: nat := 18
  const COOKIE_AT: nat := 244
  const MAGIC: seq<byte> := [0x63, 0x82, 0x53, 0x63]
  const BROADCAST_FLAG: u16 := 0x8000

  /** A 16-bit field as this host reads it from two octets. */
  function Word(h: Host, b0: byte, b1: byte): u16 {
    if h.BigEndian? then Be16(b0, b1) else Le16(b0, b1)
  }

  /** The two octets in which this host stores v. */
  function Octets(h: Host, v: u16): (r: seq<byte>)
    ensures |r| == 2 && Word(h, r[0], r[1]) == v
  {
    if h.BigEndian? then [v / 0x100, v % 0x100] else [v % 0x100, v / 0x100]
  }

  // ----- the checksum -----

  /** The sum of a datagram's words, as this host reads them; an odd last octet is padded with a zero octet. */
  function Sum(h: Host, s: seq<byte>): nat {
    if |s| == 0 then 0
    else if |s| == 1 then Word(h, s[0], 0)
    else Word(h, s[0], s[1]) as nat + Sum(h, s[2..])
  }

  /** The one's complement sum comes out as zero. */
  predicate Verifies(h: Host, s: seq<byte>) {
    Sum(h, s) % 0xFFFF == 0
  }

  /** Writing one word changes the sum by the difference of that word. */
  lemma {:induction false} SumAfterWrite(h: Host, s: seq<byte>, k: nat, t: seq<byte>)
    requires 2 * k + 2 <= |s| && |t| == 2
    ensures Sum(h, Stored(s, 2 * k, t)) + Word(h, s[2 * k], s[2 * k + 1]) as nat
         == Sum(h, s) + Word(h, t[0], t[1]) as nat
  {
    var s' := Stored(s, 2 * k, t);
    if k == 0 {
      assert s'[2..] == s[2..];
    } else {
      assert s'[2..] == Stored(s[2..], 2 * (k - 1), t);
      assert s[2..][2 * (k - 1)] == s[2 * k] && s[2..][2 * (k - 1) + 1] == s[2 * k + 1];
      SumAfterWrite(h, s[2..], k - 1, t);
    }
  }

  /** The fold keeps the sum modulo 65535, ends within sixteen bits, and makes zero of zero only. */
  method Fold(sum: nat) returns (r: u16)
    ensures r as int % 0xFFFF == sum % 0xFFFF && (r == 0 <==> sum == 0)
  {
    var s := sum;
    while s / 0x1_0000 != 0
      invariant s % 0xFFFF == sum % 0xFFFF && (s == 0 <==> sum == 0)
      decreases s
    {
      ModAfterCarry(s % 0x1_0000, s / 0x1_0000);
      s := s % 0x1_0000 + s / 0x1_0000;
    }
    r := s;
  }

  lemma ModAfterCarry(lo: nat, hi: nat)
    ensures (hi * 0x1_0000 + lo) % 0xFFFF == (lo + hi) % 0xFFFF
  {
    ModDrop(lo + hi, hi);
    assert hi * 0x1_0000 + lo == lo + hi + hi * 0xFFFF;
  }

  lemma {:induction false} ModDrop(x: int, q: nat)
    ensures (x + q * 0xFFFF) % 0xFFFF == x % 0xFFFF
  {
    if q > 0 {
      ModDrop(x, q - 1);
      assert x + q * 0xFFFF == x + (q - 1) * 0xFFFF + 0xFFFF;
    }
  }

  /** Within sixteen bits, the residue and being zero or not fix the folded value. */
  function Folded(sum: nat): u16 {
    if sum == 0 then 0 else 1 + (sum - 1) % 0xFFFF
  }

  lemma FoldedIs(sum: nat, r: u16)
    requires r as int % 0xFFFF == sum % 0xFFFF && (r == 0 <==> sum == 0)
    ensures r == Folded(sum)
  {
  }

  // ----- the frame -----

  function UdpAt(s: seq<byte>): (u: nat)
    requires |s| >= ETH_HLEN + 20
    ensures ETH_HLEN <= u <= ETH_HLEN + 60
  {
    ETH_HLEN + s[ETH_HLEN] % 0x10 * 4
  }

  predicate IsUdp(s: seq<byte>)
    requires |s| >= ETH_HLEN + 20
  {
    s[12..14] == [0x08, 0x00] && s[ETH_HLEN + 9] == IPPROTO_UDP
  }

  predicate FromClient(s: seq<byte>)
    requires |s| >= ETH_HLEN + 20 && |s| >= UdpAt(s) + 4
  {
    var u := UdpAt(s);
    Be16(s[u], s[u + 1]) == CLIENT_PORT && Be16(s[u + 2], s[u + 3]) == SERVER_PORT
  }

  /** Every field the code reads lies in the frame. */
  predicate Readable(s: seq<byte>) {
    && |s| >= ETH_HLEN + 20
    && (IsUdp(s) ==> |s| >= UdpAt(s) + 4)
    && (IsUdp(s) && FromClient(s) ==> |s| >= UdpAt(s) + COOKIE_AT + 4)
  }

  /** A DHCP request without the broadcast flag. */
  predicate AsksUnicast(s: seq<byte>)
    requires Readable(s)
  {
    && IsUdp(s) && FromClient(s)
    && s[UdpAt(s) + COOKIE_AT..UdpAt(s) + COOKIE_AT + 4] == MAGIC
    && s[UdpAt(s) + FLAGS_AT] < 0x80
  }

  function Flags(h: Host, s: seq<byte>, u: nat): u16
    requires |s| >= u + COOKIE_AT
  {
    Word(h, s[u + FLAGS_AT], s[u + FLAGS_AT + 1])
  }

  function Check(h: Host, s: seq<byte>, u: nat): u16
    requires |s| >= u + COOKIE_AT
  {
    Word(h, s[u + CHECK_AT], s[u + CHECK_AT + 1])
  }

  /** The flag is the top bit of the first octet, and so not the same bit of the host's word everywhere. */
  lemma FlagIsFree(h: Host, s: seq<byte>, u: nat)
    requires |s| >= u + COOKIE_AT
    ensures Bit(Flags(h, s, u), Htons(h, BROADCAST_FLAG)) <==> s[u + FLAGS_AT] >= 0x80
    ensures !Bit(Flags(h, s, u), Htons(h, BROADCAST_FLAG)) ==> Flags(h, s, u) + Htons(h, BROADCAST_FLAG) <= 0xFFFF
  {
    var b0, b1 := s[u + FLAGS_AT], s[u + FLAGS_AT + 1];
    if h.BigEndian? {
      assert Be16(b0, b1) / 0x8000 == b0 / 0x80;
    } else {
      assert Le16(b0, b1) / 0x80 == b1 as int * 2 + b0 as int / 0x80;
    }
  }

  /** The new checksum field: the complement of (the complement of the old one, plus the new flags). */
  function NewCheck(check: u16, newFlags: u16): u16 {
    0xFFFF - Folded((0xFFFF - check) as int + newFlags as int)
  }

  function NewFlags(h: Host, s: seq<byte>, u: nat): (f: u16)
    requires |s| >= u + COOKIE_AT && s[u + FLAGS_AT] < 0x80
    ensures f as int == Flags(h, s, u) as int + Htons(h, BROADCAST_FLAG) as int && f != 0
    ensures Flags(h, s, u) != 0xFFFF
  {
    FlagIsFree(h, s, u);
    Flags(h, s, u) + Htons(h, BROADCAST_FLAG)
  }

  /** The frame with the flag set and the checksum updated. */
  function Broadcast(h: Host, s: seq<byte>, u: nat): (r: seq<byte>)
    requires |s| >= u + COOKIE_AT && s[u + FLAGS_AT] < 0x80
    ensures |r| == |s|
  {
    var f := NewFlags(h, s, u);
    Stored(Stored(s, u + FLAGS_AT, Octets(h, f)), u + CHECK_AT, Octets(h, NewCheck(Check(h, s, u), f)))
  }

  /** The guards, each read only when the ones before it hold. */
  method IsUnicastRequest(h: Host, data: array<byte>) returns (ask: bool, udph: nat)
    requires Readable(data[..])
    ensures ask <==> AsksUnicast(data[..])
    ensures ask ==> udph == UdpAt(data[..])
  {
    udph := ETH_HLEN + data[ETH_HLEN] % 0x10 * 4;
    if data[12..14] != [0x08, 0x00] || data[ETH_HLEN + 9] != IPPROTO_UDP {
      return false, udph;
    }
    if Be16(data[udph], data[udph + 1]) != CLIENT_PORT || Be16(data[udph + 2], data[udph + 3]) != SERVER_PORT {
      return false, udph;
    }
    if data[udph + COOKIE_AT..udph + COOKIE_AT + 4] != MAGIC {
      return false, udph;
    }
    FlagIsFree(h, data[..], udph);
    ask := !Bit(Word(h, data[udph + FLAGS_AT], data[udph + FLAGS_AT + 1]), Htons(h, BROADCAST_FLAG));
  }

  method DhcpFlagBcast(h: Host, dhcp_bcst_disable: bool, data: array<byte>)
    requires Readable(data[..])
    modifies data
    ensures data[..] == if !dhcp_bcst_disable && AsksUnicast(old(data[..]))
                        then Broadcast(h, old(data[..]), UdpAt(old(data[..]))) else old(data[..])
  {
    hide Broadcast, Stored, Word, Octets, Be16, MAGIC;
    if !dhcp_bcst_disable {
      var ask, udph := IsUnicastRequest(h, data);
      if ask {
        var flags := Word(h, data[udph + FLAGS_AT], data[udph + FLAGS_AT + 1]);
        SetFlag(h, data, udph, flags, Htons(h, BROADCAST_FLAG));
      }
    }
  }

  method SetFlag(h: Host, data: array<byte>, udph: nat, flags: u16, bflag: u16)
    requires data.Length >= udph + COOKIE_AT && data[udph + FLAGS_AT] < 0x80
    requires flags == Flags(h, data[..], udph) && bflag == Htons(h, BROADCAST_FLAG)
    modifies data
    ensures data[..] == Broadcast(h, old(data[..]), udph)
  {
    hide Word, Octets, Stored, NewCheck, Broadcast;
    ghost var s0: seq<byte> := data[..];
    ghost var f := NewFlags(h, s0, udph);
    Fields(h, s0, udph);
    Store(data, udph + FLAGS_AT, Octets(h, flags + bflag));
    ghost var s1: seq<byte> := data[..];
    var check := Word(h, data[udph + CHECK_AT], data[udph + CHECK_AT + 1]);
    assert check == Check(h, s1, udph);
    var sum := Fold((0xFFFF - check) as int + flags as int + bflag as int);
    FoldedIs((0xFFFF - check) as int + flags as int + bflag as int, sum);
    CheckIs(check, f, sum);
    Store(data, udph + CHECK_AT, Octets(h, 0xFFFF - sum));
  }

  lemma CheckIs(check: u16, f: u16, sum: u16)
    requires sum == Folded((0xFFFF - check) as int + f as int)
    ensures NewCheck(check, f) == 0xFFFF - sum
  {
  }

  // ----- what it does to the checksum -----

  /** The octets the UDP checksum covers: a pseudo header taken from the IP header, then the datagram. */
  function Covered(pseudo: seq<byte>, s: seq<byte>, u: nat, len: nat): seq<byte>
    requires u + len <= |s|
  {
    pseudo + s[u..u + len]
  }

  lemma StoredIn(pseudo: seq<byte>, s: seq<byte>, u: nat, len: nat, at: nat, t: seq<byte>)
    requires u + len <= |s| && at + 2 <= len && |t| == 2
    ensures var c := Covered(pseudo, s, u, len);
            && Covered(pseudo, Stored(s, u + at, t), u, len) == Stored(c, |pseudo| + at, t)
            && c[|pseudo| + at] == s[u + at] && c[|pseudo| + at + 1] == s[u + at + 1]
  {
    var c, s' := Covered(pseudo, s, u, len), Stored(s, u + at, t);
    assert s'[u..u + len] == s[u..u + at] + t + s[u + at + 2..u + len];
    assert c[..|pseudo| + at] == pseudo + s[u..u + at];
    assert c[|pseudo| + at + 2..] == s[u + at + 2..u + len];
  }

  /** A write into the datagram, seen in the covered octets. */
  lemma CoveredAfterWrite(h: Host, pseudo: seq<byte>, s: seq<byte>, u: nat, len: nat, at: nat, t: seq<byte>)
    requires u + len <= |s| && |pseudo| % 2 == 0 && at % 2 == 0 && at + 2 <= len && |t| == 2
    ensures Sum(h, Covered(pseudo, Stored(s, u + at, t), u, len)) + Word(h, s[u + at], s[u + at + 1]) as nat
         == Sum(h, Covered(pseudo, s, u, len)) + Word(h, t[0], t[1]) as nat
  {
    hide Sum, Stored, Word;
    var c, k := Covered(pseudo, s, u, len), (|pseudo| + at) / 2;
    assert 2 * k == |pseudo| + at;
    StoredIn(pseudo, s, u, len, at, t);
    SumAfterWrite(h, c, k, t);
  }

  /** For a datagram of any length, with or without a checksum: afterwards the sum is smaller by exactly the flags that
    * had been there, because only the new flags are added where the update needs the difference of new and old. */
  lemma SumAfterBroadcast(h: Host, pseudo: seq<byte>, s: seq<byte>, u: nat, len: nat)
    requires u + len <= |s| && len >= COOKIE_AT + 4 && |pseudo| % 2 == 0 && s[u + FLAGS_AT] < 0x80
    ensures (Sum(h, Covered(pseudo, Broadcast(h, s, u), u, len)) + Flags(h, s, u)) % 0xFFFF
         == Sum(h, Covered(pseudo, s, u, len)) % 0xFFFF
  {
    hide Sum, Word, Octets, Stored, Covered, NewCheck, Broadcast;
    var f, c := NewFlags(h, s, u), Check(h, s, u);
    var s1 := Stored(s, u + FLAGS_AT, Octets(h, f));
    CoveredAfterWrite(h, pseudo, s, u, len, FLAGS_AT, Octets(h, f));
    CoveredAfterWrite(h, pseudo, s1, u, len, CHECK_AT, Octets(h, NewCheck(c, f)));
    Fields(h, s, u);
    CheckMoves(c, f);
    ModShift(Sum(h, Covered(pseudo, Broadcast(h, s, u), u, len)) + Flags(h, s, u) as int,
             Sum(h, Covered(pseudo, s, u, len)), c, f as int + NewCheck(c, f) as int);
  }

  /** The two fields before, between and after the two writes. */
  lemma Fields(h: Host, s: seq<byte>, u: nat)
    requires |s| >= u + COOKIE_AT && s[u + FLAGS_AT] < 0x80
    ensures var f, c := NewFlags(h, s, u), Check(h, s, u);
            var s1 := Stored(s, u + FLAGS_AT, Octets(h, f));
            && Check(h, s1, u) == c
            && Broadcast(h, s, u) == Stored(s1, u + CHECK_AT, Octets(h, NewCheck(c, f)))
            && Flags(h, Broadcast(h, s, u), u) == f && Check(h, Broadcast(h, s, u), u) == NewCheck(c, f)
  {
    hide NewCheck, Octets;
  }

  /** The checksum field goes down by the new flags, modulo 65535. */
  lemma CheckMoves(c: u16, f: u16)
    ensures (f as int + NewCheck(c, f) as int) % 0xFFFF == c as int % 0xFFFF
    ensures f != 0 ==> (NewCheck(c, f) == 0 <==> c == f || (c == 0 && f == 0xFFFF))
  {
  }

  lemma ModShift(x: nat, y: nat, c: nat, d: nat)
    requires x + c == y + d && c % 0xFFFF == d % 0xFFFF
    ensures x % 0xFFFF == y % 0xFFFF
  {
    var qc, qd := c / 0xFFFF, d / 0xFFFF;
    assert x + qc * 0xFFFF == y + qd * 0xFFFF;
    ModDrop(x, qc);
    ModDrop(y, qd);
  }

  /** A datagram whose checksum verified still verifies exactly when it had no other flags set. */
  lemma StillVerifiesIffFlagsWereZero(h: Host, pseudo: seq<byte>, s: seq<byte>, u: nat, len: nat)
    requires u + len <= |s| && len >= COOKIE_AT + 4 && |pseudo| % 2 == 0 && s[u + FLAGS_AT] < 0x80
    requires Verifies(h, Covered(pseudo, s, u, len))
    ensures Verifies(h, Covered(pseudo, Broadcast(h, s, u), u, len)) <==> Flags(h, s, u) == 0
  {
    hide Sum, Covered, Broadcast, Word;
    SumAfterBroadcast(h, pseudo, s, u, len);
    assert NewFlags(h, s, u) != 0;
    SameResidue(Sum(h, Covered(pseudo, Broadcast(h, s, u), u, len)), Sum(h, Covered(pseudo, s, u, len)),
                Flags(h, s, u));
  }

  lemma SameResidue(x: nat, y: nat, d: u16)
    requires (x + d as int) % 0xFFFF == y % 0xFFFF && d < 0xFFFF
    ensures x % 0xFFFF == 0 <==> y % 0xFFFF == d
  {
    var q, r := x / 0xFFFF, x % 0xFFFF;
    ModDrop(r + d as int, q);
    assert x + d as int == r + d as int + q * 0xFFFF;
  }

  /** Every request can be turned into one that fails, by a flag in the reserved bits and the checksum that
    * goes with it. */
  lemma EveryRequestCanFail(h: Host, pseudo: seq<byte>, s: seq<byte>, len: nat)
    requires Readable(s) && AsksUnicast(s) && UdpAt(s) + len <= |s| && len >= COOKIE_AT + 4 && |pseudo| % 2 == 0
    ensures exists c: u16 :: c != 0 &&
              var t, u := Reflagged(h, s, UdpAt(s), c), UdpAt(s);
              && Readable(t) && AsksUnicast(t) && UdpAt(t) == u && Verifies(h, Covered(pseudo, t, u, len))
              && !Verifies(h, Covered(pseudo, Broadcast(h, t, u), u, len))
  {
    hide Sum, Covered, Broadcast, Readable, AsksUnicast;
    var u := UdpAt(s);
    StaysARequest(s, FLAGS_AT, [0, 1]);
    var s1 := Stored(s, u + FLAGS_AT, [0, 1]);
    var old_: u16 := Check(h, s1, u);
    var rest := Sum(h, Covered(pseudo, s1, u, len)) + 0xFFFF - old_ as int;
    var c: u16 := 0xFFFF - rest % 0xFFFF;
    var t := Reflagged(h, s, u, c);
    StaysARequest(s1, CHECK_AT, Octets(h, c));
    CoveredAfterWrite(h, pseudo, s1, u, len, CHECK_AT, Octets(h, c));
    assert Sum(h, Covered(pseudo, t, u, len)) + old_ as int == Sum(h, Covered(pseudo, s1, u, len)) + c as int;
    ModDrop(0, rest / 0xFFFF);
    assert Sum(h, Covered(pseudo, t, u, len)) == 0 + rest / 0xFFFF * 0xFFFF;
    StillVerifiesIffFlagsWereZero(h, pseudo, t, u, len);
  }

  /** s with only the last of the reserved flags set, and c in the checksum field. */
  function Reflagged(h: Host, s: seq<byte>, u: nat, c: u16): (t: seq<byte>)
    requires |s| >= u + COOKIE_AT
    ensures |t| == |s| && t[u + FLAGS_AT] == 0 && t[u + FLAGS_AT + 1] == 1
  {
    Stored(Stored(s, u + FLAGS_AT, [0, 1]), u + CHECK_AT, Octets(h, c))
  }

  /** A write into the checksum, the seconds or the flags leaves a request one. */
  lemma StaysARequest(s: seq<byte>, at: nat, t: seq<byte>)
    requires Readable(s) && AsksUnicast(s) && |t| == 2
    requires at == CHECK_AT || at == SECS_AT || (at == FLAGS_AT && t[0] < 0x80)
    ensures var s' := Stored(s, UdpAt(s) + at, t);
            Readable(s') && AsksUnicast(s') && UdpAt(s') == UdpAt(s)
  {
    hide Stored;
    var u := UdpAt(s);
    var s' := Stored(s, u + at, t);
    WordStored(s, u + at, t);
    SameSlice(s, s', 12, 14, u + at);
    SameSlice(s, s', u + COOKIE_AT, u + COOKIE_AT + 4, u + at);
  }

  lemma SameSlice(s: seq<byte>, s': seq<byte>, lo: nat, hi: nat, at: nat)
    requires lo <= hi <= |s| == |s'| && (hi <= at || at + 2 <= lo)
    requires forall i :: 0 <= i < |s| && i != at && i != at + 1 ==> s'[i] == s[i]
    ensures s'[lo..hi] == s[lo..hi]
  {
  }

  /** Two octets written: they are there, and every other one is as it was. */
  lemma WordStored(s: seq<byte>, at: nat, t: seq<byte>)
    requires at + 2 <= |s| && |t| == 2
    ensures var r := Stored(s, at, t);
            && r[at] == t[0] && r[at + 1] == t[1]
            && forall i :: 0 <= i < |s| && i != at && i != at + 1 ==> r[i] == s[i]
  {
  }

  /** What a receiver takes: a checksum that verifies, or the zero that says there is none. */
  predicate Accepted(h: Host, pseudo: seq<byte>, s: seq<byte>, u: nat, len: nat)
    requires u + len <= |s| && len >= COOKIE_AT + 4
  {
    Check(h, s, u) == 0 || Verifies(h, Covered(pseudo, s, u, len))
  }

  /** An accepted datagram that carried a checksum is accepted afterwards exactly when it had no other flags, or its
    * checksum field was equal to the new flags, which turns the checksum into the zero that means none. */
  lemma AcceptedAfterBroadcast(h: Host, pseudo: seq<byte>, s: seq<byte>, u: nat, len: nat)
    requires u + len <= |s| && len >= COOKIE_AT + 4 && |pseudo| % 2 == 0 && s[u + FLAGS_AT] < 0x80
    requires Check(h, s, u) != 0 && Accepted(h, pseudo, s, u, len)
    ensures Accepted(h, pseudo, Broadcast(h, s, u), u, len) <==>
              Flags(h, s, u) == 0 || Check(h, s, u) == NewFlags(h, s, u)
  {
    hide Sum, Covered, Broadcast, Word, NewCheck;
    StillVerifiesIffFlagsWereZero(h, pseudo, s, u, len);
    Fields(h, s, u);
    CheckMoves(Check(h, s, u), NewFlags(h, s, u));
  }

  /** A datagram sent without a checksum gets one, which is right only by the chance that what it covers adds up to
    * the flags. */
  lemma UncheckedAfterBroadcast(h: Host, pseudo: seq<byte>, s: seq<byte>, u: nat, len: nat)
    requires u + len <= |s| && len >= COOKIE_AT + 4 && |pseudo| % 2 == 0 && s[u + FLAGS_AT] < 0x80
    requires Check(h, s, u) == 0
    ensures Accepted(h, pseudo, Broadcast(h, s, u), u, len) <==>
              || NewFlags(h, s, u) == 0xFFFF
              || Sum(h, Covered(pseudo, s, u, len)) % 0xFFFF == Flags(h, s, u)
  {
    hide Sum, Covered, Broadcast, Word, NewCheck;
    SumAfterBroadcast(h, pseudo, s, u, len);
    assert NewFlags(h, s, u) != 0;
    SameResidue(Sum(h, Covered(pseudo, Broadcast(h, s, u), u, len)), Sum(h, Covered(pseudo, s, u, len)),
                Flags(h, s, u));
    Fields(h, s, u);
    CheckMoves(Check(h, s, u), NewFlags(h, s, u));
  }

  /** s without flags and checksum, and with x seconds in its seconds field. */
  function Unchecked(s: seq<byte>, u: nat, x: byte): (t: seq<byte>)
    requires |s| >= u + COOKIE_AT
    ensures |t| == |s| && t[u + CHECK_AT] == t[u + CHECK_AT + 1] == 0
    ensures t[u + FLAGS_AT] == t[u + FLAGS_AT + 1] == 0 && t[u + SECS_AT] == 0 && t[u + SECS_AT + 1] == x
  {
    Stored(Stored(Stored(s, u + CHECK_AT, [0, 0]), u + FLAGS_AT, [0, 0]), u + SECS_AT, [0, x])
  }

  /** Every request can be turned into one without a checksum that a receiver takes before, and not afterwards. */
  lemma UncheckedCanFail(h: Host, pseudo: seq<byte>, s: seq<byte>, len: nat)
    requires Readable(s) && AsksUnicast(s) && UdpAt(s) + len <= |s| && len >= COOKIE_AT + 4 && |pseudo| % 2 == 0
    ensures exists x: byte ::
              var t, u := Unchecked(s, UdpAt(s), x), UdpAt(s);
              && Readable(t) && AsksUnicast(t) && UdpAt(t) == u && Accepted(h, pseudo, t, u, len)
              && !Accepted(h, pseudo, Broadcast(h, t, u), u, len)
  {
    hide Sum, Covered, Broadcast, Readable, AsksUnicast, Unchecked, UdpAt, Accepted;
    var u := UdpAt(s);
    IsUnchecked(h, pseudo, s, len, 0);
    IsUnchecked(h, pseudo, s, len, 1);
    NotBothZero(Sum(h, Covered(pseudo, Unchecked(s, u, 0), u, len)),
                Sum(h, Covered(pseudo, Unchecked(s, u, 1), u, len)),
                Word(h, 0, 1));
  }

  /** The variant is a request without a checksum, taken before; and afterwards only if what it covers adds up
    * to zero. */
  lemma IsUnchecked(h: Host, pseudo: seq<byte>, s: seq<byte>, len: nat, x: byte)
    requires Readable(s) && AsksUnicast(s) && UdpAt(s) + len <= |s| && len >= COOKIE_AT + 4 && |pseudo| % 2 == 0
    ensures var u := UdpAt(s);
            var t, t0 := Unchecked(s, u, x), Unchecked(s, u, 0);
            && Readable(t) && AsksUnicast(t) && UdpAt(t) == u && Accepted(h, pseudo, t, u, len)
            && (Accepted(h, pseudo, Broadcast(h, t, u), u, len) <==> Sum(h, Covered(pseudo, t, u, len)) % 0xFFFF == 0)
            && Sum(h, Covered(pseudo, t, u, len)) == Sum(h, Covered(pseudo, t0, u, len)) + Word(h, 0, x) as int
  {
    hide Sum, Covered, Broadcast, AsksUnicast, Accepted, UdpAt, Unchecked, Word;
    var u := UdpAt(s);
    UncheckedAsks(s, x);
    UncheckedSums(h, pseudo, s, u, len, x);
    UncheckedFields(h, s, u, x);
    TakenUnchecked(h, pseudo, Unchecked(s, u, x), u, len);
    UncheckedAfterBroadcast(h, pseudo, Unchecked(s, u, x), u, len);
  }

  lemma UncheckedAsks(s: seq<byte>, x: byte)
    requires Readable(s) && AsksUnicast(s)
    ensures var t := Unchecked(s, UdpAt(s), x); Readable(t) && AsksUnicast(t) && UdpAt(t) == UdpAt(s)
    ensures |s| >= UdpAt(s) + COOKIE_AT + 4
  {
    hide Stored;
    var u := UdpAt(s);
    StaysARequest(s, CHECK_AT, [0, 0]);
    var s1 := Stored(s, u + CHECK_AT, [0, 0]);
    StaysARequest(s1, FLAGS_AT, [0, 0]);
    StaysARequest(Stored(s1, u + FLAGS_AT, [0, 0]), SECS_AT, [0, x]);
  }

  lemma UncheckedSums(h: Host, pseudo: seq<byte>, s: seq<byte>, u: nat, len: nat, x: byte)
    requires u + len <= |s| && len >= COOKIE_AT + 4 && |pseudo| % 2 == 0
    ensures Sum(h, Covered(pseudo, Unchecked(s, u, x), u, len))
         == Sum(h, Covered(pseudo, Unchecked(s, u, 0), u, len)) + Word(h, 0, x) as int
  {
    hide Sum, Covered, Stored;
    var s2 := Stored(Stored(s, u + CHECK_AT, [0, 0]), u + FLAGS_AT, [0, 0]);
    CoveredAfterWrite(h, pseudo, s2, u, len, SECS_AT, [0, 0]);
    CoveredAfterWrite(h, pseudo, s2, u, len, SECS_AT, [0, x]);
  }

  lemma UncheckedFields(h: Host, s: seq<byte>, u: nat, x: byte)
    requires |s| >= u + COOKIE_AT
    ensures var t := Unchecked(s, u, x); Check(h, t, u) == 0 && Flags(h, t, u) == 0 && NewFlags(h, t, u) != 0xFFFF
  {
    hide Unchecked, NewFlags, Word, Htons;
    var t := Unchecked(s, u, x);
    ZeroWord(h);
    FlagWord(h);
    assert Flags(h, t, u) == Word(h, 0, 0) && Check(h, t, u) == Word(h, 0, 0);
    assert NewFlags(h, t, u) as int == Htons(h, BROADCAST_FLAG) as int;
  }

  lemma ZeroWord(h: Host)
    ensures Word(h, 0, 0) == 0
  {
  }

  lemma FlagWord(h: Host)
    ensures Htons(h, BROADCAST_FLAG) == if h.BigEndian? then 0x8000 else 0x80
  {
  }

  lemma TakenUnchecked(h: Host, pseudo: seq<byte>, s: seq<byte>, u: nat, len: nat)
    requires u + len <= |s| && len >= COOKIE_AT + 4 && Check(h, s, u) == 0
    ensures Accepted(h, pseudo, s, u, len)
  {
  }

  lemma NotBothZero(x: nat, y: nat, d: u16)
    requires y == x + d as int && 0 < d < 0xFFFF
    ensures x % 0xFFFF != 0 || y % 0xFFFF != 0
  {
    if x % 0xFFFF == 0 {
      ModDrop(d, x / 0xFFFF);
      assert y == d as int + x / 0xFFFF * 0xFFFF;
    }
  }
}
