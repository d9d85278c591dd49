/** The frames that dhcp_flag_bcast of core/rtw_br_ext.c rewrites, put together from their fields. */
module DhcpFrames {
  import opened Bytes
  import opened Seqs
  import opened Dhcp

  /** Everything in front of the UDP header: two MAC addresses, the type, and an IP header of ihl words. */
  datatype Front = Front(macs: seq<byte>, etherType: seq<byte>, version: nat, ihl: nat, ip1to8: seq<byte>,
                         protocol: byte, ipFrom10: seq<byte>)

  /** The UDP header, and the DHCP message behind it. */
  datatype Datagram = Datagram(source: seq<byte>, dest: seq<byte>, len: seq<byte>, check: seq<byte>,
                               upToSecs: seq<byte>, flags: seq<byte>, addresses: seq<byte>, cookie: seq<byte>,
                               options: seq<byte>)

  predicate ProperFront(p: Front) {
    && |p.macs| == 12 && |p.etherType| == 2 && p.version < 16 && 5 <= p.ihl < 16
    && |p.ip1to8| == 8 && |p.ipFrom10| == 4 * p.ihl - 10
  }

  predicate ProperDatagram(d: Datagram) {
    && |d.source| == |d.dest| == |d.len| == |d.check| == |d.flags| == 2
    && |d.upToSecs| == 10 && |d.addresses| == 224 && |d.cookie| == 4
  }

  function EncodeFront(p: Front): seq<byte>
    requires ProperFront(p)
  {
    p.macs + p.etherType + [p.version * 16 + p.ihl] + p.ip1to8 + [p.protocol] + p.ipFrom10
  }

  function EncodeHeader(d: Datagram): seq<byte> {
    d.source + d.dest + d.len + d.check
  }

  function EncodeMessage(d: Datagram): seq<byte> {
    d.upToSecs + d.flags + d.addresses + d.cookie + d.options
  }

  function EncodeFrame(p: Front, d: Datagram): seq<byte>
    requires ProperFront(p)
  {
    EncodeFront(p) + (EncodeHeader(d) + EncodeMessage(d))
  }

  lemma FrontAt(p: Front)
    requires ProperFront(p)
    ensures var s := EncodeFront(p);
            |s| == 14 + 4 * p.ihl && s[12..14] == p.etherType && s[14] % 16 == p.ihl && s[23] == p.protocol
  {
  }

  lemma HeaderAt(d: Datagram)
    requires ProperDatagram(d)
    ensures var s := EncodeHeader(d);
            |s| == 8 && s[0..2] == d.source && s[2..4] == d.dest && s[4..6] == d.len && s[6..8] == d.check
  {
  }

  lemma MessageAt(d: Datagram)
    requires ProperDatagram(d)
    ensures var s := EncodeMessage(d);
            && |s| >= 240 && s[..10] == d.upToSecs && s[10..12] == d.flags && s[12..236] == d.addresses
            && s[236..240] == d.cookie && s[240..] == d.options
  {
  }

  lemma FrameAt(p: Front, d: Datagram)
    requires ProperFront(p) && ProperDatagram(d)
    ensures var s, u := EncodeFrame(p, d), 14 + 4 * p.ihl;
            && |s| >= u + 248 && s[12..14] == p.etherType && s[14] % 16 == p.ihl && s[23] == p.protocol
            && s[u..u + 2] == d.source && s[u + 2..u + 4] == d.dest && s[u + 6..u + 8] == d.check
            && s[u + 18..u + 20] == d.flags && s[u + 244..u + 248] == d.cookie
  {
    hide EncodeFront, EncodeHeader, EncodeMessage;
    var s, u, x, m := EncodeFrame(p, d), 14 + 4 * p.ihl, EncodeHeader(d), EncodeMessage(d);
    FrontAt(p);
    HeaderAt(d);
    MessageAt(d);
    assert s[..u] == EncodeFront(p) && s[u..u + 8] == x && s[u + 8..] == m;
    assert s[12..14] == s[..u][12..14];
    assert s[u..u + 2] == s[u..u + 8][0..2] && s[u + 2..u + 4] == s[u..u + 8][2..4];
    assert s[u + 6..u + 8] == s[u..u + 8][6..8];
    assert s[u + 18..u + 20] == s[u + 8..][10..12] && s[u + 244..u + 248] == s[u + 8..][236..240];
  }

  /** The frame is rewritten if and only if it is an IPv4 UDP datagram from port 68 to port 67 with the DHCP cookie, and
    * the top bit of its flags is clear. */
  lemma AsksIff(p: Front, d: Datagram)
    requires ProperFront(p) && ProperDatagram(d)
    ensures var s := EncodeFrame(p, d);
            && Readable(s) && UdpAt(s) == 14 + 4 * p.ihl
            && (AsksUnicast(s) <==>
                && p.etherType == [0x08, 0x00] && p.protocol == 17
                && d.source == [0, 68] && d.dest == [0, 67]
                && d.cookie == [0x63, 0x82, 0x53, 0x63] && d.flags[0] < 0x80)
  {
    hide EncodeFrame;
    FrameAt(p, d);
    PortIs(d.source, 68);
    PortIs(d.dest, 67);
    var s, u := EncodeFrame(p, d), 14 + 4 * p.ihl;
    assert s[u] == d.source[0] && s[u + 1] == d.source[1];
    assert s[u + 2] == d.dest[0] && s[u + 3] == d.dest[1];
    assert s[u + 18] == d.flags[0];
  }

  lemma PortIs(t: seq<byte>, port: byte)
    requires |t| == 2
    ensures Be16(t[0], t[1]) == port <==> t == [0, port]
  {
  }

  /** What comes out is the same frame with the top bit of the flags set and another checksum: nothing else changes. */
  lemma BroadcastIs(h: Host, p: Front, d: Datagram)
    requires ProperFront(p) && ProperDatagram(d) && d.flags[0] < 0x80
    ensures var s, u := EncodeFrame(p, d), 14 + 4 * p.ihl;
            && |s| >= u + COOKIE_AT && s[u + FLAGS_AT] < 0x80
            && exists check: seq<byte> ::
                 && |check| == 2
                 && Broadcast(h, s, u) == EncodeFrame(p, d.(flags := [d.flags[0] + 0x80, d.flags[1]], check := check))
  {
    hide EncodeFront, EncodeHeader, EncodeMessage, Stored, Octets, NewCheck;
    FrameAt(p, d);
    var s, u := EncodeFrame(p, d), 14 + 4 * p.ihl;
    assert s[u + 18] == d.flags[0] && s[u + 19] == d.flags[1];
    var f := NewFlags(h, s, u);
    var flags, check := Octets(h, f), Octets(h, NewCheck(Check(h, s, u), f));
    FlagOctets(h, d.flags[0], d.flags[1], f);
    FlagsStored(p, d, flags);
    CheckStored(p, d.(flags := flags), check);
  }

  /** The top bit of the first octet, on either kind of host. */
  lemma FlagOctets(h: Host, b0: byte, b1: byte, f: u16)
    requires b0 < 0x80 && f as int == Word(h, b0, b1) as int + Htons(h, BROADCAST_FLAG) as int
    ensures Octets(h, f) == [b0 + 0x80, b1]
  {
  }

  lemma FlagsStored(p: Front, d: Datagram, t: seq<byte>)
    requires ProperFront(p) && ProperDatagram(d) && |t| == 2
    ensures |EncodeFrame(p, d)| >= 14 + 4 * p.ihl + 20
    ensures Stored(EncodeFrame(p, d), 14 + 4 * p.ihl + 18, t) == EncodeFrame(p, d.(flags := t))
  {
    hide EncodeFront, EncodeHeader, Stored;
    FrontAt(p);
    HeaderAt(d);
    assert EncodeHeader(d.(flags := t)) == EncodeHeader(d) by { HeaderIs(d, t); }
    var x, y, z := EncodeFront(p) + EncodeHeader(d) + d.upToSecs, d.addresses, d.cookie + d.options;
    AroundFlags(EncodeFront(p), EncodeHeader(d), d.upToSecs, d.flags, d.addresses, d.cookie, d.options);
    AroundFlags(EncodeFront(p), EncodeHeader(d), d.upToSecs, t, d.addresses, d.cookie, d.options);
    StoredBetween(x, d.flags, t, y + z);
  }

  lemma HeaderIs(d: Datagram, t: seq<byte>)
    ensures EncodeHeader(d.(flags := t)) == EncodeHeader(d) && EncodeMessage(d.(check := t)) == EncodeMessage(d)
  {
  }

  lemma AroundFlags(x: seq<byte>, y: seq<byte>, a: seq<byte>, b: seq<byte>, c: seq<byte>, d: seq<byte>, e: seq<byte>)
    ensures x + (y + (a + b + c + d + e)) == (x + y + a) + b + (c + (d + e))
  {
  }

  lemma AroundCheck(x: seq<byte>, a: seq<byte>, b: seq<byte>, c: seq<byte>, d: seq<byte>, y: seq<byte>)
    ensures x + ((a + b + c + d) + y) == (x + a + b + c) + d + y
  {
  }

  lemma CheckStored(p: Front, d: Datagram, t: seq<byte>)
    requires ProperFront(p) && ProperDatagram(d) && |t| == 2
    ensures |EncodeFrame(p, d)| >= 14 + 4 * p.ihl + 20
    ensures Stored(EncodeFrame(p, d), 14 + 4 * p.ihl + 6, t) == EncodeFrame(p, d.(check := t))
  {
    hide EncodeFront, EncodeMessage, Stored;
    FrontAt(p);
    MessageAt(d);
    HeaderIs(d, t);
    AroundCheck(EncodeFront(p), d.source, d.dest, d.len, d.check, EncodeMessage(d));
    AroundCheck(EncodeFront(p), d.source, d.dest, d.len, t, EncodeMessage(d));
    StoredBetween(EncodeFront(p) + d.source + d.dest + d.len, d.check, t, EncodeMessage(d));
  }

  lemma StoredBetween(x: seq<byte>, was: seq<byte>, t: seq<byte>, y: seq<byte>)
    requires |was| == |t|
    ensures Stored(x + was + y, |x|, t) == x + t + y
  {
  }
}
