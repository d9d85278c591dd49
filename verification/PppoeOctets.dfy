/** The PPPoE relay of core/rtw_br_ext.c told on tag lists taken apart: which tag is meant, what its octets are, and
  * what both ways make of the list. */
module PppoeOctets {
  import opened Bytes
  import opened Seqs
  import opened Framing
  import opened PppoeRelay

  /** No Relay-Session-Id among them. */
  ghost predicate NoSid(ts: seq<Tag>) {
    forall t <- ts :: t.tagType != 0x0110
  }

  lemma Found(a: seq<Tag>, t: Tag, b: seq<Tag>)
    requires NoSid(a)
    ensures IndexOfTag(a, PTT_RELAY_SID) == |a|
    ensures t.tagType == 0x0110 ==> IndexOfTag(a + [t] + b, PTT_RELAY_SID) == |a|
  {
    hide IndexOfTag;
    IndexOfTagIsFirst(a, PTT_RELAY_SID, |a|);
    if t.tagType == 0x0110 {
      ThreeParts(a, [t], b);
      IndexOfTagIsFirst(a + [t] + b, PTT_RELAY_SID, |a|);
    }
  }

  lemma FirstSid(a: seq<Tag>, t: Tag, b: seq<Tag>)
    requires NoSid(a)
    ensures !HasRelay(a) && OldSid(a) == [] && Rest(a) == a
    ensures t.tagType == 0x0110 ==>
              var ts := a + [t] + b;
              HasRelay(ts) && IndexOfTag(ts, 0x0110) == |a| && OldSid(ts) == t.data && Rest(ts) == a + b
                  && ts[..|a|] == a && ts[|a| + 1..] == b
  {
    hide IndexOfTag, NoSid;
    Found(a, t, b);
    ThreeParts(a, [t], b);
    assert (a + [t] + b)[|a|] == t;
  }

  /** The relay tag on the wire: type, length, the two octets of the magic, the client's address, and what the client
    * had in its own tag. */
  lemma RelayOctets(mac: seq<byte>, sid: seq<byte>)
    requires |mac| == 6 && |sid| <= 28
    ensures EncodeTag(RelayTag(mac, sid)) == [0x01, 0x10, 0x00, 8 + |sid|, 0x81, 0x86] + mac + sid
  {
    assert [0x81, 0x86] + mac + sid == MAGIC + mac + sid;
  }

  /** What insertion makes of a tag list: the relay tag goes first, and the client's own, if there was one, goes into
    * it; and on a big-endian host it takes place exactly when that one has at most 28 octets and there is room for the
    * twelve octets more, or for the eight by which a tag that is there grows. */
  lemma InsertionIs(a: seq<Tag>, t: Tag, b: seq<Tag>, mac: seq<byte>, tailroom: nat)
    requires NoSid(a) && t.tagType == 0x0110 && |mac| == 6
    ensures Verdict(BigEndian, a, tailroom) == Inserted <==> tailroom >= 12
    ensures Verdict(BigEndian, a + [t] + b, tailroom) == Inserted <==> |t.data| <= 28 && tailroom >= 8
    ensures OldSid(a) == [] && Relayed(a, mac) == [Tag(0x0110, [0x81, 0x86] + mac)] + a
    ensures |t.data| <= 28 ==>
              OldSid(a + [t] + b) == t.data
              && Relayed(a + [t] + b, mac) == [Tag(0x0110, [0x81, 0x86] + mac + t.data)] + (a + b)
  {
    hide IndexOfTag;
    FirstSid(a, t, b);
    assert [0x81, 0x86] + mac + [] == [0x81, 0x86] + mac;
  }

  /** The address and the rest of the data, as the relay left them. */
  predicate ReadsAs(data: seq<byte>, mac: seq<byte>, sid: seq<byte>) {
    |mac| == 6 && data == [0x81, 0x86] + mac + sid
  }

  lemma SplitData(data: seq<byte>)
    ensures (exists mac: seq<byte>, sid: seq<byte> :: ReadsAs(data, mac, sid)) <==>
              |data| >= 8 && data[0] == 0x81 && data[1] == 0x86
    ensures |data| >= 8 ==> (data[..2] == MAGIC <==> data[0] == 0x81 && data[1] == 0x86)
  {
    if |data| >= 8 && data[0] == 0x81 && data[1] == 0x86 {
      assert ReadsAs(data, data[2..8], data[8..]);
    }
  }

  /** What extraction makes of one: without a Relay-Session-Id nothing; with one, it takes place if and only if the data
    * of the first begins with the magic and an address. Then that is the address, and the tag keeps what stands
    * behind it, or goes if that is nothing. */
  lemma ExtractionIs(a: seq<Tag>, t: Tag, b: seq<Tag>)
    requires NoSid(a) && t.tagType == 0x0110
    ensures ExtractVerdict(a) == NoTag
    ensures var ts := a + [t] + b;
            && (ExtractVerdict(ts) == BadLength <==> |t.data| < 8)
            && (ExtractVerdict(ts) == Extracted <==> exists mac: seq<byte>, sid: seq<byte> :: ReadsAs(t.data, mac, sid))
            && ExtractVerdict(ts) != NoTag && (ExtractVerdict(ts) == Extracted <==> Carries(ts))
  {
    hide IndexOfTag;
    FirstSid(a, t, b);
    SplitData(t.data);
  }

  lemma ExtractedIs(a: seq<Tag>, t: Tag, b: seq<Tag>, mac: seq<byte>, sid: seq<byte>)
    requires NoSid(a) && t.tagType == 0x0110 && ReadsAs(t.data, mac, sid)
    ensures var ts := a + [t] + b;
            && Carries(ts) && ClientOf(ts) == mac
            && Stripped(ts) == if sid == [] then a + b else a + [Tag(0x0110, sid)] + b
  {
    hide IndexOfTag;
    FirstSid(a, t, b);
    SplitData(t.data);
    assert t.data[2..8] == mac && t.data[8..] == sid;
  }
}
