/** The PPPoE relay of core/rtw_br_ext.c: a client's address travels to the server and back inside a
  * Relay-Session-Id tag (section 5 and Appendix A of RFC 2516), rewritten in place in the frame. */
module PppoeRelay {
  import opened Bytes
  import opened Seqs
  import opened Framing

  const ETH_ALEN: nat := 6
  /** Ethernet header, then version/type, code and session id; the length field is at 18, the tags start at 20. */
  const LENGTH_AT: nat := 18
  const TAGS_AT: nat := 20
  const TAG_HDR_LEN: nat := 4
  const PTT_RELAY_SID: u16 := 0x0110
  const MAGIC: seq<byte> := [0x81, 0x86]
  const MAGIC_CODE_LEN: nat := 2
  const RTL_RELAY_TAG_LEN: nat := 6
  const TAG_BUF_LEN: nat := 40

  type Payload = s: seq<byte> | |s| < 0x1_0000

  datatype Tag = Tag(tagType: u16, data: Payload)

  function TagHeader(tagType: u16, n: u16): (r: seq<byte>)
    ensures |r| == TAG_HDR_LEN
  {
    [tagType / 0x100, tagType % 0x100, n / 0x100, n % 0x100]
  }

  function EncodeTag(t: Tag): (r: seq<byte>)
    ensures |r| == TAG_HDR_LEN + |t.data|
  {
    TagHeader(t.tagType, |t.data|) + t.data
  }

  function EncodeTags(ts: seq<Tag>): seq<byte> {
    Flat(EncodeTag, ts)
  }

  /** Index of the first tag of this type, or |ts|. */
  function IndexOfTag(ts: seq<Tag>, tagType: u16): (k: nat)
    ensures k <= |ts|
  {
    if ts == [] || ts[0].tagType == tagType then 0 else 1 + IndexOfTag(ts[1..], tagType)
  }

  lemma {:induction false} IndexOfTagIsFirst(ts: seq<Tag>, tagType: u16, k: nat)
    requires k <= |ts|
    ensures IndexOfTag(ts, tagType) == k <==>
              (forall j :: 0 <= j < k ==> ts[j].tagType != tagType) && (k < |ts| ==> ts[k].tagType == tagType)
  {
    if ts != [] && ts[0].tagType != tagType {
      if k > 0 {
        IndexOfTagIsFirst(ts[1..], tagType, k - 1);
        assert forall j :: 0 < j < |ts| ==> ts[j] == ts[1..][j - 1];
      }
    }
  }

  // ----- the frame -----

  /** The first len octets of s are a frame: 18 octets of headers, the length field, the tag octets, and padding. */
  ghost predicate Frame(s: seq<byte>, len: nat, head: seq<byte>, body: seq<byte>) {
    && |head| == LENGTH_AT && |body| < 0x1_0000 && TAGS_AT + |body| <= len <= |s|
    && s[..LENGTH_AT] == head
    && Be16(s[LENGTH_AT], s[LENGTH_AT + 1]) == |body|
    && s[TAGS_AT..TAGS_AT + |body|] == body
  }

  class SkBuff {
    const data: array<byte>
    var len: nat

    constructor (room: nat)
      ensures fresh(data) && data.Length == room && len == 0
    {
      data := new byte[room];
      len := 0;
    }

    /** __nat25_find_pppoe_tag */
    method FindTag(tagType: u16, ghost head: seq<byte>, ghost ts: seq<Tag>) returns (p: Option<nat>)
      requires Frame(data[..], len, head, EncodeTags(ts))
      ensures var k := IndexOfTag(ts, tagType);
              p == if k == |ts| then None else Some(TAGS_AT + Start(EncodeTag, ts, k))
    {
      hide EncodeTags, IndexOfTag, EncodeTag;
      var cur := TAGS_AT;
      var limit: nat := Be16(data[LENGTH_AT], data[LENGTH_AT + 1]);
      ghost var k := 0;
      TagsEnd(ts, 0);
      while cur - TAGS_AT < limit
        invariant k <= |ts| && cur == TAGS_AT + Start(EncodeTag, ts, k) <= TAGS_AT + limit
        invariant cur < TAGS_AT + limit <==> k < |ts|
        invariant forall j :: 0 <= j < k ==> ts[j].tagType != tagType
        decreases TAGS_AT + limit - cur
      {
        TagAt(data[..], TAGS_AT, TAGS_AT + limit, ts, k);
        var curType, tagLen := Be16(data[cur], data[cur + 1]), Be16(data[cur + 2], data[cur + 3]);
        if curType == tagType {
          IndexOfTagIsFirst(ts, tagType, k);
          return Some(cur);
        }
        cur := cur + TAG_HDR_LEN + tagLen;
        k := k + 1;
      }
      IndexOfTagIsFirst(ts, tagType, k);
      return None;
    }

    /** ph->length = htons(v) */
    method SetLength(v: nat)
      requires TAGS_AT <= data.Length
      modifies data
      ensures data[..] == WithLength(old(data[..]), v)
    {
      data[LENGTH_AT] := v % 0x1_0000 / 0x100;
      data[LENGTH_AT + 1] := v % 0x100;
    }

    /** skb_pull_and_merge: -1 when the stretch reaches past the end, with nothing changed. */
    method SkbPullAndMerge(src: nat, n: nat) returns (ok: bool)
      requires len <= data.Length
      modifies this`len, data
      ensures ok <==> src + n <= old(len)
      ensures !ok ==> len == old(len) && data[..] == old(data[..])
      ensures ok ==> len == old(len) - n && data[..] == Stored(old(data[..]), src, old(data[src + n..len]))
    {
      hide Stored;
      if src + n > len || len < n {
        return false;
      }
      ghost var s0: seq<byte> := data[..];
      var tail_len := len - (src + n);
      if tail_len > 0 {
        Move(data, src, src + n, tail_len);
      } else {
        assert s0[src + n..len] == s0[src..src];
        StoreSame(s0, src);
      }
      len := len - n;
      return true;
    }

    /** The pull, and the correction of the length field that follows every call of it. The octets dropped are y,
      * between the tag octets x and z. */
    method PullAndMerge(src: nat, n: nat, ghost head: seq<byte>, ghost x: seq<byte>, ghost y: seq<byte>,
                        ghost z: seq<byte>)
      returns (ok: bool)
      requires Frame(data[..], len, head, x + (y + z)) && src == TAGS_AT + |x| && n == |y|
      modifies this`len, data
      ensures ok && len == old(len) - n && Frame(data[..], len, head, x + z)
      ensures data[src..src + |z|] == z
    {
      hide Stored, Frame, WithLength, Be16;
      ghost var s0: seq<byte>, len0 := data[..], len;
      FrameLength(s0, len, head, x + (y + z));
      FrameHasParts(s0, len, head, x, y, z);
      ok := SkbPullAndMerge(src, n);
      PulledParts(s0, data[..], len0, src, n, head, x, y, z);
      ghost var s1: seq<byte> := data[..];
      SetLength((Be16(data[LENGTH_AT], data[LENGTH_AT + 1]) as int - n) % 0x1_0000);
      Relengthened(s1, data[..], len, head, x + z);
      LastPart(data[..], len, head, x, z);
    }

    /** __nat25_add_pppoe_tag on a tag laid out in tag_buf. tag->tag_len is in network order, and added as it stands. */
    method AddTag(h: Host, tag_buf: array<byte>, ghost head: seq<byte>, ghost body: seq<byte>) returns (r: AddResult)
      requires tag_buf != data && tag_buf.Length == TAG_BUF_LEN
      requires Frame(data[..], len, head, body)
      requires AddedLen(h, tag_buf[..]) <= TAG_BUF_LEN ==> |body| + AddedLen(h, tag_buf[..]) < 0x1_0000
      modifies this`len, data
      ensures var n := AddedLen(h, tag_buf[..]);
              r == if data.Length - old(len) < n then NoRoom else if n > TAG_BUF_LEN then Overrun else Added
      ensures r.NoRoom? ==> data[..] == old(data[..]) && len == old(len)
      ensures r.Added? ==> len == old(len) + AddedLen(h, tag_buf[..])
                           && Frame(data[..], len, head, tag_buf[..AddedLen(h, tag_buf[..])] + body)
    {
      hide Stored, Frame, WithLength, Be16, AddedLen;
      var data_len := AddedLen(h, tag_buf[..]);
      if data.Length - len < data_len {
        return NoRoom;
      }
      if data_len > TAG_BUF_LEN {
        // the copy below would run past the end of tag_buf: nothing is claimed about what follows
        return Overrun;
      }
      ghost var s0: seq<byte> := data[..];
      FrameLength(s0, len, head, body);
      len := len + data_len;
      var length := Be16(data[LENGTH_AT], data[LENGTH_AT + 1]);
      Move(data, TAGS_AT + data_len, TAGS_AT, length);
      ghost var s1: seq<byte> := data[..];
      SetLength(length as int + data_len);
      ghost var s2: seq<byte> := data[..];
      Store(data, TAGS_AT, tag_buf[..data_len]);
      RoomMade(s0, s1, s2, data[..], len, data_len, head, body, tag_buf[..data_len]);
      return Added;
    }

    /** The first half of the PADI/PADR branch: an old Relay-Session-Id is copied behind the place of the new tag's own
      * data, and removed from the frame. Returns its length, or None where the branch gives up. */
    method TakeOldTag(tag_buf: array<byte>, ghost head: seq<byte>, ghost ts: seq<Tag>)
      returns (old_tag_len: Option<nat>)
      requires tag_buf != data && tag_buf.Length == TAG_BUF_LEN
      requires Frame(data[..], len, head, EncodeTags(ts))
      modifies this`len, data, tag_buf
      ensures old_tag_len == if |OldSid(ts)| + RELAY_AT > TAG_BUF_LEN then None else Some(|OldSid(ts)|)
      ensures old_tag_len.None? ==> data[..] == old(data[..]) && len == old(len)
      ensures old_tag_len.Some? ==>
                && Frame(data[..], len, head, EncodeTags(Rest(ts))) && len == old(len) - OldTagLen(ts)
                && tag_buf[RELAY_AT..RELAY_AT + |OldSid(ts)|] == OldSid(ts)
    {
      hide EncodeTags, EncodeTag, IndexOfTag, Frame, Stored;
      ghost var k := IndexOfTag(ts, PTT_RELAY_SID);
      var pOldTag := FindTag(PTT_RELAY_SID, head, ts);
      if pOldTag.None? {
        assert tag_buf[RELAY_AT..RELAY_AT] == [];
        return Some(0);
      }
      var p := pOldTag.value;
      TagInFrame(data[..], len, head, ts, k);
      var tag_len: nat := Be16(data[p + 2], data[p + 3]);
      if tag_len + TAG_HDR_LEN + MAGIC_CODE_LEN + RTL_RELAY_TAG_LEN > TAG_BUF_LEN {
        return None;
      }
      StoredSlices(tag_buf[..], RELAY_AT, ts[k].data);
      Store(tag_buf, RELAY_AT, data[p + TAG_HDR_LEN..p + TAG_HDR_LEN + tag_len]);
      var ok := PullAndMerge(p, TAG_HDR_LEN + tag_len, head,
                             EncodeTags(ts[..k]), EncodeTag(ts[k]), EncodeTags(ts[k + 1..]));
      return Some(tag_len);
    }

    /** The PADI/PADR branch of nat25_db_handle with addPPPoETag set: the client's address goes into a relay tag in
      * front of the other tags, with an old Relay-Session-Id appended to it. */
    method InsertRelay(h: Host, ghost head: seq<byte>, ghost ts: seq<Tag>) returns (r: InsertResult)
      requires Frame(data[..], len, head, EncodeTags(ts))
      requires |EncodeTags(ts)| + TAG_BUF_LEN < 0x1_0000
      modifies this`len, data
      ensures r == Verdict(h, ts, data.Length - old(len))
      ensures r.TooLong? ==> data[..] == old(data[..]) && len == old(len)
      ensures r.NoSpace? ==> Frame(data[..], len, head, EncodeTags(Rest(ts))) && len == old(len) - OldTagLen(ts)
      ensures r.Inserted? ==> |OldSid(ts)| + RELAY_AT <= TAG_BUF_LEN && |head| == LENGTH_AT
                              && Frame(data[..], len, head, EncodeTags(Relayed(ts, head[ETH_ALEN..2 * ETH_ALEN])))
                              && len == old(len) - OldTagLen(ts) + RELAY_AT + |OldSid(ts)|
    {
      hide EncodeTags, EncodeTag, IndexOfTag, Frame, Stored, AddedLen, Relayed, RelayTag, Rest;
      FrameLength(data[..], len, head, EncodeTags(ts));
      RestIsShorter(ts);
      var tag_buf := new byte[TAG_BUF_LEN];
      var old_tag_len := TakeOldTag(tag_buf, head, ts);
      if old_tag_len.None? {
        return TooLong;
      }
      FrameLength(data[..], len, head, EncodeTags(Rest(ts)));
      RelayedEncodes(ts, head[ETH_ALEN..2 * ETH_ALEN]);
      r := AddRelay(h, tag_buf, old_tag_len.value, head, OldSid(ts), EncodeTags(Rest(ts)));
    }

    /** The second half: the new tag is built and added. */
    method AddRelay(h: Host, tag_buf: array<byte>, old_tag_len: nat, ghost head: seq<byte>, ghost sid: seq<byte>,
                    ghost rest: seq<byte>)
      returns (r: InsertResult)
      requires tag_buf != data && tag_buf.Length == TAG_BUF_LEN && Frame(data[..], len, head, rest)
      requires old_tag_len == |sid| && RELAY_AT + |sid| <= TAG_BUF_LEN && tag_buf[RELAY_AT..RELAY_AT + |sid|] == sid
      requires |rest| + TAG_BUF_LEN < 0x1_0000 && |head| == LENGTH_AT
      modifies this`len, data, tag_buf
      ensures var needed := Htons(h, MAGIC_CODE_LEN + RTL_RELAY_TAG_LEN + |sid|) as int + TAG_HDR_LEN;
              r == if data.Length - old(len) < needed then NoSpace
                   else if needed > TAG_BUF_LEN then PastTheBuffer else Inserted
      ensures r.NoSpace? ==> Frame(data[..], len, head, rest) && len == old(len)
      ensures var relay := RelayTag(head[ETH_ALEN..2 * ETH_ALEN], sid);
              r.Inserted? ==> len == old(len) + RELAY_AT + |sid| && Frame(data[..], len, head, EncodeTag(relay) + rest)
    {
      hide EncodeTag, Frame, Stored, AddedLen, RelayTag;
      SourceAddress(data[..], len, head, rest);
      BuildTag(tag_buf, old_tag_len, sid);
      FitsOnBigEndian(h, sid);
      var added := AddTag(h, tag_buf, head, rest);
      match added {
        case NoRoom => return NoSpace;
        case Overrun => return PastTheBuffer;
        case Added => return Inserted;
      }
    }

    /** The relay tag laid out in tag_buf, in front of what is already there of its data. */
    method BuildTag(tag_buf: array<byte>, old_tag_len: nat, ghost sid: seq<byte>)
      requires tag_buf != data && tag_buf.Length == TAG_BUF_LEN && data.Length >= TAGS_AT
      requires old_tag_len == |sid| && RELAY_AT + |sid| <= TAG_BUF_LEN && tag_buf[RELAY_AT..RELAY_AT + |sid|] == sid
      modifies tag_buf
      ensures tag_buf[..RELAY_AT + |sid|] == EncodeTag(RelayTag(data[ETH_ALEN..2 * ETH_ALEN], sid))
      ensures forall h ::
                  AddedLen(h, tag_buf[..]) == Htons(h, MAGIC_CODE_LEN + RTL_RELAY_TAG_LEN + |sid|) as int + TAG_HDR_LEN
      ensures forall h: Host :: h.BigEndian? ==> AddedLen(h, tag_buf[..]) == RELAY_AT + |sid|
    {
      hide EncodeTag, Stored, AddedLen, RelayTag;
      var tag_len: u16 := MAGIC_CODE_LEN + RTL_RELAY_TAG_LEN + old_tag_len;
      ghost var b0: seq<byte> := tag_buf[..];
      Store(tag_buf, 0, TagHeader(PTT_RELAY_SID, tag_len));
      ghost var b1: seq<byte> := tag_buf[..];
      Store(tag_buf, TAG_HDR_LEN, MAGIC);
      ghost var b2: seq<byte> := tag_buf[..];
      Store(tag_buf, TAG_HDR_LEN + MAGIC_CODE_LEN, data[ETH_ALEN..2 * ETH_ALEN]);
      TagBuilt(b0, b1, b2, tag_buf[..], data[ETH_ALEN..2 * ETH_ALEN], sid);
    }

    /** The PADO/PADS branch: the relay tag tells where the frame goes, and is taken out again, except for what the
      * client had put there. */
    method ExtractRelay(ghost head: seq<byte>, ghost ts: seq<Tag>) returns (r: ExtractResult)
      requires Frame(data[..], len, head, EncodeTags(ts))
      modifies this`len, data
      ensures r == ExtractVerdict(ts)
      ensures !r.Extracted? ==> data[..] == old(data[..]) && len == old(len)
      ensures r.Extracted? ==> |head| == LENGTH_AT && Carries(ts)
                               && Frame(data[..], len, ClientOf(ts) + head[ETH_ALEN..], EncodeTags(Stripped(ts)))
                               && len == old(len) - (|EncodeTags(ts)| - |EncodeTags(Stripped(ts))|)
    {
      hide EncodeTags, EncodeTag, IndexOfTag, Frame, Stored, Stripped;
      ghost var k := IndexOfTag(ts, PTT_RELAY_SID);
      FrameLength(data[..], len, head, EncodeTags(ts));
      var ptr := FindTag(PTT_RELAY_SID, head, ts);
      IndexOfTagIsFirst(ts, PTT_RELAY_SID, k);
      if ptr.None? {
        return NoTag;
      }
      var p := ptr.value;
      TagInFrame(data[..], len, head, ts, k);
      var tagType, tagLen: nat := Be16(data[p], data[p + 1]), Be16(data[p + 2], data[p + 3]);
      if tagType != PTT_RELAY_SID || tagLen < MAGIC_CODE_LEN + RTL_RELAY_TAG_LEN {
        return BadLength;
      }
      TagDataInFrame(data[..], p + TAG_HDR_LEN, ts[k].data);
      if data[p + TAG_HDR_LEN..p + TAG_HDR_LEN + MAGIC_CODE_LEN] != MAGIC {
        return NoMagic;
      }
      ghost var s0: seq<byte> := data[..];
      Store(data, 0, data[p + TAG_HDR_LEN + MAGIC_CODE_LEN..p + TAG_HDR_LEN + MAGIC_CODE_LEN + ETH_ALEN]);
      ghost var head' := ClientOf(ts) + head[ETH_ALEN..];
      Readdressed(s0, data[..], len, head, EncodeTags(ts), ClientOf(ts));
      CutRelay(p, tagLen, head', ts);
      return Extracted;
    }

    /** The relay's own data goes, with the whole tag if nothing else is in it. */
    method CutRelay(p: nat, tagLen: nat, ghost head: seq<byte>, ghost ts: seq<Tag>)
      requires Carries(ts) && Frame(data[..], len, head, EncodeTags(ts)) && tagLen == |OldSid(ts)|
      requires p == TAGS_AT + Start(EncodeTag, ts, IndexOfTag(ts, PTT_RELAY_SID))
      modifies this`len, data
      ensures Frame(data[..], len, head, EncodeTags(Stripped(ts)))
      ensures len == old(len) - (|EncodeTags(ts)| - |EncodeTags(Stripped(ts))|)
    {
      hide EncodeTags, EncodeTag, IndexOfTag, Frame, Stripped, Stored;
      ghost var k := IndexOfTag(ts, PTT_RELAY_SID);
      TagInFrame(data[..], len, head, ts, k);
      StripParts(ts, k);
      if tagLen > MAGIC_CODE_LEN + RTL_RELAY_TAG_LEN {
        CutRelayData(p, tagLen, head, ts, EncodeTags(ts[..k]) + EncodeTag(ts[k])[..4],
                     ts[k].data[8..] + EncodeTags(ts[k + 1..]));
      } else {
        var ok := PullAndMerge(p, TAG_HDR_LEN + MAGIC_CODE_LEN + RTL_RELAY_TAG_LEN, head,
                               EncodeTags(ts[..k]), EncodeTag(ts[k]), EncodeTags(ts[k + 1..]));
      }
    }

    /** Only the relay's data goes, and the tag's length follows. */
    method CutRelayData(p: nat, tagLen: nat, ghost head: seq<byte>, ghost ts: seq<Tag>, ghost x: seq<byte>,
                        ghost z: seq<byte>)
      requires Carries(ts) && Frame(data[..], len, head, EncodeTags(ts)) && tagLen == |OldSid(ts)| > 8
      requires var k := IndexOfTag(ts, PTT_RELAY_SID);
               && p == TAGS_AT + |EncodeTags(ts[..k])|
               && x == EncodeTags(ts[..k]) + EncodeTag(ts[k])[..4] && z == ts[k].data[8..] + EncodeTags(ts[k + 1..])
               && EncodeTags(ts) == x + (ts[k].data[..8] + z)
      modifies this`len, data
      ensures Frame(data[..], len, head, EncodeTags(Stripped(ts))) && len == old(len) - 8
    {
      hide EncodeTags, EncodeTag, IndexOfTag, Frame, Stripped, Stored, With16;
      ghost var k := IndexOfTag(ts, PTT_RELAY_SID);
      var ok := PullAndMerge(p + TAG_HDR_LEN, MAGIC_CODE_LEN + RTL_RELAY_TAG_LEN, head, x, ts[k].data[..8], z);
      ghost var s1: seq<byte> := data[..];
      FrameLength(s1, len, head, x + z);
      SetTagLength(p, tagLen - MAGIC_CODE_LEN - RTL_RELAY_TAG_LEN);
      TagShortened(s1, data[..], len, head, ts, k, p);
    }

    /** tag->tag_len = htons(v) */
    method SetTagLength(p: nat, v: u16)
      requires p + 4 <= data.Length
      modifies data
      ensures data[..] == With16(old(data[..]), p + 2, v)
    {
      data[p + 2] := v / 0x100;
      data[p + 3] := v % 0x100;
    }
  }

  /** A new tag's own data ends, and an old Relay-Session-Id starts, here in tag_buf. */
  const RELAY_AT: nat := TAG_HDR_LEN + MAGIC_CODE_LEN + RTL_RELAY_TAG_LEN

  datatype InsertResult = Inserted | TooLong | NoSpace | PastTheBuffer
  datatype ExtractResult = Extracted | NoTag | BadLength | NoMagic

  // ----- what the two halves do to a tag list -----

  predicate HasRelay(ts: seq<Tag>) {
    IndexOfTag(ts, PTT_RELAY_SID) < |ts|
  }

  function OldSid(ts: seq<Tag>): Payload {
    if HasRelay(ts) then ts[IndexOfTag(ts, PTT_RELAY_SID)].data else []
  }

  function OldTagLen(ts: seq<Tag>): nat {
    if HasRelay(ts) then TAG_HDR_LEN + |OldSid(ts)| else 0
  }

  /** The tags without the first Relay-Session-Id. */
  function Rest(ts: seq<Tag>): seq<Tag> {
    var k := IndexOfTag(ts, PTT_RELAY_SID);
    if k < |ts| then ts[..k] + ts[k + 1..] else ts
  }

  function RelayTag(mac: seq<byte>, sid: seq<byte>): Tag
    requires |mac| == RTL_RELAY_TAG_LEN && |sid| + RELAY_AT <= TAG_BUF_LEN
  {
    Tag(PTT_RELAY_SID, MAGIC + mac + sid)
  }

  function Relayed(ts: seq<Tag>, mac: seq<byte>): seq<Tag>
    requires |mac| == RTL_RELAY_TAG_LEN && |OldSid(ts)| + RELAY_AT <= TAG_BUF_LEN
  {
    [RelayTag(mac, OldSid(ts))] + Rest(ts)
  }

  /** How the insertion ends, given the free octets behind the frame. */
  function Verdict(h: Host, ts: seq<Tag>, tailroom: int): InsertResult {
    var n := |OldSid(ts)|;
    if n + RELAY_AT > TAG_BUF_LEN then TooLong
    else
      var needed := Htons(h, MAGIC_CODE_LEN + RTL_RELAY_TAG_LEN + n) as int + TAG_HDR_LEN;
      if tailroom + OldTagLen(ts) < needed then NoSpace
      else if needed > TAG_BUF_LEN then PastTheBuffer
      else Inserted
  }

  /** The first Relay-Session-Id was written by a relay. */
  predicate Carries(ts: seq<Tag>) {
    HasRelay(ts) && |OldSid(ts)| >= MAGIC_CODE_LEN + RTL_RELAY_TAG_LEN && OldSid(ts)[..MAGIC_CODE_LEN] == MAGIC
  }

  function ExtractVerdict(ts: seq<Tag>): ExtractResult {
    if !HasRelay(ts) then NoTag
    else if |OldSid(ts)| < MAGIC_CODE_LEN + RTL_RELAY_TAG_LEN then BadLength
    else if !Carries(ts) then NoMagic
    else Extracted
  }

  function ClientOf(ts: seq<Tag>): seq<byte>
    requires Carries(ts)
  {
    OldSid(ts)[MAGIC_CODE_LEN..MAGIC_CODE_LEN + RTL_RELAY_TAG_LEN]
  }

  function Stripped(ts: seq<Tag>): seq<Tag>
    requires Carries(ts)
  {
    var k, sid := IndexOfTag(ts, PTT_RELAY_SID), OldSid(ts)[MAGIC_CODE_LEN + RTL_RELAY_TAG_LEN..];
    if sid == [] then ts[..k] + ts[k + 1..] else ts[k := Tag(PTT_RELAY_SID, sid)]
  }

  datatype AddResult = Added | NoRoom | Overrun

  /** tag->tag_len + TAG_HDR_LEN, as the host reads the field. */
  function AddedLen(h: Host, tag: seq<byte>): nat
    requires |tag| >= 4
  {
    (if h.BigEndian? then Be16(tag[2], tag[3]) else Le16(tag[2], tag[3])) as int + TAG_HDR_LEN
  }

  /** s with v in the two octets at `at`, which keep sixteen bits. */
  function With16(s: seq<byte>, at: nat, v: nat): seq<byte>
    requires at + 2 <= |s|
  {
    s[at := v % 0x1_0000 / 0x100][at + 1 := v % 0x100]
  }

  /** s with v in its length field. */
  function WithLength(s: seq<byte>, v: nat): seq<byte>
    requires TAGS_AT <= |s|
  {
    With16(s, LENGTH_AT, v)
  }

  // ----- tags in the frame -----

  lemma FrameLength(s: seq<byte>, len: nat, head: seq<byte>, body: seq<byte>)
    requires Frame(s, len, head, body)
    ensures TAGS_AT + |body| <= len <= |s| && |body| < 0x1_0000 && |head| == LENGTH_AT
    ensures Be16(s[LENGTH_AT], s[LENGTH_AT + 1]) == |body|
  {
  }

  lemma LastPart(s: seq<byte>, len: nat, head: seq<byte>, x: seq<byte>, z: seq<byte>)
    requires Frame(s, len, head, x + z)
    ensures s[TAGS_AT + |x|..TAGS_AT + |x| + |z|] == z
  {
    CatParts(x, z);
    SliceOfSlice(s, TAGS_AT, TAGS_AT + |x + z|, |x|, |x| + |z|);
  }

  lemma TagsEnd(ts: seq<Tag>, k: nat)
    requires k <= |ts|
    ensures Start(EncodeTag, ts, 0) == 0
    ensures k == |ts| <==> Start(EncodeTag, ts, k) == |EncodeTags(ts)|
    ensures Start(EncodeTag, ts, k) <= |EncodeTags(ts)|
  {
    FlatEnd(EncodeTag, ts, k);
  }

  lemma TagAt(a: seq<byte>, lo: nat, hi: nat, ts: seq<Tag>, k: nat)
    requires lo <= hi <= |a| && a[lo..hi] == EncodeTags(ts) && k < |ts|
    ensures var p, n := lo + Start(EncodeTag, ts, k), |ts[k].data|;
            && p + 4 + n == lo + Start(EncodeTag, ts, k + 1) <= hi
            && Be16(a[p], a[p + 1]) == ts[k].tagType && Be16(a[p + 2], a[p + 3]) == n
            && a[p + 4..p + 4 + n] == ts[k].data
    ensures Start(EncodeTag, ts, k + 1) < hi - lo <==> k + 1 < |ts|
  {
    hide Flat, EncodeTag, Be16;
    FlatRead(EncodeTag, a, lo, hi, ts, k);
    var p, n := lo + Start(EncodeTag, ts, k), |ts[k].data|;
    TagsEnd(ts, k + 1);
    TagRead(a, p, ts[k]);
  }

  lemma TagRead(a: seq<byte>, p: nat, t: Tag)
    requires p + 4 + |t.data| <= |a| && a[p..p + 4 + |t.data|] == EncodeTag(t)
    ensures Be16(a[p], a[p + 1]) == t.tagType && Be16(a[p + 2], a[p + 3]) == |t.data|
    ensures a[p + 4..p + 4 + |t.data|] == t.data
  {
    var x: seq<byte> := a[p..p + 4 + |t.data|];
    SliceOfSlice(a, p, p + 4 + |t.data|, 4, 4 + |t.data|);
    assert x[4..4 + |t.data|] == t.data;
    assert a[p] == x[0] && a[p + 1] == x[1] && a[p + 2] == x[2] && a[p + 3] == x[3];
  }

  lemma StoreSame(s: seq<byte>, at: nat)
    requires at <= |s|
    ensures Stored(s, at, s[at..at]) == s
  {
  }

  /** Where the three stretches of tag octets stand. */
  lemma FrameHasParts(s: seq<byte>, len: nat, head: seq<byte>, x: seq<byte>, y: seq<byte>, z: seq<byte>)
    requires Frame(s, len, head, x + (y + z))
    ensures var p := TAGS_AT + |x|;
            && p + |y| + |z| <= len <= |s| && s[TAGS_AT..p] == x && s[p..p + |y|] == y && s[p + |y|..p + |y| + |z|] == z
  {
    var b := x + (y + z);
    ThreeParts(x, y, z);
    SliceOfSlice(s, TAGS_AT, TAGS_AT + |b|, 0, |x|);
    SliceOfSlice(s, TAGS_AT, TAGS_AT + |b|, |x|, |x| + |y|);
    SliceOfSlice(s, TAGS_AT, TAGS_AT + |b|, |x| + |y|, |b|);
    assert b[|x| + |y|..] == b[|x| + |y|..|b|];
  }

  lemma PulledParts(s0: seq<byte>, s1: seq<byte>, len: nat, src: nat, n: nat,
                    head: seq<byte>, x: seq<byte>, y: seq<byte>, z: seq<byte>)
    requires Frame(s0, len, head, x + (y + z)) && src == TAGS_AT + |x| && n == |y| && src + n <= len
    requires s1 == Stored(s0, src, s0[src + n..len])
    ensures |s1| == |s0| && s1[..LENGTH_AT] == head && TAGS_AT + |x| + |z| <= len - n
    ensures Be16(s1[LENGTH_AT], s1[LENGTH_AT + 1]) == |x| + n + |z|
    ensures s1[TAGS_AT..TAGS_AT + |x + z|] == x + z
  {
    hide Stored;
    FrameHasParts(s0, len, head, x, y, z);
    StoredSlices(s0, src, s0[src + n..len]);
    HeadersKept(s0, s1, src);
    SliceOfSlice(s1, src, src + (len - (src + n)), 0, |z|);
    SliceOfSlice(s0, src + n, len, 0, |z|);
    Join(s1, TAGS_AT, src, src + |z|);
  }

  /** A write at or behind the tags keeps the headers. */
  lemma HeadersKept(s0: seq<byte>, s1: seq<byte>, at: nat)
    requires TAGS_AT <= at <= |s0| && |s1| == |s0| && s1[..at] == s0[..at]
    ensures s1[..LENGTH_AT] == s0[..LENGTH_AT] && s1[LENGTH_AT] == s0[LENGTH_AT]
            && s1[LENGTH_AT + 1] == s0[LENGTH_AT + 1]
  {
    assert s1[..LENGTH_AT] == s1[..at][..LENGTH_AT] && s0[..LENGTH_AT] == s0[..at][..LENGTH_AT];
    assert s1[LENGTH_AT] == s1[..at][LENGTH_AT] && s0[LENGTH_AT] == s0[..at][LENGTH_AT];
    assert s1[LENGTH_AT + 1] == s1[..at][LENGTH_AT + 1] && s0[LENGTH_AT + 1] == s0[..at][LENGTH_AT + 1];
  }

  /** Writing the length field leaves everything else. */
  lemma Relengthened(s1: seq<byte>, s2: seq<byte>, len: nat, head: seq<byte>, body: seq<byte>)
    requires |head| == LENGTH_AT && TAGS_AT + |body| <= len <= |s1| && |body| < 0x1_0000
    requires s1[..LENGTH_AT] == head && s1[TAGS_AT..TAGS_AT + |body|] == body
    requires s2 == WithLength(s1, |body|)
    ensures Frame(s2, len, head, body)
  {
    LengthWritten(s1, |body|);
    DropTake(s1, TAGS_AT, |body|);
    DropTake(s2, TAGS_AT, |body|);
  }

  lemma LengthWritten(s: seq<byte>, v: nat)
    requires TAGS_AT <= |s| && v < 0x1_0000
    ensures var s' := WithLength(s, v);
            && |s'| == |s| && s'[..LENGTH_AT] == s[..LENGTH_AT] && s'[TAGS_AT..] == s[TAGS_AT..]
            && Be16(s'[LENGTH_AT], s'[LENGTH_AT + 1]) == v
  {
  }

  lemma RoomMade(s0: seq<byte>, s1: seq<byte>, s2: seq<byte>, s3: seq<byte>, len: nat, n: nat,
                 head: seq<byte>, body: seq<byte>, tag: seq<byte>)
    requires len - n >= 0 && Frame(s0, len - n, head, body) && len <= |s0| && |tag| == n && |body| + n < 0x1_0000
    requires s1 == Stored(s0, TAGS_AT + n, s0[TAGS_AT..TAGS_AT + |body|])
    requires |s1| >= TAGS_AT && s2 == WithLength(s1, |body| + n)
    requires s3 == Stored(s2, TAGS_AT, tag)
    ensures Frame(s3, len, head, tag + body)
  {
    hide Stored, Be16, WithLength;
    StoredSlices(s0, TAGS_AT + n, s0[TAGS_AT..TAGS_AT + |body|]);
    HeadersKept(s0, s1, TAGS_AT + n);
    LengthWritten(s1, |body| + n);
    DropOfDrop(s1, TAGS_AT, n);
    DropOfDrop(s2, TAGS_AT, n);
    StoredSlices(s2, TAGS_AT, tag);
    HeadersKept(s2, s3, TAGS_AT);
    DropTake(s3, TAGS_AT + n, |body|);
    DropTake(s1, TAGS_AT + n, |body|);
    Join(s3, TAGS_AT, TAGS_AT + n, TAGS_AT + n + |body|);
  }

  lemma TagsConcat(a: seq<Tag>, b: seq<Tag>)
    ensures EncodeTags(a + b) == EncodeTags(a) + EncodeTags(b)
  {
    FlatConcat(EncodeTag, a, b);
  }

  lemma TagsSplit(ts: seq<Tag>, k: nat)
    requires k < |ts|
    ensures EncodeTags(ts) == EncodeTags(ts[..k]) + (EncodeTag(ts[k]) + EncodeTags(ts[k + 1..]))
    ensures Start(EncodeTag, ts, k) == |EncodeTags(ts[..k])|
    ensures EncodeTags(ts[..k] + ts[k + 1..]) == EncodeTags(ts[..k]) + EncodeTags(ts[k + 1..])
    ensures |EncodeTag(ts[k])| == 4 + |ts[k].data|
  {
    FlatSplit(EncodeTag, ts, k);
    TagsConcat(ts[..k], ts[k + 1..]);
  }

  lemma RestIsShorter(ts: seq<Tag>)
    ensures |EncodeTags(Rest(ts))| == |EncodeTags(ts)| - OldTagLen(ts)
  {
    hide EncodeTags, EncodeTag;
    if HasRelay(ts) {
      TagsSplit(ts, IndexOfTag(ts, PTT_RELAY_SID));
    }
  }

  /** Tag k of the frame, and the frame as the parts around it. */
  lemma TagInFrame(s: seq<byte>, len: nat, head: seq<byte>, ts: seq<Tag>, k: nat)
    requires Frame(s, len, head, EncodeTags(ts)) && k < |ts|
    ensures var p, n := TAGS_AT + Start(EncodeTag, ts, k), |ts[k].data|;
            && p + 4 + n <= len <= |s|
            && Be16(s[p], s[p + 1]) == ts[k].tagType && Be16(s[p + 2], s[p + 3]) == n
            && s[p + 4..p + 4 + n] == ts[k].data
            && p == TAGS_AT + |EncodeTags(ts[..k])| && 4 + n == |EncodeTag(ts[k])|
    ensures EncodeTags(ts) == EncodeTags(ts[..k]) + (EncodeTag(ts[k]) + EncodeTags(ts[k + 1..]))
    ensures EncodeTags(ts[..k] + ts[k + 1..]) == EncodeTags(ts[..k]) + EncodeTags(ts[k + 1..])
  {
    hide EncodeTags, EncodeTag;
    TagAt(s, TAGS_AT, TAGS_AT + |EncodeTags(ts)|, ts, k);
    TagsSplit(ts, k);
  }

  lemma SourceAddress(s: seq<byte>, len: nat, head: seq<byte>, body: seq<byte>)
    requires Frame(s, len, head, body)
    ensures |head| == LENGTH_AT && |s| >= TAGS_AT && s[ETH_ALEN..2 * ETH_ALEN] == head[ETH_ALEN..2 * ETH_ALEN]
  {
    assert s[..LENGTH_AT][ETH_ALEN..2 * ETH_ALEN] == s[ETH_ALEN..2 * ETH_ALEN];
  }

  /** The tag assembled in tag_buf, and the length the host then reads in it. */
  lemma TagBuilt(b0: seq<byte>, b1: seq<byte>, b2: seq<byte>, b3: seq<byte>, mac: seq<byte>, sid: seq<byte>)
    requires |b0| == TAG_BUF_LEN && |mac| == RTL_RELAY_TAG_LEN && |sid| + RELAY_AT <= TAG_BUF_LEN
    requires b0[RELAY_AT..RELAY_AT + |sid|] == sid
    requires var n := MAGIC_CODE_LEN + RTL_RELAY_TAG_LEN + |sid|;
             && b1 == Stored(b0, 0, TagHeader(PTT_RELAY_SID, n))
             && b2 == Stored(b1, TAG_HDR_LEN, MAGIC)
             && b3 == Stored(b2, TAG_HDR_LEN + MAGIC_CODE_LEN, mac)
    ensures |b3| == TAG_BUF_LEN && b3[..RELAY_AT + |sid|] == EncodeTag(RelayTag(mac, sid))
    ensures forall h :: AddedLen(h, b3) == Htons(h, MAGIC_CODE_LEN + RTL_RELAY_TAG_LEN + |sid|) as int + TAG_HDR_LEN
    ensures forall h: Host :: h.BigEndian? ==> AddedLen(h, b3) == RELAY_AT + |sid|
  {
    var n := MAGIC_CODE_LEN + RTL_RELAY_TAG_LEN + |sid|;
    assert b3[0..4] == TagHeader(PTT_RELAY_SID, n);
    assert b3[4..6] == MAGIC && b3[6..12] == mac;
    assert forall j :: 12 <= j < 12 + |sid| ==> b3[j] == b0[j];
    assert b3[12..12 + |sid|] == b0[12..12 + |sid|];
    assert b3[..RELAY_AT + |sid|] == b3[0..4] + (b3[4..6] + b3[6..12] + b3[12..12 + |sid|]);
    assert b3[2] == b3[0..4][2] && b3[3] == b3[0..4][3];
  }

  lemma RelayedEncodes(ts: seq<Tag>, mac: seq<byte>)
    requires |mac| == RTL_RELAY_TAG_LEN && |OldSid(ts)| + RELAY_AT <= TAG_BUF_LEN
    ensures EncodeTags(Relayed(ts, mac)) == EncodeTag(RelayTag(mac, OldSid(ts))) + EncodeTags(Rest(ts))
  {
    TagsConcat([RelayTag(mac, OldSid(ts))], Rest(ts));
    FlatOne(EncodeTag, RelayTag(mac, OldSid(ts)));
  }

  lemma TagDataInFrame(s: seq<byte>, at: nat, d: seq<byte>)
    requires at + |d| <= |s| && s[at..at + |d|] == d && |d| >= 8
    ensures s[at..at + 2] == d[..2] && s[at + 2..at + 8] == d[2..8]
  {
    SliceOfSlice(s, at, at + |d|, 0, 2);
    SliceOfSlice(s, at, at + |d|, 2, 8);
  }

  lemma Readdressed(s0: seq<byte>, s1: seq<byte>, len: nat, head: seq<byte>, body: seq<byte>, mac: seq<byte>)
    requires Frame(s0, len, head, body) && |mac| == ETH_ALEN && s1 == Stored(s0, 0, mac)
    ensures Frame(s1, len, mac + head[ETH_ALEN..], body)
  {
    assert s1[..LENGTH_AT] == mac + s0[..LENGTH_AT][ETH_ALEN..];
    assert s1[LENGTH_AT] == s0[LENGTH_AT] && s1[LENGTH_AT + 1] == s0[LENGTH_AT + 1];
    assert s1[TAGS_AT..TAGS_AT + |body|] == s0[TAGS_AT..TAGS_AT + |body|];
  }

  /** The tag octets as the parts the extraction cuts apart. */
  lemma StripParts(ts: seq<Tag>, k: nat)
    requires Carries(ts) && k == IndexOfTag(ts, PTT_RELAY_SID)
    ensures var x, z, d := EncodeTags(ts[..k]), EncodeTags(ts[k + 1..]), ts[k].data;
            && EncodeTags(ts) == x + (EncodeTag(ts[k]) + z)
            && EncodeTags(ts) == (x + EncodeTag(ts[k])[..4]) + (d[..8] + (d[8..] + z))
            && (|d| == 8 ==> EncodeTags(Stripped(ts)) == x + z && |EncodeTags(Stripped(ts))| == |EncodeTags(ts)| - 12)
            && (|d| > 8 ==> |EncodeTags(Stripped(ts))| == |EncodeTags(ts)| - 8)
  {
    hide EncodeTags, EncodeTag, IndexOfTag;
    var x, z, d := EncodeTags(ts[..k]), EncodeTags(ts[k + 1..]), ts[k].data;
    TagsSplit(ts, k);
    TagParts(ts[k]);
    CutThree(x, EncodeTag(ts[k]), d, z);
    if |d| > 8 {
      StrippedParts(ts, k);
    }
  }

  lemma TagParts(t: Tag)
    ensures EncodeTag(t)[4..] == t.data
  {
  }

  lemma CutThree(x: seq<byte>, e: seq<byte>, d: seq<byte>, z: seq<byte>)
    requires |e| >= 4 && e[4..] == d && |d| >= 8
    ensures x + (e + z) == (x + e[..4]) + (d[..8] + (d[8..] + z))
  {
    TakeDrop(e, 4);
    TakeDrop(d, 8);
    Assoc(e[..4], d, z);
    Assoc(d[..8], d[8..], z);
    Assoc(x, e[..4], d + z);
  }

  /** Correcting the tag's own length makes the shortened octets a tag list again. */
  lemma TagShortened(s1: seq<byte>, s2: seq<byte>, len: nat, head: seq<byte>, ts: seq<Tag>, k: nat, p: nat)
    requires Carries(ts) && k == IndexOfTag(ts, PTT_RELAY_SID) && |ts[k].data| > 8
    requires var x, z, d := EncodeTags(ts[..k]), EncodeTags(ts[k + 1..]), ts[k].data;
             && p == TAGS_AT + |x| && Frame(s1, len, head, (x + EncodeTag(ts[k])[..4]) + (d[8..] + z))
             && p + 4 <= |s1| && s2 == With16(s1, p + 2, |d| - 8)
    ensures Frame(s2, len, head, EncodeTags(Stripped(ts)))
  {
    hide EncodeTags, EncodeTag, Frame, With16, IndexOfTag;
    var x, z, d := EncodeTags(ts[..k]), EncodeTags(ts[k + 1..]), ts[k].data;
    var hdr, w := EncodeTag(ts[k])[..4], d[8..] + z;
    StrippedParts(ts, k);
    Rewritten(s1, len, head, (x + hdr) + w, |x| + 2, |d| - 8);
    With16Inside(x, hdr, w, |d| - 8);
  }

  lemma StrippedParts(ts: seq<Tag>, k: nat)
    requires Carries(ts) && k == IndexOfTag(ts, PTT_RELAY_SID) && |ts[k].data| > 8
    ensures var x, z, d := EncodeTags(ts[..k]), EncodeTags(ts[k + 1..]), ts[k].data;
            && |EncodeTag(ts[k])| == 4 + |d|
            && EncodeTags(Stripped(ts)) == (x + With16(EncodeTag(ts[k])[..4], 2, |d| - 8)) + (d[8..] + z)
  {
    hide EncodeTags, IndexOfTag;
    var x, z, d := EncodeTags(ts[..k]), EncodeTags(ts[k + 1..]), ts[k].data;
    var t := Tag(PTT_RELAY_SID, d[8..]);
    IndexOfTagIsFirst(ts, PTT_RELAY_SID, k);
    assert Stripped(ts) == ts[k := t];
    assert Stripped(ts)[..k] == ts[..k] && Stripped(ts)[k + 1..] == ts[k + 1..];
    TagsSplit(Stripped(ts), k);
    var hdr := With16(EncodeTag(ts[k])[..4], 2, |d| - 8);
    assert hdr == TagHeader(PTT_RELAY_SID, |d| - 8);
    assert EncodeTag(t) == hdr + d[8..];
    Assoc(hdr, d[8..], z);
    Assoc(x, hdr, d[8..] + z);
  }

  /** Two octets rewritten among the tag octets. */
  lemma Rewritten(s: seq<byte>, len: nat, head: seq<byte>, body: seq<byte>, at: nat, v: nat)
    requires Frame(s, len, head, body) && at + 2 <= |body|
    ensures Frame(With16(s, TAGS_AT + at, v), len, head, With16(body, at, v))
  {
    var s' := With16(s, TAGS_AT + at, v);
    assert s'[..LENGTH_AT] == s[..LENGTH_AT];
    assert s'[TAGS_AT..TAGS_AT + |body|] == With16(s[TAGS_AT..TAGS_AT + |body|], at, v);
  }

  lemma With16Inside(x: seq<byte>, hdr: seq<byte>, w: seq<byte>, v: nat)
    requires |hdr| == 4
    ensures With16((x + hdr) + w, |x| + 2, v) == (x + With16(hdr, 2, v)) + w
  {
  }

  // ----- out and back -----

  /** A server's answer: any tags, the first Relay-Session-Id among them being the one that was sent. The address comes
    * back, and the relay tag is replaced by the Relay-Session-Id the client had sent, if that was not empty. */
  lemma ExtractionUndoesInsertion(ts: seq<Tag>, mac: seq<byte>, before: seq<Tag>, behind: seq<Tag>)
    requires |mac| == RTL_RELAY_TAG_LEN && |OldSid(ts)| + RELAY_AT <= TAG_BUF_LEN
    requires !HasRelay(before)
    ensures var sid := OldSid(ts);
            var answer := before + [RelayTag(mac, sid)] + behind;
            && Carries(answer) && ClientOf(answer) == mac
            && Stripped(answer) == before + (if sid == [] then [] else [Tag(PTT_RELAY_SID, sid)]) + behind
  {
    var sid := OldSid(ts);
    var relay := RelayTag(mac, sid);
    var answer, k := before + [relay] + behind, |before|;
    IndexOfTagIsFirst(before, PTT_RELAY_SID, |before|);
    assert forall j :: 0 <= j < k ==> answer[j] == before[j];
    IndexOfTagIsFirst(answer, PTT_RELAY_SID, k);
    assert relay.data[..2] == MAGIC && relay.data[2..8] == mac && relay.data[8..] == sid;
    assert answer[..k] == before && answer[k + 1..] == behind;
  }

  /** Echoed as it was sent, the list comes back with the same tags; it comes back as it was exactly when the client's
    * Relay-Session-Id was absent, or stood first and was not empty. */
  lemma EchoRestores(ts: seq<Tag>, mac: seq<byte>)
    requires |mac| == RTL_RELAY_TAG_LEN && |OldSid(ts)| + RELAY_AT <= TAG_BUF_LEN
    ensures var sent := Relayed(ts, mac);
            && Carries(sent) && ClientOf(sent) == mac
            && Stripped(sent) == Returned(ts)
            && (Stripped(sent) == ts <==> !HasRelay(ts) || (ts[0].tagType == PTT_RELAY_SID && ts[0].data != []))
  {
    hide Carries, ClientOf, Stripped;
    ExtractionUndoesInsertion(ts, mac, [], Rest(ts));
    assert [] + [RelayTag(mac, OldSid(ts))] + Rest(ts) == Relayed(ts, mac);
    assert [] + (if OldSid(ts) == [] then [] else [Tag(PTT_RELAY_SID, OldSid(ts))]) + Rest(ts) == Returned(ts);
    ReturnedSame(ts);
  }

  /** What comes back of a list that was echoed as it was sent. */
  function Returned(ts: seq<Tag>): seq<Tag> {
    (if OldSid(ts) == [] then [] else [Tag(PTT_RELAY_SID, OldSid(ts))]) + Rest(ts)
  }

  /** The same number of octets comes back, unless the client had sent an empty Relay-Session-Id. */
  lemma ReturnedLength(ts: seq<Tag>)
    ensures |EncodeTags(Returned(ts))| == |EncodeTags(ts)| - if HasRelay(ts) && OldSid(ts) == [] then TAG_HDR_LEN else 0
  {
    hide EncodeTags, EncodeTag;
    RestIsShorter(ts);
    if OldSid(ts) != [] {
      var t := Tag(PTT_RELAY_SID, OldSid(ts));
      TagsConcat([t], Rest(ts));
      OneTag(t);
    } else {
      assert Returned(ts) == Rest(ts);
    }
  }

  lemma OneTag(t: Tag)
    ensures |EncodeTags([t])| == TAG_HDR_LEN + |t.data|
  {
    FlatOne(EncodeTag, t);
  }

  lemma ReturnedSame(ts: seq<Tag>)
    ensures Returned(ts) == ts <==> !HasRelay(ts) || (ts[0].tagType == PTT_RELAY_SID && ts[0].data != [])
  {
    var k := IndexOfTag(ts, PTT_RELAY_SID);
    IndexOfTagIsFirst(ts, PTT_RELAY_SID, k);
    if HasRelay(ts) {
      if OldSid(ts) == [] {
        assert |Returned(ts)| < |ts|;
      } else if k == 0 {
        HeadTail(ts);
        assert ts[0] == Tag(PTT_RELAY_SID, OldSid(ts));
        assert ts[..0] + ts[1..] == ts[1..];
      } else {
        assert Returned(ts)[0].tagType == PTT_RELAY_SID;
      }
    }
  }

  /** The smallest case: no tags at all, and a whole kilobyte of room. */
  lemma LittleEndianFindsNoRoom()
    ensures Verdict(LittleEndian, [], 1024) == NoSpace && Verdict(BigEndian, [], 1024) == Inserted
  {
  }

  /** The length a little-endian host reads is longer than the buffer. */
  lemma FitsOnBigEndian(h: Host, sid: seq<byte>)
    requires RELAY_AT + |sid| <= TAG_BUF_LEN
    ensures Htons(h, MAGIC_CODE_LEN + RTL_RELAY_TAG_LEN + |sid|) as int + TAG_HDR_LEN <= TAG_BUF_LEN <==> h.BigEndian?
  {
  }

  /** A relay that inserts works on big-endian hosts only: a little-endian one adds 256 * (8 + n) + 4 where 12 + n was
    * meant, runs out of room or past its buffer, and has by then dropped the client's own Relay-Session-Id. */
  lemma InsertsIffBigEndian(h: Host, ts: seq<Tag>, tailroom: nat)
    ensures Verdict(h, ts, tailroom) == Inserted <==>
            h.BigEndian? && |OldSid(ts)| + RELAY_AT <= TAG_BUF_LEN
                && tailroom + OldTagLen(ts) >= RELAY_AT + |OldSid(ts)|
    ensures h.LittleEndian? && |OldSid(ts)| + RELAY_AT <= TAG_BUF_LEN ==>
              (Verdict(h, ts, tailroom) == NoSpace <==> tailroom + OldTagLen(ts) < 0x100 * (8 + |OldSid(ts)|) + 4)
  {
  }
}
