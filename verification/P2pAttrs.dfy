/** P2P attributes, a TLV list inside the body of a vendor element: search and removal (core/rtw_ieee80211.c). */
module P2pAttrs {
  import opened Bytes
  import opened Seqs
  import opened Framing
  import opened Elements
  import opened IeBuffer
  import opened Bss

  type Payload = s: seq<byte> | |s| < 0x1_0000

  datatype Attr = Attr(id: byte, data: Payload)

  /** One octet of id, two of little-endian length. */
  function EncodeAttr(a: Attr): seq<byte> {
    [a.id, |a.data| % 0x100, |a.data| / 0x100] + a.data
  }

  function EncodeAttrs(attrs: seq<Attr>): seq<byte> {
    Flat(EncodeAttr, attrs)
  }

  const P2P_OUI: seq<byte> := [0x50, 0x6F, 0x9A, 0x09]

  /** The attributes fit one element. */
  predicate Fits(attrs: seq<Attr>) {
    4 + |EncodeAttrs(attrs)| < 0x100
  }

  function P2pIe(attrs: seq<Attr>): Ie
    requires Fits(attrs)
  {
    Element(WLAN_EID_VENDOR_SPECIFIC, P2P_OUI + EncodeAttrs(attrs))
  }

  // ----- searching -----

  function IndexOfP2p(es: seq<Ie>): (k: nat)
    ensures k <= |es|
  {
    IndexOfMatch(es, WLAN_EID_VENDOR_SPECIFIC, Some(P2P_OUI))
  }

  /** rtw_get_p2p_ie with the copy-out pointer NULL; the search gives up past MAX_IE_SZ. */
  method GetP2pIe(buf: array<byte>, base: nat, in_len: nat, ghost es: seq<Ie>) returns (p: Option<nat>, ielen: nat)
    requires base + in_len <= buf.Length
    requires buf[base..base + in_len] == EncodeAll(es)
    requires OuiReadable(es, WLAN_EID_VENDOR_SPECIFIC, Some(P2P_OUI))
    ensures var k := IndexOfP2p(es);
            if k < |es| && Offset(es, k) + 5 < MAX_IE_SZ
            then p == Some(base + Offset(es, k)) && ielen == |es[k].body| + 2
            else p.None? && ielen == 0
  {
    hide EncodeAll, IndexOfMatch, IndexOfP2p, Matches;
    ghost var oui := Some(P2P_OUI);
    ghost var k := 0;
    OffsetEnd(es, 0);
    var cnt := 0;
    while cnt + 1 + 4 < in_len
      invariant k <= |es| && cnt == Offset(es, k) <= in_len
      invariant cnt < in_len <==> k < |es|
      invariant forall j :: 0 <= j < k ==> !Matches(es[j], WLAN_EID_VENDOR_SPECIFIC, oui)
      decreases in_len - cnt
    {
      ReadAt(buf[..], base, base + in_len, es, k);
      MatchAt(buf[..], base, base + in_len, es, k, WLAN_EID_VENDOR_SPECIFIC, oui);
      if cnt + 1 + 4 >= MAX_IE_SZ {
        LaterMatch(es, k);
        return None, 0;
      }
      if buf[base + cnt] == WLAN_EID_VENDOR_SPECIFIC && buf[base + cnt + 2..base + cnt + 6] == P2P_OUI {
        IndexOfMatchIsFirst(es, WLAN_EID_VENDOR_SPECIFIC, oui, k);
        P2pIndex(es);
        return Some(base + cnt), buf[base + cnt + 1] as int + 2;
      } else {
        cnt := cnt + buf[base + cnt + 1] as int + 2;
        k := k + 1;
      }
    }
    TooShort(es, k);
    return None, 0;
  }

  lemma P2pIndex(es: seq<Ie>)
    ensures IndexOfP2p(es) == IndexOfMatch(es, WLAN_EID_VENDOR_SPECIFIC, Some(P2P_OUI))
  {
  }

  /** A match not found before element k lies at or behind it. */
  lemma LaterMatch(es: seq<Ie>, k: nat)
    requires k <= |es| && forall j :: 0 <= j < k ==> !Matches(es[j], WLAN_EID_VENDOR_SPECIFIC, Some(P2P_OUI))
    ensures k <= IndexOfP2p(es) && Offset(es, k) <= Offset(es, IndexOfP2p(es))
  {
    hide EncodeAll, Matches;
    var m := IndexOfP2p(es);
    IndexOfMatchIsFirst(es, WLAN_EID_VENDOR_SPECIFIC, Some(P2P_OUI), m);
    if k < m {
      OffsetMonotone(es, k, m);
    }
  }

  /** Fewer than six octets hold no P2P element. */
  lemma TooShort(es: seq<Ie>, k: nat)
    requires k <= |es| && |EncodeAll(es)| <= Offset(es, k) + 5
    requires forall j :: 0 <= j < k ==> !Matches(es[j], WLAN_EID_VENDOR_SPECIFIC, Some(P2P_OUI))
    ensures IndexOfP2p(es) == |es|
  {
    hide EncodeAll;
    LaterMatch(es, k);
    var m := IndexOfP2p(es);
    IndexOfMatchIsFirst(es, WLAN_EID_VENDOR_SPECIFIC, Some(P2P_OUI), m);
    if m < |es| {
      OffsetMonotone(es, m, |es|);
      OffsetEnd(es, |es|);
    }
  }

  /** Index of the first attribute with this id, or |attrs|. */
  function IndexOfAttr(attrs: seq<Attr>, id: byte): (k: nat)
    ensures k <= |attrs|
  {
    if attrs == [] || attrs[0].id == id then 0 else 1 + IndexOfAttr(attrs[1..], id)
  }

  lemma {:induction false} IndexOfAttrIsFirst(attrs: seq<Attr>, id: byte, k: nat)
    requires k <= |attrs|
    ensures IndexOfAttr(attrs, id) == k <==>
              (forall j :: 0 <= j < k ==> attrs[j].id != id) && (k < |attrs| ==> attrs[k].id == id)
  {
    if attrs != [] && attrs[0].id != id {
      if k > 0 {
        IndexOfAttrIsFirst(attrs[1..], id, k - 1);
        assert forall j :: 0 < j < |attrs| ==> attrs[j] == attrs[1..][j - 1];
      }
    }
  }

  lemma AttrAt(a: seq<byte>, lo: nat, hi: nat, attrs: seq<Attr>, k: nat)
    requires lo <= hi <= |a| && a[lo..hi] == EncodeAttrs(attrs) && k < |attrs|
    ensures var p, n := lo + Start(EncodeAttr, attrs, k), |attrs[k].data|;
            && p + 3 + n == lo + Start(EncodeAttr, attrs, k + 1) <= hi
            && a[p] == attrs[k].id && Le16(a[p + 1], a[p + 2]) == n
    ensures Start(EncodeAttr, attrs, k + 1) < hi - lo <==> k + 1 < |attrs|
  {
    FlatRead(EncodeAttr, a, lo, hi, attrs, k);
    var p := lo + Start(EncodeAttr, attrs, k);
    var x := a[p..p + |EncodeAttr(attrs[k])|];
    assert a[p] == x[0] && a[p + 1] == x[1] && a[p + 2] == x[2];
    FlatEnd(EncodeAttr, attrs, k + 1);
  }

  /** The octets of a P2P element, header included. */
  ghost predicate IsP2pAt(a: seq<byte>, ie: nat, ielen: nat, attrs: seq<Attr>) {
    ie + ielen <= |a| && Fits(attrs) && a[ie..ie + ielen] == Encode(P2pIe(attrs))
  }

  lemma P2pHeader(a: seq<byte>, ie: nat, ielen: nat, attrs: seq<Attr>)
    ensures IsP2pAt(a, ie, ielen, attrs) <==>
              && ie + ielen <= |a| && Fits(attrs) && ielen == 6 + |EncodeAttrs(attrs)|
              && a[ie] == WLAN_EID_VENDOR_SPECIFIC && a[ie + 1] == ielen - 2 && a[ie + 2..ie + 6] == P2P_OUI
              && a[ie + 6..ie + ielen] == EncodeAttrs(attrs)
  {
    hide EncodeAttrs;
    if Fits(attrs) && ie + ielen <= |a| && ielen == 6 + |EncodeAttrs(attrs)| {
      var w, header := a[ie..ie + ielen], [WLAN_EID_VENDOR_SPECIFIC, |P2pIe(attrs).body|];
      ThreeParts(header, P2P_OUI, EncodeAttrs(attrs));
      SliceOfSlice(a, ie, ie + ielen, 2, 6);
      SliceOfSlice(a, ie, ie + ielen, 6, ielen);
      assert w[6..] == w[6..ielen];
      assert w[0] == a[ie] && w[1] == a[ie + 1];
      if a[ie] == header[0] && a[ie + 1] == header[1] {
        assert w[..2] == header;
      }
      Join(w, 0, 2, 6);
      Join(w, 0, 6, ielen);
      assert w[..2] == w[0..2];
      assert w == w[0..ielen];
      Assoc(w[..2], w[2..6], w[6..]);
    }
  }

  /** rtw_get_p2p_attr with the copy-out pointer NULL, on a P2P element. */
  method GetP2pAttr(buf: array<byte>, p2p_ie: nat, p2p_ielen: nat, target: byte, ghost attrs: seq<Attr>)
    returns (p: Option<nat>, len: nat)
    requires IsP2pAt(buf[..], p2p_ie, p2p_ielen, attrs)
    ensures var k := IndexOfAttr(attrs, target);
            if k == |attrs| then p.None? && len == 0
            else p == Some(p2p_ie + 6 + Start(EncodeAttr, attrs, k)) && len == |attrs[k].data| + 3
  {
    hide *;
    P2pHeader(buf[..], p2p_ie, p2p_ielen, attrs);
    ghost var k := 0;
    AttrsStart(attrs);
    var attr := p2p_ie + 6;
    while attr - p2p_ie < p2p_ielen
      invariant k <= |attrs| && attr == p2p_ie + 6 + Start(EncodeAttr, attrs, k) <= p2p_ie + p2p_ielen
      invariant attr < p2p_ie + p2p_ielen <==> k < |attrs|
      invariant forall j :: 0 <= j < k ==> attrs[j].id != target
      decreases p2p_ie + p2p_ielen - attr
    {
      AttrAt(buf[..], p2p_ie + 6, p2p_ie + p2p_ielen, attrs, k);
      var attr_len: nat := (Le16(buf[attr + 1], buf[attr + 2]) as int + 3) % 0x1_0000;
      if buf[attr] == target {
        IndexOfAttrIsFirst(attrs, target, k);
        return Some(attr), attr_len;
      } else {
        attr := attr + attr_len;
        k := k + 1;
      }
    }
    IndexOfAttrIsFirst(attrs, target, k);
    return None, 0;
  }

  lemma AttrsStart(attrs: seq<Attr>)
    ensures Start(EncodeAttr, attrs, 0) == 0 && (|EncodeAttrs(attrs)| > 0 <==> |attrs| > 0)
    ensures Fits(attrs) <==> 4 + |EncodeAttrs(attrs)| < 0x100
  {
    FlatEnd(EncodeAttr, attrs, 0);
  }

  // ----- removing -----

  function WithoutAttr(attrs: seq<Attr>, id: byte): (r: seq<Attr>)
    ensures |r| <= |attrs|
  {
    if attrs == [] then []
    else if attrs[0].id == id then WithoutAttr(attrs[1..], id)
    else [attrs[0]] + WithoutAttr(attrs[1..], id)
  }

  /** Exactly the attributes with another id survive, each as often as before. */
  lemma {:induction false} WithoutAttrKeepsTheRest(attrs: seq<Attr>, id: byte, a: Attr)
    ensures multiset(WithoutAttr(attrs, id))[a] == if a.id == id then 0 else multiset(attrs)[a]
  {
    if attrs != [] {
      WithoutAttrKeepsTheRest(attrs[1..], id, a);
      HeadTail(attrs);
      MultisetOfCat([attrs[0]], attrs[1..]);
      MultisetOfCat([attrs[0]], WithoutAttr(attrs[1..], id));
    }
  }

  /** Dropping the first attribute with this id changes nothing about what survives. */
  lemma {:induction false} WithoutAttrStep(attrs: seq<Attr>, id: byte, k: nat)
    requires k <= |attrs| && IndexOfAttr(attrs, id) == k
    ensures if k == |attrs| then WithoutAttr(attrs, id) == attrs
            else WithoutAttr(attrs[..k] + attrs[k + 1..], id) == WithoutAttr(attrs, id)
  {
    if k > 0 {
      WithoutAttrStep(attrs[1..], id, k - 1);
      if k < |attrs| {
        CutInTail(attrs, k);
        TailOfCat([attrs[0]], attrs[1..][..k - 1] + attrs[1..][k..]);
      } else {
        HeadTail(attrs);
      }
    } else if k < |attrs| {
      assert attrs[..0] + attrs[1..] == attrs[1..];
    }
  }

  /** rtw_p2p_attr_remove: returns the new length of the element. */
  method P2pAttrRemove(buf: array<byte>, ie: nat, ielen_ori: nat, attr_id: byte, ghost attrs: seq<Attr>)
    returns (ielen: nat)
    requires IsP2pAt(buf[..], ie, ielen_ori, attrs)
    modifies buf
    ensures ielen <= ielen_ori && IsP2pAt(buf[..], ie, ielen, WithoutAttr(attrs, attr_id))
    ensures SameOutside(old(buf[..]), buf[..], ie, ie + ielen_ori)
  {
    hide *;
    ielen := ielen_ori;
    ghost var left := attrs;
    P2pHeader(buf[..], ie, ielen, attrs);
    SameToStart(buf[..], ie, ie + ielen_ori);
    while true
      invariant ielen <= ielen_ori && IsP2pAt(buf[..], ie, ielen, left)
      invariant WithoutAttr(left, attr_id) == WithoutAttr(attrs, attr_id)
      invariant SameOutside(old(buf[..]), buf[..], ie, ie + ielen_ori)
      decreases |left|
    {
      var target, len := GetP2pAttr(buf, ie, ielen, attr_id, left);
      ghost var k := IndexOfAttr(left, attr_id);
      IndexOfAttrIsFirst(left, attr_id, k);
      WithoutAttrStep(left, attr_id, k);
      if target.Some? && len != 0 {
        AttrInside(buf[..], ie, ielen, left, k);
        var next := target.value + len;
        var remain_len := ielen - (next - ie);
        ghost var s0 := buf[..];
        Zero(buf, target.value, len);
        ghost var s1 := buf[..];
        Move(buf, target.value, next, remain_len);
        ghost var s2 := buf[..];
        Zero(buf, target.value + remain_len, len);
        ghost var s3 := buf[..];
        buf[ie + 1] := (buf[ie + 1] as int - len) % 0x100;
        AttrRemoved(old(buf[..]), s0, s1, s2, s3, buf[..], ie, ielen, ie + ielen_ori, left, k);
        left := left[..k] + left[k + 1..];
        ielen := ielen - len;
      } else {
        break;
      }
    }
  }

  lemma SameToStart(a: seq<byte>, lo: nat, hi: nat)
    requires lo <= hi <= |a|
    ensures SameOutside(a, a, lo, hi)
  {
  }

  /** t..end of the buffer after [t, next) was cleared, closed up, and the freed end cleared. */
  ghost predicate ClosedOver(s0: seq<byte>, s3: seq<byte>, t: nat, next: nat, end: nat) {
    && t <= next <= end <= |s0| == |s3|
    && s3[..t] == s0[..t]
    && s3[t..end - (next - t)] == s0[next..end]
    && s3[end..] == s0[end..]
  }

  lemma OverMeans(s0: seq<byte>, s3: seq<byte>, t: nat, next: nat, end: nat)
    requires ClosedOver(s0, s3, t, next, end)
    ensures t <= next <= end <= |s0| == |s3| && s3[..t] == s0[..t] && s3[end..] == s0[end..]
    ensures s3[t..end - (next - t)] == s0[next..end]
  {
  }

  lemma ClearAndClose(s0: seq<byte>, s1: seq<byte>, s2: seq<byte>, s3: seq<byte>, t: nat, next: nat, remain: nat)
    requires t <= next && next + remain <= |s0|
    requires s1 == Stored(s0, t, seq(next - t, _ => 0))
    requires s2 == Stored(s1, t, s1[next..next + remain])
    requires s3 == Stored(s2, t + remain, seq(next - t, _ => 0))
    ensures ClosedOver(s0, s3, t, next, next + remain)
  {
    hide Stored;
    var zeros: seq<byte> := seq(next - t, _ => 0);
    StoredSlices(s0, t, zeros);
    StoredSlices(s1, t, s1[next..next + remain]);
    StoredSlices(s2, t + remain, zeros);
    DropTake(s1, next, remain);
    DropTake(s0, next, remain);
  }

  /** The element without attribute k, once its length octet is fixed. */
  lemma AttrCut(s0: seq<byte>, s3: seq<byte>, ie: nat, ielen: nat, attrs: seq<Attr>, k: nat)
    requires IsP2pAt(s0, ie, ielen, attrs) && k < |attrs|
    requires var t, len := ie + 6 + Start(EncodeAttr, attrs, k), |attrs[k].data| + 3;
             ClosedOver(s0, s3, t, t + len, ie + ielen)
    ensures var len := |attrs[k].data| + 3;
            && len <= ielen && ie + 1 < |s3| && s3[ie + 1] == s0[ie + 1]
            && IsP2pAt(s3[ie + 1 := (s0[ie + 1] as int - len) % 0x100], ie, ielen - len, attrs[..k] + attrs[k + 1..])
  {
    hide *;
    var t, len := ie + 6 + Start(EncodeAttr, attrs, k), |attrs[k].data| + 3;
    OverMeans(s0, s3, t, t + len, ie + ielen);
    var end' := ie + ielen - len;
    var rest := attrs[..k] + attrs[k + 1..];
    P2pHeader(s0, ie, ielen, attrs);
    AttrAt(s0, ie + 6, ie + ielen, attrs, k);
    AttrsCut(s0, ie + 6, ie + ielen, attrs, k);
    AttrsStart(rest);
    AttrsStart(attrs);
    PrefixSlices(s0, s3, t, ie);
    Join(s3, ie + 6, t, end');
    var s4 := s3[ie + 1 := (s0[ie + 1] as int - len) % 0x100];
    assert s4[ie + 2..ie + 6] == s3[ie + 2..ie + 6];
    assert s4[ie + 6..end'] == s3[ie + 6..end'];
    P2pHeader(s4, ie, end' - ie, rest);
  }

  lemma AttrInside(a: seq<byte>, ie: nat, ielen: nat, attrs: seq<Attr>, k: nat)
    requires IsP2pAt(a, ie, ielen, attrs) && k < |attrs|
    ensures ie + 6 + Start(EncodeAttr, attrs, k) + |attrs[k].data| + 3 <= ie + ielen <= |a|
  {
    hide *;
    P2pHeader(a, ie, ielen, attrs);
    AttrAt(a, ie + 6, ie + ielen, attrs, k);
  }

  /** One round of the removal loop: clear, close up, clear the end, fix the length octet. */
  lemma AttrRemoved(first: seq<byte>, s0: seq<byte>, s1: seq<byte>, s2: seq<byte>, s3: seq<byte>, s4: seq<byte>,
                    ie: nat, ielen: nat, hi: nat, attrs: seq<Attr>, k: nat)
    requires IsP2pAt(s0, ie, ielen, attrs) && k < |attrs| && ie + ielen <= hi && SameOutside(first, s0, ie, hi)
    requires var t, len := ie + 6 + Start(EncodeAttr, attrs, k), |attrs[k].data| + 3;
             var remain := ie + ielen - (t + len);
             && 0 <= remain && t + len + remain <= |s0|
             && s1 == Stored(s0, t, seq(len, _ => 0))
             && s2 == Stored(s1, t, s1[t + len..t + len + remain])
             && s3 == Stored(s2, t + remain, seq(len, _ => 0))
             && s4 == s3[ie + 1 := (s3[ie + 1] as int - len) % 0x100]
    ensures |attrs[k].data| + 3 <= ielen
    ensures IsP2pAt(s4, ie, ielen - (|attrs[k].data| + 3), attrs[..k] + attrs[k + 1..])
    ensures SameOutside(first, s4, ie, hi)
  {
    hide *;
    var t, len := ie + 6 + Start(EncodeAttr, attrs, k), |attrs[k].data| + 3;
    ClearAndClose(s0, s1, s2, s3, t, t + len, ie + ielen - (t + len));
    OverMeans(s0, s3, t, t + len, ie + ielen);
    AttrCut(s0, s3, ie, ielen, attrs, k);
    Outside(first, s0, s3, s4, ie, hi, t, ie + ielen);
  }

  lemma PrefixSlices(a: seq<byte>, b: seq<byte>, t: nat, ie: nat)
    requires t <= |a| == |b| && a[..t] == b[..t] && ie + 6 <= t
    ensures a[ie] == b[ie] && a[ie + 1] == b[ie + 1] && a[ie + 2..ie + 6] == b[ie + 2..ie + 6]
            && a[ie + 6..t] == b[ie + 6..t]
  {
    assert a[ie] == a[..t][ie] && b[ie] == b[..t][ie];
    assert a[ie + 1] == a[..t][ie + 1] && b[ie + 1] == b[..t][ie + 1];
    assert a[ie + 2..ie + 6] == a[..t][ie + 2..ie + 6] && b[ie + 2..ie + 6] == b[..t][ie + 2..ie + 6];
    assert a[ie + 6..t] == a[..t][ie + 6..] && b[ie + 6..t] == b[..t][ie + 6..];
  }

  lemma AttrsCut(a: seq<byte>, lo: nat, hi: nat, attrs: seq<Attr>, k: nat)
    requires lo <= hi <= |a| && a[lo..hi] == EncodeAttrs(attrs) && k < |attrs|
    ensures var t, next := lo + Start(EncodeAttr, attrs, k), lo + Start(EncodeAttr, attrs, k + 1);
            t <= next <= hi && a[lo..t] + a[next..hi] == EncodeAttrs(attrs[..k] + attrs[k + 1..])
  {
    hide Flat, EncodeAttr;
    FlatCut(EncodeAttr, attrs, k);
    FlatCut(EncodeAttr, attrs, k + 1);
    FlatSplit(EncodeAttr, attrs, k);
    FlatConcat(EncodeAttr, attrs[..k], attrs[k + 1..]);
    SliceOfSlice(a, lo, hi, 0, Start(EncodeAttr, attrs, k));
    SliceOfSlice(a, lo, hi, Start(EncodeAttr, attrs, k + 1), hi - lo);
  }

  lemma Outside(first: seq<byte>, s0: seq<byte>, s3: seq<byte>, s4: seq<byte>, lo: nat, hi: nat, t: nat, end: nat)
    requires SameOutside(first, s0, lo, hi) && lo + 6 <= t <= end <= hi
    requires |s3| == |s0| && s3[..t] == s0[..t] && s3[end..] == s0[end..]
    requires |s4| == |s3| && s4 == s3[lo + 1 := s4[lo + 1]]
    ensures SameOutside(first, s4, lo, hi)
  {
    assert s4[..lo] == s3[..lo] == s3[..t][..lo];
    assert s0[..lo] == s0[..t][..lo];
    assert s4[hi..] == s3[hi..] == s3[end..][hi - end..];
    assert s0[hi..] == s0[end..][hi - end..];
  }

  /** rtw_WLAN_BSSID_EX_remove_p2p_attr. When the first P2P element of es carries attrs, it is left with those of
    * another id; nothing else in the list changes, and the length drops by the octets taken away. */
  method RemoveP2pAttr(bss: BssidEx, attr_id: byte, ghost es: seq<Ie>, ghost attrs: seq<Attr>)
    requires bss.Holds(es)
    requires OuiReadable(es, WLAN_EID_VENDOR_SPECIFIC, Some(P2P_OUI))
    requires IndexOfP2p(es) < |es| ==> Fits(attrs) && es[IndexOfP2p(es)] == P2pIe(attrs)
    modifies bss, bss.IEs
    ensures var k, kept := IndexOfP2p(es), WithoutAttr(attrs, attr_id);
            if k == |es| then bss.Holds(es) && bss.IELength == old(bss.IELength)
            else
              && Fits(kept) && bss.Holds(es[k := P2pIe(kept)])
              && bss.IELength == old(bss.IELength) - (|EncodeAttrs(attrs)| - |EncodeAttrs(kept)|)
    ensures bss.IEs[..FIXED_IE_LENGTH] == old(bss.IEs[..FIXED_IE_LENGTH])
  {
    hide EncodeAll, IndexOfP2p, WithoutAttr, Fits, EncodeAttrs, IsP2pAt, SameOutside, Stored, OuiReadable, Encode,
         BssidEx.Holds;
    ghost var k, kept := IndexOfP2p(es), WithoutAttr(attrs, attr_id);
    ghost var s0: seq<byte>, len0 := bss.IEs[..], bss.IELength;
    HoldsMeans(bss, es);
    var p2p_ie, ielen_ori := GetP2pIe(bss.IEs, FIXED_IE_LENGTH, bss.IELength - FIXED_IE_LENGTH, es);
    P2pInReach(s0, bss.IELength, es, attrs);
    if p2p_ie.Some? {
      var ie := p2p_ie.value;
      var ielen := P2pAttrRemove(bss.IEs, ie, ielen_ori, attr_id, attrs);
      ghost var s1: seq<byte> := bss.IEs[..];
      P2pHeader(s0, ie, ielen_ori, attrs);
      P2pHeader(s1, ie, ielen, kept);
      SameFixed(s0, s1, ie, ie + ielen_ori);
      if ielen != ielen_ori {
        var next_ie_ori, next_ie := ie + ielen_ori, ie + ielen;
        var remain_len := bss.IELength - next_ie_ori;
        Move(bss.IEs, next_ie, next_ie_ori, remain_len);
        ghost var s2 := bss.IEs[..];
        Zero(bss.IEs, next_ie + remain_len, ielen_ori - ielen);
        ClosedUp(s0, s1, s2, bss.IEs[..], bss.IELength, es, attrs, kept, ie, ielen);
        bss.IELength := bss.IELength - (ielen_ori - ielen);
        HeldAgain(bss, es[k := P2pIe(kept)]);
      } else {
        Unshortened(s0, s1, bss.IELength, es, attrs, kept, ie, ielen);
        HeldAgain(bss, es[k := P2pIe(kept)]);
      }
    } else {
      HeldAgain(bss, es);
    }
  }

  lemma HoldsMeans(bss: BssidEx, es: seq<Ie>)
    requires bss.Holds(es)
    ensures 12 <= bss.IELength <= bss.IEs.Length == 768 && MAX_IE_SZ == 768
    ensures bss.IEs[12..bss.IELength] == EncodeAll(es)
  {
  }

  lemma HeldAgain(bss: BssidEx, es: seq<Ie>)
    requires 12 <= bss.IELength <= bss.IEs.Length == 768 && bss.IEs[12..bss.IELength] == EncodeAll(es)
    ensures bss.Holds(es)
  {
  }

  lemma SameFixed(a: seq<byte>, b: seq<byte>, lo: nat, hi: nat)
    requires SameOutside(a, b, lo, hi) && 12 <= lo
    ensures |a| == |b| && lo <= hi <= |a| && b[..12] == a[..12] && b[12..lo] == a[12..lo] && b[hi..] == a[hi..]
  {
    assert b[..12] == b[..lo][..12] && a[..12] == a[..lo][..12];
    assert b[12..lo] == b[..lo][12..] && a[12..lo] == a[..lo][12..];
  }

  /** The first P2P element, if any, is found and is where its encoding stands. */
  lemma P2pInReach(a: seq<byte>, end: nat, es: seq<Ie>, attrs: seq<Attr>)
    requires 12 <= end <= |a| == 768 && a[12..end] == EncodeAll(es)
    requires IndexOfP2p(es) < |es| ==> Fits(attrs) && es[IndexOfP2p(es)] == P2pIe(attrs)
    ensures IndexOfP2p(es) < |es| ==>
              var k := IndexOfP2p(es);
              && Offset(es, k) + 5 < MAX_IE_SZ
              && IsP2pAt(a, 12 + Offset(es, k), |es[k].body| + 2, attrs)
              && 12 + Offset(es, k) + |es[k].body| + 2 <= end
  {
    if IndexOfP2p(es) < |es| {
      hide EncodeAll, IndexOfP2p;
      EncodedAll(es);
      FlatRead(Encode, a, 12, end, es, IndexOfP2p(es));
    }
  }

  lemma EncodedAll(es: seq<Ie>)
    ensures EncodeAll(es) == Flat(Encode, es)
    ensures forall k :: 0 <= k <= |es| ==> Offset(es, k) == Start(Encode, es, k)
  {
  }

  lemma ClosedUp(s0: seq<byte>, s1: seq<byte>, s2: seq<byte>, s3: seq<byte>, end: nat,
                 es: seq<Ie>, attrs: seq<Attr>, kept: seq<Attr>, ie: nat, ielen: nat)
    requires 12 <= end <= |s0| == 768 && s0[12..end] == EncodeAll(es)
    requires var k := IndexOfP2p(es);
             && k < |es| && Fits(attrs) && Fits(kept) && es[k] == P2pIe(attrs) && ie == 12 + Offset(es, k)
             && ielen <= |es[k].body| + 2 && ie + |es[k].body| + 2 <= end
             && SameOutside(s0, s1, ie, ie + |es[k].body| + 2) && IsP2pAt(s1, ie, ielen, kept)
             && var next := ie + |es[k].body| + 2;
             && s2 == Stored(s1, ie + ielen, s1[next..end])
             && s3 == Stored(s2, ie + ielen + (end - next), seq(next - (ie + ielen), _ => 0))
    ensures var k := IndexOfP2p(es);
            var end' := end - (|es[k].body| + 2 - ielen);
            && s3[12..end'] == EncodeAll(es[k := P2pIe(kept)]) && s3[..12] == s0[..12]
  {
    hide IndexOfP2p, EncodeAttrs, Fits, SameOutside, Stored, EncodeAll;
    var k := IndexOfP2p(es);
    var next := ie + |es[k].body| + 2;
    var end' := end - (next - (ie + ielen));
    SameFixed(s0, s1, ie, next);
    StoredSlices(s1, ie + ielen, s1[next..end]);
    StoredSlices(s2, end', seq(next - (ie + ielen), _ => 0));
    assert s3[12..end'] == s2[12..end'];
    Join(s2, 12, ie, ie + ielen);
    Join(s2, 12, ie + ielen, end');
    assert s2[12..ie] == s1[12..ie] == s0[12..ie];
    assert s2[ie..ie + ielen] == s1[ie..ie + ielen];
    DropTake(s1, next, end - next);
    DropTake(s0, next, end - next);
    assert s2[ie + ielen..end'] == s1[next..end] == s0[next..end];
    RewrittenAt(s0, 12, end, es, k, P2pIe(kept));
    assert s3[..12] == s2[..12] == s1[..12];
  }

  lemma Unshortened(s0: seq<byte>, s1: seq<byte>, end: nat, es: seq<Ie>, attrs: seq<Attr>, kept: seq<Attr>, ie: nat,
                    ielen: nat)
    requires 12 <= end <= |s0| == 768 && s0[12..end] == EncodeAll(es)
    requires var k := IndexOfP2p(es);
             && k < |es| && Fits(attrs) && Fits(kept) && es[k] == P2pIe(attrs) && ie == 12 + Offset(es, k)
             && ielen == |es[k].body| + 2 && ie + ielen <= end
             && SameOutside(s0, s1, ie, ie + ielen) && IsP2pAt(s1, ie, ielen, kept)
    ensures s1[12..end] == EncodeAll(es[IndexOfP2p(es) := P2pIe(kept)])
  {
    hide IndexOfP2p, EncodeAttrs, Fits, SameOutside, EncodeAll;
    var k := IndexOfP2p(es);
    SameFixed(s0, s1, ie, ie + ielen);
    Join(s1, 12, ie, ie + ielen);
    Join(s1, 12, ie + ielen, end);
    DropTake(s1, ie + ielen, end - (ie + ielen));
    DropTake(s0, ie + ielen, end - (ie + ielen));
    RewrittenAt(s0, 12, end, es, k, P2pIe(kept));
  }

  // ----- which octets are meant -----

  /** A P2P element is a vendor element whose body begins with the OUI 50-6F-9A and type 9. */
  lemma P2pIndexIs(es: seq<Ie>, k: nat)
    requires k <= |es|
    ensures IndexOfP2p(es) == k <==>
              && (forall j :: 0 <= j < k ==> !(es[j].id == 221 && [0x50, 0x6F, 0x9A, 0x09] <= es[j].body))
              && (k < |es| ==> es[k].id == 221 && [0x50, 0x6F, 0x9A, 0x09] <= es[k].body)
  {
    hide IndexOfMatch, Matches;
    IndexOfMatchIsFirst(es, WLAN_EID_VENDOR_SPECIFIC, Some(P2P_OUI), k);
    forall j | 0 <= j < |es|
      ensures Matches(es[j], WLAN_EID_VENDOR_SPECIFIC, Some(P2P_OUI)) <==>
                es[j].id == 221 && [0x50, 0x6F, 0x9A, 0x09] <= es[j].body
    {
      P2pMatches(es[j]);
    }
  }

  lemma P2pMatches(e: Ie)
    ensures Matches(e, WLAN_EID_VENDOR_SPECIFIC, Some(P2P_OUI)) <==> e.id == 221 && [0x50, 0x6F, 0x9A, 0x09] <= e.body
  {
  }

  /** An attribute on the wire, and where the list of a P2P element starts: the length comes low octet first. */
  lemma AttrOctets(id: byte, hi: byte, lo: byte, data: seq<byte>)
    requires |data| == hi as int * 0x100 + lo as int
    ensures EncodeAttr(Attr(id, data)) == [id, lo, hi] + data
    ensures Fits([Attr(id, data)]) ==>
              P2pIe([Attr(id, data)]) == Element(221, [0x50, 0x6F, 0x9A, 0x09, id, lo, hi] + data)
  {
    FlatOne(EncodeAttr, Attr(id, data));
    assert [0x50, 0x6F, 0x9A, 0x09] + ([id, lo, hi] + data) == [0x50, 0x6F, 0x9A, 0x09, id, lo, hi] + data;
  }
}
