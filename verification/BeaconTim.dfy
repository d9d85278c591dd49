/** update_BCNTIM of core/rtw_ap.c: the element that tells sleeping stations of buffered traffic, rewritten in place. */
module BeaconTim {
  import opened Bytes
  import opened Seqs
  import opened Elements
  import opened IeBuffer
  import opened Bss
  import opened BeaconIes

  const SUPPORTEDRATES_IE: byte := 1
  const TIM_IE: byte := 5
  /** The values of an unsigned int. */
  const UINT: nat := 0x1_0000_0000

  /** The octets of a 16-bit variable as they lie in memory. */
  function MemoryOf(h: Host, x: u16): seq<byte> {
    if h.LittleEndian? then [x % 0x100, x / 0x100] else [x / 0x100, x % 0x100]
  }

  /** Some station in 1..7, in 8..15, and the group-addressed bit. */
  predicate LowAids(bitmap: u16) { bitmap % 0x100 / 2 != 0 }
  predicate HighAids(bitmap: u16) { bitmap / 0x100 != 0 }

  /** The TIM element the update writes for a traffic bitmap. */
  function TimIe(bitmap: u16, h: Host): Ie {
    var le := CpuToLe16(h, bitmap);
    var pvb :=
      if HighAids(bitmap) && LowAids(bitmap) then MemoryOf(h, le)
      else if LowAids(bitmap) then [le % 0x100]
      else if HighAids(bitmap) then [le / 0x100]
      else [le % 0x100];
    Element(TIM_IE, [0, 1, bitmap % 2] + pvb)
  }

  /** Octet i of the traffic indication virtual bitmap (section 8.4.2.7 of IEEE 802.11-2012): the partial bitmap
    * starts at octet 2 * (bitmap control / 2). */
  function VirtualOctet(body: seq<byte>, i: nat): byte
    requires |body| >= 3
  {
    var n1: nat := body[2] as int / 2 * 2;
    if i < n1 || 3 + i - n1 >= |body| then 0 else body[3 + i - n1]
  }

  /** What a station with AID 0..15 reads: AID 0 from the bitmap control, the others from the virtual bitmap. */
  function DecodeTim(body: seq<byte>): u16
    requires |body| >= 3
  {
    body[2] as int % 2 + VirtualOctet(body, 0) as int / 2 * 2 + 0x100 * VirtualOctet(body, 1)
  }

  /** When the element advertises exactly the traffic bitmap. On a little-endian host the one failing family is traffic
    * for AIDs 8..15 only; on a big-endian one every four-octet element with a station bit in it is wrong. */
  lemma TimAdvertises(bitmap: u16, h: Host)
    ensures DecodeTim(TimIe(bitmap, h).body) == bitmap <==>
              match h
              case LittleEndian => !HighAids(bitmap) || LowAids(bitmap)
              case BigEndian => HighAids(bitmap) == LowAids(bitmap)
  {
    hide DecodeTim, TimIe;
    TimDecodes(bitmap, h);
  }

  /** What is decoded, by cases: the octets of the bitmap, or the one that was chosen as the first octet. */
  lemma TimDecodes(bitmap: u16, h: Host)
    ensures var lo, hi := bitmap as int % 0x100, bitmap as int / 0x100;
            DecodeTim(TimIe(bitmap, h).body) ==
              if HighAids(bitmap) && LowAids(bitmap) then bitmap
              else if h.LittleEndian? == HighAids(bitmap) then bitmap % 2 + hi / 2 * 2
              else bitmap % 2 + lo / 2 * 2
  {
    hide CpuToLe16;
    var lo, hi := bitmap % 0x100, bitmap / 0x100;
    LeParts(bitmap, h);
    var body := TimIe(bitmap, h).body;
    if HighAids(bitmap) && LowAids(bitmap) {
      assert body == [0, 1, bitmap % 2, lo, hi];
    } else if h.LittleEndian? == HighAids(bitmap) {
      assert body == [0, 1, bitmap % 2, hi];
    } else {
      assert body == [0, 1, bitmap % 2, lo];
    }
  }

  /** The octets of the little-endian value: on a big-endian host they change places. */
  lemma LeParts(bitmap: u16, h: Host)
    ensures var le := CpuToLe16(h, bitmap);
            && MemoryOf(h, le) == [bitmap % 0x100, bitmap / 0x100]
            && (h.LittleEndian? ==> le % 0x100 == bitmap % 0x100 && le / 0x100 == bitmap / 0x100)
            && (h.BigEndian? ==> le % 0x100 == bitmap / 0x100 && le / 0x100 == bitmap % 0x100)
  {
  }

  /** A failing input for either kind of host: buffered traffic for AID 9 is announced to AID 1 by a little-endian one,
    * and traffic for AID 1 to nobody by a big-endian one. */
  lemma TimMisleads()
    ensures DecodeTim(TimIe(0x0200, LittleEndian).body) == 0x0002
    ensures DecodeTim(TimIe(0x0002, BigEndian).body) == 0
  {
    assert TimIe(0x0200, LittleEndian).body[3..] == [0x02];
    assert TimIe(0x0002, BigEndian).body[3..] == [0x00];
    assert TimIe(0x0200, LittleEndian).body == [0, 1, 0, 0x02];
    assert TimIe(0x0002, BigEndian).body == [0, 1, 0, 0x00];
  }

  /** Where the replaced stretch of element octets starts, and ends. */
  function TimFrom(es: seq<Ie>): nat {
    if HasTim(es) then Offset(es, IndexOf(es, TIM_IE)) else TimOffset(es)
  }

  function TimTo(es: seq<Ie>): nat {
    if HasTim(es) then Offset(es, IndexOf(es, TIM_IE) + 1) else TimOffset(es)
  }

  /** The stretch lies in the octets in use: always, where there is a TIM element. */
  predicate Inside(es: seq<Ie>) {
    TimFrom(es) <= TimTo(es) <= |EncodeAll(es)|
  }

  /** The element octets with those of the new element in place of the stretch. */
  function UpdatedOctets(es: seq<Ie>, bitmap: u16, h: Host): seq<byte>
    requires Inside(es)
  {
    EncodeAll(es)[..TimFrom(es)] + Encode(TimIe(bitmap, h)) + EncodeAll(es)[TimTo(es)..]
  }

  /** The element octets in use afterwards, whether the stretch lies inside or not. */
  function LengthAfter(es: seq<Ie>, bitmap: u16, h: Host): int {
    |EncodeAll(es)| + |Encode(TimIe(bitmap, h))| - (TimTo(es) - TimFrom(es))
  }

  /** The buffer with octets t at p in place of those up to q, and the rest of the len octets in use behind them. */
  function Replacing(s: seq<byte>, len: nat, p: nat, q: nat, t: seq<byte>): (r: seq<byte>)
    requires p <= q <= len <= |s| && p + |t| + (len - q) <= |s|
    ensures |r| == |s|
  {
    Stored(Stored(s, p, t), p + |t|, s[q..len])
  }

  /** Octets the update skips when there is no TIM element: SSID, supported rates, and three for DS. */
  function TimOffset(es: seq<Ie>): nat {
    var ssid, rates := First(es, SSID_IE), First(es, SUPPORTEDRATES_IE);
    (if ssid.Some? then |ssid.value.body| + 2 else 0) + (if rates.Some? then |rates.value.body| + 2 else 0) + 3
  }

  predicate HasTim(es: seq<Ie>) {
    IndexOf(es, TIM_IE) < |es| && es[IndexOf(es, TIM_IE)].body != []
  }

  /** The skipped octets are whole elements: the first `at` of them. */
  predicate TimFits(es: seq<Ie>, at: nat) {
    at <= |es| && Offset(es, at) == TimOffset(es)
  }

  function UpdateTim(es: seq<Ie>, at: nat, bitmap: u16, h: Host): seq<Ie>
    requires at <= |es|
  {
    if HasTim(es) then es[IndexOf(es, TIM_IE) := TimIe(bitmap, h)]
    else es[..at] + [TimIe(bitmap, h)] + es[at..]
  }

  /** The body as it is assembled: DTIM count and period, bitmap control, then one or two octets of the bitmap. */
  method TimBody(tim_bitmap: u16, h: Host) returns (tim: seq<byte>)
    ensures tim == TimIe(tim_bitmap, h).body
  {
    var tim_bitmap_le := CpuToLe16(h, tim_bitmap);
    tim := [0, 1];
    tim := tim + if Bit(tim_bitmap, 1) then [1] else [0];
    if HighAids(tim_bitmap) && LowAids(tim_bitmap) {
      tim := tim + MemoryOf(h, tim_bitmap_le);
    } else {
      var pvb: byte := 0;
      if LowAids(tim_bitmap) {
        pvb := tim_bitmap_le % 0x100;
      } else if HighAids(tim_bitmap) {
        pvb := tim_bitmap_le / 0x100;
      } else {
        pvb := tim_bitmap_le % 0x100;
      }
      tim := tim + [pvb];
    }
  }

  /** Where the element goes, and what has to be kept behind it. remainder_ielen is unsigned: it wraps where the
    * insertion point lies past the octets in use. */
  method TimPosition(bss: BssidEx, ghost es: seq<Ie>) returns (dst: nat, premainder: nat, remainder_ielen: nat)
    requires bss.Holds(es)
    ensures dst == FIXED_IE_LENGTH + TimFrom(es) <= premainder == FIXED_IE_LENGTH + TimTo(es)
    ensures Inside(es) || dst == premainder
    ensures remainder_ielen == (bss.IELength - premainder) % UINT
  {
    hide EncodeAll, IndexOf;
    NothingHeld(es);
    var p, tim_ielen := GetIe(bss.IEs, FIXED_IE_LENGTH, TIM_IE, bss.IELength - FIXED_IE_LENGTH, es);
    if p.Some? && tim_ielen > 0 {
      ReadAt(bss.IEs[..], FIXED_IE_LENGTH, bss.IELength, es, IndexOf(es, TIM_IE));
      tim_ielen := tim_ielen + 2;
      return p.value, p.value + tim_ielen, (bss.IELength - p.value - tim_ielen) % UINT;
    } else {
      var offset := FIXED_IE_LENGTH;
      var tmp_len;
      p, tmp_len := GetIe(bss.IEs, FIXED_IE_LENGTH, SSID_IE, bss.IELength - FIXED_IE_LENGTH, es);
      if p.Some? {
        offset := offset + tmp_len + 2;
      }
      p, tmp_len := GetIe(bss.IEs, FIXED_IE_LENGTH, SUPPORTEDRATES_IE, bss.IELength - FIXED_IE_LENGTH, es);
      if p.Some? {
        offset := offset + tmp_len + 2;
      }
      offset := offset + 3;
      return offset, offset, (bss.IELength - offset) % UINT;
    }
  }

  /** On every beacon with room, wherever the insertion point lies; mallocOk tells whether rtw_malloc succeeds. Past the
    * octets in use it is asked for nearly 4 GiB, and what a copy of that size would do is not described. With the rest
    * put aside, the octets in use are those of UpdatedOctets, and the list is that of UpdateTim where the stretch is
    * one of whole elements. Otherwise the new element's octets are all that is written. */
  method UpdateBcnTim(bss: BssidEx, tim_bitmap: u16, h: Host, mallocOk: bool, ghost es: seq<Ie>)
    requires bss.Holds(es) && (mallocOk ==> Inside(es))
    requires bss.IELength + 7 <= MAX_IE_SZ && FIXED_IE_LENGTH + TimFrom(es) + 7 <= MAX_IE_SZ
    modifies bss, bss.IEs
    ensures 6 <= |Encode(TimIe(tim_bitmap, h))| <= 7 && TimFrom(es) <= TimTo(es)
    ensures bss.IELength == FIXED_IE_LENGTH + LengthAfter(es, tim_bitmap, h)
    ensures var p, q, t := FIXED_IE_LENGTH + TimFrom(es), FIXED_IE_LENGTH + TimTo(es), Encode(TimIe(tim_bitmap, h));
            bss.IEs[..] == if mallocOk then Replacing(old(bss.IEs[..]), old(bss.IELength), p, q, t)
                           else Stored(old(bss.IEs[..]), p, t)
    ensures mallocOk || TimTo(es) == |EncodeAll(es)| ==>
              && FIXED_IE_LENGTH <= bss.IELength <= MAX_IE_SZ && Inside(es)
              && bss.IEs[FIXED_IE_LENGTH..bss.IELength] == UpdatedOctets(es, tim_bitmap, h)
              && forall at: nat :: at <= |es| && (!HasTim(es) ==> TimFits(es, at)) ==>
                                     bss.Holds(UpdateTim(es, at, tim_bitmap, h))
    ensures bss.IEs[..FIXED_IE_LENGTH] == old(bss.IEs[..FIXED_IE_LENGTH])
  {
    hide EncodeAll, IndexOf, Stored, TimIe, HasTim, TimFits, TimFrom, TimTo, UpdatedOctets, UpdateTim, Encode;
    hide Replacing, TimOf;
    var dst, premainder, remainder_ielen := TimPosition(bss, es);
    ghost var s0: seq<byte>, len0: nat := bss.IEs[..], bss.IELength;
    var tim := TimBody(tim_bitmap, h);
    TimIeShape(tim_bitmap, h);
    EncodedTim(tim_bitmap, h, tim);
    WriteTim(bss, dst, premainder, remainder_ielen, mallocOk, tim);
    if mallocOk || premainder == len0 {
      if premainder == len0 {
        NothingBehind(s0, len0, dst, Encode(TimIe(tim_bitmap, h)));
      }
      OctetsUpdated(s0, len0, es, tim_bitmap, h);
      forall at: nat | at <= |es| && (!HasTim(es) ==> TimFits(es, at))
        ensures bss.Holds(UpdateTim(es, at, tim_bitmap, h))
      {
        UpdatedHolds(bss, es, at, tim_bitmap, h);
      }
    }
  }

  /** The rest put aside if rtw_malloc allows it, the element written, and the rest behind it. */
  method WriteTim(bss: BssidEx, dst: nat, premainder: nat, remainder_ielen: nat, mallocOk: bool, tim: seq<byte>)
    requires FIXED_IE_LENGTH <= dst <= premainder && bss.IEs.Length == MAX_IE_SZ && 4 <= |tim| <= 5
    requires bss.IELength + 7 <= MAX_IE_SZ && dst + 7 <= MAX_IE_SZ
    requires mallocOk || dst < premainder ==> premainder <= bss.IELength
    requires remainder_ielen == (bss.IELength - premainder) % UINT
    modifies bss, bss.IEs
    ensures bss.IELength == old(bss.IELength) + 2 + |tim| - (premainder - dst)
    ensures var s, t := old(bss.IEs[..]), TimOf(tim);
            bss.IEs[..] == if mallocOk then Replacing(s, old(bss.IELength), dst, premainder, t) else Stored(s, dst, t)
    ensures bss.IEs[..FIXED_IE_LENGTH] == old(bss.IEs[..FIXED_IE_LENGTH])
  {
    hide Stored;
    ghost var s0: seq<byte>, len0: nat, t: seq<byte> := bss.IEs[..], bss.IELength, TimOf(tim);
    var backup := [];
    if remainder_ielen > 0 && mallocOk {
      backup := bss.IEs[premainder..premainder + remainder_ielen];
    }
    assert mallocOk ==> backup == s0[premainder..len0];
    Store(bss.IEs, dst, TimOf(tim));
    ghost var s1: seq<byte> := bss.IEs[..];
    StoreNothing(s1, dst + 2 + |tim|);
    Store(bss.IEs, dst + 2 + |tim|, backup);
    UnsignedSum(dst + 2 + |tim|, len0 - premainder);
    bss.IELength := (dst + 2 + |tim| + remainder_ielen) % UINT;
    FixedPartKept(s0, dst, t, backup);
  }

  lemma NothingBehind(s: seq<byte>, len: nat, p: nat, t: seq<byte>)
    requires p <= len <= |s| && p + |t| <= |s|
    ensures Replacing(s, len, p, len, t) == Stored(s, p, t)
  {
    assert s[len..len] == [];
    StoreNothing(Stored(s, p, t), p + |t|);
  }

  lemma EncodedTim(bitmap: u16, h: Host, tim: seq<byte>)
    requires tim == TimIe(bitmap, h).body
    ensures |tim| < 0x100 && Encode(TimIe(bitmap, h)) == TimOf(tim)
  {
  }

  /** The element's octets, in the order in which they are written. */
  function TimOf(tim: seq<byte>): (t: seq<byte>)
    requires |tim| < 0x100
    ensures |t| == 2 + |tim|
  {
    [TIM_IE, |tim|] + tim
  }

  /** An unsigned sum does not notice that one of its terms had wrapped. */
  lemma UnsignedSum(x: nat, y: int)
    requires 0 <= x + y < UINT && 0 <= y + UINT && y < UINT
    ensures (x + y % UINT) % UINT == x + y
  {
    assert y % UINT == if y < 0 then y + UINT else y;
  }

  lemma UpdatedHolds(bss: BssidEx, es: seq<Ie>, at: nat, bitmap: u16, h: Host)
    requires at <= |es| && (!HasTim(es) ==> TimFits(es, at)) && Inside(es)
    requires FIXED_IE_LENGTH <= bss.IELength <= bss.IEs.Length == MAX_IE_SZ
    requires bss.IEs[FIXED_IE_LENGTH..bss.IELength] == UpdatedOctets(es, bitmap, h)
    ensures bss.Holds(UpdateTim(es, at, bitmap, h))
  {
    hide EncodeAll, HasTim, TimFits, UpdatedOctets, UpdateTim;
    UpdatedElements(es, at, bitmap, h);
  }

  lemma FixedPartKept(s: seq<byte>, p: nat, t: seq<byte>, rest: seq<byte>)
    requires FIXED_IE_LENGTH <= p && p + |t| + |rest| <= |s|
    ensures Stored(Stored(s, p, t), p + |t|, rest)[..FIXED_IE_LENGTH] == s[..FIXED_IE_LENGTH]
  {
  }

  lemma OctetsUpdated(s: seq<byte>, len: nat, es: seq<Ie>, bitmap: u16, h: Host)
    requires FIXED_IE_LENGTH <= len <= |s| && s[FIXED_IE_LENGTH..len] == EncodeAll(es) && Inside(es) && len + 7 <= |s|
    requires |Encode(TimIe(bitmap, h))| <= 7
    ensures var p, q, t := FIXED_IE_LENGTH + TimFrom(es), FIXED_IE_LENGTH + TimTo(es), Encode(TimIe(bitmap, h));
            && FIXED_IE_LENGTH <= len + |t| - (q - p) <= |s|
            && Replacing(s, len, p, q, t)[FIXED_IE_LENGTH..len + |t| - (q - p)] == UpdatedOctets(es, bitmap, h)
  {
    hide EncodeAll, TimFrom, TimTo, TimIe, Encode, Stored;
    var p, q, t := FIXED_IE_LENGTH + TimFrom(es), FIXED_IE_LENGTH + TimTo(es), Encode(TimIe(bitmap, h));
    var r := Replacing(s, len, p, q, t);
    var end := len + |t| - (q - p);
    StoredSlices(s, p, t);
    StoredSlices(Stored(s, p, t), p + |t|, s[q..len]);
    Join(r, FIXED_IE_LENGTH, p, p + |t|);
    Join(r, FIXED_IE_LENGTH, p + |t|, end);
    SliceOfSlice(s, FIXED_IE_LENGTH, len, 0, p - FIXED_IE_LENGTH);
    SliceOfSlice(s, FIXED_IE_LENGTH, len, q - FIXED_IE_LENGTH, len - FIXED_IE_LENGTH);
  }

  /** At an element boundary, the replacement of octets is one of elements. */
  lemma UpdatedElements(es: seq<Ie>, at: nat, bitmap: u16, h: Host)
    requires at <= |es| && (!HasTim(es) ==> TimFits(es, at))
    ensures Inside(es) && UpdatedOctets(es, bitmap, h) == EncodeAll(UpdateTim(es, at, bitmap, h))
  {
    hide EncodeAll, IndexOf, TimIe, HasTim, Encode;
    var i := if HasTim(es) then IndexOf(es, TIM_IE) else at;
    TimCases(es, at, bitmap, h);
    var j, added := if HasTim(es) then i + 1 else i, TimIe(bitmap, h);
    EncodeOne(added);
    CutAt(es, i);
    CutAt(es, j);
    if i < j {
      OffsetMonotone(es, i, j);
      Replaced(es, i, added);
    }
    EncodeAllConcat(es[..i] + [added], es[j..]);
    EncodeAllConcat(es[..i], [added]);
  }

  /** The layout hostapd writes: the insertion point is then the fourth element. */
  lemma TimFitsUsualBeacon(ssid: Body, rates: Body, channel: byte, rest: seq<Ie>)
    ensures var es := [Element(SSID_IE, ssid), Element(SUPPORTEDRATES_IE, rates), Element(3, [channel])] + rest;
            TimFits(es, 3) && es[3..] == rest
  {
    var e0, e1, e2 := Element(SSID_IE, ssid), Element(SUPPORTEDRATES_IE, rates), Element(3, [channel]);
    var es := [e0, e1, e2] + rest;
    IndexOfUnique(es, 0, 0);
    IndexOfUnique(es, 1, 1);
    SplitAt(es, 0);
    SplitAt(es, 1);
    SplitAt(es, 2);
    assert es[..0] == [];
  }

  /** Without the SSID, the rates, or both, it is as many elements earlier. */
  lemma TimFitsBareBeacon(e: Ie, channel: byte, rest: seq<Ie>)
    requires First(rest, SSID_IE).None? && First(rest, SUPPORTEDRATES_IE).None?
    ensures TimFits([Element(3, [channel])] + rest, 1)
    ensures e.id == SSID_IE || e.id == SUPPORTEDRATES_IE ==> TimFits([e, Element(3, [channel])] + rest, 2)
  {
    hide IndexOf;
    var ds := Element(3, [channel]);
    var bare, es := [ds] + rest, [e, ds] + rest;
    FirstConcat([ds], rest, SSID_IE);
    FirstConcat([ds], rest, SUPPORTEDRATES_IE);
    IndexOfUnique([ds], SSID_IE, 1);
    IndexOfUnique([ds], SUPPORTEDRATES_IE, 1);
    assert es == [e] + bare;
    FirstConcat([e], bare, SSID_IE);
    FirstConcat([e], bare, SUPPORTEDRATES_IE);
    IndexOfUnique([e], SSID_IE, if e.id == SSID_IE then 0 else 1);
    IndexOfUnique([e], SUPPORTEDRATES_IE, if e.id == SUPPORTEDRATES_IE then 0 else 1);
    SplitAt(bare, 0);
    SplitAt(es, 0);
    SplitAt(es, 1);
    assert bare[..0] == [] && es[..0] == [];
  }

  // ----- an insertion point off the element boundaries -----

  function Copies(t: seq<byte>, m: nat): seq<byte> {
    if m == 0 then [] else t + Copies(t, m - 1)
  }

  ghost predicate AreCopies(w: seq<byte>, t: seq<byte>) {
    exists m: nat :: w == Copies(t, m)
  }

  function Between(b: seq<byte>, p: nat, q: nat): seq<byte>
    requires p <= |b| && q <= |b|
  {
    if p <= q then b[p..q] else b[q..p]
  }

  /** Exactly when the octets the update leaves are those of the old list with the new element at boundary `at`: a whole
    * number of copies of the new element, usually none, lies between that boundary and the insertion point. */
  lemma TimAddedIff(es: seq<Ie>, at: nat, bitmap: u16, h: Host)
    requires at <= |es| && TimOffset(es) <= |EncodeAll(es)|
    ensures var b, p, q := EncodeAll(es), TimOffset(es), Offset(es, at);
            var tim := TimIe(bitmap, h);
            && q <= |b|
            && (b[..p] + Encode(tim) + b[p..] == EncodeAll(es[..at] + [tim] + es[at..]) <==>
                AreCopies(Between(b, p, q), Encode(tim)))
  {
    hide EncodeAll, TimIe, TimOffset, AreCopies, Encode;
    var b, p, q := EncodeAll(es), TimOffset(es), Offset(es, at);
    var tim := TimIe(bitmap, h);
    var t := Encode(tim);
    TimOctets(bitmap, h);
    CutAt(es, at);
    EncodeAllConcat(es[..at] + [tim], es[at..]);
    EncodeAllConcat(es[..at], [tim]);
    EncodeOne(tim);
    if p <= q {
      SameInsertion(b, p, q, t);
      CommutesIff(b[p..q], t);
    } else {
      SameInsertion(b, q, p, t);
      CommutesIff(b[q..p], t);
    }
  }

  /** Inserting t on either side of b[p..q] is the same when the two commute. */
  lemma SameInsertion(b: seq<byte>, p: nat, q: nat, t: seq<byte>)
    requires p <= q <= |b|
    ensures b[..p] + t + b[p..] == b[..q] + t + b[q..] <==> b[p..q] + t == t + b[p..q]
  {
    var x, w, z := b[..p], b[p..q], b[q..];
    assert b[p..] == w + z && b[..q] == x + w;
    var l, r := x + t + (w + z), (x + w) + t + z;
    assert l == x + ((t + w) + z) && r == x + ((w + t) + z);
    assert l[|x|..|x| + |t + w|] == t + w && r[|x|..|x| + |t + w|] == w + t;
  }

  /** The first four octets of the element; no rotation of such octets gives them back. */
  predicate TimLike(t: seq<byte>) {
    6 <= |t| <= 7 && t[0] == TIM_IE && t[1] == |t| - 2 && t[2] == 0 && t[3] == 1
  }

  lemma TimOctets(bitmap: u16, h: Host)
    ensures TimLike(Encode(TimIe(bitmap, h)))
  {
    var e := TimIe(bitmap, h);
    assert Encode(e)[2] == e.body[0] && Encode(e)[3] == e.body[1];
  }

  lemma NoRotation(t: seq<byte>, d: nat)
    requires TimLike(t) && 0 < d < |t|
    ensures t != t[d..] + t[..d]
  {
    var r := t[d..] + t[..d];
    assert r[0] == t[d];
    assert d == 1 ==> r[1] == t[2];
    assert d == |t| - 1 ==> r[2] == t[1];
    assert d == |t| - 2 ==> r[2] == t[0];
    assert d == |t| - 3 ==> r[3] == t[0];
  }

  /** Octets that commute with the element are copies of it. */
  lemma {:induction false} CommutesIff(w: seq<byte>, t: seq<byte>)
    requires TimLike(t)
    ensures w + t == t + w <==> AreCopies(w, t)
    decreases |w|
  {
    if m: nat :| w == Copies(t, m) {
      CopiesCommute(t, m);
    }
    if w == [] {
      assert w == Copies(t, 0);
    } else if |w| < |t| {
      ShorterNeverCommutes(w, t);
    } else if w + t == t + w {
      var w' := w[|t|..];
      assert (w + t)[..|t|] == w[..|t|] && (t + w)[..|t|] == t;
      TakeDrop(w, |t|);
      assert (w + t)[|t|..] == w' + t && (t + w)[|t|..] == t + w';
      CommutesIff(w', t);
      var m: nat :| w' == Copies(t, m);
      assert w == Copies(t, m + 1);
    }
  }

  lemma ShorterNeverCommutes(w: seq<byte>, t: seq<byte>)
    requires TimLike(t) && 0 < |w| < |t|
    ensures w + t != t + w
  {
    var d := |w|;
    assert (w + t)[..d] == w && (t + w)[..d] == t[..d];
    assert (w + t)[d..] == t && (t + w)[d..] == t[d..] + w;
    NoRotation(t, d);
  }

  lemma {:induction false} CopiesCommute(t: seq<byte>, m: nat)
    ensures Copies(t, m) + t == t + Copies(t, m)
  {
    if m > 0 {
      CopiesCommute(t, m - 1);
      Assoc(t, Copies(t, m - 1), t);
    }
  }

  /** Inside the body of element k the update tears that element: a reader takes the same number of octets for its body,
    * the new element's among them, and what was pushed out of it for the start of the next element. */
  lemma TimTearsElement(es: seq<Ie>, k: nat, m: nat, bitmap: u16, h: Host)
    requires k < |es| && m < |es[k].body| && TimOffset(es) == Offset(es, k) + 2 + m
    ensures var b, p, t := EncodeAll(es), TimOffset(es), Encode(TimIe(bitmap, h));
            && p <= |b|
            && Prefix(b[..p] + t + b[p..]) == es[..k] + [BodyTorn(es[k], m, t)] + Prefix(BodyRest(es, k, m, t))
  {
    hide EncodeAll, Prefix, TimIe, TimOffset;
    var b, p, t := EncodeAll(es), TimOffset(es), Encode(TimIe(bitmap, h));
    var x, z := EncodeAll(es[..k]), EncodeAll(es[k + 1..]);
    SplitAt(es, k);
    TornAt(x, es[k], z, m, t);
    var first, rest := BodyTorn(es[k], m, t), BodyRest(es, k, m, t);
    PrefixAfter(es[..k], Encode(first) + rest);
    PrefixOne(first, rest);
    Assoc(es[..k], [first], Prefix(rest));
  }

  lemma TornAt(x: seq<byte>, e: Ie, z: seq<byte>, m: nat, t: seq<byte>)
    requires m < |e.body| && t != []
    ensures var b, p, torn := x + (Encode(e) + z), |x| + 2 + m, e.body[..m] + t + e.body[m..];
            var first: Ie := Element(e.id, torn[..|e.body|]);
            b[..p] + t + b[p..] == x + (Encode(first) + (torn[|e.body|..] + z))
  {
    var torn := e.body[..m] + t + e.body[m..];
    var head: seq<byte> := [e.id, |e.body|];
    var b, p := x + (Encode(e) + z), |x| + 2 + m;
    TakeDrop(e.body, m);
    TakeDrop(torn, |e.body|);
    CutInside(x + head, e.body[..m], e.body[m..], z, t);
    assert b == (x + head) + (e.body[..m] + e.body[m..]) + z;
    var low, high := torn[..|e.body|], torn[|e.body|..];
    assert (x + head) + (low + high) + z == x + ((head + low) + (high + z));
  }

  lemma CutInside(x: seq<byte>, y: seq<byte>, y': seq<byte>, z: seq<byte>, t: seq<byte>)
    ensures var b, p := x + (y + y') + z, |x| + |y|;
            b[..p] + t + b[p..] == x + (y + t + y') + z
  {
    var b, p := x + (y + y') + z, |x| + |y|;
    assert b[..p] == x + y && b[p..] == y' + z;
  }

  /** So it can happen that the element reads as added although the insertion point is no boundary: when the torn body
    * ends in a copy of it. */
  lemma TimInsideACopy(bitmap: u16, h: Host)
    ensures var tim := TimIe(bitmap, h);
            var es := [Element(SSID_IE, []), Element(200, [9] + Encode(tim))];
            var b, p := EncodeAll(es), TimOffset(es);
            && !HasTim(es) && p <= |b| && (forall at: nat :: !TimFits(es, at))
            && b[..p] + Encode(tim) + b[p..] == EncodeAll(es + [tim])
  {
    hide TimIe, Encode, EncodeAll, AreCopies;
    var tim := TimIe(bitmap, h);
    var t := Encode(tim);
    TimIeShape(bitmap, h);
    var e0: Ie, e1: Ie := Element(SSID_IE, []), Element(200, [9] + t);
    var es := [e0, e1];
    IndexOfUnique(es, SSID_IE, 0);
    IndexOfUnique(es, SUPPORTEDRATES_IE, 2);
    IndexOfUnique(es, TIM_IE, 2);
    SplitAt(es, 0);
    SplitAt(es, 1);
    OffsetEnd(es, 0);
    assert es[..2] == es && Offset(es, 1) == 2 && Offset(es, 2) == 5 + |t| && TimOffset(es) == 5;
    TailIsCopy(EncodeAll(es), e0, e1, t);
    OneCopy(t);
    assert Between(EncodeAll(es), 5, Offset(es, 2)) == t;
    TimAddedIff(es, 2, bitmap, h);
    assert es[..2] + [tim] + es[2..] == es + [tim];
    assert EncodeAll(es)[..5] + t + EncodeAll(es)[5..] == EncodeAll(es + [tim]);
    forall at: nat ensures !TimFits(es, at) {
      assert at == 0 || at == 1 || at == 2 || at > |es|;
    }
  }

  lemma OneCopy(t: seq<byte>)
    ensures AreCopies(t, t)
  {
    assert Copies(t, 1) == t + Copies(t, 0) == t;
  }

  lemma TailIsCopy(b: seq<byte>, e0: Ie, e1: Ie, t: seq<byte>)
    requires b == EncodeAll([e0, e1]) && e0.body == [] && e1.body == [9] + t
    ensures |b| == 5 + |t| && b[5..] == t == b[5..|b|]
  {
    EncodeAllConcat([e0], [e1]);
    EncodeOne(e0);
    EncodeOne(e1);
    assert [e0] + [e1] == [e0, e1];
    assert b == Encode(e0) + Encode(e1);
  }

  /** Between the id and the length of an element, the new element's id becomes that length: a reader takes five octets
    * of it for the body, and goes on with its last ones and the old length. */
  lemma TimTearsHeader(es: seq<Ie>, k: nat, bitmap: u16, h: Host)
    requires k < |es| && TimOffset(es) == Offset(es, k) + 1
    ensures var b, p, t := EncodeAll(es), TimOffset(es), Encode(TimIe(bitmap, h));
            && p <= |b|
            && Prefix(b[..p] + t + b[p..]) ==
               es[..k] + [HeaderTorn(es[k], t)] + Prefix(HeaderRest(es, k, t))
  {
    hide EncodeAll, Prefix, TimIe, TimOffset, Encode;
    var b, p, t := EncodeAll(es), TimOffset(es), Encode(TimIe(bitmap, h));
    var e, x, z := es[k], EncodeAll(es[..k]), EncodeAll(es[k + 1..]);
    TimOctets(bitmap, h);
    SplitAt(es, k);
    HeaderTornAt(x, e, z, t);
    var first, rest := HeaderTorn(e, t), HeaderRest(es, k, t);
    PrefixAfter(es[..k], Encode(first) + rest);
    PrefixOne(first, rest);
    Assoc(es[..k], [first], Prefix(rest));
  }

  function HeaderTorn(e: Ie, t: seq<byte>): Ie
    requires TimLike(t)
  {
    Element(e.id, t[1..6])
  }

  function HeaderRest(es: seq<Ie>, k: nat, t: seq<byte>): seq<byte>
    requires k < |es| && TimLike(t)
  {
    t[6..] + ([|es[k].body|] + es[k].body + EncodeAll(es[k + 1..]))
  }

  lemma HeaderTornAt(x: seq<byte>, e: Ie, z: seq<byte>, t: seq<byte>)
    requires TimLike(t)
    ensures var b, p := x + (Encode(e) + z), |x| + 1;
            b[..p] + t + b[p..] == x + (Encode(HeaderTorn(e, t)) + (t[6..] + ([|e.body|] + e.body + z)))
  {
    var b, p := x + (Encode(e) + z), |x| + 1;
    assert b[..p] == x + [e.id] && b[p..] == [|e.body|] + e.body + z;
    assert t == [t[0]] + (t[1..6] + t[6..]);
    assert Encode(HeaderTorn(e, t)) == [e.id] + ([t[0]] + t[1..6]);
  }

  function BodyTorn(e: Ie, m: nat, t: seq<byte>): (e': Ie)
    requires m < |e.body| && |t| >= 1
    ensures e'.id == e.id && |e'.body| == |e.body|
  {
    Element(e.id, (e.body[..m] + t + e.body[m..])[..|e.body|])
  }

  function BodyRest(es: seq<Ie>, k: nat, m: nat, t: seq<byte>): seq<byte>
    requires k < |es| && m < |es[k].body|
  {
    (es[k].body[..m] + t + es[k].body[m..])[|es[k].body|..] + EncodeAll(es[k + 1..])
  }

  predicate AtBoundary(es: seq<Ie>, p: nat, k: nat) {
    k <= |es| && p == Offset(es, k)
  }

  predicate InHeader(es: seq<Ie>, p: nat, k: nat) {
    k < |es| && p == Offset(es, k) + 1
  }

  predicate InBody(es: seq<Ie>, p: nat, k: nat) {
    k < |es| && Offset(es, k) + 2 <= p < Offset(es, k) + 2 + |es[k].body|
  }

  /** There is no other place within the octets. */
  lemma {:induction false} TimPlaces(es: seq<Ie>, p: nat)
    requires p <= |EncodeAll(es)|
    ensures exists k: nat :: AtBoundary(es, p, k) || InHeader(es, p, k) || InBody(es, p, k)
    decreases |es|
  {
    hide EncodeAll;
    var n := |es|;
    OffsetEnd(es, n);
    if p == |EncodeAll(es)| {
      assert AtBoundary(es, p, n);
    } else {
      SplitAt(es, n - 1);
      assert es[..n] == es;
      if p < Offset(es, n - 1) {
        TimPlaces(es[..n - 1], p);
        var k: nat :| AtBoundary(es[..n - 1], p, k) || InHeader(es[..n - 1], p, k) || InBody(es[..n - 1], p, k);
        assert es[..n - 1][..k] == es[..k];
        assert AtBoundary(es, p, k) || InHeader(es, p, k) || InBody(es, p, k);
      } else {
        assert AtBoundary(es, p, n - 1) || InHeader(es, p, n - 1) || InBody(es, p, n - 1);
      }
    }
  }

  // ----- updating twice -----

  lemma HasTimInside(es: seq<Ie>)
    requires HasTim(es)
    ensures Inside(es)
  {
    hide EncodeAll;
    UpdatedElements(es, 0, 0, LittleEndian);
  }

  /** An update changes nothing exactly when the first TIM element is the one it would write. */
  lemma UnchangedIff(es: seq<Ie>, bitmap: u16, h: Host)
    ensures Inside(es) && UpdatedOctets(es, bitmap, h) == EncodeAll(es) <==> First(es, TIM_IE) == Some(TimIe(bitmap, h))
  {
    hide EncodeAll, IndexOf, TimIe, HasTim, Inside, UpdatedOctets;
    var tim := TimIe(bitmap, h);
    TimIeShape(bitmap, h);
    TimCases(es, 0, bitmap, h);
    if HasTim(es) {
      var k := IndexOf(es, TIM_IE);
      UpdatedElements(es, 0, bitmap, h);
      PrefixOfEncodeAll(es);
      PrefixOfEncodeAll(es[k := tim]);
      assert es[k := tim] == es <==> es[k] == tim;
    } else if Inside(es) {
      UpdatedLonger(es, bitmap, h);
    }
  }

  lemma UpdatedLonger(es: seq<Ie>, bitmap: u16, h: Host)
    requires !HasTim(es) && Inside(es)
    ensures |UpdatedOctets(es, bitmap, h)| == |EncodeAll(es)| + |Encode(TimIe(bitmap, h))|
  {
    hide EncodeAll, TimIe, HasTim;
  }

  /** Wherever the insertion point lies: if the octets of one update read as the list once, a second update with the
    * same bitmap leaves them as they are exactly when the first TIM element in once is the one that was written. */
  lemma TwiceIff(es: seq<Ie>, once: seq<Ie>, bitmap: u16, h: Host)
    requires Inside(es) && EncodeAll(once) == UpdatedOctets(es, bitmap, h)
    ensures Inside(once) && UpdatedOctets(once, bitmap, h) == UpdatedOctets(es, bitmap, h) <==>
              First(once, TIM_IE) == Some(TimIe(bitmap, h))
  {
    UnchangedIff(once, bitmap, h);
  }

  /** If no TIM element is read back, the second update, with whatever bitmap and wherever its insertion point lies,
    * leaves longer octets than it would have alone, by one more element. */
  lemma UnreadAddsUp(es: seq<Ie>, once: seq<Ie>, b1: u16, b2: u16, h: Host)
    requires !HasTim(es) && Inside(es) && EncodeAll(once) == UpdatedOctets(es, b1, h)
    requires !HasTim(once)
    ensures LengthAfter(once, b2, h) == LengthAfter(es, b2, h) + |Encode(TimIe(b1, h))|
    ensures Inside(once) ==> |UpdatedOctets(once, b2, h)| == LengthAfter(once, b2, h)
    ensures |UpdatedOctets(es, b2, h)| == LengthAfter(es, b2, h)
  {
    hide EncodeAll, TimIe, HasTim, Inside, UpdatedOctets, Encode;
    UpdatedLonger(es, b1, h);
    UpdatedLonger(es, b2, h);
    if Inside(once) {
      UpdatedLonger(once, b2, h);
    }
    InsertsNothingOver(es);
    InsertsNothingOver(once);
  }

  lemma InsertsNothingOver(es: seq<Ie>)
    requires !HasTim(es)
    ensures TimFrom(es) == TimTo(es)
  {
  }

  /** The condition of TwiceIff in terms of the list before: where the update tears a body, no TIM element may come
    * before it, and the first one that is read in what was pushed out, and behind, has to be the new one. */
  lemma TwiceInBody(es: seq<Ie>, once: seq<Ie>, k: nat, m: nat, bitmap: u16, h: Host)
    requires !HasTim(es) && k < |es| && m < |es[k].body| && TimOffset(es) == Offset(es, k) + 2 + m
    requires Inside(es) && EncodeAll(once) == UpdatedOctets(es, bitmap, h)
    ensures First(once, TIM_IE) == Some(TimIe(bitmap, h)) <==>
              && First(es[..k], TIM_IE).None?
              && First(Prefix(BodyRest(es, k, m, Encode(TimIe(bitmap, h)))), TIM_IE) == Some(TimIe(bitmap, h))
  {
    hide EncodeAll, TimIe, HasTim, TimOffset, First, Prefix, Encode, BodyTorn, BodyRest;
    var t := Encode(TimIe(bitmap, h));
    TimOctets(bitmap, h);
    TimTearsElement(es, k, m, bitmap, h);
    PrefixOfEncodeAll(once);
    var first, rest := BodyTorn(es[k], m, t), Prefix(BodyRest(es, k, m, t));
    FirstTwoParts(es[..k], first, rest);
    TimBefore(es, k, bitmap, h);
  }

  /** And where it tears a header. */
  lemma TwiceInHeader(es: seq<Ie>, once: seq<Ie>, k: nat, bitmap: u16, h: Host)
    requires !HasTim(es) && k < |es| && TimOffset(es) == Offset(es, k) + 1
    requires Inside(es) && EncodeAll(once) == UpdatedOctets(es, bitmap, h)
    ensures TimLike(Encode(TimIe(bitmap, h)))
    ensures First(once, TIM_IE) == Some(TimIe(bitmap, h)) <==>
              && First(es[..k], TIM_IE).None? && es[k].id != TIM_IE
              && First(Prefix(HeaderRest(es, k, Encode(TimIe(bitmap, h)))), TIM_IE) == Some(TimIe(bitmap, h))
  {
    hide EncodeAll, TimIe, HasTim, TimOffset, First, Prefix, Encode, HeaderRest;
    var t := Encode(TimIe(bitmap, h));
    TimOctets(bitmap, h);
    TimTearsHeader(es, k, bitmap, h);
    PrefixOfEncodeAll(once);
    var first, rest := HeaderTorn(es[k], t), Prefix(HeaderRest(es, k, t));
    FirstTwoParts(es[..k], first, rest);
    TimBefore(es, k, bitmap, h);
    NotTheHeader(es[k], bitmap, h);
  }

  lemma FirstTwoParts(a: seq<Ie>, e: Ie, c: seq<Ie>)
    ensures First(a + [e] + c, TIM_IE) ==
            if First(a, TIM_IE).Some? then First(a, TIM_IE) else if e.id == TIM_IE then Some(e) else First(c, TIM_IE)
  {
    FirstConcat(a + [e], c, TIM_IE);
    FirstConcat(a, [e], TIM_IE);
  }

  /** Without a TIM element to replace, the first one before place k is empty, and so is one at k behind none. */
  lemma TimBefore(es: seq<Ie>, k: nat, bitmap: u16, h: Host)
    requires !HasTim(es) && k < |es|
    ensures First(es[..k], TIM_IE) != Some(TimIe(bitmap, h))
    ensures First(es[..k], TIM_IE).None? && es[k].id == TIM_IE ==> es[k].body == []
  {
    TimIeShape(bitmap, h);
    var a := es[..k];
    IndexOfIsFirst(a, TIM_IE);
    if IndexOf(a, TIM_IE) < k {
      assert forall j :: 0 <= j < k ==> a[j] == es[j];
      IndexOfUnique(es, TIM_IE, IndexOf(a, TIM_IE));
    } else if es[k].id == TIM_IE {
      assert forall j :: 0 <= j < k ==> a[j] == es[j];
      IndexOfUnique(es, TIM_IE, k);
    }
  }

  lemma NotTheHeader(e: Ie, bitmap: u16, h: Host)
    requires TimLike(Encode(TimIe(bitmap, h)))
    ensures HeaderTorn(e, Encode(TimIe(bitmap, h))) != TimIe(bitmap, h)
  {
    var tim := TimIe(bitmap, h);
    assert Encode(tim)[1..6][0] == Encode(tim)[1] == |tim.body| != tim.body[0];
  }

  /** At an element boundary, later updates overwrite earlier ones, and so the update is idempotent, exactly unless an
    * empty TIM element stands before the insertion point: then each call inserts one more element. */
  lemma LastTimUpdateWins(es: seq<Ie>, at: nat, b1: u16, b2: u16, h: Host)
    requires !HasTim(es) ==> TimFits(es, at)
    requires at <= |es|
    ensures var once := UpdateTim(es, at, b1, h);
            && (!HasTim(once) ==> TimFits(once, at))
            && (UpdateTim(once, at, b2, h) == UpdateTim(es, at, b2, h) <==> HasTim(es) || at <= IndexOf(es, TIM_IE))
  {
    hide *;
    TimIeShape(b1, h);
    TimCases(es, at, b1, h);
    TimCases(es, at, b2, h);
    TimCases(UpdateTim(es, at, b1, h), at, b2, h);
    if HasTim(es) {
      TimOverwritten(es, IndexOf(es, TIM_IE), TimIe(b1, h), TimIe(b2, h));
    } else if at <= IndexOf(es, TIM_IE) {
      TimFoundAgain(es, at, TimIe(b1, h), TimIe(b2, h));
    } else {
      TimMissedAgain(es, at, TimIe(b1, h));
    }
  }

  /** A list on which it is not idempotent: each call inserts one more element behind the rates. */
  lemma TimPilesUp(b1: u16, b2: u16, h: Host)
    ensures var es := [Element(TIM_IE, []), Element(200, [7]), Element(SSID_IE, [])];
            var once := UpdateTim(es, 2, b1, h);
            && !HasTim(es) && TimFits(es, 2) && !HasTim(once) && TimFits(once, 2)
            && |UpdateTim(once, 2, b2, h)| == |es| + 2
  {
    hide TimIe, EncodeAll;
    var es := [Element(TIM_IE, []), Element(200, [7]), Element(SSID_IE, [])];
    IndexOfUnique(es, TIM_IE, 0);
    IndexOfUnique(es, SSID_IE, 2);
    IndexOfUnique(es, SUPPORTEDRATES_IE, 3);
    OffsetEnd(es, 0);
    SplitAt(es, 0);
    SplitAt(es, 1);
    TimIeShape(b1, h);
    TimMissedAgain(es, 2, TimIe(b1, h));
  }

  /** One without a TIM element and without a DS element, on which the insertion point lies in a body each time: every
    * call inserts one more element, and no reader finds it. */
  lemma TimPilesUpUnread(bitmap: u16)
    ensures var h, es := LittleEndian, [Element(SSID_IE, []), Element(SUPPORTEDRATES_IE, [2]),
                                        Element(200, [9, 4, 1, 2, 3, 4])];
            var once := [Element(SSID_IE, []), Element(SUPPORTEDRATES_IE, [2]), Element(200, [9, 5, 4, 0, 1, 0]),
                         Element(2, [1, 2, 3, 4])];
            && !HasTim(es) && TimOffset(es) == 8 && Inside(es) && UpdatedOctets(es, 2, h) == EncodeAll(once)
            && !HasTim(once) && TimOffset(once) == 8 && Inside(once)
            && |UpdatedOctets(once, bitmap, h)| == |UpdatedOctets(es, bitmap, h)| + 6
  {
    hide EncodeAll, HasTim, TimOffset, TimIe, Encode, UpdatedOctets;
    var h := LittleEndian;
    var e0: Ie, e1: Ie := Element(SSID_IE, []), Element(SUPPORTEDRATES_IE, [2]);
    var e2: Ie := Element(200, [9, 4, 1, 2, 3, 4]);
    var f2: Ie, f3: Ie := Element(200, [9, 5, 4, 0, 1, 0]), Element(2, [1, 2, 3, 4]);
    var es, once := [e0, e1, e2], [e0, e1, f2, f3];
    Searched(es);
    Searched(once);
    Witness(e0, e1, e2, f2, f3);
    assert UpdatedOctets(es, 2, h) == EncodeAll(once) by {
      TimOfTwo();
      SplicedWitness(es, EncodeAll(once));
    }
    UnreadAddsUp(es, once, 2, bitmap, h);
    TimOfTwo();
  }

  /** The octets of the two lists. */
  lemma Witness(e0: Ie, e1: Ie, e2: Ie, f2: Ie, f3: Ie)
    requires e0 == Element(SSID_IE, []) && e1 == Element(SUPPORTEDRATES_IE, [2])
    requires e2 == Element(200, [9, 4, 1, 2, 3, 4])
    requires f2 == Element(200, [9, 5, 4, 0, 1, 0]) && f3 == Element(2, [1, 2, 3, 4])
    ensures EncodeAll([e0, e1, e2]) == [0, 0, 1, 1, 2, 200, 6, 9, 4, 1, 2, 3, 4]
    ensures EncodeAll([e0, e1, f2, f3]) == [0, 0, 1, 1, 2, 200, 6, 9, 5, 4, 0, 1, 0, 2, 4, 1, 2, 3, 4]
  {
    hide EncodeAll;
    EncodedThree(e0, e1, e2, [0, 0, 1, 1, 2, 200, 6, 9, 4, 1, 2, 3, 4]);
    EncodedThree(e0, e1, f2, [0, 0, 1, 1, 2, 200, 6, 9, 5, 4, 0, 1, 0]);
    EncodeAllConcat([e0, e1, f2], [f3]);
    EncodeOne(f3);
    assert [e0, e1, f2, f3] == [e0, e1, f2] + [f3];
  }

  lemma TimOfTwo()
    ensures Encode(TimIe(2, LittleEndian)) == [5, 4, 0, 1, 0, 2]
  {
    assert TimIe(2, LittleEndian).body == [0, 1, 0, 2];
  }

  lemma SplicedWitness(es: seq<Ie>, b: seq<byte>)
    requires !HasTim(es) && TimOffset(es) == 8 && Encode(TimIe(2, LittleEndian)) == [5, 4, 0, 1, 0, 2]
    requires EncodeAll(es) == [0, 0, 1, 1, 2, 200, 6, 9, 4, 1, 2, 3, 4]
    requires b == [0, 0, 1, 1, 2, 200, 6, 9, 5, 4, 0, 1, 0, 2, 4, 1, 2, 3, 4]
    ensures Inside(es) && UpdatedOctets(es, 2, LittleEndian) == b
  {
    hide EncodeAll, HasTim, TimOffset, TimIe, Encode;
    var s := EncodeAll(es);
    assert s[..8] == [0, 0, 1, 1, 2, 200, 6, 9] && s[8..] == [4, 1, 2, 3, 4];
  }

  lemma Searched(es: seq<Ie>)
    requires |es| >= 2 && es[0] == Element(SSID_IE, []) && es[1] == Element(SUPPORTEDRATES_IE, [2])
    requires forall j :: 2 <= j < |es| ==> es[j].id != TIM_IE
    ensures !HasTim(es) && TimOffset(es) == 8
  {
    IndexOfUnique(es, SSID_IE, 0);
    IndexOfUnique(es, SUPPORTEDRATES_IE, 1);
    IndexOfUnique(es, TIM_IE, |es|);
  }

  lemma EncodedThree(a: Ie, b: Ie, c: Ie, s: seq<byte>)
    requires s == Encode(a) + Encode(b) + Encode(c)
    ensures EncodeAll([a, b, c]) == s
  {
    assert [a, b, c] == [a] + [b] + [c];
    EncodeAllConcat([a] + [b], [c]);
    EncodeAllConcat([a], [b]);
    EncodeOne(a);
    EncodeOne(b);
    EncodeOne(c);
  }

  /** The update by cases, with the search spelled out. */
  lemma TimCases(es: seq<Ie>, at: nat, bitmap: u16, h: Host)
    requires at <= |es|
    ensures HasTim(es) <==> IndexOf(es, TIM_IE) < |es| && es[IndexOf(es, TIM_IE)].body != []
    ensures UpdateTim(es, at, bitmap, h) ==
            if HasTim(es) then es[IndexOf(es, TIM_IE) := TimIe(bitmap, h)] else es[..at] + [TimIe(bitmap, h)] + es[at..]
  {
  }

  lemma TimOverwritten(es: seq<Ie>, k: nat, t1: Ie, t2: Ie)
    requires k < |es| && k == IndexOf(es, TIM_IE) && t1.id == TIM_IE
    ensures var once := es[k := t1];
            IndexOf(once, TIM_IE) == k && once[k := t2] == es[k := t2]
  {
    IndexOfIsFirst(es, TIM_IE);
    IndexOfUnique(es[k := t1], TIM_IE, k);
  }

  lemma TimFoundAgain(es: seq<Ie>, at: nat, t1: Ie, t2: Ie)
    requires at <= IndexOf(es, TIM_IE) && t1.id == TIM_IE && at <= |es|
    ensures var once := es[..at] + [t1] + es[at..];
            IndexOf(once, TIM_IE) == at && once[at := t2] == es[..at] + [t2] + es[at..]
  {
    hide IndexOf;
    IndexOfIsFirst(es, TIM_IE);
    var once := es[..at] + [t1] + es[at..];
    Inserted(es, at, t1, t2);
    IndexOfUnique(once, TIM_IE, at);
  }

  lemma TimMissedAgain(es: seq<Ie>, at: nat, t1: Ie)
    requires IndexOf(es, TIM_IE) < at <= |es| && !HasTim(es) && t1.id == TIM_IE && TimFits(es, at)
    ensures var once := es[..at] + [t1] + es[at..];
            !HasTim(once) && TimFits(once, at)
  {
    hide EncodeAll, IndexOf, First;
    var k, once := IndexOf(es, TIM_IE), es[..at] + [t1] + es[at..];
    IndexOfIsFirst(es, TIM_IE);
    Inserted(es, at, t1, t1);
    IndexOfUnique(once, TIM_IE, k);
    FirstIgnores(es[..at], t1, es[at..], SSID_IE);
    FirstIgnores(es[..at], t1, es[at..], SUPPORTEDRATES_IE);
    TakeDrop(es, at);
    assert once[..at] == es[..at];
  }

  lemma TimIeShape(bitmap: u16, h: Host)
    ensures var t := TimIe(bitmap, h);
            t.id == TIM_IE && |t.body| == (if HighAids(bitmap) && LowAids(bitmap) then 5 else 4)
            && t.body[0] == 0 && t.body[1] == 1
  {
  }

  /** An update at a boundary, by what searches find: the new element is the first TIM element, unless an empty one
    * stands before the insertion point; the elements of other ids stay, in their order; and the list grows by one
    * where there was no TIM element to replace, or an empty one. */
  lemma TimTaken(es: seq<Ie>, at: nat, bitmap: u16, h: Host)
    requires at <= |es|
    ensures var r, tim := UpdateTim(es, at, bitmap, h), First(es, TIM_IE);
            var rewritten := tim.Some? && tim.value.body != [];
            && |r| == |es| + (if rewritten then 0 else 1)
            && Without(r, TIM_IE, None) == Without(es, TIM_IE, None)
            && (First(r, TIM_IE) == Some(TimIe(bitmap, h)) <==>
                rewritten || First(es[..at], TIM_IE).None?)
  {
    hide IndexOf, TimIe, Without;
    var k, t := IndexOf(es, TIM_IE), TimIe(bitmap, h);
    TimIeShape(bitmap, h);
    if HasTim(es) {
      IndexOfIsFirst(es, TIM_IE);
      Replaced(es, k, t);
      Step(es, k);
      FirstIn(es[..k], TIM_IE);
      FirstRewritten(es[..k], t, es[k + 1..]);
      WithoutOne(es[..k], es[k], es[k + 1..]);
      WithoutOne(es[..k], t, es[k + 1..]);
    } else {
      TakeDrop(es, at);
      WithoutOne(es[..at], t, es[at..]);
      FirstConcat(es[..at] + [t], es[at..], TIM_IE);
      FirstConcat(es[..at], [t], TIM_IE);
      FirstConcat(es[..at], es[at..], TIM_IE);
      IndexOfUnique([t], TIM_IE, 0);
    }
  }

  lemma WithoutOne(a: seq<Ie>, e: Ie, b: seq<Ie>)
    ensures e.id == TIM_IE ==> Without(a + [e] + b, TIM_IE, None) == Without(a + b, TIM_IE, None)
  {
    WithoutConcat(a + [e], b, TIM_IE, None);
    WithoutConcat(a, [e], TIM_IE, None);
    WithoutConcat(a, b, TIM_IE, None);
    assert [e][1..] == [];
  }
}
