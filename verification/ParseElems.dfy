/** rtw_ieee802_11_parse_elems of core/rtw_ieee80211.c: one pass over a frame body, recording each known element. */
module ParseElems {
  import opened Bytes
  import opened Seqs
  import opened Elements
  import opened IeBuffer

  const OUI_MICROSOFT := 0x0050f2
  const OUI_BROADCOM := 0x00904c
  const WME_OUI_TYPE := 2
  const VENDOR_HT_CAPAB_OUI_TYPE := 0x33

  /** The slots of struct rtw_ieee802_11_elems. */
  datatype Slot =
    | Ssid | SuppRates | FhParams | DsParams | CfParams | Tim | IbssParams | Challenge | ErpInfo | ExtSuppRates
    | RsnIe | PowerCap | SuppChannels | Mdie | Ftie | TimeoutInt | HtCapabilities | HtOperation
    | VhtCapabilities | VhtOperation | VhtOpModeNotify
    | WpaIe | Wme | WmeTspec | WpsIe | VendorHtCap

  /** Where a recorded body starts, and its length. */
  datatype Span = Span(pos: nat, len: nat)

  datatype ParseRes = ParseOK | ParseUnknown | ParseFailed

  type Elems = map<Slot, Span>

  function StandardSlot(id: byte): Option<Slot> {
    match id
    case 0 => Some(Ssid)
    case 1 => Some(SuppRates)
    case 2 => Some(FhParams)
    case 3 => Some(DsParams)
    case 4 => Some(CfParams)
    case 5 => Some(Tim)
    case 6 => Some(IbssParams)
    case 16 => Some(Challenge)
    case 42 => Some(ErpInfo)
    case 50 => Some(ExtSuppRates)
    case 48 => Some(RsnIe)
    case 33 => Some(PowerCap)
    case 36 => Some(SuppChannels)
    case 54 => Some(Mdie)
    case 55 => Some(Ftie)
    case 56 => Some(TimeoutInt)
    case 45 => Some(HtCapabilities)
    case 61 => Some(HtOperation)
    case 191 => Some(VhtCapabilities)
    case 192 => Some(VhtOperation)
    case 199 => Some(VhtOpModeNotify)
    case _ => None
  }

  /** rtw_ieee802_11_parse_vendor_specific: the slot a vendor element fills, None where the source returns -1. */
  function VendorSlot(body: seq<byte>): Option<Slot> {
    if |body| < 4 then None
    else
      var oui: nat := body[0] as int * 0x1_0000 + body[1] as int * 0x100 + body[2] as int;
      if oui == OUI_MICROSOFT then
        if body[3] == 1 then Some(WpaIe)
        else if body[3] == WME_OUI_TYPE then
          if |body| < 5 then None
          else if body[4] == 0 || body[4] == 1 then Some(Wme)
          else if body[4] == 2 then Some(WmeTspec)
          else None
        else if body[3] == 4 then Some(WpsIe)
        else None
      else if oui == OUI_BROADCOM && body[3] == VENDOR_HT_CAPAB_OUI_TYPE then Some(VendorHtCap)
      else None
  }

  function SlotOf(e: Ie): Option<Slot> {
    if e.id == 221 then VendorSlot(e.body) else StandardSlot(e.id)
  }

  /** The elements a slot is for: an element id, and the octets their bodies begin with, one of those given. */
  datatype Key = Key(id: byte, headers: set<seq<byte>>)

  function KeyOf(f: Slot): Key {
    match f
    case Ssid => Key(0, {[]})
    case SuppRates => Key(1, {[]})
    case FhParams => Key(2, {[]})
    case DsParams => Key(3, {[]})
    case CfParams => Key(4, {[]})
    case Tim => Key(5, {[]})
    case IbssParams => Key(6, {[]})
    case Challenge => Key(16, {[]})
    case PowerCap => Key(33, {[]})
    case SuppChannels => Key(36, {[]})
    case ErpInfo => Key(42, {[]})
    case HtCapabilities => Key(45, {[]})
    case RsnIe => Key(48, {[]})
    case ExtSuppRates => Key(50, {[]})
    case Mdie => Key(54, {[]})
    case Ftie => Key(55, {[]})
    case TimeoutInt => Key(56, {[]})
    case HtOperation => Key(61, {[]})
    case VhtCapabilities => Key(191, {[]})
    case VhtOperation => Key(192, {[]})
    case VhtOpModeNotify => Key(199, {[]})
    case WpaIe => Key(221, {[0x00, 0x50, 0xF2, 1]})
    case Wme => Key(221, {[0x00, 0x50, 0xF2, 2, 0], [0x00, 0x50, 0xF2, 2, 1]})
    case WmeTspec => Key(221, {[0x00, 0x50, 0xF2, 2, 2]})
    case WpsIe => Key(221, {[0x00, 0x50, 0xF2, 4]})
    case VendorHtCap => Key(221, {[0x00, 0x90, 0x4C, 0x33]})
  }

  /** An element fills a slot if and only if it is one of those the slot is for. */
  lemma SlotIff(e: Ie, f: Slot)
    ensures SlotOf(e) == Some(f) <==> e.id == KeyOf(f).id && exists h :: h in KeyOf(f).headers && h <= e.body
  {
    if e.id == 221 {
      VendorIff(e.body, f);
    } else {
      StandardIff(e.id, f);
      assert KeyOf(f).id != 221 ==> [] in KeyOf(f).headers && [] <= e.body;
    }
  }

  lemma StandardIff(id: byte, f: Slot)
    requires id != 221
    ensures StandardSlot(id) == Some(f) <==> id == KeyOf(f).id
    ensures KeyOf(f).id != 221 ==> KeyOf(f).headers == {[]}
  {
  }

  lemma VendorIff(body: Body, f: Slot)
    ensures VendorSlot(body) == Some(f) <==>
              KeyOf(f).id == 221 && exists h :: h in KeyOf(f).headers && h <= body
  {
    Begins4(body, 0x00, 0x50, 0xF2, 1);
    Begins4(body, 0x00, 0x50, 0xF2, 4);
    Begins4(body, 0x00, 0x90, 0x4C, 0x33);
    Begins5(body, 0x00, 0x50, 0xF2, 2, 0);
    Begins5(body, 0x00, 0x50, 0xF2, 2, 1);
    Begins5(body, 0x00, 0x50, 0xF2, 2, 2);
    if |body| >= 4 {
      OuiIs(body[0], body[1], body[2]);
    }
  }

  lemma OuiIs(a: byte, b: byte, c: byte)
    ensures var oui: nat := a as int * 0x1_0000 + b as int * 0x100 + c as int;
            && (oui == OUI_MICROSOFT <==> a == 0x00 && b == 0x50 && c == 0xF2)
            && (oui == OUI_BROADCOM <==> a == 0x00 && b == 0x90 && c == 0x4C)
  {
  }

  lemma Begins4(body: Body, a: byte, b: byte, c: byte, d: byte)
    ensures [a, b, c, d] <= body <==> |body| >= 4 && body[0] == a && body[1] == b && body[2] == c && body[3] == d
  {
  }

  lemma Begins5(body: Body, a: byte, b: byte, c: byte, d: byte, e: byte)
    ensures [a, b, c, d, e] <= body <==>
              |body| >= 5 && body[0] == a && body[1] == b && body[2] == c && body[3] == d && body[4] == e
  {
  }

  // ----- what the pass records, stated without the pass -----

  /** k is the last element that fills slot f. */
  ghost predicate IsLast(es: seq<Ie>, f: Slot, k: nat) {
    && k < |es| && SlotOf(es[k]) == Some(f)
    && forall j :: k < j < |es| ==> SlotOf(es[j]) != Some(f)
  }

  /** Every slot holds the last element that fills it, and no slot is filled without one. */
  ghost predicate Records(elems: Elems, base: nat, es: seq<Ie>) {
    && (forall f :: f in elems ==>
                      exists k: nat :: IsLast(es, f, k) && elems[f] == Span(base + Offset(es, k) + 2, |es[k].body|))
    && (forall k :: 0 <= k < |es| && SlotOf(es[k]).Some? ==> SlotOf(es[k]).value in elems)
  }

  /** Recording the next element keeps the table right: it overwrites what an earlier one left in its slot. */
  lemma RecordsNext(elems: Elems, base: nat, es: seq<Ie>, k: nat)
    requires k < |es| && Records(elems, base, es[..k])
    ensures var o := SlotOf(es[k]);
            var elems' := if o.Some? then elems[o.value := Span(base + Offset(es, k) + 2, |es[k].body|)] else elems;
            Records(elems', base, es[..k + 1])
  {
    hide EncodeAll, SlotOf;
    var o := SlotOf(es[k]);
    var elems' := if o.Some? then elems[o.value := Span(base + Offset(es, k) + 2, |es[k].body|)] else elems;
    var now, next := es[..k], es[..k + 1];
    Step(es, k);
    SameOffsets(es, k);
    forall f | f in elems'
      ensures exists j: nat :: IsLast(next, f, j) && elems'[f] == Span(base + Offset(next, j) + 2, |next[j].body|)
    {
      if o == Some(f) {
        assert IsLast(next, f, k);
      } else {
        var j: nat :| IsLast(now, f, j) && elems[f] == Span(base + Offset(now, j) + 2, |now[j].body|);
        StaysLast(now, es[k], f, j);
      }
    }
    forall j | 0 <= j < |next| && SlotOf(next[j]).Some?
      ensures SlotOf(next[j]).value in elems'
    {
      assert j < k ==> now[j] == next[j];
    }
  }

  lemma SameOffsets(es: seq<Ie>, k: nat)
    requires k < |es|
    ensures forall j: nat :: j <= k ==> Offset(es[..k], j) == Offset(es[..k + 1], j) == Offset(es, j)
  {
    hide EncodeAll;
    assert forall j: nat :: j <= k ==> es[..k + 1][..j] == es[..k][..j] == es[..j];
  }

  /** A last element stays the last of its slot when one for another slot follows. */
  lemma StaysLast(es: seq<Ie>, e: Ie, f: Slot, j: nat)
    requires IsLast(es, f, j) && SlotOf(e) != Some(f)
    ensures IsLast(es + [e], f, j) && (es + [e])[j] == es[j]
  {
    hide SlotOf;
  }

  /** A table is determined by what it must record. */
  lemma RecordsUnique(e1: Elems, e2: Elems, base: nat, es: seq<Ie>)
    requires Records(e1, base, es) && Records(e2, base, es)
    ensures e1 == e2
  {
    hide EncodeAll, SlotOf;
    forall f | f in e1 ensures f in e2 && e1[f] == e2[f] {
      var k: nat :| IsLast(es, f, k) && e1[f] == Span(base + Offset(es, k) + 2, |es[k].body|);
      assert SlotOf(es[k]).value in e2;
      var k2: nat :| IsLast(es, f, k2) && e2[f] == Span(base + Offset(es, k2) + 2, |es[k2].body|);
    }
    forall f | f in e2 ensures f in e1 {
      var k: nat :| IsLast(es, f, k) && e2[f] == Span(base + Offset(es, k) + 2, |es[k].body|);
      assert SlotOf(es[k]).value in e1;
    }
  }

  // ----- the pass -----

  method Parse(buf: array<byte>, start: nat, len: nat) returns (res: ParseRes, elems: Elems)
    requires start + len <= buf.Length
    ensures res == ParseFailed <==> !WellFormed(buf[start..start + len])
    ensures res != ParseFailed ==>
              (res == ParseUnknown <==> exists e :: e in Prefix(buf[start..start + len]) && SlotOf(e).None?)
    ensures Records(elems, start, Prefix(buf[start..start + len]))
  {
    hide *;
    ghost var b: seq<byte>, es: seq<Ie> := buf[start..start + len], [];
    elems := map[];
    var left: nat, pos: nat, unknown: nat := len, start, 0;
    PassStarts(b, start);
    while left >= 2
      invariant left <= len && pos == start + (len - left)
      invariant Passed(b, es, len - left) && Recorded(elems, start, es, unknown)
      decreases left
    {
      var id: byte, elen: byte := buf[pos], buf[pos + 1];
      assert b[len - left] == id && b[len - left + 1] == elen;
      pos := pos + 2;
      left := left - 2;
      if elen > left {
        PassStops(b, es, len - left - 2, elems, start, unknown);
        return ParseFailed, elems;
      }
      ghost var e := NextElement(b, len - left - 2);
      PassGoesOn(b, es, len - left - 2);
      NextBody(buf[..], start, len, len - left - 2);
      var slot := SlotOfOctets(id, buf[pos..pos + elen]);
      RecordedNext(elems, start, es, e, unknown);
      match slot {
        case Some(f) => elems := elems[f := Span(pos, elen)];
        case None => unknown := unknown + 1;
      }
      es := es + [e];
      left := left - elen;
      pos := pos + elen;
    }
    PassStops(b, es, len - left, elems, start, unknown);
    if left != 0 {
      return ParseFailed, elems;
    }
    return if unknown > 0 then ParseUnknown else ParseOK, elems;
  }

  /** The table holds what es fills, and unknown counts up from the first element that fills nothing. */
  ghost predicate Recorded(elems: Elems, base: nat, es: seq<Ie>, unknown: nat) {
    && Records(elems, base, es)
    && (unknown > 0 <==> exists e :: e in es && SlotOf(e).None?)
  }

  lemma RecordedNext(elems: Elems, base: nat, es: seq<Ie>, e: Ie, unknown: nat)
    requires Recorded(elems, base, es, unknown)
    ensures var pos := base + |EncodeAll(es)| + 2;
            match SlotOf(e)
            case Some(f) => Recorded(elems[f := Span(pos, |e.body|)], base, es + [e], unknown)
            case None => Recorded(elems, base, es + [e], unknown + 1)
  {
    hide EncodeAll, SlotOf, Records;
    assert (es + [e])[..|es|] == es && (es + [e])[..|es| + 1] == es + [e];
    RecordsNext(elems, base, es + [e], |es|);
    if SlotOf(e).None? {
      assert e in es + [e];
    }
  }

  /** The body octets of the element at cursor n, where they stand in the buffer. */
  lemma NextBody(a: seq<byte>, start: nat, len: nat, n: nat)
    requires start + len <= |a| && n + 2 <= len && n + 2 + a[start..start + len][n + 1] as int <= len
    ensures var e := NextElement(a[start..start + len], n);
            var pos := start + n + 2;
            |e.body| == a[start..start + len][n + 1] && a[pos..pos + |e.body|] == e.body
            && SlotOfOctets(e.id, e.body) == SlotOf(e) && e.id == a[start..start + len][n]
  {
    SliceOfSlice(a, start, start + len, n + 2, n + 2 + a[start..start + len][n + 1] as int);
  }

  function SlotOfOctets(id: byte, body: seq<byte>): Option<Slot>
    requires |body| < 0x100
  {
    SlotOf(Element(id, body))
  }

  /** The first n octets of b were read as es. */
  ghost predicate Passed(b: seq<byte>, es: seq<Ie>, n: nat) {
    n <= |b| && b[..n] == EncodeAll(es) && Prefix(b) == es + Prefix(b[n..])
  }

  /** The element a cursor at n has in front of it. */
  function NextElement(b: seq<byte>, n: nat): Ie
    requires n + 2 <= |b| && n + 2 + b[n + 1] as int <= |b|
  {
    Element(b[n], b[n + 2..n + 2 + b[n + 1] as int])
  }

  lemma PassStarts(b: seq<byte>, start: nat)
    ensures Passed(b, [], 0) && Recorded(map[], start, [], 0)
  {
    assert b[0..] == b;
    assert [] + Prefix(b) == Prefix(b);
  }

  lemma PassGoesOn(b: seq<byte>, es: seq<Ie>, n: nat)
    requires Passed(b, es, n) && n + 2 <= |b| && n + 2 + b[n + 1] as int <= |b|
    ensures var e := NextElement(b, n);
            Passed(b, es + [e], n + 2 + b[n + 1] as int) && |EncodeAll(es)| == n
  {
    hide EncodeAll, Prefix;
    var elen: nat := b[n + 1];
    var e := NextElement(b, n);
    EncodeAllConcat(es, [e]);
    EncodeOne(e);
    Join(b, 0, n, n + 2 + elen);
    assert b[n..n + 2 + elen] == Encode(e);
    PrefixStep(b[n..]);
    assert b[n..] == b[n..|b|] && b[n..][1] == elen;
    SliceOfSlice(b, n, |b|, 2, 2 + elen);
    DropOfDrop(b, n, 2 + elen);
    Assoc(es, [e], Prefix(b[n + 2 + elen..]));
    CatParts(es, [e]);
    assert b[..n + 2 + elen] == EncodeAll(es + [e]);
    assert Prefix(b) == (es + [e]) + Prefix(b[n + 2 + elen..]);
  }

  lemma PrefixStep(b: seq<byte>)
    requires |b| >= 2 && b[1] <= |b| - 2
    ensures Prefix(b) == [Element(b[0], b[2..2 + b[1] as int])] + Prefix(b[2 + b[1] as int..])
  {
  }

  /** Where no further element fits, the pass has found all of Prefix(b), and b is well formed iff nothing is left. */
  lemma PassStops(b: seq<byte>, es: seq<Ie>, n: nat, elems: Elems, base: nat, unknown: nat)
    requires Passed(b, es, n) && Recorded(elems, base, es, unknown)
    requires n + 2 > |b| || n + 2 + b[n + 1] as int > |b|
    ensures Prefix(b) == es
    ensures WellFormed(b) <==> n == |b|
    ensures Records(elems, base, Prefix(b))
    ensures unknown > 0 <==> exists e :: e in Prefix(b) && SlotOf(e).None?
  {
    assert Prefix(b[n..]) == [];
  }

  // ----- parse against search -----

  /** rtw_get_ie finds the first element of an id, the pass keeps the last. They agree on every id exactly when
    * no standard id occurs twice. */
  lemma FirstAndLastAgree(es: seq<Ie>, id: byte, k: nat)
    requires id != 221 && StandardSlot(id).Some?
    requires IsLast(es, StandardSlot(id).value, k)
    ensures es[k].id == id
    ensures IndexOf(es, id) == k <==>
              forall i, j :: 0 <= i < |es| && 0 <= j < |es| && es[i].id == id && es[j].id == id ==> i == j
  {
    StandardSlotInjective(es[k], id);
    IndexOfIsFirst(es, id);
    forall j | 0 <= j < |es| && es[j].id == id ensures j <= k {
    }
    if IndexOf(es, id) != k {
      IndexOfUnique(es, id, IndexOf(es, id));
      assert es[IndexOf(es, id)].id == id;
    }
  }

  /** No two ids share a standard slot, and no vendor element fills one. */
  lemma StandardSlotInjective(e: Ie, id: byte)
    requires id != 221 && StandardSlot(id).Some?
    ensures SlotOf(e) == StandardSlot(id) <==> e.id == id
  {
  }

  // ----- a frame body built and parsed -----

  /** Whatever a run of rtw_set_ie calls writes, the pass fails exactly if some source did not fit its length octet and
    * what spilled out of the first such one, with the later calls, is no list of elements. If all fitted, it records
    * exactly the elements written, and knows them all exactly if each fills a slot. */
  method BuildAndParse(buf: array<byte>, at: nat, calls: seq<Call>) returns (res: ParseRes, elems: Elems)
    requires at + |WrittenAll(calls)| <= buf.Length
    modifies buf
    ensures var k := FirstOverlong(calls);
            res == ParseFailed <==> k < |calls| && !WellFormed(Spilled(calls[k]) + WrittenAll(calls[k + 1..]))
    ensures FirstOverlong(calls) == |calls| ==>
              && Records(elems, at, MeantAll(calls))
              && (res == ParseOK <==> forall e <- MeantAll(calls) :: SlotOf(e).Some?)
  {
    hide WellFormed, Prefix, WrittenAll, Records, SlotOf, FirstOverlong, Spilled;
    var next, frlen := SetIes(buf, at, calls, 0);
    res, elems := Parse(buf, at, next - at);
    RunReadsBack(calls);
  }
}
