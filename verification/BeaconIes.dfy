/** Edits of the advertised elements in core/rtw_ap.c: rtw_add_bcn_ie and rtw_remove_bcn_ie. */
module BeaconIes {
  import opened Bytes
  import opened Seqs
  import opened Elements
  import opened IeBuffer
  import opened Bss

  const SSID_IE: byte := 0

  // ----- one splice for every edit -----

  /** Everything an edit keeps: the fixed part, and the elements before and behind the replaced stretch. */
  lemma SpliceHolds(s0: seq<byte>, s2: seq<byte>, end: nat, es: seq<Ie>, i: nat, j: nat, mid: seq<Ie>)
    requires FIXED_IE_LENGTH <= end <= |s0| && s0[FIXED_IE_LENGTH..end] == EncodeAll(es) && i <= j <= |es|
    requires var p, q := FIXED_IE_LENGTH + Offset(es, i), FIXED_IE_LENGTH + Offset(es, j);
             && q <= end && p + |EncodeAll(mid)| + (end - q) <= |s0| == |s2|
             && s2 == Stored(Stored(s0, p, EncodeAll(mid)), p + |EncodeAll(mid)|, s0[q..end])
    ensures var end' := FIXED_IE_LENGTH + Offset(es, i) + |EncodeAll(mid)| + (end - FIXED_IE_LENGTH - Offset(es, j));
            && FIXED_IE_LENGTH <= end' <= |s2|
            && s2[FIXED_IE_LENGTH..end'] == EncodeAll(es[..i] + mid + es[j..])
            && s2[..FIXED_IE_LENGTH] == s0[..FIXED_IE_LENGTH]
  {
    hide EncodeAll, Stored;
    var p, q, m := FIXED_IE_LENGTH + Offset(es, i), FIXED_IE_LENGTH + Offset(es, j), EncodeAll(mid);
    var s1 := Stored(s0, p, m);
    var end' := p + |m| + (end - q);
    StoredSlices(s0, p, m);
    StoredSlices(s1, p + |m|, s0[q..end]);
    Join(s2, FIXED_IE_LENGTH, p, p + |m|);
    Join(s2, FIXED_IE_LENGTH, p + |m|, end');
    Respliced(s0, FIXED_IE_LENGTH, end, es, i, j, mid);
  }

  // ----- rtw_remove_bcn_ie -----

  function RemoveBcn(es: seq<Ie>, index: byte): seq<Ie> {
    var k := IndexOf(es, index);
    if k < |es| && es[k].body != [] then es[..k] + es[k + 1..] else es
  }

  method RemoveBcnIe(bss: BssidEx, index: byte, ghost es: seq<Ie>)
    requires bss.Holds(es)
    modifies bss, bss.IEs
    ensures bss.Holds(RemoveBcn(es, index))
    ensures bss.IEs[..FIXED_IE_LENGTH] == old(bss.IEs[..FIXED_IE_LENGTH])
  {
    hide EncodeAll, IndexOf, Stored;
    var p, ielen := GetIe(bss.IEs, FIXED_IE_LENGTH, index, bss.IELength - FIXED_IE_LENGTH, es);
    ghost var k := IndexOf(es, index);
    NothingHeld(es);
    if p.Some? && ielen > 0 {
      ielen := ielen + 2;
      ReadAt(bss.IEs[..], FIXED_IE_LENGTH, bss.IELength, es, k);
      var premainder, ie_offset := p.value + ielen, p.value;
      var remainder_ielen := bss.IELength - ie_offset - ielen;
      ghost var s0: seq<byte> := bss.IEs[..];
      var backup := bss.IEs[premainder..premainder + remainder_ielen];
      StoreNothing(s0, ie_offset);
      Store(bss.IEs, ie_offset, backup);
      EncodeOne(es[k]);
      SpliceHolds(s0, bss.IEs[..], bss.IELength, es, k, k + 1, []);
      assert es[..k] + [] + es[k + 1..] == es[..k] + es[k + 1..];
      bss.IELength := ie_offset + remainder_ielen;
    }
  }

  lemma StoreNothing(s: seq<byte>, at: nat)
    requires at <= |s|
    ensures Stored(s, at, []) == s
  {
  }

  lemma NothingHeld(es: seq<Ie>)
    ensures |EncodeAll(es)| == 0 <==> es == []
    ensures IndexOf([], 0) == 0
  {
    OffsetEnd(es, 0);
  }

  // ----- rtw_add_bcn_ie -----

  /** Index of the first element whose id is at least index, or |es|: where the scan stops. */
  function StopIndex(es: seq<Ie>, index: byte): (k: nat)
    ensures k <= |es|
  {
    if es == [] || es[0].id >= index then 0 else 1 + StopIndex(es[1..], index)
  }

  lemma {:induction false} StopIndexIs(es: seq<Ie>, index: byte, k: nat)
    requires k <= |es|
    ensures StopIndex(es, index) == k <==>
              (forall j :: 0 <= j < k ==> es[j].id < index) && (k < |es| ==> es[k].id >= index)
  {
    if es != [] && es[0].id < index {
      if k > 0 {
        StopIndexIs(es[1..], index, k - 1);
        assert forall j :: 0 < j < |es| ==> es[j] == es[1..][j - 1];
      }
    }
  }

  /** The guard of the write: the element the scan remembers last exists and has a non-empty body. */
  predicate AddTakesEffect(es: seq<Ie>, index: byte) {
    var k := StopIndex(es, index);
    if k < |es| && es[k].id == index then es[k].body != []
    else k > 0 && es[k - 1].body != []
  }

  function AddBcn(es: seq<Ie>, index: byte, data: Body): seq<Ie> {
    var k := StopIndex(es, index);
    if !AddTakesEffect(es, index) then es
    else if k < |es| && es[k].id == index then es[k := Element(index, data)]
    else es[..k] + [Element(index, data)] + es[k..]
  }

  /** The scan of rtw_add_bcn_ie: the element remembered in p, and whether its id is the one to write. */
  method AddScan(bss: BssidEx, index: byte, ghost es: seq<Ie>) returns (p: Option<nat>, ielen: nat, bmatch: bool)
    requires bss.Holds(es)
    ensures var k := StopIndex(es, index);
            && (bmatch <==> k < |es| && es[k].id == index)
            && (var at := if bmatch then k else k - 1;
                if at < 0 then p.None? else p == Some(FIXED_IE_LENGTH + Offset(es, at)) && ielen == |es[at].body|)
  {
    hide EncodeAll, StopIndex;
    var i := FIXED_IE_LENGTH;
    p, ielen, bmatch := None, 0, false;
    ghost var k := 0;
    OffsetEnd(es, 0);
    while i < bss.IELength
      invariant k <= |es| && i == FIXED_IE_LENGTH + Offset(es, k) <= bss.IELength
      invariant i < bss.IELength <==> k < |es|
      invariant forall j :: 0 <= j < k ==> es[j].id < index
      invariant !bmatch
      invariant if k == 0 then p.None? else p == Some(FIXED_IE_LENGTH + Offset(es, k - 1)) && ielen == |es[k - 1].body|
      decreases |es| - k
    {
      ReadAt(bss.IEs[..], FIXED_IE_LENGTH, bss.IELength, es, k);
      if bss.IEs[i] > index {
        break;
      } else if bss.IEs[i] == index {
        p := Some(i);
        ielen := bss.IEs[i + 1];
        bmatch := true;
        break;
      }
      p := Some(i);
      ielen := bss.IEs[i + 1];
      i := i + bss.IEs[i + 1] + 2;
      k := k + 1;
    }
    StopIndexIs(es, index, k);
  }

  method AddBcnIe(bss: BssidEx, index: byte, data: seq<byte>, ghost es: seq<Ie>)
    requires bss.Holds(es) && |data| < 0x100
    requires bss.IELength + 2 + |data| <= MAX_IE_SZ
    modifies bss, bss.IEs
    ensures bss.Holds(AddBcn(es, index, data))
    ensures bss.IEs[..FIXED_IE_LENGTH] == old(bss.IEs[..FIXED_IE_LENGTH])
  {
    hide EncodeAll, StopIndex, Stored;
    var p, ielen, bmatch := AddScan(bss, index, es);
    if p.Some? && ielen > 0 {
      ghost var k := StopIndex(es, index);
      ReadAt(bss.IEs[..], FIXED_IE_LENGTH, bss.IELength, es, if bmatch then k else k - 1);
      AddedHere(es, index, data, bmatch);
      ielen := ielen + 2;
      var premainder, ie_offset := p.value + ielen, p.value;
      var remainder_ielen := bss.IELength - ie_offset - ielen;
      var dst := if bmatch then p.value else p.value + ielen;
      WriteOver(bss, dst, premainder, remainder_ielen, index, data, es, k, if bmatch then k + 1 else k);
    }
  }

  /** The end of the insertion: what stands behind is kept aside, the element is written at dst,
    * and what was kept follows it. */
  method WriteOver(bss: BssidEx, dst: nat, premainder: nat, remainder_ielen: nat, id: byte, data: seq<byte>,
                   ghost es: seq<Ie>, ghost i: nat, ghost j: nat)
    requires bss.Holds(es) && |data| < 0x100 && i <= j <= |es|
    requires dst == FIXED_IE_LENGTH + Offset(es, i) && premainder == FIXED_IE_LENGTH + Offset(es, j)
    requires dst <= premainder && premainder + remainder_ielen == bss.IELength
    requires dst + 2 + |data| + remainder_ielen <= MAX_IE_SZ
    modifies bss, bss.IEs
    ensures bss.Holds(es[..i] + [Element(id, data)] + es[j..])
    ensures bss.IEs[..FIXED_IE_LENGTH] == old(bss.IEs[..FIXED_IE_LENGTH])
  {
    hide EncodeAll, Stored;
    ghost var s0: seq<byte>, added: Ie := bss.IEs[..], Element(id, data);
    var backup := bss.IEs[premainder..premainder + remainder_ielen];
    EncodeOne(added);
    Store(bss.IEs, dst, [id, |data|] + data);
    Store(bss.IEs, dst + 2 + |data|, backup);
    SpliceHolds(s0, bss.IEs[..], bss.IELength, es, i, j, [added]);
    bss.IELength := dst + 2 + |data| + remainder_ielen;
  }

  lemma AddedHere(es: seq<Ie>, index: byte, data: Body, bmatch: bool)
    requires var k := StopIndex(es, index);
             AddTakesEffect(es, index) && (bmatch <==> k < |es| && es[k].id == index)
    ensures var k := StopIndex(es, index);
            AddBcn(es, index, data) == es[..k] + [Element(index, data)] + es[if bmatch then k + 1 else k..]
  {
    if bmatch {
      Replaced(es, StopIndex(es, index), Element(index, data));
    }
  }

  /** Ids never decrease along the list. */
  ghost predicate Sorted(es: seq<Ie>) {
    forall i, j :: 0 <= i < j < |es| ==> es[i].id <= es[j].id
  }

  lemma AddKeepsOrder(es: seq<Ie>, index: byte, data: Body)
    requires Sorted(es)
    ensures Sorted(AddBcn(es, index, data))
  {
    hide StopIndex, AddTakesEffect;
    var k := StopIndex(es, index);
    StopIndexIs(es, index, k);
    if AddTakesEffect(es, index) && !(k < |es| && es[k].id == index) {
      InsertedInOrder(es, k, Element(index, data));
    }
  }

  lemma InsertedInOrder(es: seq<Ie>, k: nat, e: Ie)
    requires Sorted(es) && k <= |es|
    requires (forall j :: 0 <= j < k ==> es[j].id < e.id) && (forall j :: k <= j < |es| ==> e.id <= es[j].id)
    ensures Sorted(es[..k] + [e] + es[k..])
  {
  }

  /** Place k is where the id belongs, behind smaller ids: it is taken already, by an element that is not empty, or a
    * larger id or the end comes there, and what stands before is an element that is not empty. */
  predicate WritesAt(es: seq<Ie>, index: byte, k: nat) {
    && k <= |es| && (forall j :: 0 <= j < k ==> es[j].id < index)
    && if k < |es| && es[k].id == index then es[k].body != []
       else (k < |es| ==> es[k].id > index) && k > 0 && es[k - 1].body != []
  }

  ghost predicate Writes(es: seq<Ie>, index: byte) {
    exists k :: WritesAt(es, index, k)
  }

  lemma WritesIff(es: seq<Ie>, index: byte)
    ensures AddTakesEffect(es, index) <==> Writes(es, index)
    ensures AddTakesEffect(es, index) ==> WritesAt(es, index, StopIndex(es, index))
  {
    hide StopIndex;
    StopIndexIs(es, index, StopIndex(es, index));
    if AddTakesEffect(es, index) {
      assert WritesAt(es, index, StopIndex(es, index));
    } else if Writes(es, index) {
      var k: nat :| WritesAt(es, index, k);
      StopIndexIs(es, index, k);
    }
  }

  /** The element is written there, in place of the one with its id or between its neighbours, and nothing else is. */
  lemma AddIs(es: seq<Ie>, index: byte, data: Body, k: nat)
    ensures WritesAt(es, index, k) ==>
              AddBcn(es, index, data)
              == es[..k] + [Element(index, data)] + if k < |es| && es[k].id == index then es[k + 1..] else es[k..]
    ensures !Writes(es, index) ==> AddBcn(es, index, data) == es
  {
    hide StopIndex;
    WritesIff(es, index);
    if WritesAt(es, index, k) {
      StopIndexIs(es, index, k);
      AddedHere(es, index, data, k < |es| && es[k].id == index);
    }
  }

  /** The first element of the id goes if it has a body. */
  lemma RemoveIs(a: seq<Ie>, e: Ie, b: seq<Ie>, index: byte)
    requires forall f <- a :: f.id != index
    ensures e.id == index ==> RemoveBcn(a + [e] + b, index) == if e.body == [] then a + [e] + b else a + b
    ensures RemoveBcn(a, index) == a
  {
    hide IndexOf;
    IndexOfUnique(a, index, |a|);
    if e.id == index {
      ThreeParts(a, [e], b);
      IndexOfUnique(a + [e] + b, index, |a|);
    }
  }

  /** A search finds the new data exactly when the write takes place, or the data was already the first of its id. */
  lemma AddIsFound(es: seq<Ie>, index: byte, data: Body)
    ensures (First(AddBcn(es, index, data), index) == Some(Element(index, data))) <==>
            (Writes(es, index) || First(es, index) == Some(Element(index, data)))
  {
    WritesIff(es, index);
    if AddTakesEffect(es, index) {
      var k := StopIndex(es, index);
      StopIndexIs(es, index, k);
      FirstIn(es[..k], index);
      var tail := if k < |es| && es[k].id == index then es[k + 1..] else es[k..];
      assert AddBcn(es, index, data) == es[..k] + [Element(index, data)] + tail;
      FirstRewritten(es[..k], Element(index, data), tail);
    }
  }

  /** Every other id is advertised as before, whatever the edit did. */
  lemma EditsIgnoreOthers(es: seq<Ie>, index: byte, data: Body, id: byte)
    requires id != index
    ensures First(AddBcn(es, index, data), id) == First(es, id) == First(RemoveBcn(es, index), id)
  {
    hide StopIndex, IndexOf, First;
    var k, m := StopIndex(es, index), IndexOf(es, index);
    var added := Element(index, data);
    if AddTakesEffect(es, index) {
      FirstIgnores(es[..k], added, es[k..], id);
      TakeDrop(es, k);
      if k < |es| && es[k].id == index {
        Step(es, k);
        FirstIgnores(es[..k], es[k], es[k + 1..], id);
        FirstIgnores(es[..k], added, es[k + 1..], id);
        assert es[k := added] == es[..k] + [added] + es[k + 1..];
      }
    }
    if m < |es| {
      IndexOfIsFirst(es, index);
      Step(es, m);
      FirstIgnores(es[..m], es[m], es[m + 1..], id);
    }
  }

  /** Adding an absent id and removing it again restores the list, and with it every octet in use and the length,
    * unless an empty body was written: rtw_remove_bcn_ie does not see empty elements. */
  lemma RemoveUndoesAdd(es: seq<Ie>, index: byte, data: Body)
    requires First(es, index).None?
    ensures RemoveBcn(AddBcn(es, index, data), index) == es <==> data != [] || !Writes(es, index)
  {
    hide IndexOf, StopIndex, Writes;
    WritesIff(es, index);
    IndexOfIsFirst(es, index);
    if AddTakesEffect(es, index) {
      var k := StopIndex(es, index);
      FirstIn(es, index);
      StopIndexIs(es, index, k);
      assert k < |es| ==> es[k] in es;
      AddedHere(es, index, data, false);
      Inserted(es, k, Element(index, data), Element(index, data));
      IndexOfUnique(AddBcn(es, index, data), index, k);
      InsertedCut(es, k, Element(index, data));
    } else {
      assert IndexOf(es, index) == |es|;
    }
  }

  /** One on which it does not: an empty element is added to a one-element list, and stays. */
  lemma EmptyIsNotRemoved(index: byte)
    requires index > SSID_IE
    ensures var es := [Element(SSID_IE, [7])];
            First(es, index).None? && RemoveBcn(AddBcn(es, index, []), index) == es + [Element(index, [])]
  {
    var es := [Element(SSID_IE, [7])];
    IndexOfUnique(es, index, 1);
    StopIndexIs(es, index, 1);
    var r := es + [Element(index, [])];
    assert AddBcn(es, index, []) == es[..1] + [Element(index, [])] + es[1..] == r;
    IndexOfUnique(r, index, 1);
  }
}
