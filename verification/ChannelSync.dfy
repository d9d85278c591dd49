/** rtw_is_chbw_grouped and rtw_sync_chbw of core/rtw_ieee80211.c: the interfaces of one device share a channel, and a
  * group setting grows to the widest of them. */
module ChannelSync {
  import opened Bytes
  import opened Seqs

  const CHANNEL_WIDTH_20: byte := 0
  const CHANNEL_WIDTH_40: byte := 1
  const CHANNEL_WIDTH_80: byte := 2
  const CHANNEL_WIDTH_160: byte := 3
  const DONT_CARE: byte := 0

  datatype Setting = Setting(ch: byte, bw: byte, offset: byte)

  predicate HasOffset(bw: byte) {
    bw == CHANNEL_WIDTH_40 || bw == CHANNEL_WIDTH_80
  }

  /** rtw_is_chbw_grouped */
  predicate Grouped(a: Setting, b: Setting) {
    if a.ch != b.ch then false
    else if HasOffset(a.bw) && HasOffset(b.bw) then a.offset == b.offset
    else true
  }

  /** A radio on channel ch with the secondary channel at `offset` does for s; at 20 MHz, and from 160 MHz on, any
    * offset will do. */
  predicate DoesFor(ch: byte, offset: byte, s: Setting) {
    s.ch == ch && (s.bw == 1 || s.bw == 2 ==> s.offset == offset)
  }

  /** Two settings are grouped if and only if one radio does for both. */
  lemma GroupedMeans(a: Setting, b: Setting)
    ensures Grouped(a, b) <==>
              exists ch: byte, offset: byte :: DoesFor(ch, offset, a) && DoesFor(ch, offset, b)
  {
    if Grouped(a, b) {
      var offset := if HasOffset(a.bw) then a.offset else b.offset;
      assert DoesFor(a.ch, offset, a) && DoesFor(a.ch, offset, b);
    }
  }

  /** The three pointers a caller passes for one setting. */
  class ChSetting {
    var ch: byte
    var bw: byte
    var offset: byte

    function Value(): Setting
      reads this
    {
      Setting(ch, bw, offset)
    }

    constructor (s: Setting)
      ensures Value() == s
    {
      ch, bw, offset := s.ch, s.bw, s.offset;
    }
  }

  /** The requested width where the group's channel is: 80 MHz exists above channel 14 only. */
  function Allowed(bw: byte, ch: byte): byte {
    if bw == CHANNEL_WIDTH_80 && ch <= 14 then CHANNEL_WIDTH_40 else bw
  }

  /** The offset for a width that needs one: the group's if it has one, that of the channel if the group is narrow. */
  function OffsetFor(offsetByCh: byte -> byte, req: Setting, g: Setting): byte {
    if HasOffset(g.bw) then g.offset else if g.bw == CHANNEL_WIDTH_20 then offsetByCh(g.ch) else req.offset
  }

  function SyncedReq(offsetByCh: byte -> byte, req: Setting, g: Setting): Setting {
    var bw, offset := Allowed(req.bw, g.ch), OffsetFor(offsetByCh, req, g);
    if HasOffset(bw) then Setting(g.ch, if offset == DONT_CARE then CHANNEL_WIDTH_20 else bw, offset)
    else Setting(g.ch, bw, if bw == CHANNEL_WIDTH_20 then DONT_CARE else req.offset)
  }

  /** The group takes a wider request over. */
  function Widened(g: Setting, req: Setting): Setting {
    if req.bw > g.bw then Setting(g.ch, req.bw, req.offset) else g
  }

  /** rtw_sync_chbw */
  method SyncChbw(offsetByCh: byte -> byte, req: ChSetting, g: ChSetting)
    requires req != g
    modifies req, g`bw, g`offset
    ensures req.Value() == SyncedReq(offsetByCh, old(req.Value()), old(g.Value()))
    ensures g.Value() == Widened(old(g.Value()), req.Value())
  {
    req.ch := g.ch;
    if req.bw == CHANNEL_WIDTH_80 && g.ch <= 14 {
      req.bw := CHANNEL_WIDTH_40;
    }
    if req.bw == CHANNEL_WIDTH_80 || req.bw == CHANNEL_WIDTH_40 {
      if g.bw == CHANNEL_WIDTH_40 || g.bw == CHANNEL_WIDTH_80 {
        req.offset := g.offset;
      } else if g.bw == CHANNEL_WIDTH_20 {
        req.offset := offsetByCh(req.ch);
      }
      if req.offset == DONT_CARE {
        req.bw := CHANNEL_WIDTH_20;
      }
    } else if req.bw == CHANNEL_WIDTH_20 {
      req.offset := DONT_CARE;
    }
    if req.bw > g.bw {
      g.bw := req.bw;
      g.offset := req.offset;
    }
  }

  // ----- one device -----

  /** s can be served by a radio set to g. */
  predicate Served(s: Setting, g: Setting) {
    s.ch == g.ch && s.bw <= g.bw && Grouped(s, g)
  }

  /** Whatever the widths, the synced interface is served, and those served before still are. */
  lemma SyncServes(offsetByCh: byte -> byte, req: Setting, g: Setting, s: Setting)
    requires Served(s, g)
    ensures var req' := SyncedReq(offsetByCh, req, g);
            Served(req', Widened(g, req')) && Served(s, Widened(g, req'))
  {
  }

  /** A further sync would change neither side. */
  predicate Settled(offsetByCh: byte -> byte, s: Setting, g: Setting) {
    SyncedReq(offsetByCh, s, g) == s && Widened(g, s) == g
  }

  predicate AllSettled(offsetByCh: byte -> byte, rs: seq<Setting>, g: Setting) {
    forall i :: 0 <= i < |rs| ==> Settled(offsetByCh, rs[i], g)
  }

  /** One sync settles, and leaves the others settled. */
  lemma SyncSettles(offsetByCh: byte -> byte, req: Setting, g: Setting, s: Setting)
    requires Settled(offsetByCh, s, g)
    ensures var req' := SyncedReq(offsetByCh, req, g);
            Settled(offsetByCh, req', Widened(g, req')) && Settled(offsetByCh, s, Widened(g, req'))
  {
  }

  /** The group after syncing the interfaces in order, and the interfaces. */
  function GroupAfter(offsetByCh: byte -> byte, reqs: seq<Setting>, g: Setting): Setting {
    if reqs == [] then g
    else
      var before := GroupAfter(offsetByCh, reqs[..|reqs| - 1], g);
      Widened(before, SyncedReq(offsetByCh, reqs[|reqs| - 1], before))
  }

  function SyncedAll(offsetByCh: byte -> byte, reqs: seq<Setting>, g: Setting): (r: seq<Setting>)
    ensures |r| == |reqs|
  {
    if reqs == [] then []
    else
      SyncedAll(offsetByCh, reqs[..|reqs| - 1], g)
      + [SyncedReq(offsetByCh, reqs[|reqs| - 1], GroupAfter(offsetByCh, reqs[..|reqs| - 1], g))]
  }

  function Values(xs: seq<ChSetting>): (r: seq<Setting>)
    reads xs
    ensures |r| == |xs| && forall i :: 0 <= i < |xs| ==> r[i] == xs[i].Value()
  {
    seq(|xs|, i requires 0 <= i < |xs| reads xs => xs[i].Value())
  }

  lemma SyncOneMore(offsetByCh: byte -> byte, reqs: seq<Setting>, i: nat, g: Setting)
    requires i < |reqs|
    ensures var before, all := GroupAfter(offsetByCh, reqs[..i], g), SyncedAll(offsetByCh, reqs[..i], g);
            var req := SyncedReq(offsetByCh, reqs[i], before);
            && GroupAfter(offsetByCh, reqs[..i + 1], g) == Widened(before, req)
            && SyncedAll(offsetByCh, reqs[..i + 1], g) == all + [req]
  {
    assert reqs[..i + 1][..i] == reqs[..i] && reqs[..i + 1][i] == reqs[i];
  }

  /** One call after another, for the interfaces of a device. */
  method SyncAll(offsetByCh: byte -> byte, xs: seq<ChSetting>, g: ChSetting)
    requires g !in xs && Distinct(xs)
    modifies xs, g`bw, g`offset
    ensures Values(xs) == SyncedAll(offsetByCh, old(Values(xs)), old(g.Value()))
    ensures g.Value() == GroupAfter(offsetByCh, old(Values(xs)), old(g.Value()))
  {
    hide GroupAfter, SyncedAll, SyncedReq, Widened;
    ghost var reqs, g0, done := Values(xs), g.Value(), [];
    NoneSynced(offsetByCh, reqs, g0);
    for i := 0 to |xs|
      invariant g.Value() == GroupAfter(offsetByCh, reqs[..i], g0)
      invariant |done| == i && done == SyncedAll(offsetByCh, reqs[..i], g0)
      invariant forall k :: 0 <= k < |xs| ==> xs[k].Value() == if k < i then done[k] else reqs[k]
    {
      SyncOneMore(offsetByCh, reqs, i, g0);
      SyncChbw(offsetByCh, xs[i], g);
      done := done + [xs[i].Value()];
    }
    assert reqs[..|xs|] == reqs;
  }

  lemma NoneSynced(offsetByCh: byte -> byte, reqs: seq<Setting>, g: Setting)
    ensures GroupAfter(offsetByCh, reqs[..0], g) == g && SyncedAll(offsetByCh, reqs[..0], g) == []
  {
  }

  /** Over any interfaces and any first group setting: all end up served by the group, on the channel it
    * started with. */
  lemma {:induction false} AllServed(offsetByCh: byte -> byte, reqs: seq<Setting>, g: Setting)
    ensures var after, r := GroupAfter(offsetByCh, reqs, g), SyncedAll(offsetByCh, reqs, g);
            && after.ch == g.ch && after.bw >= g.bw
            && forall i :: 0 <= i < |reqs| ==> Served(r[i], after)
  {
    if reqs != [] {
      var n := |reqs| - 1;
      AllServed(offsetByCh, reqs[..n], g);
      var before, r := GroupAfter(offsetByCh, reqs[..n], g), SyncedAll(offsetByCh, reqs, g);
      SyncServes(offsetByCh, reqs[n], before, before);
      forall i | 0 <= i < n ensures Served(r[i], GroupAfter(offsetByCh, reqs, g)) {
        assert r[i] == SyncedAll(offsetByCh, reqs[..n], g)[i];
        SyncServes(offsetByCh, reqs[n], before, r[i]);
      }
    }
  }

  lemma {:induction false} AllAreSettled(offsetByCh: byte -> byte, reqs: seq<Setting>, g: Setting)
    ensures AllSettled(offsetByCh, SyncedAll(offsetByCh, reqs, g), GroupAfter(offsetByCh, reqs, g))
  {
    if reqs != [] {
      var n := |reqs| - 1;
      AllAreSettled(offsetByCh, reqs[..n], g);
      var before, after := GroupAfter(offsetByCh, reqs[..n], g), GroupAfter(offsetByCh, reqs, g);
      var r := SyncedAll(offsetByCh, reqs, g);
      SyncSettles(offsetByCh, reqs[n], before, Setting(before.ch, CHANNEL_WIDTH_20, DONT_CARE));
      forall i | 0 <= i < n ensures Settled(offsetByCh, r[i], after) {
        assert r[i] == SyncedAll(offsetByCh, reqs[..n], g)[i];
        SyncSettles(offsetByCh, reqs[n], before, r[i]);
      }
    }
  }

  /** The second round itself. */
  lemma {:induction false} SettledStays(offsetByCh: byte -> byte, reqs: seq<Setting>, g: Setting)
    requires AllSettled(offsetByCh, reqs, g)
    ensures GroupAfter(offsetByCh, reqs, g) == g && SyncedAll(offsetByCh, reqs, g) == reqs
  {
    if reqs != [] {
      SettledStays(offsetByCh, reqs[..|reqs| - 1], g);
    }
  }

  /** Whatever the widths, a second round changes nothing. */
  lemma SecondRoundChangesNothing(offsetByCh: byte -> byte, reqs: seq<Setting>, g: Setting)
    ensures var after, r := GroupAfter(offsetByCh, reqs, g), SyncedAll(offsetByCh, reqs, g);
            GroupAfter(offsetByCh, r, after) == after && SyncedAll(offsetByCh, r, after) == r
  {
    AllAreSettled(offsetByCh, reqs, g);
    SettledStays(offsetByCh, SyncedAll(offsetByCh, reqs, g), GroupAfter(offsetByCh, reqs, g));
  }

  // ----- the interfaces among themselves -----

  predicate UpTo80(reqs: seq<Setting>, g: Setting) {
    g.bw <= CHANNEL_WIDTH_80 && forall i :: 0 <= i < |reqs| ==> reqs[i].bw <= CHANNEL_WIDTH_80
  }

  /** The offset the group has from the start, or will get from the channel. */
  function CommonOffset(offsetByCh: byte -> byte, g: Setting): byte {
    if HasOffset(g.bw) then g.offset else offsetByCh(g.ch)
  }

  /** The offset request i is given: the common one, until a setting wider than 80 MHz has come before it; from then on
    * every request keeps its own. */
  function OffsetGiven(offsetByCh: byte -> byte, reqs: seq<Setting>, g: Setting, i: nat): byte
    requires i < |reqs|
  {
    if UpTo80(reqs[..i], g) then CommonOffset(offsetByCh, g) else reqs[i].offset
  }

  /** Request i asks for 40 or 80 MHz, and is given an offset to go with it. */
  predicate KeepsOffset(offsetByCh: byte -> byte, reqs: seq<Setting>, g: Setting, i: nat)
    requires i < |reqs|
  {
    HasOffset(reqs[i].bw) && OffsetGiven(offsetByCh, reqs, g, i) != DONT_CARE
  }

  /** What the group has become when request n comes. */
  lemma {:induction false} GroupSoFar(offsetByCh: byte -> byte, reqs: seq<Setting>, g: Setting)
    ensures var after := GroupAfter(offsetByCh, reqs, g);
            && after.ch == g.ch && (UpTo80(reqs, g) <==> after.bw <= CHANNEL_WIDTH_80)
            && (UpTo80(reqs, g) ==> CommonOffset(offsetByCh, after) == CommonOffset(offsetByCh, g))
  {
    if reqs != [] {
      var n := |reqs| - 1;
      GroupSoFar(offsetByCh, reqs[..n], g);
      Step(reqs, n);
      assert UpTo80(reqs, g) <==> UpTo80(reqs[..n], g) && reqs[n].bw <= CHANNEL_WIDTH_80;
    }
  }

  /** Every interface after the round, from the requests alone. */
  lemma {:induction false} SyncedAt(offsetByCh: byte -> byte, reqs: seq<Setting>, g: Setting, i: nat)
    requires i < |reqs|
    ensures var s := SyncedAll(offsetByCh, reqs, g)[i];
            && s.ch == g.ch && (HasOffset(s.bw) <==> KeepsOffset(offsetByCh, reqs, g, i))
            && (HasOffset(s.bw) ==> s.offset == OffsetGiven(offsetByCh, reqs, g, i))
  {
    var n := |reqs| - 1;
    if i < n {
      SyncedAt(offsetByCh, reqs[..n], g, i);
      assert reqs[..n][..i] == reqs[..i];
    } else {
      GroupSoFar(offsetByCh, reqs[..n], g);
    }
  }

  /** The width that comes out for each interface: what it asked for, cut to 40 MHz where 80 does not exist, and to 20
    * where it needs an offset and is given none. */
  lemma {:induction false} WidthAt(offsetByCh: byte -> byte, reqs: seq<Setting>, g: Setting, i: nat)
    requires i < |reqs|
    ensures var s, asked := SyncedAll(offsetByCh, reqs, g)[i], reqs[i].bw;
            && (s.bw == CHANNEL_WIDTH_80 <==>
                asked == CHANNEL_WIDTH_80 && g.ch > 14 && KeepsOffset(offsetByCh, reqs, g, i))
            && (s.bw == CHANNEL_WIDTH_40 <==>
                && KeepsOffset(offsetByCh, reqs, g, i)
                && (asked == CHANNEL_WIDTH_40 || (asked == CHANNEL_WIDTH_80 && g.ch <= 14)))
            && (s.bw == CHANNEL_WIDTH_20 <==>
                asked == CHANNEL_WIDTH_20 || (HasOffset(asked) && !KeepsOffset(offsetByCh, reqs, g, i)))
            && (asked > CHANNEL_WIDTH_80 ==> s.bw == asked && s.offset == reqs[i].offset)
            && (s.bw == CHANNEL_WIDTH_20 ==> s.offset == DONT_CARE)
  {
    var n := |reqs| - 1;
    if i < n {
      WidthAt(offsetByCh, reqs[..n], g, i);
      assert reqs[..n][..i] == reqs[..i];
    } else {
      GroupSoFar(offsetByCh, reqs[..n], g);
    }
  }

  /** Interface i is the first of the greatest width, and what the group is set to. */
  predicate TakenFrom(r: seq<Setting>, g: Setting, after: Setting, i: nat) {
    && i < |r| && r[i] == after && after.bw > g.bw
    && forall j :: 0 <= j < i ==> r[j].bw < after.bw
  }

  /** The group is as it began, or as the first of the interfaces that are widest. */
  ghost predicate Widest(r: seq<Setting>, g: Setting, after: Setting) {
    && after.bw >= g.bw && (forall i :: 0 <= i < |r| ==> r[i].bw <= after.bw)
    && (after == g || exists i :: TakenFrom(r, g, after, i))
  }

  lemma WidestGrows(r: seq<Setting>, g: Setting, before: Setting, req: Setting)
    requires Widest(r, g, before) && req.ch == before.ch
    ensures Widest(r + [req], g, Widened(before, req))
  {
    var all, after := r + [req], Widened(before, req);
    if req.bw > before.bw {
      assert TakenFrom(all, g, after, |r|);
    } else if before != g {
      var i: nat :| TakenFrom(r, g, before, i);
      assert TakenFrom(all, g, after, i);
    }
  }

  /** The group's width is the greatest of its first one and those that come out. */
  lemma {:induction false} GroupIsWidest(offsetByCh: byte -> byte, reqs: seq<Setting>, g: Setting)
    ensures Widest(SyncedAll(offsetByCh, reqs, g), g, GroupAfter(offsetByCh, reqs, g))
  {
    if reqs != [] {
      var n := |reqs| - 1;
      GroupIsWidest(offsetByCh, reqs[..n], g);
      var before := GroupAfter(offsetByCh, reqs[..n], g);
      WidestGrows(SyncedAll(offsetByCh, reqs[..n], g), g, before, SyncedReq(offsetByCh, reqs[n], before));
    }
  }

  /** For every list of requests, of whatever widths: two interfaces are a group of their own if and only if their
    * requests do not both keep an offset, or are given the same one. */
  lemma GroupedIff(offsetByCh: byte -> byte, reqs: seq<Setting>, g: Setting, i: nat, j: nat)
    requires i < |reqs| && j < |reqs|
    ensures var r := SyncedAll(offsetByCh, reqs, g);
            Grouped(r[i], r[j]) <==>
              (KeepsOffset(offsetByCh, reqs, g, i) && KeepsOffset(offsetByCh, reqs, g, j)
               ==> OffsetGiven(offsetByCh, reqs, g, i) == OffsetGiven(offsetByCh, reqs, g, j))
  {
    hide SyncedAll, KeepsOffset, OffsetGiven;
    SyncedAt(offsetByCh, reqs, g, i);
    SyncedAt(offsetByCh, reqs, g, j);
  }

  /** So up to 80 MHz any two of them are grouped. */
  lemma AllGroupedUpTo80(offsetByCh: byte -> byte, reqs: seq<Setting>, g: Setting, i: nat, j: nat)
    requires UpTo80(reqs, g) && i < |reqs| && j < |reqs|
    ensures Grouped(SyncedAll(offsetByCh, reqs, g)[i], SyncedAll(offsetByCh, reqs, g)[j])
  {
    hide SyncedAll;
    GroupedIff(offsetByCh, reqs, g, i, j);
  }

  /** At 160 MHz it fails: two requests on either side of the channel come out as they went in, and are not grouped. */
  lemma NotGroupedAt160(offsetByCh: byte -> byte)
    ensures var reqs := [Setting(36, CHANNEL_WIDTH_40, 1), Setting(36, CHANNEL_WIDTH_40, 2)];
            var r := SyncedAll(offsetByCh, reqs, Setting(36, CHANNEL_WIDTH_160, 1));
            r == reqs && !Grouped(r[0], r[1])
  {
    hide GroupAfter, SyncedAll;
    var g := Setting(36, CHANNEL_WIDTH_160, 1);
    var reqs := [Setting(36, CHANNEL_WIDTH_40, 1), Setting(36, CHANNEL_WIDTH_40, 2)];
    NoneSynced(offsetByCh, reqs, g);
    SyncOneMore(offsetByCh, reqs, 0, g);
    SyncOneMore(offsetByCh, reqs, 1, g);
    assert reqs[..2] == reqs;
  }
}
