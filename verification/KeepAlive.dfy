/** The station ageing tick of expire_timeout_chk in core/rtw_ap.c, and when a silent station is dropped.
  * Configuration: CONFIG_80211N_HT on; CONFIG_ACTIVE_KEEP_ALIVE_CHECK, CONFIG_TX_MCAST2UNI and
  * CONFIG_ATMEL_RC_PATCH off. */
module KeepAlive {
  import opened Bytes
  import opened Bits
  import opened BeaconTim
  import opened Seqs

  const KEEP_ALIVE_TRYCNT: nat := 3

  // ----- the tick as a table -----

  /** What the tick reads and writes of one station. */
  datatype Sta = Sta(
    expireTo: nat,      // ticks left
    tryCnt: nat,        // keep_alive_trycnt
    aliveChk: bool,     // WIFI_STA_ALIVE_CHK_STATE
    candidate: bool,    // bit 1 of candidate_tid_bitmap
    sleeping: bool,     // WIFI_SLEEP_STATE
    aggregates: bool)   // ht_option and ampdu_enable

  datatype Outcome = Stays(sta: Sta) | Parked(sta: Sta) | Removed

  /** An ADDBA probe is sent: the bit is clear, and no check is pending or a pending one may be repeated. */
  predicate Probes(s: Sta) {
    s.aggregates && !s.candidate && (!s.aliveChk || 1 <= s.tryCnt <= KEEP_ALIVE_TRYCNT)
  }

  /** A station whose time is up. */
  function Expired(s: Sta, period: nat): Outcome {
    var retry := s.aliveChk && 1 <= s.tryCnt <= KEEP_ALIVE_TRYCNT;
    if Probes(s) then
      Stays(s.(expireTo := if s.sleeping then 2 else 1,
               tryCnt := (if retry then s.tryCnt else 0) + 1, aliveChk := true, candidate := true))
    else if s.sleeping && !(s.aliveChk && s.tryCnt == 0) then
      Parked(s.(expireTo := period, tryCnt := if retry then s.tryCnt else 0, aliveChk := true))
    else
      Removed
  }

  /** One tick; heard: frames arrived since the last one. */
  function Tick(s: Sta, heard: bool, period: nat, wifiSpec: bool): Outcome {
    var s' := if heard || s.expireTo == 0 then s.(expireTo := period, tryCnt := 0) else s.(expireTo := s.expireTo - 1);
    if s'.expireTo > 0 then Stays(s')
    else if wifiSpec then Stays(s'.(expireTo := period))
    else Expired(s', period)
  }

  // ----- the tick as the driver runs it -----

  class StaInfo {
    var expire_to: nat
    var keep_alive_trycnt: nat
    var alive_chk_state: bool
    var sleep_state: bool
    var candidate_tid1: bool
    var ht_option: bool
    var ampdu_enable: bool
    var rx_data_pkts: nat
    var rx_ctrl_pkts: nat
    var last_rx_data_pkts: nat
    var last_rx_ctrl_pkts: nat
    const aid: nat

    constructor (aid: nat, expire_to: nat)
      ensures this.aid == aid && Abs() == Sta(expire_to, 0, false, false, false, false) && !Heard()
    {
      this.aid := aid;
      this.expire_to := expire_to;
      keep_alive_trycnt := 0;
      alive_chk_state, sleep_state, candidate_tid1, ht_option, ampdu_enable := false, false, false, false, false;
      rx_data_pkts, rx_ctrl_pkts, last_rx_data_pkts, last_rx_ctrl_pkts := 0, 0, 0, 0;
    }

    ghost function Abs(): Sta
      reads this
    {
      Sta(expire_to, keep_alive_trycnt, alive_chk_state, candidate_tid1, sleep_state, ht_option && ampdu_enable)
    }

    ghost predicate Heard()
      reads this
    {
      last_rx_data_pkts + last_rx_ctrl_pkts != rx_data_pkts + rx_ctrl_pkts
    }

    /** chk_sta_is_alive */
    method ChkStaIsAlive() returns (ret: bool)
      modifies this`last_rx_data_pkts, this`last_rx_ctrl_pkts
      ensures ret == old(Heard()) && !Heard()
    {
      ret := last_rx_data_pkts + last_rx_ctrl_pkts != rx_data_pkts + rx_ctrl_pkts;
      last_rx_data_pkts := rx_data_pkts;
      last_rx_ctrl_pkts := rx_ctrl_pkts;
    }

    /** The loop body for one associated station: whether it has to be deleted, and whether its TIM bit is raised. */
    method Age(period: nat, wifi_spec: bool) returns (remove: bool, tim: bool)
      modifies this
      ensures match old(Tick(Abs(), Heard(), period, wifi_spec))
              case Stays(s) => !remove && !tim && Abs() == s
              case Parked(s) => !remove && tim && Abs() == s
              case Removed => remove && !tim
      ensures !Heard()
    {
      remove, tim := false, false;
      var alive := ChkStaIsAlive();
      if alive || expire_to == 0 {
        expire_to := period;
        keep_alive_trycnt := 0;
      } else {
        expire_to := expire_to - 1;
      }
      if expire_to <= 0 {
        if wifi_spec {
          expire_to := period;
          return;
        }
        remove, tim := TimeIsUp(period);
      }
    }

    /** The branch of the loop body for expire_to <= 0. */
    method TimeIsUp(period: nat) returns (remove: bool, tim: bool)
      requires expire_to == 0
      modifies this`expire_to, this`keep_alive_trycnt, this`alive_chk_state, this`candidate_tid1
      ensures match old(Expired(Abs(), period))
              case Stays(s) => !remove && !tim && Abs() == s
              case Parked(s) => !remove && tim && Abs() == s
              case Removed => remove && !tim
    {
      remove, tim := false, false;
      if keep_alive_trycnt > 0 && keep_alive_trycnt <= KEEP_ALIVE_TRYCNT {
        if alive_chk_state {
          alive_chk_state := false;
        } else {
          keep_alive_trycnt := 0;
        }
      } else if keep_alive_trycnt > KEEP_ALIVE_TRYCNT && !alive_chk_state {
        keep_alive_trycnt := 0;
      }
      if ht_option && ampdu_enable {
        var issued := candidate_tid1;
        if !issued {
          if !alive_chk_state {
            candidate_tid1 := true;
            if sleep_state {
              expire_to := 2;
            } else {
              expire_to := 1;
            }
            alive_chk_state := true;
            keep_alive_trycnt := keep_alive_trycnt + 1;
            return;
          }
        }
      }
      if keep_alive_trycnt > 0 && alive_chk_state {
        keep_alive_trycnt := 0;
        alive_chk_state := false;
      }
      if sleep_state {
        if !alive_chk_state {
          expire_to := period;
          alive_chk_state := true;
          tim := true;
          return;
        }
      }
      remove := true;
    }
  }

  /** The part of sta_priv the tick works on. */
  class StaPriv {
    var expire_to: nat
    var wifi_spec: bool
    var asoc_list: seq<StaInfo>
    var asoc_list_cnt: nat
    var tim_bitmap: u16

    constructor (expire_to: nat, wifi_spec: bool)
      ensures Valid() && asoc_list == [] && this.expire_to == expire_to && this.wifi_spec == wifi_spec
    {
      this.expire_to, this.wifi_spec := expire_to, wifi_spec;
      asoc_list, asoc_list_cnt, tim_bitmap := [], 0, 0;
    }

    /** The list is a list: no station is linked twice, and the counter counts it. */
    ghost predicate Valid()
      reads this
    {
      asoc_list_cnt == |asoc_list| && Distinct(asoc_list)
    }

    /** What the tick will do to station i. */
    ghost function Verdict(i: nat): Outcome
      requires i < |asoc_list|
      reads this, asoc_list[i]
    {
      Tick(asoc_list[i].Abs(), asoc_list[i].Heard(), expire_to, wifi_spec)
    }

    ghost function Verdicts(): (vs: seq<Outcome>)
      reads this, asoc_list
      ensures |vs| == |asoc_list| && forall i :: 0 <= i < |vs| ==> vs[i] == Verdict(i)
    {
      var list := asoc_list;
      seq(|list|, i requires 0 <= i < |list| reads this, asoc_list => if list == asoc_list then Verdict(i) else Removed)
    }

    /** expire_timeout_chk on asoc_list. */
    method ExpireTimeoutChk()
      requires Valid()
      modifies this`asoc_list, this`asoc_list_cnt, this`tim_bitmap, asoc_list
      ensures Valid()
      ensures asoc_list == Kept(old(asoc_list), old(Verdicts()))
      ensures forall i :: 0 <= i < |old(asoc_list)| && !old(Verdicts())[i].Removed? ==>
                            old(asoc_list)[i].Abs() == old(Verdicts())[i].sta && !old(asoc_list)[i].Heard()
      ensures forall a :: BitAt(tim_bitmap, a) <==>
                BitAt(old(tim_bitmap), a) || (a < 16 && Raised(old(asoc_list), old(Verdicts()), |old(asoc_list)|, a))
    {
      hide Tick, Kept, Swept, Raised, BitAt, Raise16, StaInfo.Abs, StaInfo.Heard;
      ghost var all, verdicts := asoc_list, Verdicts();
      ghost var n := 0;
      var i := 0;
      SweepStarts(all, verdicts, tim_bitmap);
      while i < |asoc_list|
        invariant i <= |asoc_list| && asoc_list_cnt == |asoc_list| && |asoc_list| - i == |all| - n
        invariant Swept(all, verdicts, n, asoc_list, i, old(tim_bitmap), tim_bitmap)
        invariant forall j :: n <= j < |all| ==> verdicts[j] == Tick(all[j].Abs(), all[j].Heard(), expire_to, wifi_spec)
        invariant forall j :: 0 <= j < n && !verdicts[j].Removed? ==> all[j].Abs() == verdicts[j].sta && !all[j].Heard()
        decreases |all| - n
      {
        var psta := asoc_list[i];
        SweepOn(all, verdicts, n, asoc_list, i, old(tim_bitmap), tim_bitmap);
        assert forall j :: 0 <= j < |all| && j != n ==> all[j] != psta;
        label here:
        var remove, tim := psta.Age(expire_to, wifi_spec);
        assert forall j :: 0 <= j < |all| && j != n ==>
            all[j].Abs() == old@here(all[j].Abs()) && all[j].Heard() == old@here(all[j].Heard());
        if tim {
          tim_bitmap := Raise16(tim_bitmap, psta.aid);
        }
        if remove {
          asoc_list := asoc_list[..i] + asoc_list[i + 1..];
          asoc_list_cnt := asoc_list_cnt - 1;
        } else {
          i := i + 1;
        }
        n := n + 1;
      }
      SweepEnds(all, verdicts, asoc_list, old(tim_bitmap), tim_bitmap);
      KeptDistinct(all, verdicts);
    }

    /** A station as the list has it: still linked, silent, in the state r gives; or no longer linked. */
    ghost predicate Listed(psta: StaInfo, r: Option<Sta>)
      reads this, psta
    {
      match r
      case None => psta !in asoc_list
      case Some(s) => psta in asoc_list && psta.Abs() == s && !psta.Heard()
    }

    /** A frame of psta arrives, and its candidate bit is cleared, if m says so. */
    method Arrive(psta: StaInfo, m: Moment)
      modifies psta
      ensures psta.Abs() == old(if m.cleared then psta.Abs().(candidate := false) else psta.Abs())
      ensures !old(psta.Heard()) ==> (psta.Heard() <==> m.heard)
    {
      if m.cleared {
        psta.candidate_tid1 := false;
      }
      if m.heard {
        psta.rx_data_pkts := psta.rx_data_pkts + 1;
      }
    }

    /** One tick, before which psta sends a frame, and its candidate bit is cleared, if m says so. */
    method OneTick(psta: StaInfo, m: Moment, ghost r: Option<Sta>)
      requires Valid() && Listed(psta, r)
      modifies this`asoc_list, this`asoc_list_cnt, this`tim_bitmap, psta, asoc_list
      ensures Valid() && forall e <- asoc_list :: e in old(asoc_list)
      ensures Listed(psta, if r.None? then None else AfterTick(r.value, m, expire_to, wifi_spec))
    {
      hide Tick, BitAt, Raised, Kept, StaInfo.Abs, StaInfo.Heard;
      Arrive(psta, m);
      ghost var all, verdicts := asoc_list, Verdicts();
      if r.Some? {
        ghost var i :| 0 <= i < |all| && all[i] == psta;
        assert verdicts[i] == Verdict(i) == Tick(psta.Abs(), m.heard, expire_to, wifi_spec);
      }
      ExpireTimeoutChk();
      KeptMember(all, verdicts, psta);
      forall e | e in asoc_list ensures e in all {
        KeptMember(all, verdicts, e);
      }
    }

    /** Tick after tick: psta is in the list as long as Life says. */
    method Ticks(psta: StaInfo, ms: seq<Moment>)
      requires Valid() && psta in asoc_list && !psta.Heard()
      modifies this`asoc_list, this`asoc_list_cnt, this`tim_bitmap, asoc_list
      ensures Valid() && Listed(psta, Life(old(psta.Abs()), expire_to, wifi_spec, ms))
    {
      hide AfterTick;
      ghost var s, all := psta.Abs(), asoc_list;
      for n := 0 to |ms|
        invariant Valid() && Listed(psta, Life(s, expire_to, wifi_spec, ms[..n])) && forall e <- asoc_list :: e in all
      {
        LifeOneMore(s, expire_to, wifi_spec, ms, n);
        assert psta in old(asoc_list) && forall i :: 0 <= i < |asoc_list| ==> asoc_list[i] in old(asoc_list);
        ghost var r := Life(s, expire_to, wifi_spec, ms[..n]);
        OneTick(psta, ms[n], r);
      }
      assert ms[..|ms|] == ms;
    }

    /** A station that is heard at least once in each countdown stays in the list, and with wifi_spec every one does. */
    method LivelyTicks(psta: StaInfo, ms: seq<Moment>)
      requires Valid() && psta in asoc_list && !psta.Heard() && expire_to >= 1
      requires wifi_spec || (1 <= psta.expire_to <= expire_to && HeardOften(ms, psta.expire_to, expire_to))
      modifies this`asoc_list, this`asoc_list_cnt, this`tim_bitmap, asoc_list
      ensures Valid() && psta in asoc_list
    {
      ghost var s := psta.Abs();
      if wifi_spec {
        SpecKeepsAll(s, expire_to, ms);
      } else {
        LivelyStays(s, expire_to, wifi_spec, ms);
      }
      Ticks(psta, ms);
    }

    /** Tick after tick without a frame from psta, its candidate bit cleared before tick i if env[i]: it is in the list
      * as long as Run says. An awake one is gone after N + 4 ticks, and a sleeping one after 2N + 8 if its bit is found
      * clear each time or it does not aggregate. */
    method SilentTicks(psta: StaInfo, env: seq<bool>)
      requires Valid() && !wifi_spec && psta in asoc_list && !psta.Heard()
      modifies this`asoc_list, this`asoc_list_cnt, this`tim_bitmap, asoc_list
      ensures Valid() && Listed(psta, Run(old(psta.Abs()), expire_to, env))
      ensures var s := old(psta.Abs());
              s.expireTo >= 1 && s.tryCnt == 0 && !s.sleeping && |env| >= s.expireTo + 4 ==> psta !in asoc_list
      ensures var s := old(psta.Abs());
              && s.expireTo == expire_to >= 1 && s.tryCnt == 0 && s.sleeping
              && (s.aggregates ==> false !in Findings(s, expire_to, env)) && |env| >= 2 * expire_to + 8
              ==> psta !in asoc_list
    {
      ghost var s := psta.Abs();
      RunIsLife(s, expire_to, env);
      Ticks(psta, Silent(env));
      if s.expireTo >= 1 && s.tryCnt == 0 && !s.sleeping {
        AwakeRemoval(s, expire_to, env);
      }
      if s.expireTo == expire_to >= 1 && s.tryCnt == 0 && s.sleeping
         && (s.aggregates ==> false !in Findings(s, expire_to, env)) {
        SleepingBound(s, expire_to, env);
      }
    }
  }

  /** After n stations: the survivors among them, then the rest; the TIM bits raised so far. */
  ghost predicate Swept(all: seq<StaInfo>, verdicts: seq<Outcome>, n: nat, list: seq<StaInfo>, i: nat,
                        tim0: u16, tim: u16)
    requires |all| == |verdicts|
  {
    && n <= |all| && i <= |list|
    && list[..i] == Kept(all[..n], verdicts[..n]) && list[i..] == all[n..]
    && forall a :: BitAt(tim, a) <==> BitAt(tim0, a) || (a < 16 && Raised(all, verdicts, n, a))
  }

  lemma SweepStarts(all: seq<StaInfo>, verdicts: seq<Outcome>, tim: u16)
    requires |all| == |verdicts|
    ensures Swept(all, verdicts, 0, all, 0, tim, tim)
  {
    assert all[..0] == [] && verdicts[..0] == [] && all[0..] == all;
  }

  lemma SweepOn(all: seq<StaInfo>, verdicts: seq<Outcome>, n: nat, list: seq<StaInfo>, i: nat,
                tim0: u16, tim: u16)
    requires |all| == |verdicts| && Swept(all, verdicts, n, list, i, tim0, tim) && i < |list|
    ensures n < |all| && list[i] == all[n]
    ensures var v := verdicts[n];
            Swept(all, verdicts, n + 1, if v.Removed? then list[..i] + list[i + 1..] else list,
                  if v.Removed? then i else i + 1, tim0, if v.Parked? then Raise16(tim, list[i].aid) else tim)
  {
    hide Kept, BitAt, Raise16;
    forall a ensures BitAt(Raise16(tim, list[i].aid), a) <==> BitAt(tim, a) || (list[i].aid == a && a < 16) {
      Raise16Sets(tim, list[i].aid, a);
    }
    Step(list, i);
    Step(all, n);
    KeptNext(all, verdicts, n);
    CatParts(list[..i], list[i + 1..]);
  }

  lemma SweepEnds(all: seq<StaInfo>, verdicts: seq<Outcome>, list: seq<StaInfo>, tim0: u16, tim: u16)
    requires |all| == |verdicts| && Swept(all, verdicts, |all|, list, |list|, tim0, tim)
    ensures list == Kept(all, verdicts)
    ensures forall a :: BitAt(tim, a) <==> BitAt(tim0, a) || (a < 16 && Raised(all, verdicts, |all|, a))
  {
    assert all[..|all|] == all && verdicts[..|all|] == verdicts && list[..|list|] == list;
  }

  /** One of the first n stations was parked, and has this association id. */
  ghost predicate Raised(stas: seq<StaInfo>, verdicts: seq<Outcome>, n: nat, aid: nat)
    requires n <= |stas| == |verdicts|
  {
    exists j :: 0 <= j < n && verdicts[j].Parked? && stas[j].aid == aid
  }

  /** A station that is parked gets its bit, and so can be told to wake, if and only if its association id is below
    * sixteen: BIT(aid) loses the others when it is stored. */
  lemma ParkedIsAnnouncedIff(tim: u16, aid: nat)
    requires !BitAt(tim, aid)
    ensures BitAt(Raise16(tim, aid), aid) <==> aid < 16
  {
    Raise16Sets(tim, aid, aid);
  }

  /** A station that is not: asleep and silent, with the id 16 of the sixteenth to associate. */
  lemma ParkedUnannounced(tim: u16)
    ensures Tick(Sta(1, 0, false, false, true, false), false, 1, false).Parked?
    ensures Raise16(tim, 16) == tim
  {
    Raise16Sets(tim, 16, 16);
  }

  /** With the TIM element of a little-endian host, a lone sleeper finds its bit in the beacon only below id 8: the
    * element drops the bits of 8 to 15 where no lower one is set. */
  lemma LoneSleeperReadsItsBitIff(aid: nat)
    requires aid >= 1
    ensures BitAt(DecodeTim(TimIe(Raise16(0, aid), LittleEndian).body), aid) <==> aid < 8
  {
    hide DecodeTim, TimIe;
    var bitmap := Raise16(0, aid);
    LoneBit(aid);
    TimIeShape(bitmap, LittleEndian);
    TimDecodes(bitmap, LittleEndian);
    if aid < 8 {
      Raise16Sets(0, aid, aid);
    } else {
      NoBitBeyond(DecodeTim(TimIe(bitmap, LittleEndian).body), aid, 8);
    }
  }

  lemma LoneBit(aid: nat)
    requires aid >= 1
    ensures Pow2(8) == 0x100
    ensures aid < 8 ==> Raise16(0, aid) < 0x100 && Raise16(0, aid) % 2 == 0 && Raise16(0, aid) >= 2
    ensures 8 <= aid < 16 ==> Raise16(0, aid) % 0x100 == 0 && Raise16(0, aid) >= 0x100
    ensures aid >= 16 ==> Raise16(0, aid) == 0
  {
    hide Raise16;
    Pow2Of16();
    RaisedAlone(aid);
    if aid < 8 {
      Pow2Grows(1, aid);
      Pow2Grows(aid, 8);
    } else if aid < 16 {
      Pow2Beyond8(aid);
    }
  }

  lemma RaisedAlone(aid: nat)
    ensures Raise16(0, aid) as int == if aid < 16 then Pow2(aid) else 0
  {
    if aid < 16 {
      hide BitAt, Pow2, WithBitAt;
      NoBits(aid);
      WithBitAtAdds(0, aid);
      Pow2Of16();
      WithBitAtFits(0, aid, 16);
    } else {
      Raise16Sets(0, aid, aid);
    }
  }

  /** The stations whose verdict is not removal, in order. */
  ghost function Kept(stas: seq<StaInfo>, verdicts: seq<Outcome>): seq<StaInfo>
    requires |stas| == |verdicts|
  {
    if stas == [] then []
    else
      var n := |stas| - 1;
      Kept(stas[..n], verdicts[..n]) + if verdicts[n].Removed? then [] else [stas[n]]
  }

  lemma KeptNext(stas: seq<StaInfo>, verdicts: seq<Outcome>, n: nat)
    requires |stas| == |verdicts| && n < |stas|
    ensures Kept(stas[..n + 1], verdicts[..n + 1]) ==
            Kept(stas[..n], verdicts[..n]) + if verdicts[n].Removed? then [] else [stas[n]]
  {
    assert stas[..n + 1][..n] == stas[..n] && verdicts[..n + 1][..n] == verdicts[..n];
  }

  /** One of the places of s in the list has another verdict than removal. */
  ghost predicate Survives(stas: seq<StaInfo>, verdicts: seq<Outcome>, s: StaInfo)
    requires |stas| == |verdicts|
  {
    exists i :: 0 <= i < |stas| && stas[i] == s && !verdicts[i].Removed?
  }

  /** A station survives iff one of its verdicts is not removal. */
  lemma {:induction false} KeptMember(stas: seq<StaInfo>, verdicts: seq<Outcome>, s: StaInfo)
    requires |stas| == |verdicts|
    ensures s in Kept(stas, verdicts) <==> Survives(stas, verdicts, s)
    decreases |stas|
  {
    if stas != [] {
      hide Survives;
      var n := |stas| - 1;
      KeptMember(stas[..n], verdicts[..n], s);
      SurvivesOnce(stas, verdicts, s);
    } else {
      assert !Survives(stas, verdicts, s);
    }
  }

  lemma SurvivesOnce(stas: seq<StaInfo>, verdicts: seq<Outcome>, s: StaInfo)
    requires |stas| == |verdicts| && stas != []
    ensures var n := |stas| - 1;
            Survives(stas, verdicts, s) <==>
              Survives(stas[..n], verdicts[..n], s) || (stas[n] == s && !verdicts[n].Removed?)
  {
    var n := |stas| - 1;
    assert forall i :: 0 <= i < n ==> stas[..n][i] == stas[i] && verdicts[..n][i] == verdicts[i];
    if i :| 0 <= i < n && stas[..n][i] == s && !verdicts[..n][i].Removed? {
      assert stas[i] == s;
    }
  }

  lemma {:induction false} KeptDistinct(stas: seq<StaInfo>, verdicts: seq<Outcome>)
    requires |stas| == |verdicts|
    requires Distinct(stas)
    ensures Distinct(Kept(stas, verdicts))
    decreases |stas|
  {
    if stas != [] {
      var n := |stas| - 1;
      KeptDistinct(stas[..n], verdicts[..n]);
      KeptMember(stas[..n], verdicts[..n], stas[n]);
    }
  }

  // ----- lively runs -----

  /** A frame that was heard resets the countdown and the probes, and touches nothing else. */
  lemma HeardIsReset(s: Sta, period: nat, wifiSpec: bool)
    requires period >= 1
    ensures Tick(s, true, period, wifiSpec) == Stays(s.(expireTo := period, tryCnt := 0))
  {
  }

  /** A silent tick before the countdown is over takes one off it, and touches nothing else. */
  lemma SilentCounts(s: Sta, period: nat, wifiSpec: bool)
    requires s.expireTo >= 2
    ensures Tick(s, false, period, wifiSpec) == Stays(s.(expireTo := s.expireTo - 1))
  {
  }

  /** What happens before one tick: frames from the station, and somebody clearing its ADDBA candidate bit. */
  datatype Moment = Moment(heard: bool, cleared: bool)

  /** What a tick makes of a station: None once it is removed. */
  function AfterTick(s: Sta, m: Moment, period: nat, wifiSpec: bool): Option<Sta> {
    match Tick(if m.cleared then s.(candidate := false) else s, m.heard, period, wifiSpec)
    case Removed => None
    case Stays(s') => Some(s')
    case Parked(s') => Some(s')
  }

  function Life(s: Sta, period: nat, wifiSpec: bool, ms: seq<Moment>): Option<Sta>
    decreases |ms|
  {
    if ms == [] then Some(s)
    else
      var next := AfterTick(s, ms[0], period, wifiSpec);
      if next.None? then None else Life(next.value, period, wifiSpec, ms[1..])
  }

  lemma {:induction false} LifeOneMore(s: Sta, period: nat, wifiSpec: bool, ms: seq<Moment>, n: nat)
    requires n < |ms|
    ensures var r := Life(s, period, wifiSpec, ms[..n]);
            Life(s, period, wifiSpec, ms[..n + 1])
            == if r.None? then None else AfterTick(r.value, ms[n], period, wifiSpec)
    decreases n
  {
    hide AfterTick;
    if n == 0 {
      assert ms[..1][1..] == [] && ms[..1][0] == ms[0];
    } else {
      assert ms[..n + 1][1..] == ms[1..][..n] && ms[..n][1..] == ms[1..][..n - 1];
      var next := AfterTick(s, ms[0], period, wifiSpec);
      if next.Some? {
        LifeOneMore(next.value, period, wifiSpec, ms[1..], n - 1);
      }
    }
  }

  ghost predicate HeardWithin(ms: seq<Moment>, i: nat, n: nat)
    requires i + n <= |ms|
  {
    exists j :: i <= j < i + n && ms[j].heard
  }

  /** A frame in each countdown: in the first ticks, which are those left, and in every stretch of a whole period. */
  ghost predicate HeardOften(ms: seq<Moment>, left: nat, period: nat) {
    && (left <= |ms| ==> HeardWithin(ms, 0, left))
    && (forall i: nat :: i + period <= |ms| ==> HeardWithin(ms, i, period))
  }

  lemma OftenNext(ms: seq<Moment>, left: nat, period: nat)
    requires HeardOften(ms, left, period) && ms != [] && 1 <= left <= period
    ensures ms[0].heard ==> HeardOften(ms[1..], period, period)
    ensures !ms[0].heard ==> left >= 2 && HeardOften(ms[1..], left - 1, period)
  {
    var rest := ms[1..];
    forall i: nat | i + period <= |rest| ensures HeardWithin(rest, i, period) {
      assert HeardWithin(ms, i + 1, period);
      var j :| i + 1 <= j < i + 1 + period && ms[j].heard;
      assert rest[j - 1].heard;
    }
    if !ms[0].heard && left <= |ms| {
      var j :| 0 <= j < left && ms[j].heard;
      assert rest[j - 1].heard;
    }
  }

  /** A station that is heard at least once in each countdown is never removed. */
  lemma {:induction false} LivelyStays(s: Sta, period: nat, wifiSpec: bool, ms: seq<Moment>)
    requires 1 <= s.expireTo <= period && HeardOften(ms, s.expireTo, period)
    ensures Life(s, period, wifiSpec, ms).Some?
    decreases |ms|
  {
    if ms != [] {
      OftenNext(ms, s.expireTo, period);
      var s0 := if ms[0].cleared then s.(candidate := false) else s;
      if ms[0].heard {
        HeardIsReset(s0, period, wifiSpec);
      } else {
        SilentCounts(s0, period, wifiSpec);
      }
      hide Tick, HeardOften;
      LivelyStays(AfterTick(s, ms[0], period, wifiSpec).value, period, wifiSpec, ms[1..]);
    }
  }

  /** With wifi_spec no station is, heard or not. */
  lemma {:induction false} SpecKeepsAll(s: Sta, period: nat, ms: seq<Moment>)
    ensures Life(s, period, true, ms).Some?
    decreases |ms|
  {
    if ms != [] {
      SpecKeepsAll(AfterTick(s, ms[0], period, true).value, period, ms[1..]);
    }
  }

  // ----- silent runs -----

  /** A station that sends nothing, tick after tick; env[i] says that its ADDBA candidate bit was cleared by someone
    * (a timer, a DELBA) before tick i. None once it is removed. */
  function Run(s: Sta, period: nat, env: seq<bool>): Option<Sta>
    decreases |env|
  {
    if env == [] then Some(s)
    else
      var s0 := if env[0] then s.(candidate := false) else s;
      match Tick(s0, false, period, false)
      case Removed => None
      case Stays(s') => Run(s', period, env[1..])
      case Parked(s') => Run(s', period, env[1..])
  }

  /** A silent run is a life without frames. */
  function Silent(env: seq<bool>): (ms: seq<Moment>)
    ensures |ms| == |env| && forall i :: 0 <= i < |env| ==> ms[i] == Moment(false, env[i])
  {
    seq(|env|, i requires 0 <= i < |env| => Moment(false, env[i]))
  }

  lemma {:induction false} RunIsLife(s: Sta, period: nat, env: seq<bool>)
    ensures Run(s, period, env) == Life(s, period, false, Silent(env))
    decreases |env|
  {
    if env != [] {
      assert Silent(env)[1..] == Silent(env[1..]);
      var next := AfterTick(s, Moment(false, env[0]), period, false);
      if next.Some? {
        RunIsLife(next.value, period, env[1..]);
      }
    }
  }

  predicate RemovedBy(s: Sta, period: nat, env: seq<bool>) {
    Run(s, period, env).None?
  }

  /** The expiry a countdown leads to, over the ticks of the countdown. */
  function AtExpiry(s: Sta, env: seq<bool>): Sta {
    s.(expireTo := 0, candidate := s.candidate && true !in env)
  }

  /** Until its time is up a station stays; then the expiry decides. */
  lemma {:induction false} ToExpiry(s: Sta, period: nat, env: seq<bool>)
    requires s.expireTo >= 1
    ensures |env| < s.expireTo ==> !RemovedBy(s, period, env)
    ensures |env| >= s.expireTo ==>
              Run(s, period, env) ==
              match Expired(AtExpiry(s, env[..s.expireTo]), period)
              case Removed => None
              case Stays(s') => Run(s', period, env[s.expireTo..])
              case Parked(s') => Run(s', period, env[s.expireTo..])
    decreases |env|
  {
    hide Expired;
    if env != [] {
      if s.expireTo == 1 {
        assert env[..1] == [env[0]];
      } else {
        var s1 := (if env[0] then s.(candidate := false) else s).(expireTo := s.expireTo - 1);
        ToExpiry(s1, period, env[1..]);
        CountdownStep(s, s1, env);
        assert Run(s, period, env) == Run(s1, period, env[1..]);
      }
    }
  }

  /** One tick of a countdown does not change where it leads. */
  lemma CountdownStep(s: Sta, s1: Sta, env: seq<bool>)
    requires s.expireTo > 1 && env != []
    requires s1 == (if env[0] then s.(candidate := false) else s).(expireTo := s.expireTo - 1)
    ensures |env| >= s.expireTo ==>
              && AtExpiry(s, env[..s.expireTo]) == AtExpiry(s1, env[1..][..s1.expireTo])
              && env[1..][s1.expireTo..] == env[s.expireTo..]
  {
    if |env| >= s.expireTo {
      assert env[..s.expireTo] == [env[0]] + env[1..][..s.expireTo - 1];
    }
  }

  // ----- awake stations -----

  /** Probes still to be answered by clearing the bit, one per tick, when `sent` are out: at most four in all. */
  function FurtherProbes(sent: nat, env: seq<bool>): nat
    decreases |env|
  {
    if sent > KEEP_ALIVE_TRYCNT || env == [] || !env[0] then 0 else 1 + FurtherProbes(sent + 1, env[1..])
  }

  lemma {:induction false} ProbingRun(s: Sta, period: nat, env: seq<bool>)
    requires s.aggregates && !s.sleeping && s.candidate && s.aliveChk && s.expireTo == 1
             && 1 <= s.tryCnt <= KEEP_ALIVE_TRYCNT + 1
    ensures RemovedBy(s, period, env) <==> |env| > FurtherProbes(s.tryCnt, env)
    decreases |env|
  {
    if env != [] && env[0] && s.tryCnt <= KEEP_ALIVE_TRYCNT {
      ProbingRun(s.(tryCnt := s.tryCnt + 1), period, env[1..]);
    }
  }

  /** Probes an awake station provokes before it is removed. */
  function ProbesOf(s: Sta, env: seq<bool>): nat
    requires s.expireTo <= |env|
  {
    if Probes(AtExpiry(s, env[..s.expireTo])) then 1 + FurtherProbes(1, env[s.expireTo..]) else 0
  }

  lemma {:induction false} FurtherProbesBound(sent: nat, env: seq<bool>)
    ensures FurtherProbes(sent, env) <= if sent > KEEP_ALIVE_TRYCNT then 0 else KEEP_ALIVE_TRYCNT + 1 - sent
    ensures FurtherProbes(sent, env) <= |env|
    decreases |env|
  {
    if !(sent > KEEP_ALIVE_TRYCNT || env == [] || !env[0]) {
      FurtherProbesBound(sent + 1, env[1..]);
    }
  }

  /** The exact tick: an awake silent station goes at its expiry, plus one tick for every probe. Hence no earlier than
    * tick N and no later than tick N + 4, whatever happens to its candidate bit. */
  lemma AwakeRemoval(s: Sta, period: nat, env: seq<bool>)
    requires s.expireTo >= 1 && s.tryCnt == 0 && !s.sleeping
    ensures RemovedBy(s, period, env) <==> |env| >= s.expireTo && |env| >= s.expireTo + ProbesOf(s, env)
    ensures |env| < s.expireTo ==> !RemovedBy(s, period, env)
    ensures |env| >= s.expireTo + 4 ==> RemovedBy(s, period, env)
  {
    ToExpiry(s, period, env);
    if |env| >= s.expireTo {
      var e := AtExpiry(s, env[..s.expireTo]);
      if Probes(e) {
        ProbingRun(Expired(e, period).sta, period, env[s.expireTo..]);
        FurtherProbesBound(1, env[s.expireTo..]);
      }
    }
  }

  /** Both bounds are attained: by a station that does not aggregate, and by one whose bit is cleared every time. */
  lemma AwakeBoundsAreTight(n: nat, period: nat)
    requires n >= 1
    ensures RemovedBy(Sta(n, 0, false, false, false, false), period, seq(n, _ => true))
    ensures !RemovedBy(Sta(n, 0, false, false, false, true), period, seq(n + 3, _ => true))
  {
    AwakeRemoval(Sta(n, 0, false, false, false, false), period, seq(n, _ => true));
    var env := seq(n + 3, _ => true);
    AwakeRemoval(Sta(n, 0, false, false, false, true), period, env);
    assert env[n..] == [true, true, true];
    assert env[n..][1..] == [true, true] && [true, true][1..] == [true];
    assert FurtherProbes(1, [true, true, true]) == 3;
  }

  // ----- sleeping stations -----

  /** What the expiries of a run find: true where the candidate bit is clear. */
  function Findings(s: Sta, period: nat, env: seq<bool>): seq<bool>
    decreases |env|
  {
    if env == [] then []
    else
      var s0 := if env[0] then s.(candidate := false) else s;
      var found := if s0.expireTo == 1 then [!s0.candidate] else [];
      match Tick(s0, false, period, false)
      case Removed => found
      case Stays(s') => found + Findings(s', period, env[1..])
      case Parked(s') => found + Findings(s', period, env[1..])
  }

  function Count(fs: seq<bool>): nat {
    if fs == [] then 0 else (if fs[0] then 1 else 0) + Count(fs[1..])
  }

  /** When a list of findings ends in removal, for a sleeping station with t probes out. */
  predicate Enough(aggregates: bool, t: nat, aliveChk: bool, fs: seq<bool>) {
    if t == 0 && aliveChk then |fs| >= 1
    else |fs| >= 2 && (!aggregates || (t == 0 && !fs[0]) || Count(fs[..|fs| - 2]) + t >= 4)
  }

  lemma EnoughNext(aggregates: bool, t: nat, aliveChk: bool, fs: seq<bool>)
    requires fs != [] && t <= 4 && !(t == 0 && aliveChk) && (t > 0 ==> aliveChk && aggregates)
    ensures var t' := if t == 4 || !aggregates then 0 else if fs[0] then t + 1 else t;
            Enough(aggregates, t, aliveChk, fs) == Enough(aggregates, t', true, fs[1..])
  {
    if |fs| >= 3 {
      assert fs[..|fs| - 2][1..] == fs[1..][..|fs[1..]| - 2];
    } else if |fs| == 2 {
      assert fs[..0] == [];
    }
  }

  /** What the tick itself makes of keep_alive_trycnt for a sleeping station. */
  predicate Counting(s: Sta) {
    s.tryCnt <= 4 && (s.tryCnt > 0 ==> s.aliveChk && s.aggregates)
  }

  lemma {:induction false} SleepingRun(s: Sta, period: nat, env: seq<bool>)
    requires period >= 1 && s.expireTo >= 1 && s.sleeping && Counting(s)
    ensures RemovedBy(s, period, env) <==> Enough(s.aggregates, s.tryCnt, s.aliveChk, Findings(s, period, env))
    decreases |env|
  {
    if env != [] {
      var s0 := if env[0] then s.(candidate := false) else s;
      var out := Tick(s0, false, period, false);
      if s.expireTo > 1 {
        SleepingRun(out.sta, period, env[1..]);
        assert Findings(s, period, env) == Findings(out.sta, period, env[1..]);
      } else if !out.Removed? {
        SleepingRun(out.sta, period, env[1..]);
        var fs := Findings(s, period, env);
        assert fs == [!s0.candidate] + Findings(out.sta, period, env[1..]);
        assert fs[1..] == Findings(out.sta, period, env[1..]);
        EnoughNext(s.aggregates, s.tryCnt, s.aliveChk, fs);
      }
    }
  }

  /** Exactly when a sleeping silent station is removed: with a check already pending, at its first expiry. Otherwise at
    * the second expiry, if it does not aggregate or the first finds the candidate bit still set; and if the first finds
    * the bit clear, at the second expiry after the one that finds it clear for the fourth time. */
  lemma SleepingRemoval(s: Sta, period: nat, env: seq<bool>)
    requires period >= 1 && s.expireTo >= 1 && s.tryCnt == 0 && s.sleeping
    ensures var fs := Findings(s, period, env);
            RemovedBy(s, period, env) <==>
              if s.aliveChk then |fs| >= 1
              else |fs| >= 2 && (!s.aggregates || !fs[0] || Count(fs[..|fs| - 2]) >= 4)
  {
    SleepingRun(s, period, env);
  }

  /** The station is probed at its first expiry if nobody clears its bit. */
  predicate ProbedUncleared(s: Sta) {
    s.aggregates && !s.candidate && !s.aliveChk
  }

  lemma {:induction false} NeverRemovedOnceProbed(s: Sta, period: nat, env: seq<bool>)
    requires period >= 1 && s.expireTo >= 1 && s.sleeping && s.aggregates
    requires (s.tryCnt == 0 && ProbedUncleared(s)) || (s.tryCnt == 1 && s.aliveChk && s.candidate)
    requires true !in env
    ensures !RemovedBy(s, period, env)
    decreases |env|
  {
    if env != [] {
      assert !env[0] && true !in env[1..];
      NeverRemovedOnceProbed(Tick(s, false, period, false).sta, period, env[1..]);
    }
  }

  /** When nobody clears the candidate bit: a sleeping station that is probed is never removed, since the bit its first
    * probe sets keeps every later expiry from counting; any other goes at its second expiry, or at its first with a
    * check already pending. */
  lemma UnclearedSleeper(s: Sta, period: nat, env: seq<bool>)
    requires period >= 1 && s.expireTo >= 1 && s.tryCnt == 0 && s.sleeping && true !in env
    ensures RemovedBy(s, period, env) <==>
              !ProbedUncleared(s) && |env| >= if s.aliveChk then s.expireTo else s.expireTo + period
  {
    if ProbedUncleared(s) {
      NeverRemovedOnceProbed(s, period, env);
    } else {
      ToExpiry(s, period, env);
      if |env| >= s.expireTo && !s.aliveChk {
        var parked := Expired(AtExpiry(s, env[..s.expireTo]), period).sta;
        ToExpiry(parked, period, env[s.expireTo..]);
      }
    }
  }

  /** What an expiry can do: probe, which is when it sets the candidate bit; park, which raises the TIM bit, restarts
    * the countdown and is for sleeping stations; or remove. */
  lemma ExpiryKinds(s: Sta, period: nat)
    requires s.expireTo == 1
    ensures match Tick(s, false, period, false)
            case Stays(s') => !s.candidate && s'.candidate && s.aggregates && 1 <= s'.expireTo <= 2
            case Parked(s') => s.sleeping && s'.candidate == s.candidate && s'.expireTo == period && s'.aliveChk
            case Removed => true
  {
  }

  function Parkings(s: Sta, period: nat, env: seq<bool>): nat
    decreases |env|
  {
    if env == [] then 0
    else
      match Tick(if env[0] then s.(candidate := false) else s, false, period, false)
      case Removed => 0
      case Stays(s') => Parkings(s', period, env[1..])
      case Parked(s') => 1 + Parkings(s', period, env[1..])
  }

  /** No sleeping station is removed without having been parked, and so told by its TIM bit, unless a check was already
    * pending; and no awake one is parked. */
  lemma {:induction false} ParkedBeforeRemoval(s: Sta, period: nat, env: seq<bool>)
    requires period >= 1 && s.expireTo >= 1
    ensures s.sleeping && Counting(s) && !(s.aliveChk && s.tryCnt == 0) && RemovedBy(s, period, env) ==>
              Parkings(s, period, env) >= 1
    ensures !s.sleeping ==> Parkings(s, period, env) == 0
    decreases |env|
  {
    if env != [] {
      match Tick(if env[0] then s.(candidate := false) else s, false, period, false)
      case Removed =>
      case Stays(s') => ParkedBeforeRemoval(s', period, env[1..]);
      case Parked(s') =>
    }
  }

  lemma {:induction false} FindingsToExpiry(s: Sta, period: nat, env: seq<bool>)
    requires s.expireTo >= 1 && |env| >= s.expireTo
    ensures var e := AtExpiry(s, env[..s.expireTo]);
            Findings(s, period, env) == [!e.candidate] +
            match Expired(e, period)
            case Removed => []
            case Stays(s') => Findings(s', period, env[s.expireTo..])
            case Parked(s') => Findings(s', period, env[s.expireTo..])
    decreases |env|
  {
    if s.expireTo == 1 {
      assert env[..1] == [env[0]];
    } else {
      hide Expired, AtExpiry;
      var s1 := (if env[0] then s.(candidate := false) else s).(expireTo := s.expireTo - 1);
      FindingsToExpiry(s1, period, env[1..]);
      CountdownStep(s, s1, env);
      FindingsCountdown(s, s1, period, env);
    }
  }

  /** A tick that only counts down finds nothing. */
  lemma FindingsCountdown(s: Sta, s1: Sta, period: nat, env: seq<bool>)
    requires s.expireTo > 1 && env != []
    requires s1 == (if env[0] then s.(candidate := false) else s).(expireTo := s.expireTo - 1)
    ensures Findings(s, period, env) == Findings(s1, period, env[1..])
  {
  }

  /** Ticks a sleeping station has left when the bit is always found clear, or never looked at. */
  function TicksLeft(s: Sta, period: nat): nat {
    if s.aliveChk && s.tryCnt == 0 then s.expireTo
    else if s.tryCnt >= 4 || !s.aggregates then s.expireTo + period
    else s.expireTo + 2 * (4 - s.tryCnt) + period
  }

  lemma {:induction false} ClearedInTime(s: Sta, period: nat, env: seq<bool>)
    requires period >= 1 && s.expireTo >= 1 && s.sleeping && Counting(s)
    requires s.aggregates ==> false !in Findings(s, period, env)
    ensures RemovedBy(s, period, env) <==> |env| >= TicksLeft(s, period)
    decreases |env|
  {
    ToExpiry(s, period, env);
    if |env| >= s.expireTo {
      FindingsToExpiry(s, period, env);
      var e := AtExpiry(s, env[..s.expireTo]);
      var fs, out := Findings(s, period, env), Expired(e, period);
      assert fs[0] == !e.candidate;
      if !out.Removed? {
        assert fs[1..] == Findings(out.sta, period, env[s.expireTo..]);
        ClearedInTime(out.sta, period, env[s.expireTo..]);
      }
    }
  }

  /** The exact tick of a sleeping silent station whose bit is clear at every expiry, or that does not aggregate: N with
    * a check already pending, otherwise 2N without aggregation and 2N + 8 with it. So none outlasts 2N + 8. */
  lemma SleepingBound(s: Sta, period: nat, env: seq<bool>)
    requires period >= 1 && s.expireTo == period && s.tryCnt == 0 && s.sleeping
    requires s.aggregates ==> false !in Findings(s, period, env)
    ensures RemovedBy(s, period, env) <==>
              |env| >= if s.aliveChk then period else if s.aggregates then 2 * period + 8 else 2 * period
    ensures |env| >= 2 * period + 8 ==> RemovedBy(s, period, env)
  {
    ClearedInTime(s, period, env);
  }
}
