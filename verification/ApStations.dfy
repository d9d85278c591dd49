/** The join and leave updates of core/rtw_ap.c as they run: station records and counters assigned field by field, and
  * the beacon rewritten in place. The methods are proved against the steps of ApAggregates. */
module ApStations {
  import opened Bytes
  import opened Seqs
  import opened Elements
  import opened IeBuffer
  import opened Bss
  import opened BeaconIes
  import opened ApAggregates

  class StaInfo {
    var no_short_preamble_set: bool
    var nonerp_set: bool
    var no_short_slot_time_set: bool
    var no_ht_gf_set: bool
    var no_ht_set: bool
    var ht_20mhz_set: bool
    var ht_40mhz_intolerant: bool

    function Value(): Sta
      reads this
    {
      Sta(no_short_preamble_set, nonerp_set, no_short_slot_time_set, no_ht_gf_set, no_ht_set, ht_20mhz_set,
          ht_40mhz_intolerant)
    }

    constructor ()
      ensures Value() == UNFLAGGED
    {
      no_short_preamble_set, nonerp_set, no_short_slot_time_set := false, false, false;
      no_ht_gf_set, no_ht_set, ht_20mhz_set, ht_40mhz_intolerant := false, false, false, false;
    }
  }

  class MlmePriv {
    const cfg: Config
    const bss: BssidEx
    /** The elements bss holds. */
    ghost var es: seq<Ie>

    var num_sta_no_short_preamble: int
    var num_sta_non_erp: int
    var num_sta_no_short_slot_time: int
    var num_sta_ht_no_gf: int
    var num_sta_no_ht: int
    var num_sta_ht_20mhz: int
    var num_sta_40mhz_intolerant: int
    var ht_op_mode: u16
    var sw_to_20mhz: bool
    var ext_capab_ie_data: ExtData
    var ext_capab_ie_len: nat

    function Counted(): Nums
      reads this
    {
      Nums(num_sta_no_short_preamble, num_sta_non_erp, num_sta_no_short_slot_time, num_sta_ht_no_gf, num_sta_no_ht,
           num_sta_ht_20mhz, num_sta_40mhz_intolerant)
    }

    ghost function State(): Core
      reads this
    {
      Core(Counted(), ht_op_mode, sw_to_20mhz, ext_capab_ie_data, ext_capab_ie_len, es)
    }

    ghost predicate Held()
      reads this`es, bss, bss.IEs
      ensures Held() ==> bss.IEs.Length == MAX_IE_SZ
    {
      bss.Holds(es)
    }

    /** start_ap_mode, for a beacon that holds es. */
    constructor (cfg: Config, bss: BssidEx, ghost es: seq<Ie>)
      requires bss.Holds(es)
      ensures this.cfg == cfg && this.bss == bss && State() == Core(NONE_COUNTED, 0, false, NULL_EXT_CAP, 0, es)
    {
      this.cfg, this.bss, this.es := cfg, bss, es;
      num_sta_no_short_preamble, num_sta_non_erp, num_sta_no_short_slot_time := 0, 0, 0;
      num_sta_ht_no_gf, num_sta_no_ht, num_sta_ht_20mhz, num_sta_40mhz_intolerant := 0, 0, 0, 0;
      ht_op_mode, sw_to_20mhz, ext_capab_ie_data, ext_capab_ie_len := 0, false, NULL_EXT_CAP, 0;
    }

    /** The octets themselves, where the beacon is held and in step: the protection bits of the ERP element, and the
      * mode word of the HT Operation element. */
    lemma OctetsInStep(stas: seq<Sta>)
      requires Held() && InStep(cfg, stas, State()) && cfg.bstart_bss
      ensures var k := IndexOf(es, ERPINFO_IE);
              cfg.ERP_enable && k < |es| && es[k].body != [] ==>
                var p := FIXED_IE_LENGTH + Offset(es, k) + 2;
                p < bss.IELength && (bss.IEs[p] % 4 == if Count(stas, NonErp) > 0 then 3 else 0)
      ensures var k := IndexOf(es, HT_ADD_INFO_IE);
              cfg.ht_option && cfg.HT_info_enable && HasHtInfo(es) ==>
                var p := FIXED_IE_LENGTH + Offset(es, k) + 4;
                p + 2 <= bss.IELength && Le16(bss.IEs[p], bss.IEs[p + 1]) == ht_op_mode
    {
      hide EncodeAll, IndexOf;
      var k, m := IndexOf(es, ERPINFO_IE), IndexOf(es, HT_ADD_INFO_IE);
      assert Num(Counted(), NonErp) == Count(stas, NonErp);
      if k < |es| && es[k].body != [] {
        BodyOctet(bss.IEs[..], bss.IELength, es, k, 0);
      }
      if HasHtInfo(es) {
        BodyOctet(bss.IEs[..], bss.IELength, es, m, 2);
        BodyOctet(bss.IEs[..], bss.IELength, es, m, 3);
      }
    }

    // ----- one counted flag each -----

    method SetNoShortPreamble(psta: StaInfo, on: bool) returns (edge: bool)
      modifies psta`no_short_preamble_set, this`num_sta_no_short_preamble
      ensures psta.Value() == old(psta.Value()).(no_short_preamble_set := on)
      ensures Counted() == Moved(old(Counted()), old(psta.Value()), psta.Value())
      ensures edge <==> Edge(old(psta.no_short_preamble_set), on, num_sta_no_short_preamble)
    {
      edge := false;
      if psta.no_short_preamble_set != on {
        psta.no_short_preamble_set := on;
        num_sta_no_short_preamble := num_sta_no_short_preamble + if on then 1 else -1;
        edge := num_sta_no_short_preamble == if on then 1 else 0;
      }
    }

    method SetNoShortSlot(psta: StaInfo, on: bool) returns (edge: bool)
      modifies psta`no_short_slot_time_set, this`num_sta_no_short_slot_time
      ensures psta.Value() == old(psta.Value()).(no_short_slot_time_set := on)
      ensures Counted() == Moved(old(Counted()), old(psta.Value()), psta.Value())
      ensures edge <==> Edge(old(psta.no_short_slot_time_set), on, num_sta_no_short_slot_time)
    {
      edge := false;
      if psta.no_short_slot_time_set != on {
        psta.no_short_slot_time_set := on;
        num_sta_no_short_slot_time := num_sta_no_short_slot_time + if on then 1 else -1;
        edge := num_sta_no_short_slot_time == if on then 1 else 0;
      }
    }

    /** The flag, its counter, and the ERP element when the first such station comes or the last one goes. */
    method SetNonErp(psta: StaInfo, on: bool) returns (edge: bool)
      requires Held()
      modifies psta`nonerp_set, this`num_sta_non_erp, this`es, bss.IEs
      ensures Held()
      ensures var a, s, s' := old(State()), old(psta.Value()), psta.Value();
              && s' == s.(nonerp_set := on) && State() == ErpStep(cfg, a.(nums := Moved(a.nums, s, s')), s, s')
      ensures edge <==> Edge(old(psta.nonerp_set), on, num_sta_non_erp)
      ensures bss.IEs[..FIXED_IE_LENGTH] == old(bss.IEs[..FIXED_IE_LENGTH])
    {
      hide Moved, ErpUpdated, ErpStep, Held, Edge;
      ghost var a, s := State(), psta.Value();
      edge := CountNonErp(psta, on);
      ghost var a1 := State();
      assert a1 == a.(nums := Moved(a.nums, s, psta.Value()));
      ErpStepIs(cfg, a1, s, psta.Value(), edge);
      if edge {
        UpdateBcnErpInfo();
        assert State() == a1.(es := es);
      }
    }

    /** Whether the first such station has come, or the last one gone. */
    method CountNonErp(psta: StaInfo, on: bool) returns (edge: bool)
      modifies psta`nonerp_set, this`num_sta_non_erp
      ensures psta.Value() == old(psta.Value()).(nonerp_set := on)
      ensures Counted() == Moved(old(Counted()), old(psta.Value()), psta.Value())
      ensures edge <==> Edge(old(psta.nonerp_set), on, num_sta_non_erp)
    {
      edge := false;
      if psta.nonerp_set != on {
        psta.nonerp_set := on;
        num_sta_non_erp := num_sta_non_erp + if on then 1 else -1;
        edge := num_sta_non_erp == if on then 1 else 0;
      }
    }

    method SetNoHt(psta: StaInfo, on: bool)
      modifies psta`no_ht_set, this`num_sta_no_ht
      ensures psta.Value() == old(psta.Value()).(no_ht_set := on)
      ensures Counted() == Moved(old(Counted()), old(psta.Value()), psta.Value())
    {
      if psta.no_ht_set != on {
        psta.no_ht_set := on;
        num_sta_no_ht := num_sta_no_ht + if on then 1 else -1;
      }
    }

    method SetNoGreenfield(psta: StaInfo, on: bool)
      modifies psta`no_ht_gf_set, this`num_sta_ht_no_gf
      ensures psta.Value() == old(psta.Value()).(no_ht_gf_set := on)
      ensures Counted() == Moved(old(Counted()), old(psta.Value()), psta.Value())
    {
      if psta.no_ht_gf_set != on {
        psta.no_ht_gf_set := on;
        num_sta_ht_no_gf := num_sta_ht_no_gf + if on then 1 else -1;
      }
    }

    method SetHt20(psta: StaInfo, on: bool)
      modifies psta`ht_20mhz_set, this`num_sta_ht_20mhz
      ensures psta.Value() == old(psta.Value()).(ht_20mhz_set := on)
      ensures Counted() == Moved(old(Counted()), old(psta.Value()), psta.Value())
    {
      if psta.ht_20mhz_set != on {
        psta.ht_20mhz_set := on;
        num_sta_ht_20mhz := num_sta_ht_20mhz + if on then 1 else -1;
      }
    }

    method SetIntolerant(psta: StaInfo, on: bool) returns (changed: bool)
      modifies psta`ht_40mhz_intolerant, this`num_sta_40mhz_intolerant
      ensures psta.Value() == old(psta.Value()).(ht_40mhz_intolerant := on)
      ensures Counted() == Moved(old(Counted()), old(psta.Value()), psta.Value())
      ensures changed <==> on != old(psta.ht_40mhz_intolerant)
    {
      changed := psta.ht_40mhz_intolerant != on;
      if changed {
        psta.ht_40mhz_intolerant := on;
        num_sta_40mhz_intolerant := num_sta_40mhz_intolerant + if on then 1 else -1;
      }
    }

    // ----- the beacon -----

    /** One body octet of element k, written where it stands. */
    method PutOctet(p: nat, i: nat, x: byte, ghost k: nat)
      requires Held() && k < |es| && i < |es[k].body| && p == FIXED_IE_LENGTH + Offset(es, k)
      requires k == IndexOf(es, es[k].id)
      modifies this`es, bss.IEs
      ensures Held() && es == old(es)[k := PutIn(old(es)[k], i, x)]
      ensures p == FIXED_IE_LENGTH + Offset(es, k) && k == IndexOf(es, es[k].id)
      ensures bss.IEs[..FIXED_IE_LENGTH] == old(bss.IEs[..FIXED_IE_LENGTH])
    {
      hide EncodeAll, IndexOf, Others;
      ghost var s0: seq<byte>, e := bss.IEs[..], PutIn(es[k], i, x);
      Rewriting(es, es[k].id, e);
      ReadAt(s0, FIXED_IE_LENGTH, bss.IELength, es, k);
      bss.IEs[p + 2 + i] := x;
      OctetPut(s0, bss.IEs[..], bss.IELength, es, k, i, x);
      es := es[k := e];
    }

    /** update_beacon for the ERP element. */
    method UpdateBcnErpInfo()
      requires Held()
      modifies this`es, bss.IEs
      ensures Held() && es == if cfg.bstart_bss && cfg.ERP_enable then ErpUpdated(old(es), Counted()) else old(es)
      ensures bss.IEs[..FIXED_IE_LENGTH] == old(bss.IEs[..FIXED_IE_LENGTH])
    {
      hide EncodeAll, IndexOf;
      if !cfg.bstart_bss || !cfg.ERP_enable {
        return;
      }
      ghost var k := IndexOf(es, ERPINFO_IE);
      NothingHeld(es);
      var p, len := GetIe(bss.IEs, FIXED_IE_LENGTH, ERPINFO_IE, bss.IELength - FIXED_IE_LENGTH, es);
      if p.Some? && len > 0 {
        IndexOfIsFirst(es, ERPINFO_IE);
        ReadAt(bss.IEs[..], FIXED_IE_LENGTH, bss.IELength, es, k);
        BodyOctet(bss.IEs[..], bss.IELength, es, k, 0);
        var octet := ErpBitsOver(bss.IEs[p.value + 2]);
        PutOctet(p.value, 0, octet, k);
      }
    }

    /** The three bits of the ERP octet, one after the other over the old ones. */
    method ErpBitsOver(octet: byte) returns (r: byte)
      ensures r == ErpOctet(octet, Counted())
    {
      if num_sta_non_erp == 1 {
        r := octet / 4 * 4 + 3;
      } else {
        r := octet / 4 * 4;
      }
      OctetParts(octet, if num_sta_non_erp == 1 then 3 else 0);
      if num_sta_no_short_preamble > 0 {
        r := r / 8 * 8 + 4 + r % 4;
      } else {
        r := r / 8 * 8 + r % 4;
      }
    }

    /** update_beacon for the HT Operation element. */
    method UpdateBcnHtInfo()
      requires Held() && HtInfoReadable(es)
      modifies this`es, this`sw_to_20mhz, bss.IEs
      ensures Held() && State() == HtInfoStep(cfg, old(State()))
      ensures bss.IEs[..FIXED_IE_LENGTH] == old(bss.IEs[..FIXED_IE_LENGTH])
    {
      hide EncodeAll, IndexOf, WidthOctet, WidthStep;
      if !cfg.bstart_bss || !cfg.ht_option || !cfg.HT_info_enable {
        return;
      }
      ghost var k := IndexOf(es, HT_ADD_INFO_IE);
      NothingHeld(es);
      var p, len := GetIe(bss.IEs, FIXED_IE_LENGTH, HT_ADD_INFO_IE, bss.IELength - FIXED_IE_LENGTH, es);
      if p.Some? && len > 0 {
        IndexOfIsFirst(es, HT_ADD_INFO_IE);
        ReadAt(bss.IEs[..], FIXED_IE_LENGTH, bss.IELength, es, k);
        BodyOctet(bss.IEs[..], bss.IELength, es, k, 1);
        var octet := SwitchWidth(bss.IEs[p.value + 2 + 1]);
        PutOctet(p.value, 1, octet, k);
        PutOctet(p.value, 2, ht_op_mode % 0x100, k);
        PutOctet(p.value, 3, ht_op_mode / 0x100, k);
      }
    }

    /** The switch between 20 and 40 MHz: the octet of the HT Operation element that shows it. */
    method SwitchWidth(octet: byte) returns (r: byte)
      modifies this`sw_to_20mhz
      ensures var w := WidthStep(Counted(), old(sw_to_20mhz), cfg);
              r == WidthOctet(octet, w, cfg) && sw_to_20mhz == SwitchedTo20(w, old(sw_to_20mhz))
    {
      r := octet;
      if !sw_to_20mhz && cfg.cur_channel <= 14 {
        if num_sta_40mhz_intolerant > 0 || cfg.ht_20mhz_width_req || cfg.ht_intolerant_ch_reported || cfg.olbc {
          r := r / 8 * 8;
          sw_to_20mhz := true;
        }
      } else {
        if num_sta_40mhz_intolerant == 0 && !cfg.ht_20mhz_width_req && !cfg.ht_intolerant_ch_reported && !cfg.olbc {
          if cfg.cur_bwmode >= CHANNEL_WIDTH_40 {
            r := r / 8 * 8 + 4 + if cfg.cur_ch_offset == HAL_PRIME_CHNL_OFFSET_LOWER then 1 else 3;
            sw_to_20mhz := false;
          }
        }
      }
    }

    /** update_beacon for the extended capabilities. */
    method UpdateBcnExtCap()
      requires Held() && Room(es) && ext_capab_ie_len <= EXT_LEN
      modifies this`es, bss, bss.IEs
      ensures Held()
      ensures es == if cfg.bstart_bss then ExtCapUpdated(old(es), ext_capab_ie_data, ext_capab_ie_len) else old(es)
      ensures bss.IEs[..FIXED_IE_LENGTH] == old(bss.IEs[..FIXED_IE_LENGTH])
    {
      hide EncodeAll, IndexOf, RemoveBcn, AddBcn, Others, First;
      if !cfg.bstart_bss {
        return;
      }
      ExtCapKeeps(es, ext_capab_ie_data, ext_capab_ie_len);
      RemoveBcnIe(bss, EXT_CAP_IE, es);
      es := RemoveBcn(es, EXT_CAP_IE);
      bss.HoldsLength(es);
      if ext_capab_ie_len > 0 && ext_capab_ie_data != NULL_EXT_CAP {
        AddBcnIe(bss, EXT_CAP_IE, ext_capab_ie_data[..ext_capab_ie_len], es);
        es := AddBcn(es, EXT_CAP_IE, ext_capab_ie_data[..ext_capab_ie_len]);
      }
    }

    // ----- rtw_ht_operation_update -----

    /** The number of changes, which is zero exactly when the mode word stays as it was. */
    method HtOperationUpdate() returns (op_mode_changes: nat)
      modifies this`ht_op_mode
      ensures ht_op_mode == if cfg.ht_option then NewOpMode(old(ht_op_mode), Counted(), cfg) else old(ht_op_mode)
      ensures op_mode_changes == if cfg.ht_option then OpModeChanges(old(ht_op_mode), Counted(), cfg) else 0
      ensures op_mode_changes == 0 <==> ht_op_mode == old(ht_op_mode)
    {
      op_mode_changes := 0;
      if !cfg.ht_option {
        return;
      }
      ghost var m: u16 := ht_op_mode;
      NoChangesIffSame(m, Counted(), cfg);
      var gf := SetModeBit(4, num_sta_ht_no_gf != 0);
      ghost var m1: u16 := ht_op_mode;
      var legacy := SetModeBit(0x10, num_sta_no_ht != 0 || cfg.olbc_ht);
      ghost var m2: u16 := ht_op_mode;
      var new_op_mode := OperationMode();
      op_mode_changes := gf + legacy;
      TwoBitsThenMode(m, m1, m2, Counted(), cfg);
      var cur_op_mode: u16 := ht_op_mode % 4;
      if cur_op_mode != new_op_mode {
        ht_op_mode := ht_op_mode / 4 * 4 + new_op_mode;
        op_mode_changes := op_mode_changes + 1;
      }
    }

    /** One bit of the mode word, changed if it is not as wanted, and the number of changes. */
    method SetModeBit(weight: nat, on: bool) returns (changes: nat)
      requires weight in {4, 0x10}
      modifies this`ht_op_mode
      ensures ht_op_mode == old(ht_op_mode) - old(ht_op_mode) / weight % 2 * weight + B(on) * weight
      ensures changes == B(Bit(old(ht_op_mode), weight) != on)
    {
      changes := 0;
      if !Bit(ht_op_mode, weight) && on {
        ht_op_mode := WithBit(ht_op_mode, weight);
        changes := 1;
      } else if Bit(ht_op_mode, weight) && !on {
        ht_op_mode := ht_op_mode - weight;
        changes := 1;
      }
    }

    method OperationMode() returns (new_op_mode: u16)
      ensures new_op_mode == Protection(Counted(), cfg)
    {
      if num_sta_no_ht != 0 {
        new_op_mode := 3;
      } else if Bit(cfg.ht_cap_info, 0x0002) && num_sta_ht_20mhz != 0 {
        new_op_mode := 2;
      } else if cfg.olbc_ht {
        new_op_mode := 1;
      } else {
        new_op_mode := 0;
      }
    }

    method UpdateOpMode()
      requires Held() && HtInfoReadable(es)
      modifies this`es, this`sw_to_20mhz, this`ht_op_mode, bss.IEs
      ensures Held() && State() == OpModeStep(cfg, old(State()))
      ensures bss.IEs[..FIXED_IE_LENGTH] == old(bss.IEs[..FIXED_IE_LENGTH])
    {
      hide HtInfoStep, NewOpMode, OpModeChanges;
      var changes := HtOperationUpdate();
      if changes > 0 {
        UpdateBcnHtInfo();
      }
    }

    // ----- join and leave -----

    /** The coexistence bit set or cleared, and advertised. */
    method SetCoexist(on: bool)
      requires Held() && Room(es) && ext_capab_ie_len <= EXT_LEN
      modifies this`es, this`ext_capab_ie_data, this`ext_capab_ie_len, bss, bss.IEs
      ensures Held() && State() == CoexistStep(cfg, old(State()), on)
      ensures bss.IEs[..FIXED_IE_LENGTH] == old(bss.IEs[..FIXED_IE_LENGTH])
    {
      hide ExtCapUpdated;
      if ext_capab_ie_len == 0 {
        ext_capab_ie_len := 1;
      }
      ext_capab_ie_data := WithCoexist(ext_capab_ie_data, on);
      UpdateBcnExtCap();
    }

    /** The first two flags of both functions. */
    method SetPreambleAndErp(psta: StaInfo, noShortPreamble: bool, nonErp: bool) returns (beacon_updated: bool)
      requires Held()
      modifies psta`no_short_preamble_set, psta`nonerp_set
      modifies this`num_sta_no_short_preamble, this`num_sta_non_erp, this`es, bss.IEs
      ensures Held()
      ensures var a, s := old(State()), old(psta.Value());
              var s' := s.(no_short_preamble_set := noShortPreamble, nonerp_set := nonErp);
              psta.Value() == s' && State() == ErpStep(cfg, a.(nums := Moved(a.nums, s, s')), s, s')
      ensures beacon_updated <==> FirstEdges(cfg, Counted(), old(psta.Value()), psta.Value())
      ensures bss.IEs[..FIXED_IE_LENGTH] == old(bss.IEs[..FIXED_IE_LENGTH])
    {
      hide ErpStep, Moved, Held, EncodeAll, Edge, FirstEdges;
      ghost var a, s := State(), psta.Value();
      var preamble := SetNoShortPreamble(psta, noShortPreamble);
      ghost var s1 := psta.Value();
      assert State() == a.(nums := Moved(a.nums, s, s1));
      var erp := SetNonErp(psta, nonErp);
      ghost var s2 := psta.Value();
      MovedTwice(a.nums, s, s1, s2);
      ErpStepSees(cfg, a, Moved(a.nums, s, s2), s1, s2, s, s2);
      FirstEdgesAre(cfg, Counted(), s, s2, preamble, erp);
      beacon_updated := (cfg.cur_wireless_mode > WIRELESS_11B && preamble) || erp;
    }

    /** The three flags both functions start with. */
    method SetErpFlags(psta: StaInfo, noShortPreamble: bool, nonErp: bool, noShortSlot: bool)
      returns (beacon_updated: bool)
      requires Held()
      modifies this, psta, bss.IEs
      ensures Held()
      ensures var a, s := old(State()), old(psta.Value());
              var s' := s.(no_short_preamble_set := noShortPreamble, nonerp_set := nonErp,
                          no_short_slot_time_set := noShortSlot);
              psta.Value() == s' && State() == ErpStep(cfg, a.(nums := Moved(a.nums, s, s')), s, s')
      ensures beacon_updated <==> ErpEdges(cfg, Counted(), old(psta.Value()), psta.Value())
      ensures bss.IEs[..FIXED_IE_LENGTH] == old(bss.IEs[..FIXED_IE_LENGTH])
    {
      hide ErpStep, Moved, Held, EncodeAll, Edge, ErpEdges, FirstEdges;
      ghost var a, s := State(), psta.Value();
      beacon_updated := SetPreambleAndErp(psta, noShortPreamble, nonErp);
      ghost var s2, a2 := psta.Value(), State();
      var slot := SetNoShortSlot(psta, noShortSlot);
      ghost var s3 := psta.Value();
      assert State() == a2.(nums := Moved(a2.nums, s2, s3));
      ErpStepMoves(cfg, a, s, s2, s3);
      ErpEdgesAre(cfg, a2.nums, Counted(), s, s2, s3, slot);
      beacon_updated := beacon_updated || (cfg.cur_wireless_mode > WIRELESS_11B && slot);
    }

    /** The three HT flags that do not touch the beacon by themselves. */
    method SetHtFlags(psta: StaInfo, noHt: bool, noGreenfield: bool, ht20: bool)
      modifies psta`no_ht_set, psta`no_ht_gf_set, psta`ht_20mhz_set, this`num_sta_no_ht, this`num_sta_ht_no_gf,
               this`num_sta_ht_20mhz
      ensures psta.Value() == old(psta.Value()).(no_ht_set := noHt, no_ht_gf_set := noGreenfield, ht_20mhz_set := ht20)
      ensures Counted() == Moved(old(Counted()), old(psta.Value()), psta.Value())
    {
      hide Moved;
      ghost var n, s := Counted(), psta.Value();
      SetNoHt(psta, noHt);
      ghost var s1 := psta.Value();
      SetNoGreenfield(psta, noGreenfield);
      ghost var s2 := psta.Value();
      SetHt20(psta, ht20);
      MovedTwice(n, s, s1, s2);
      MovedTwice(n, s, s2, psta.Value());
    }

    /** The flags and counters of a join, up to the one place where they show in the beacon by themselves. */
    method JoinFlags(psta: StaInfo, c: Caps) returns (beacon_updated: bool)
      requires Held()
      modifies this, psta, bss.IEs
      ensures Held()
      ensures var a, s := old(State()), old(psta.Value());
              var s' := JoinedSta(s, c);
              && psta.Value() == s' && State() == ErpStep(cfg, a.(nums := Moved(a.nums, s, s')), s, s')
      ensures beacon_updated <==> BeaconUpdated(cfg, Counted(), old(psta.Value()), psta.Value())
      ensures bss.IEs[..FIXED_IE_LENGTH] == old(bss.IEs[..FIXED_IE_LENGTH])
    {
      hide ErpStep, Moved, Held, EncodeAll, JoinedSta, ErpEdges, BeaconUpdated, HtHalf;
      ghost var a, s := State(), psta.Value();
      beacon_updated := SetErpFlags(psta, !c.shortPreamble, c.nonErp, !c.shortSlot);
      ghost var a1, s1 := State(), psta.Value();
      var changed := JoinHtFlags(psta, c);
      HalvesMeet(cfg, a, a1, s, s1, c);
      beacon_updated := beacon_updated || changed;
    }

    /** The HT half: an HT station loses its no_ht flag and gains the others as it announces; one without HT
      * gains it. */
    method JoinHtFlags(psta: StaInfo, c: Caps) returns (changed: bool)
      modifies psta`no_ht_set, psta`no_ht_gf_set, psta`ht_20mhz_set, psta`ht_40mhz_intolerant
      modifies this`num_sta_no_ht, this`num_sta_ht_no_gf, this`num_sta_ht_20mhz, this`num_sta_40mhz_intolerant
      ensures psta.Value() == HtHalf(old(psta.Value()), c)
      ensures Counted() == Moved(old(Counted()), old(psta.Value()), psta.Value())
      ensures changed <==> psta.ht_40mhz_intolerant != old(psta.ht_40mhz_intolerant)
    {
      hide Moved;
      changed := false;
      ghost var n1, s1 := Counted(), psta.Value();
      if c.ht {
        SetHtFlags(psta, false, psta.no_ht_gf_set || !c.greenfield, psta.ht_20mhz_set || !c.supWidth);
        ghost var s2 := psta.Value();
        if c.intolerant40 {
          changed := SetIntolerant(psta, true);
          MovedTwice(n1, s1, s2, psta.Value());
        }
      } else {
        SetHtFlags(psta, true, psta.no_ht_gf_set, psta.ht_20mhz_set);
      }
    }

    /** bss_cap_update_on_sta_join: the result is what associated_clients_update is called with. */
    method CapUpdateOnStaJoin(psta: StaInfo, c: Caps) returns (beacon_updated: bool)
      requires Held() && Editable(State())
      modifies this, psta, bss, bss.IEs
      ensures Held() && psta.Value() == JoinedSta(old(psta.Value()), c)
      ensures State() == Joined(cfg, old(State()), old(psta.Value()), c)
      ensures beacon_updated <==> BeaconUpdated(cfg, Counted(), old(psta.Value()), psta.Value())
      ensures bss.IEs[..FIXED_IE_LENGTH] == old(bss.IEs[..FIXED_IE_LENGTH])
    {
      hide ErpStep, CoexistStep, OpModeStep, EncodeAll, Room, HtInfoReadable, Others, First, JoinedSta, Moved,
           BeaconUpdated;
      ghost var a, s := State(), psta.Value();
      ghost var s' := JoinedSta(s, c);
      ErpStepKeeps(cfg, a.(nums := Moved(a.nums, s, s')), s, s');
      beacon_updated := JoinFlags(psta, c);
      ghost var a1 := State();
      if c.ht && c.intolerant40 {
        CoexistStepKeeps(cfg, a1, true);
        SetCoexist(true);
      }
      UpdateOpMode();
    }

    method LeaveFlags(psta: StaInfo) returns (beacon_updated: bool)
      requires Held()
      modifies this, psta, bss.IEs
      ensures Held()
      ensures var a, s := old(State()), old(psta.Value());
              && psta.Value() == UNFLAGGED
              && State() == ErpStep(cfg, a.(nums := Moved(a.nums, s, UNFLAGGED)), s, UNFLAGGED)
      ensures beacon_updated <==> BeaconUpdated(cfg, Counted(), old(psta.Value()), UNFLAGGED)
      ensures bss.IEs[..FIXED_IE_LENGTH] == old(bss.IEs[..FIXED_IE_LENGTH])
    {
      hide ErpStep, Moved, Held, EncodeAll, ErpEdges, BeaconUpdated;
      ghost var a, s := State(), psta.Value();
      beacon_updated := SetErpFlags(psta, false, false, false);
      ghost var n1, s1 := Counted(), psta.Value();
      SetHtFlags(psta, false, false, false);
      ghost var s2 := psta.Value();
      var changed := SetIntolerant(psta, false);
      MovedTwice(n1, s1, s2, UNFLAGGED);
      ErpStepMoves(cfg, a, s, s1, UNFLAGGED);
      BeaconUpdatedIs(cfg, n1, Counted(), s, s1, UNFLAGGED);
      beacon_updated := beacon_updated || changed;
    }

    /** bss_cap_update_on_sta_leave */
    method CapUpdateOnStaLeave(psta: StaInfo?) returns (beacon_updated: bool)
      requires psta != null ==> Held() && Editable(State())
      modifies this, psta, bss, bss.IEs
      ensures psta == null ==> !beacon_updated && State() == old(State()) && bss.IEs[..] == old(bss.IEs[..])
      ensures psta != null ==>
                var s := old(psta.Value());
                && Held() && psta.Value() == UNFLAGGED && State() == Left(cfg, old(State()), s)
                && (beacon_updated <==> BeaconUpdated(cfg, Counted(), s, UNFLAGGED))
                && bss.IEs[..FIXED_IE_LENGTH] == old(bss.IEs[..FIXED_IE_LENGTH])
    {
      hide ErpStep, CoexistStep, OpModeStep, HtInfoStep, EncodeAll, Room, HtInfoReadable, Others, First, Moved,
           BeaconUpdated;
      if psta == null {
        return false;
      }
      ghost var a, s := State(), psta.Value();
      ErpStepKeeps(cfg, a.(nums := Moved(a.nums, s, UNFLAGGED)), s, UNFLAGGED);
      var intolerant := psta.ht_40mhz_intolerant;
      beacon_updated := LeaveFlags(psta);
      ghost var a1 := State();
      CoexistStepKeeps(cfg, a1, false);
      if intolerant {
        if ext_capab_ie_len > 0 && num_sta_40mhz_intolerant == 0 {
          SetCoexist(false);
        }
        HtInfoStepKeeps(cfg, State());
        UpdateBcnHtInfo();
      }
      UpdateOpMode();
    }

    /** One join or leave among the stations of the access point. */
    method Perform(stas: seq<StaInfo>, e: Event)
      requires Held() && Editable(State()) && Distinct(stas) && e.i < |stas|
      modifies this, stas, bss, bss.IEs
      ensures Held() && Values(stas) == StasAfter(old(Values(stas)), e)
      ensures State() == CoreAfter(cfg, old(Values(stas)), old(State()), e)
      ensures bss.IEs[..FIXED_IE_LENGTH] == old(bss.IEs[..FIXED_IE_LENGTH])
    {
      hide Joined, Left, Held;
      if e.Join? {
        var updated := CapUpdateOnStaJoin(stas[e.i], e.caps);
      } else {
        var updated := CapUpdateOnStaLeave(stas[e.i]);
      }
    }

    /** A run of joins and leaves ends in the state the specification gives, and so with every layer in step. */
    method PerformAll(stas: seq<StaInfo>, run: seq<Event>)
      requires Held() && Distinct(stas) && (forall e <- run :: e.i < |stas|) && InStep(cfg, Values(stas), State())
      modifies this, stas, bss, bss.IEs
      ensures Held() && Values(stas) == RunStas(old(Values(stas)), run)
      ensures State() == RunCore(cfg, old(Values(stas)), old(State()), run)
      ensures bss.IEs[..FIXED_IE_LENGTH] == old(bss.IEs[..FIXED_IE_LENGTH])
    {
      hide Held, CoreAfter, StasAfter, Advertised, Tallied, CoexistInStep;
      ghost var sv, a := Values(stas), State();
      assert run[..0] == [];
      for n := 0 to |run|
        invariant Held() && Values(stas) == RunStas(sv, run[..n]) && State() == RunCore(cfg, sv, a, run[..n])
        invariant bss.IEs[..FIXED_IE_LENGTH] == old(bss.IEs[..FIXED_IE_LENGTH])
      {
        assert run[..n + 1][..n] == run[..n] && run[..n + 1][n] == run[n];
        ReadyFor(cfg, sv, a, run[..n]);
        Perform(stas, run[n]);
      }
      assert run[..|run|] == run;
    }
  }

  /** The two edges that come first. */
  predicate FirstEdges(cfg: Config, n: Nums, s: Sta, s': Sta) {
    || (cfg.cur_wireless_mode > WIRELESS_11B
        && Edge(s.no_short_preamble_set, s'.no_short_preamble_set, n.no_short_preamble))
    || Edge(s.nonerp_set, s'.nonerp_set, n.non_erp)
  }

  /** The third edge, after the other two. */
  lemma ErpEdgesAre(cfg: Config, n2: Nums, n3: Nums, s: Sta, s2: Sta, s3: Sta, slot: bool)
    requires n3 == n2.(no_short_slot_time := n3.no_short_slot_time)
    requires s3 == s2.(no_short_slot_time_set := s3.no_short_slot_time_set)
    requires slot <==> Edge(s.no_short_slot_time_set, s3.no_short_slot_time_set, n3.no_short_slot_time)
    ensures ErpEdges(cfg, n3, s, s3) <==> FirstEdges(cfg, n2, s, s2) || (cfg.cur_wireless_mode > WIRELESS_11B && slot)
  {
    hide Edge;
  }

  /** The HT flags set after the other three add the change of intolerance. */
  lemma BeaconUpdatedIs(cfg: Config, n1: Nums, n2: Nums, s: Sta, s1: Sta, s2: Sta)
    requires n2 == n1.(ht_no_gf := n2.ht_no_gf, no_ht := n2.no_ht, ht_20mhz := n2.ht_20mhz, intolerant := n2.intolerant)
    requires s2 == s1.(no_ht_gf_set := s2.no_ht_gf_set, no_ht_set := s2.no_ht_set, ht_20mhz_set := s2.ht_20mhz_set,
                       ht_40mhz_intolerant := s2.ht_40mhz_intolerant)
    requires s1.ht_40mhz_intolerant == s.ht_40mhz_intolerant
    ensures BeaconUpdated(cfg, n2, s, s2) <==>
              ErpEdges(cfg, n1, s, s1) || s1.ht_40mhz_intolerant != s2.ht_40mhz_intolerant
  {
    hide Edge;
  }

  lemma MovedTwice(n: Nums, s: Sta, s1: Sta, s2: Sta)
    ensures Moved(Moved(n, s, s1), s1, s2) == Moved(n, s, s2)
  {
  }

  function Values(stas: seq<StaInfo>): (r: seq<Sta>)
    reads stas
    ensures |r| == |stas| && forall i :: 0 <= i < |stas| ==> r[i] == stas[i].Value()
  {
    seq(|stas|, i requires 0 <= i < |stas| reads stas => stas[i].Value())
  }

  lemma ReadyFor(cfg: Config, stas: seq<Sta>, a: Core, run: seq<Event>)
    requires InStep(cfg, stas, a) && forall e <- run :: e.i < |stas|
    ensures Editable(RunCore(cfg, stas, a, run))
  {
  }

  lemma ErpStepIs(cfg: Config, a: Core, s: Sta, s': Sta, edge: bool)
    requires edge <==> Edge(s.nonerp_set, s'.nonerp_set, a.nums.non_erp)
    ensures ErpStep(cfg, a, s, s') ==
            if edge && cfg.bstart_bss && cfg.ERP_enable then a.(es := ErpUpdated(a.es, a.nums)) else a
  {
  }

  lemma FirstEdgesAre(cfg: Config, n: Nums, s: Sta, s': Sta, preamble: bool, erp: bool)
    requires preamble <==> Edge(s.no_short_preamble_set, s'.no_short_preamble_set, n.no_short_preamble)
    requires erp <==> Edge(s.nonerp_set, s'.nonerp_set, n.non_erp)
    ensures FirstEdges(cfg, n, s, s') <==> (cfg.cur_wireless_mode > WIRELESS_11B && preamble) || erp
  {
    hide Edge;
  }

  /** The flags of a join, set in two halves. */
  function HtHalf(s: Sta, c: Caps): Sta {
    s.(no_ht_set := !c.ht, no_ht_gf_set := s.no_ht_gf_set || (c.ht && !c.greenfield),
       ht_20mhz_set := s.ht_20mhz_set || (c.ht && !c.supWidth),
       ht_40mhz_intolerant := s.ht_40mhz_intolerant || (c.ht && c.intolerant40))
  }

  lemma HalvesMeet(cfg: Config, a: Core, a1: Core, s: Sta, s1: Sta, c: Caps)
    requires s1 == s.(no_short_preamble_set := !c.shortPreamble, nonerp_set := c.nonErp,
                      no_short_slot_time_set := !c.shortSlot)
    requires a1 == ErpStep(cfg, a.(nums := Moved(a.nums, s, s1)), s, s1)
    ensures var s2 := HtHalf(s1, c);
            var n2 := Moved(a1.nums, s1, s2);
            && s2 == JoinedSta(s, c)
            && ErpStep(cfg, a.(nums := Moved(a.nums, s, s2)), s, s2) == a1.(nums := n2)
            && (BeaconUpdated(cfg, n2, s, s2) <==>
                ErpEdges(cfg, a1.nums, s, s1) || s1.ht_40mhz_intolerant != s2.ht_40mhz_intolerant)
  {
    hide ErpStep;
    var s2 := HtHalf(s1, c);
    ErpStepMoves(cfg, a, s, s1, s2);
    BeaconUpdatedIs(cfg, a1.nums, Moved(a1.nums, s1, s2), s, s1, s2);
  }

  /** The ERP update sees of a station only whether its flag changed. */
  lemma ErpStepSees(cfg: Config, a: Core, n: Nums, s: Sta, s': Sta, t: Sta, t': Sta)
    requires s.nonerp_set == t.nonerp_set && s'.nonerp_set == t'.nonerp_set
    ensures ErpStep(cfg, a.(nums := n), t, t') == ErpStep(cfg, a.(nums := n), s, s')
  {
  }

  /** Flags that change later than the first two only move their counters. */
  lemma ErpStepMoves(cfg: Config, a: Core, s: Sta, s1: Sta, s2: Sta)
    requires s1.nonerp_set == s2.nonerp_set && s1.no_short_preamble_set == s2.no_short_preamble_set
    ensures var a1 := ErpStep(cfg, a.(nums := Moved(a.nums, s, s1)), s, s1);
            && a1.nums == Moved(a.nums, s, s1)
            && ErpStep(cfg, a.(nums := Moved(a.nums, s, s2)), s, s2) == a1.(nums := Moved(a1.nums, s1, s2))
  {
    MovedTwice(a.nums, s, s1, s2);
  }

  lemma BodyOctet(s: seq<byte>, end: nat, es: seq<Ie>, k: nat, i: nat)
    requires FIXED_IE_LENGTH <= end <= |s| && s[FIXED_IE_LENGTH..end] == EncodeAll(es) && k < |es| && i < |es[k].body|
    ensures var p := FIXED_IE_LENGTH + Offset(es, k) + 2 + i; p < end && s[p] == es[k].body[i]
  {
    hide EncodeAll;
    var p := FIXED_IE_LENGTH + Offset(es, k) + 2;
    BodyAt(s, FIXED_IE_LENGTH, end, es, k, i + 1);
    assert s[p + i] == s[p..p + i + 1][i];
  }

  lemma OctetPut(s0: seq<byte>, s1: seq<byte>, end: nat, es: seq<Ie>, k: nat, i: nat, x: byte)
    requires FIXED_IE_LENGTH <= end <= |s0| && s0[FIXED_IE_LENGTH..end] == EncodeAll(es) && k < |es| && i < |es[k].body|
    requires var p := FIXED_IE_LENGTH + Offset(es, k) + 2 + i; p < |s0| && s1 == s0[p := x]
    ensures s1[FIXED_IE_LENGTH..end] == EncodeAll(es[k := PutIn(es[k], i, x)])
    ensures s1[..FIXED_IE_LENGTH] == s0[..FIXED_IE_LENGTH]
  {
    hide EncodeAll;
    var p, e := FIXED_IE_LENGTH + Offset(es, k), es[k];
    ReadAt(s0, FIXED_IE_LENGTH, end, es, k);
    BodyAt(s0, FIXED_IE_LENGTH, end, es, k, |e.body|);
    SliceOfSlice(s0, p, p + 2 + |e.body|, 2, 2 + |e.body|);
    RewrittenAt(s0, FIXED_IE_LENGTH, end, es, k, PutIn(e, i, x));
    var q := p + 2 + |e.body|;
    Put(s0, p + 2 + i, x, FIXED_IE_LENGTH, p, q, end);
    EncodedPut(s0[p..q], e, i, x);
  }

  lemma EncodedPut(b: seq<byte>, e: Ie, i: nat, x: byte)
    requires |b| == 2 + |e.body| && i < |e.body| && b[0] == e.id && b[1] == |e.body| && b[2..2 + |e.body|] == e.body
    ensures b[2 + i := x] == Encode(PutIn(e, i, x))
  {
    assert b == Encode(e);
  }

  lemma OctetParts(b: byte, erp: byte)
    requires erp < 4
    ensures var x := b / 4 * 4 + erp; x / 8 == b / 8 && x % 4 == erp
  {
    assert (b / 4 * 4 + erp) / 4 == b / 4;
  }

  function WithBit(x: u16, weight: nat): (r: u16)
    requires weight in {4, 0x10} && !Bit(x, weight)
    ensures r == x + weight
  {
    x + weight
  }

  /** Each of the three writes touches its own bits. */
  lemma TwoBitsThenMode(m: u16, m1: u16, m2: u16, n: Nums, cfg: Config)
    requires m1 == m - m / 4 % 2 * 4 + B(n.ht_no_gf != 0) * 4
    requires m2 == m1 - m1 / 0x10 % 2 * 0x10 + B(n.no_ht != 0 || cfg.olbc_ht) * 0x10
    ensures m2 / 4 * 4 + Protection(n, cfg) == NewOpMode(m, n, cfg) && m2 % 4 == m % 4 && m1 / 0x10 % 2 == m / 0x10 % 2
    ensures m2 == m2 / 4 * 4 + m2 % 4
  {
    hide Protection;
    WordParts(m);
    WordOf(m / 0x20, m / 0x10 % 2, m % 0x10 / 8, B(n.ht_no_gf != 0), m % 4);
    WordOf(m / 0x20, B(n.no_ht != 0 || cfg.olbc_ht), m % 0x10 / 8, B(n.ht_no_gf != 0), m % 4);
  }
}
