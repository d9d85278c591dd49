/** What a run of joins and leaves of core/rtw_ap.c leaves in flags, counters, mode word and beacon, told from what the
  * stations announced. */
module ApHistory {
  import opened Bytes
  import opened Seqs
  import opened Elements
  import opened Bss
  import opened BeaconIes
  import opened ApAggregates

  // ----- flags -----

  /** What an association request has to say for a flag to be raised. */
  predicate Announces(c: Caps, f: Flag) {
    match f
    case NoShortPreamble => !c.shortPreamble
    case NonErp => c.nonErp
    case NoShortSlot => !c.shortSlot
    case NoHt => !c.ht
    case NoGreenfield => c.ht && !c.greenfield
    case Ht20 => c.ht && !c.supWidth
    case Intolerant => c.ht && c.intolerant40
  }

  /** The flags that a station which joins again without leaving keeps, whatever it says then. */
  predicate Sticks(f: Flag) {
    f == NoGreenfield || f == Ht20 || f == Intolerant
  }

  /** Event k is a join of station i that announces what raises f, and later ones do not take it back: any further event
    * of the station would, and a leave where the flag sticks. */
  predicate RaisedAt(run: seq<Event>, i: nat, f: Flag, k: nat) {
    && k < |run| && run[k].Join? && run[k].i == i && Announces(run[k].caps, f)
    && forall j :: k < j < |run| && run[j].i == i ==> Sticks(f) && !run[j].Leave?
  }

  ghost predicate Raised(run: seq<Event>, i: nat, f: Flag) {
    exists k: nat :: RaisedAt(run, i, f, k)
  }

  lemma RaisedOneMore(run: seq<Event>, i: nat, f: Flag)
    requires run != []
    ensures var n := |run| - 1;
            Raised(run, i, f) <==>
              if run[n].i == i && run[n].Join? && Announces(run[n].caps, f) then true
              else if run[n].i == i && (run[n].Leave? || !Sticks(f)) then false
              else Raised(run[..n], i, f)
  {
    hide Announces, Sticks;
    var n := |run| - 1;
    if Raised(run, i, f) {
      var k: nat :| RaisedAt(run, i, f, k);
      if k < n {
        assert RaisedAt(run[..n], i, f, k);
      }
    }
    if run[n].i == i && run[n].Join? && Announces(run[n].caps, f) {
      assert RaisedAt(run, i, f, n);
    } else if !(run[n].i == i && (run[n].Leave? || !Sticks(f))) && Raised(run[..n], i, f) {
      var k: nat :| RaisedAt(run[..n], i, f, k);
      assert RaisedAt(run, i, f, k);
    }
  }

  function NewStas(k: nat): (r: seq<Sta>)
    ensures |r| == k
  {
    seq(k, _ => UNFLAGGED)
  }

  /** Over every run: a station holds a flag if and only if what it announced raised it. */
  lemma {:induction false} FlagIff(k: nat, run: seq<Event>, i: nat, f: Flag)
    requires i < k && forall e <- run :: e.i < k
    ensures Has(RunStas(NewStas(k), run)[i], f) <==> Raised(run, i, f)
  {
    if run != [] {
      var n := |run| - 1;
      FlagIff(k, run[..n], i, f);
      RaisedOneMore(run, i, f);
      FlagStep(RunStas(NewStas(k), run[..n]), run[n], i, f);
    }
  }

  lemma FlagStep(stas: seq<Sta>, e: Event, i: nat, f: Flag)
    requires i < |stas| && e.i < |stas|
    ensures Has(StasAfter(stas, e)[i], f) <==>
              if e.i == i && e.Join? && Announces(e.caps, f) then true
              else if e.i == i && (e.Leave? || !Sticks(f)) then false
              else Has(stas[i], f)
  {
  }

  // ----- counters -----

  /** The stations whose announcements raised f. */
  ghost function RaisedBy(k: nat, run: seq<Event>, f: Flag): set<nat> {
    set i: nat | i < k && Raised(run, i, f)
  }

  lemma HoldersAre(k: nat, run: seq<Event>, f: Flag)
    requires forall e <- run :: e.i < k
    ensures Holders(RunStas(NewStas(k), run), f) == RaisedBy(k, run, f)
  {
    hide Has, Raised, RunStas, NewStas;
    forall i: nat | i < k ensures Has(RunStas(NewStas(k), run)[i], f) <==> Raised(run, i, f) {
      FlagIff(k, run, i, f);
    }
  }

  /** Over every run each counter is the number of stations whose announcements raised its flag. */
  lemma CounterIs(cfg: Config, k: nat, a: Core, run: seq<Event>, f: Flag)
    requires InStep(cfg, NewStas(k), a) && forall e <- run :: e.i < k
    ensures Num(RunCore(cfg, NewStas(k), a, run).nums, f) == |RaisedBy(k, run, f)|
  {
    hide Advertised, CoexistInStep, Count, Num, RunStas, Holders, RaisedBy, NewStas;
    CountIsCardinality(RunStas(NewStas(k), run), f);
    HoldersAre(k, run, f);
  }

  // ----- the mode word -----

  /** Some station's announcements raised f. */
  ghost predicate Someone(k: nat, run: seq<Event>, f: Flag) {
    exists i: nat :: i < k && Raised(run, i, f)
  }

  /** The mode word in terms of what the stations announced: mixed mode if one is without HT; else 20 MHz protection
    * if the access point is 40 MHz capable and one is not; else non-member protection if such stations were heard;
    * else none. Beside it NON_GF_DEVS_PRESENT and NON_HT_STA_PRESENT. */
  ghost predicate ModeFits(m: u16, cfg: Config, k: nat, run: seq<Event>) {
    && (m % 4 == 3 <==> Someone(k, run, NoHt))
    && (m % 4 == 2 <==> !Someone(k, run, NoHt) && Bit(cfg.ht_cap_info, 2) && Someone(k, run, Ht20))
    && (m % 4 == 1 <==>
          !Someone(k, run, NoHt) && !(Bit(cfg.ht_cap_info, 2) && Someone(k, run, Ht20)) && cfg.olbc_ht)
    && (Bit(m, 4) <==> Someone(k, run, NoGreenfield))
    && (Bit(m, 0x10) <==> Someone(k, run, NoHt) || cfg.olbc_ht)
  }

  lemma CountedIff(cfg: Config, k: nat, a: Core, run: seq<Event>, f: Flag)
    requires InStep(cfg, NewStas(k), a) && forall e <- run :: e.i < k
    ensures var c := Num(RunCore(cfg, NewStas(k), a, run).nums, f);
            c >= 0 && (c != 0 <==> Someone(k, run, f))
  {
    hide InStep, Raised, RunCore, NewStas;
    CounterIs(cfg, k, a, run, f);
    var who := RaisedBy(k, run, f);
    if Someone(k, run, f) {
      var i: nat :| i < k && Raised(run, i, f);
      assert i in who;
    } else {
      assert who == {};
    }
  }

  /** Over every run of joins and leaves the mode word fits what the stations announced. */
  lemma ModeIs(cfg: Config, k: nat, a: Core, run: seq<Event>)
    requires InStep(cfg, NewStas(k), a) && (forall e <- run :: e.i < k) && run != [] && cfg.ht_option
    ensures ModeFits(RunCore(cfg, NewStas(k), a, run).ht_op_mode, cfg, k, run)
  {
    hide InStep, Someone, RunCore, NewStas;
    RunInStep(cfg, NewStas(k), a, run);
    CountedIff(cfg, k, a, run, NoHt);
    CountedIff(cfg, k, a, run, Ht20);
    CountedIff(cfg, k, a, run, NoGreenfield);
  }

  // ----- the beacon -----

  /** The ERP element asks for protection, or does not. */
  predicate ErpShows(erp: Option<Ie>, protecting: bool) {
    erp.Some? && erp.value.body != [] ==>
      (Bit(erp.value.body[0], 1) <==> protecting) && (Bit(erp.value.body[0], 2) <==> protecting)
  }

  /** The HT Operation element shows the mode word, its low octet first. */
  predicate HtShows(ht: Option<Ie>, m: u16) {
    ht.Some? && |ht.value.body| >= 4 ==> ht.value.body[2] == m % 0x100 && ht.value.body[3] == m / 0x100
  }

  lemma ShownBy(cfg: Config, a: Core)
    requires Advertised(cfg, a)
    ensures cfg.bstart_bss && cfg.ERP_enable ==> ErpShows(First(a.es, ERPINFO_IE), a.nums.non_erp > 0)
    ensures cfg.bstart_bss && cfg.HT_info_enable && cfg.ht_option ==>
              HtShows(First(a.es, HT_ADD_INFO_IE), a.ht_op_mode)
  {
    hide EncodeAll, Room, IndexOf;
  }

  /** What is advertised after any run: protection while somebody who announced non-ERP is associated, the mode word,
    * and the coexistence bit while somebody is intolerant of 40 MHz. */
  lemma BeaconIs(cfg: Config, k: nat, a: Core, run: seq<Event>)
    requires InStep(cfg, NewStas(k), a) && forall e <- run :: e.i < k
    ensures var r := RunCore(cfg, NewStas(k), a, run);
            && (cfg.bstart_bss && cfg.ERP_enable ==>
                  ErpShows(First(r.es, ERPINFO_IE), Someone(k, run, NonErp)))
            && (cfg.bstart_bss && cfg.HT_info_enable && cfg.ht_option ==>
                  HtShows(First(r.es, HT_ADD_INFO_IE), r.ht_op_mode))
            && (Bit(r.ext_data[0], 1) <==> Someone(k, run, Intolerant))
  {
    hide First, Someone, RunCore, NewStas, Tallied, Advertised, RunStas, ErpShows, HtShows;
    RunInStep(cfg, NewStas(k), a, run);
    ShownBy(cfg, RunCore(cfg, NewStas(k), a, run));
    CountedIff(cfg, k, a, run, NonErp);
    CountedIff(cfg, k, a, run, Intolerant);
  }

  // ----- the flag that goes back to the caller -----

  /** A join or leave reports the beacon as changed if and only if one of the three kinds of older stations has turned
    * up for the first time or is gone, the first two where the mode is not 11b alone, or the station's intolerance
    * changed. */
  lemma UpdatedIff(cfg: Config, n: Nums, stas: seq<Sta>, i: nat, s': Sta)
    requires Tallied(n, stas) && i < |stas|
    ensures var after := stas[i := s'];
            BeaconUpdated(cfg, Moved(n, stas[i], s'), stas[i], s') <==>
              || (cfg.cur_wireless_mode > WIRELESS_11B && Turns(stas, after, NoShortPreamble))
              || (cfg.cur_wireless_mode > WIRELESS_11B && Turns(stas, after, NoShortSlot))
              || Turns(stas, after, NonErp)
              || stas[i].ht_40mhz_intolerant != s'.ht_40mhz_intolerant
  {
    hide Tallied, Turns;
    EdgeIff(n, stas, i, s', NoShortPreamble);
    EdgeIff(n, stas, i, s', NoShortSlot);
    EdgeIff(n, stas, i, s', NonErp);
  }

  /** Somebody holds f on one side only. */
  ghost predicate Turns(before: seq<Sta>, after: seq<Sta>, f: Flag) {
    (Holders(before, f) == {}) != (Holders(after, f) == {})
  }

  lemma EdgeIff(n: Nums, stas: seq<Sta>, i: nat, s': Sta, f: Flag)
    requires Tallied(n, stas) && i < |stas|
    ensures Edge(Has(stas[i], f), Has(s', f), Num(Moved(n, stas[i], s'), f)) <==> Turns(stas, stas[i := s'], f)
  {
    hide Count, Holders;
    TalliedMoves(n, stas, i, s');
    TalliedMoves(Moved(n, stas[i], s'), stas[i := s'], i, s');
    CountIsCardinality(stas, f);
    CountIsCardinality(stas[i := s'], f);
    CountAt(stas, i, s', f);
  }

  // ----- what no run touches -----

  /** Same length, same octets from `from` on. */
  predicate SameBeyond(x: Body, y: Body, from: nat) {
    |x| == |y| && forall j :: from <= j < |x| ==> x[j] == y[j]
  }

  /** Of the ERP element only the low three bits may differ. */
  predicate ErpKept(x: Option<Ie>, y: Option<Ie>) {
    && (x.Some? <==> y.Some?)
    && (x.Some? ==> SameBeyond(x.value.body, y.value.body, 1)
                    && (x.value.body != [] ==> x.value.body[0] / 8 == y.value.body[0] / 8))
  }

  /** Of the HT Operation element only the mode word, and the width and offset in the low three bits of octet 1. */
  predicate HtKept(x: Option<Ie>, y: Option<Ie>) {
    && (x.Some? <==> y.Some?)
    && (x.Some? ==> SameBeyond(x.value.body, y.value.body, 4)
                    && (x.value.body != [] ==> x.value.body[0] == y.value.body[0])
                    && (|x.value.body| > 1 ==> x.value.body[1] / 8 == y.value.body[1] / 8))
  }

  /** Bit 3 and the bits from 5 on. */
  predicate ModeKept(m: u16, m': u16) {
    m' / 0x20 == m / 0x20 && m' % 0x10 / 8 == m % 0x10 / 8
  }

  /** From a to r nothing has changed but what the configuration allows. */
  predicate Kept(cfg: Config, a: Core, r: Core) {
    && (cfg.bstart_bss || r.es == a.es)
    && (if cfg.bstart_bss && cfg.ERP_enable then ErpKept(First(a.es, ERPINFO_IE), First(r.es, ERPINFO_IE))
        else First(r.es, ERPINFO_IE) == First(a.es, ERPINFO_IE))
    && (if cfg.bstart_bss && cfg.HT_info_enable && cfg.ht_option
        then HtKept(First(a.es, HT_ADD_INFO_IE), First(r.es, HT_ADD_INFO_IE))
        else First(r.es, HT_ADD_INFO_IE) == First(a.es, HT_ADD_INFO_IE) && r.sw_to_20mhz == a.sw_to_20mhz)
    && (if cfg.ht_option then ModeKept(a.ht_op_mode, r.ht_op_mode) else r.ht_op_mode == a.ht_op_mode)
    && r.ext_data[1..] == a.ext_data[1..] && r.ext_data[0] / 2 == a.ext_data[0] / 2
    && (r.ext_len == a.ext_len || (a.ext_len == 0 && r.ext_len == 1))
  }

  lemma KeptOnwards(cfg: Config, a: Core, b: Core, c: Core)
    requires Kept(cfg, a, b) && Kept(cfg, b, c)
    ensures Kept(cfg, a, c)
  {
    hide First;
  }

  lemma ErpStepKept(cfg: Config, a: Core, s: Sta, s': Sta, n: Nums)
    requires Editable(a.(nums := n))
    ensures Kept(cfg, a, ErpStep(cfg, a.(nums := n), s, s'))
  {
    hide EncodeAll, IndexOf, Others, Room;
    var b := a.(nums := n);
    ErpStepKeeps(cfg, b, s, s');
    var k := IndexOf(a.es, ERPINFO_IE);
    IndexOfIsFirst(a.es, ERPINFO_IE);
    if k < |a.es| && a.es[k].body != [] {
      Rewriting(a.es, ERPINFO_IE, PutIn(a.es[k], 0, ErpOctet(a.es[k].body[0], n)));
    }
  }

  lemma CoexistStepKept(cfg: Config, a: Core, on: bool)
    requires Editable(a)
    ensures Kept(cfg, a, CoexistStep(cfg, a, on))
  {
    hide EncodeAll, IndexOf, Others, Room, ExtCapUpdated, First;
    CoexistStepKeeps(cfg, a, on);
  }

  lemma HtInfoStepKept(cfg: Config, a: Core)
    requires Editable(a)
    ensures Kept(cfg, a, HtInfoStep(cfg, a))
  {
    hide EncodeAll, IndexOf, Others, Room, WidthStep;
    HtInfoStepKeeps(cfg, a);
    var k := IndexOf(a.es, HT_ADD_INFO_IE);
    IndexOfIsFirst(a.es, HT_ADD_INFO_IE);
    if HasHtInfo(a.es) {
      var w := WidthStep(a.nums, a.sw_to_20mhz, cfg);
      var e := PutIn(PutIn(PutIn(a.es[k], 1, WidthOctet(a.es[k].body[1], w, cfg)), 2, a.ht_op_mode % 0x100),
                     3, a.ht_op_mode / 0x100);
      Rewriting(a.es, HT_ADD_INFO_IE, e);
    }
  }

  lemma NewModeKept(m: u16, n: Nums, cfg: Config)
    ensures ModeKept(m, NewOpMode(m, n, cfg))
  {
    NewOpModeIs(m, n, cfg, NewOpMode(m, n, cfg));
  }

  lemma SameKept(cfg: Config, a: Core)
    ensures Kept(cfg, a, a)
  {
    hide First;
  }

  lemma OpModeStepKept(cfg: Config, a: Core)
    requires Editable(a)
    ensures Kept(cfg, a, OpModeStep(cfg, a))
  {
    hide EncodeAll, IndexOf, Others, Room, HtInfoStep, NewOpMode, First, OpModeChanges, ErpKept, HtKept, ModeKept;
    if cfg.ht_option && OpModeChanges(a.ht_op_mode, a.nums, cfg) > 0 {
      var m := NewOpMode(a.ht_op_mode, a.nums, cfg);
      NewModeKept(a.ht_op_mode, a.nums, cfg);
      HtInfoStepKept(cfg, a.(ht_op_mode := m));
      HtInfoStepRest(cfg, a.(ht_op_mode := m));
    } else {
      SameKept(cfg, a);
    }
  }

  lemma EventKept(cfg: Config, stas: seq<Sta>, a: Core, e: Event)
    requires InStep(cfg, stas, a) && e.i < |stas|
    ensures Kept(cfg, a, CoreAfter(cfg, stas, a, e))
  {
    hide Kept, ErpStep, CoexistStep, HtInfoStep, OpModeStep, Room, HtInfoReadable, Tallied, Others, First,
         CoexistInStep;
    var s, s' := stas[e.i], StasAfter(stas, e)[e.i];
    var n := Moved(a.nums, s, s');
    var a1 := ErpStep(cfg, a.(nums := n), s, s');
    ErpStepKept(cfg, a, s, s', n);
    ErpStepKeeps(cfg, a.(nums := n), s, s');
    if e.Join? {
      if e.caps.ht && e.caps.intolerant40 {
        CoexistStepKept(cfg, a1, true);
        CoexistStepKeeps(cfg, a1, true);
        var a2 := CoexistStep(cfg, a1, true);
        OpModeStepKept(cfg, a2);
        KeptOnwards(cfg, a, a1, a2);
        KeptOnwards(cfg, a, a2, OpModeStep(cfg, a2));
      } else {
        OpModeStepKept(cfg, a1);
        KeptOnwards(cfg, a, a1, OpModeStep(cfg, a1));
      }
    } else if s.ht_40mhz_intolerant {
      var off := a1.ext_len > 0 && a1.nums.intolerant == 0;
      var a2 := if off then CoexistStep(cfg, a1, false) else a1;
      CoexistStepKept(cfg, a1, false);
      CoexistStepKeeps(cfg, a1, false);
      if off {
        KeptOnwards(cfg, a, a1, a2);
      }
      HtInfoStepKept(cfg, a2);
      HtInfoStepKeeps(cfg, a2);
      var a3 := HtInfoStep(cfg, a2);
      KeptOnwards(cfg, a, a2, a3);
      OpModeStepKept(cfg, a3);
      KeptOnwards(cfg, a, a3, OpModeStep(cfg, a3));
    } else {
      OpModeStepKept(cfg, a1);
      KeptOnwards(cfg, a, a1, OpModeStep(cfg, a1));
    }
  }

  /** Over every run: where the beacon is not up, or an element is switched off, it stays as it was; in the elements
    * that do change, every other octet and bit stays. */
  lemma {:induction false} RunKept(cfg: Config, stas: seq<Sta>, a: Core, run: seq<Event>)
    requires InStep(cfg, stas, a) && forall e <- run :: e.i < |stas|
    ensures Kept(cfg, a, RunCore(cfg, stas, a, run))
  {
    if run != [] {
      hide Kept, InStep, CoreAfter, Joined, Left;
      var n := |run| - 1;
      RunKept(cfg, stas, a, run[..n]);
      var before := RunCore(cfg, stas, a, run[..n]);
      EventKept(cfg, RunStas(stas, run[..n]), before, run[n]);
      KeptOnwards(cfg, a, before, RunCore(cfg, stas, a, run));
    }
  }

  // ----- single updates -----

  /** An update of the ERP element tells of short preambles too: the Barker bit is set exactly while somebody is
    * without them. */
  lemma BarkerIs(es: seq<Ie>, n: Nums)
    ensures var erp := First(ErpUpdated(es, n), ERPINFO_IE);
            erp.Some? && erp.value.body != [] ==> (Bit(erp.value.body[0], 4) <==> n.no_short_preamble > 0)
  {
    hide EncodeAll, IndexOf;
    var k := IndexOf(es, ERPINFO_IE);
    IndexOfIsFirst(es, ERPINFO_IE);
    if k < |es| && es[k].body != [] {
      Rewriting(es, ERPINFO_IE, PutIn(es[k], 0, ErpOctet(es[k].body[0], n)));
    }
  }

  /** Up to channel 14, an access point at 40 MHz goes to 20 when an intolerant station, an overlapping BSS or a report
    * asks for it, and returns when none does; the offset is 1 where the primary channel is the lower one, else 3. */
  lemma WidthIs(n: Nums, cfg: Config, sw: bool, b: byte)
    requires n.intolerant >= 0
    ensures var asked := n.intolerant != 0 || cfg.ht_20mhz_width_req || cfg.ht_intolerant_ch_reported || cfg.olbc;
            var w := WidthStep(n, sw, cfg);
            var o, sw' := WidthOctet(b, w, cfg), SwitchedTo20(w, sw);
            && (!sw && asked && cfg.cur_channel <= 14 ==> sw' && !Bit(o, 1) && !Bit(o, 2) && !Bit(o, 4))
            && (!sw && !asked && cfg.cur_channel <= 14 ==> !sw' && o == b)
            && ((sw || cfg.cur_channel > 14) && !asked && cfg.cur_bwmode > 0 ==>
                  !sw' && Bit(o, 4) && o % 4 == if cfg.cur_ch_offset == 1 then 1 else 3)
            && ((sw || cfg.cur_channel > 14) && (asked || cfg.cur_bwmode == 0) ==> sw' == sw && o == b)
  {
  }

  // ----- which events update what -----

  /** The ERP element is updated by an event if and only if the first non-ERP station has come or the last one has gone:
    * the Barker bit waits for that. */
  lemma ErpAfter(cfg: Config, stas: seq<Sta>, a: Core, e: Event)
    requires InStep(cfg, stas, a) && e.i < |stas|
    ensures var r := CoreAfter(cfg, stas, a, e);
            var updated := cfg.bstart_bss && cfg.ERP_enable && Turns(stas, StasAfter(stas, e), NonErp);
            First(r.es, ERPINFO_IE) == First(if updated then ErpUpdated(a.es, r.nums) else a.es, ERPINFO_IE)
  {
    hide ErpUpdated, CoexistStep, HtInfoStep, OpModeStep, Room, HtInfoReadable, Others, First, CoexistInStep, Turns,
         Tallied, Edge;
    var s, s' := stas[e.i], StasAfter(stas, e)[e.i];
    var a0 := a.(nums := Moved(a.nums, s, s'));
    var a1 := ErpStep(cfg, a0, s, s');
    EdgeIff(a.nums, stas, e.i, s', NonErp);
    ErpStepWhen(cfg, a0, s, s');
    ErpStepKeeps(cfg, a0, s, s');
    if e.Join? {
      CoexistStepKeeps(cfg, a1, true);
      var a2 := if e.caps.ht && e.caps.intolerant40 then CoexistStep(cfg, a1, true) else a1;
      CoexistRest(cfg, a1, true);
      OpModeStepKeeps(cfg, a2);
    } else {
      CoexistStepKeeps(cfg, a1, false);
      CoexistRest(cfg, a1, false);
      var a2 := if a1.ext_len > 0 && a1.nums.intolerant == 0 then CoexistStep(cfg, a1, false) else a1;
      var a3 := if s.ht_40mhz_intolerant then HtInfoStep(cfg, a2) else a1;
      HtInfoStepKeeps(cfg, a2);
      HtInfoStepRest(cfg, a2);
      OpModeStepKeeps(cfg, a3);
    }
  }

  lemma ErpStepWhen(cfg: Config, a: Core, s: Sta, s': Sta)
    ensures var edge := Edge(Has(s, NonErp), Has(s', NonErp), Num(a.nums, NonErp));
            ErpStep(cfg, a, s, s')
            == if cfg.bstart_bss && cfg.ERP_enable && edge then a.(es := ErpUpdated(a.es, a.nums)) else a
  {
  }

  lemma CoexistRest(cfg: Config, a: Core, on: bool)
    requires a.ext_len <= EXT_LEN
    ensures var r := CoexistStep(cfg, a, on);
            r.nums == a.nums && r.sw_to_20mhz == a.sw_to_20mhz && r.ht_op_mode == a.ht_op_mode
  {
  }

  predicate HtOn(cfg: Config) {
    cfg.bstart_bss && cfg.ht_option && cfg.HT_info_enable
  }

  /** The octet of the HT Operation element with width and offset, where the element reaches that far. */
  function WidthField(es: seq<Ie>): Option<byte> {
    var ht := First(es, HT_ADD_INFO_IE);
    if ht.Some? && |ht.value.body| >= 4 then Some(ht.value.body[1]) else None
  }

  /** The width has been looked at, with n stations counted, between a and r. */
  predicate LookedAt(cfg: Config, n: Nums, a: Core, r: Core) {
    var w := WidthStep(n, a.sw_to_20mhz, cfg);
    if WidthField(a.es).None? then WidthField(r.es).None? && r.sw_to_20mhz == a.sw_to_20mhz
    else WidthField(r.es) == Some(WidthOctet(WidthField(a.es).value, w, cfg))
         && r.sw_to_20mhz == SwitchedTo20(w, a.sw_to_20mhz)
  }

  predicate NotLookedAt(a: Core, r: Core) {
    WidthField(r.es) == WidthField(a.es) && r.sw_to_20mhz == a.sw_to_20mhz
  }

  lemma HtInfoStepLooks(cfg: Config, a: Core)
    requires Editable(a)
    ensures var r := HtInfoStep(cfg, a);
            if HtOn(cfg) then LookedAt(cfg, a.nums, a, r) else NotLookedAt(a, r)
  {
    hide EncodeAll, IndexOf, Others, Room, WidthStep, WidthOctet, SwitchedTo20;
    var k := IndexOf(a.es, HT_ADD_INFO_IE);
    IndexOfIsFirst(a.es, HT_ADD_INFO_IE);
    if HasHtInfo(a.es) {
      var w := WidthStep(a.nums, a.sw_to_20mhz, cfg);
      var e := PutIn(PutIn(PutIn(a.es[k], 1, WidthOctet(a.es[k].body[1], w, cfg)), 2, a.ht_op_mode % 0x100),
                     3, a.ht_op_mode / 0x100);
      Rewriting(a.es, HT_ADD_INFO_IE, e);
    }
  }

  /** Looking twice is looking once. */
  lemma LookedTwice(cfg: Config, n: Nums, a: Core, b: Core, c: Core)
    requires LookedAt(cfg, n, a, b) && (LookedAt(cfg, n, b, c) || NotLookedAt(b, c))
    ensures LookedAt(cfg, n, a, c)
  {
    hide WidthField, WidthStep, WidthOctet, SwitchedTo20;
    var sw, b0 := a.sw_to_20mhz, WidthField(a.es);
    if b0.Some? {
      WidthStays(cfg, n, sw, b0.value);
    }
  }

  lemma WidthStays(cfg: Config, n: Nums, sw: bool, x: byte)
    ensures var w := WidthStep(n, sw, cfg);
            var sw', x' := SwitchedTo20(w, sw), WidthOctet(x, w, cfg);
            var w' := WidthStep(n, sw', cfg);
            SwitchedTo20(w', sw') == sw' && WidthOctet(x', w', cfg) == x'
  {
  }

  /** An event looks at the width if and only if an intolerant station leaves or the mode word changes; where it does,
    * it is with the counters as they are then. */
  lemma WidthAfter(cfg: Config, stas: seq<Sta>, a: Core, e: Event)
    requires InStep(cfg, stas, a) && e.i < |stas|
    ensures var r := CoreAfter(cfg, stas, a, e);
            if HtOn(cfg) && ((e.Leave? && stas[e.i].ht_40mhz_intolerant) || r.ht_op_mode != a.ht_op_mode)
            then LookedAt(cfg, r.nums, a, r) else NotLookedAt(a, r)
  {
    hide CoexistStep, HtInfoStep, OpModeStep, Room, HtInfoReadable, Others, CoexistInStep, IndexOf, EncodeAll,
         Tallied, ErpStep, WidthStep, WidthOctet, SwitchedTo20, LookedAt, NotLookedAt, HtOn, WidthField;
    var s, s' := stas[e.i], StasAfter(stas, e)[e.i];
    var a1 := ErpStep(cfg, a.(nums := Moved(a.nums, s, s')), s, s');
    ErpStepNoWidth(cfg, a, Moved(a.nums, s, s'), s, s');
    if e.Join? {
      CoexistNoWidth(cfg, a1, true);
      var a2 := if e.caps.ht && e.caps.intolerant40 then CoexistStep(cfg, a1, true) else a1;
      OpModeLooks(cfg, a2);
      StillNot(a, a1, a2);
      Carried(cfg, a, a2, OpModeStep(cfg, a2));
    } else {
      CoexistNoWidth(cfg, a1, false);
      var a2 := if a1.ext_len > 0 && a1.nums.intolerant == 0 then CoexistStep(cfg, a1, false) else a1;
      if s.ht_40mhz_intolerant {
        HtInfoStepLooks(cfg, a2);
        HtInfoStepKeeps(cfg, a2);
        HtInfoStepRest(cfg, a2);
        var a3 := HtInfoStep(cfg, a2);
        var r := OpModeStep(cfg, a3);
        OpModeLooks(cfg, a3);
        if HtOn(cfg) {
          LookedTwice(cfg, a3.nums, a2, a3, r);
        } else {
          StillNot(a2, a3, r);
        }
        StillNot(a, a1, a2);
        Carried(cfg, a, a2, r);
      } else {
        OpModeLooks(cfg, a1);
        Carried(cfg, a, a1, OpModeStep(cfg, a1));
      }
    }
  }

  /** What happened before the width was looked at does not matter to it. */
  lemma Carried(cfg: Config, a: Core, b: Core, r: Core)
    requires NotLookedAt(a, b)
    ensures LookedAt(cfg, r.nums, b, r) ==> LookedAt(cfg, r.nums, a, r)
    ensures NotLookedAt(b, r) ==> NotLookedAt(a, r)
  {
    hide WidthField, WidthStep, WidthOctet;
  }

  lemma StillNot(a: Core, b: Core, c: Core)
    requires NotLookedAt(a, b) && NotLookedAt(b, c)
    ensures NotLookedAt(a, c)
  {
    hide WidthField;
  }

  lemma ErpStepNoWidth(cfg: Config, a: Core, n: Nums, s: Sta, s': Sta)
    requires Editable(a)
    ensures var r := ErpStep(cfg, a.(nums := n), s, s');
            NotLookedAt(a, r) && r.nums == n && r.ht_op_mode == a.ht_op_mode && Editable(r)
  {
    hide First, Room, HtInfoReadable;
    ErpStepKeeps(cfg, a.(nums := n), s, s');
  }

  lemma CoexistNoWidth(cfg: Config, a: Core, on: bool)
    requires Editable(a)
    ensures NotLookedAt(a, CoexistStep(cfg, a, on)) && NotLookedAt(a, a)
    ensures var r := CoexistStep(cfg, a, on); r.nums == a.nums && r.ht_op_mode == a.ht_op_mode && Editable(r)
  {
    hide First, Room, HtInfoReadable, ExtCapUpdated;
    CoexistStepKeeps(cfg, a, on);
  }

  lemma OpModeLooks(cfg: Config, a: Core)
    requires Editable(a)
    ensures var r := OpModeStep(cfg, a);
            && r.nums == a.nums
            && if HtOn(cfg) && r.ht_op_mode != a.ht_op_mode then LookedAt(cfg, a.nums, a, r) else NotLookedAt(a, r)
  {
    hide First, Room, HtInfoReadable, HtInfoStep, NewOpMode, OpModeChanges, WidthStep, WidthOctet, SwitchedTo20;
    var m := NewOpMode(a.ht_op_mode, a.nums, cfg);
    NoChangesIffSame(a.ht_op_mode, a.nums, cfg);
    HtInfoStepLooks(cfg, a.(ht_op_mode := m));
    HtInfoStepRest(cfg, a.(ht_op_mode := m));
  }
}
