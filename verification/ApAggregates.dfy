/** What core/rtw_ap.c derives from its stations: counters of station flags, the HT operation mode computed from the
  * counters, and the fields of the advertised elements computed from both. */
module ApAggregates {
  import opened Bytes
  import opened Seqs
  import opened Elements
  import opened Bss
  import opened BeaconIes

  const ERPINFO_IE: byte := 42
  const HT_ADD_INFO_IE: byte := 61
  const EXT_CAP_IE: byte := 127

  const WIRELESS_11B: byte := 1
  const CHANNEL_WIDTH_40: byte := 1
  const HAL_PRIME_CHNL_OFFSET_LOWER: byte := 1

  // ----- stations -----

  /** The flags of sta_info that are counted. */
  datatype Sta = Sta(no_short_preamble_set: bool, nonerp_set: bool, no_short_slot_time_set: bool, no_ht_gf_set: bool,
                     no_ht_set: bool, ht_20mhz_set: bool, ht_40mhz_intolerant: bool)

  datatype Flag = NoShortPreamble | NonErp | NoShortSlot | NoGreenfield | NoHt | Ht20 | Intolerant

  predicate Has(s: Sta, f: Flag) {
    match f
    case NoShortPreamble => s.no_short_preamble_set
    case NonErp => s.nonerp_set
    case NoShortSlot => s.no_short_slot_time_set
    case NoGreenfield => s.no_ht_gf_set
    case NoHt => s.no_ht_set
    case Ht20 => s.ht_20mhz_set
    case Intolerant => s.ht_40mhz_intolerant
  }

  const UNFLAGGED: Sta := Sta(false, false, false, false, false, false, false)

  /** What a station's association request says. */
  datatype Caps = Caps(shortPreamble: bool, nonErp: bool, shortSlot: bool, ht: bool,
                       greenfield: bool, supWidth: bool, intolerant40: bool)

  /** The flags after a join. A station that comes back keeps the three HT flags it had, whatever it says now. */
  function JoinedSta(s: Sta, c: Caps): Sta {
    Sta(!c.shortPreamble, c.nonErp, !c.shortSlot,
        s.no_ht_gf_set || (c.ht && !c.greenfield),
        !c.ht,
        s.ht_20mhz_set || (c.ht && !c.supWidth),
        s.ht_40mhz_intolerant || (c.ht && c.intolerant40))
  }

  // ----- counters -----

  datatype Nums = Nums(no_short_preamble: int, non_erp: int, no_short_slot_time: int, ht_no_gf: int,
                       no_ht: int, ht_20mhz: int, intolerant: int)

  function Num(n: Nums, f: Flag): int {
    match f
    case NoShortPreamble => n.no_short_preamble
    case NonErp => n.non_erp
    case NoShortSlot => n.no_short_slot_time
    case NoGreenfield => n.ht_no_gf
    case NoHt => n.no_ht
    case Ht20 => n.ht_20mhz
    case Intolerant => n.intolerant
  }

  const NONE_COUNTED: Nums := Nums(0, 0, 0, 0, 0, 0, 0)

  function Count(stas: seq<Sta>, f: Flag): nat {
    if stas == [] then 0 else B(Has(stas[0], f)) + Count(stas[1..], f)
  }

  function B(b: bool): nat { if b then 1 else 0 }

  function Holders(stas: seq<Sta>, f: Flag): set<nat> {
    set i: nat | i < |stas| && Has(stas[i], f)
  }

  /** The count is the number of stations holding the flag. */
  lemma {:induction false} CountIsCardinality(stas: seq<Sta>, f: Flag)
    ensures Count(stas, f) == |Holders(stas, f)|
  {
    hide Has;
    if stas == [] {
      assert Holders(stas, f) == {};
    } else {
      var n := |stas| - 1;
      CountIsCardinality(stas[..n], f);
      OneMoreHolder(stas, f);
      CountConcat(stas[..n], [stas[n]], f);
      assert stas[..n] + [stas[n]] == stas;
      assert Count([stas[n]][1..], f) == 0;
    }
  }

  lemma OneMoreHolder(stas: seq<Sta>, f: Flag)
    requires stas != []
    ensures var n := |stas| - 1;
            var before := Holders(stas[..n], f);
            n !in before && Holders(stas, f) == before + if Has(stas[n], f) then {n} else {}
  {
    hide Has;
  }

  lemma {:induction false} CountConcat(a: seq<Sta>, b: seq<Sta>, f: Flag)
    ensures Count(a + b, f) == Count(a, f) + Count(b, f)
  {
    if a == [] {
      assert a + b == b;
    } else {
      TailOfCat(a, b);
      CountConcat(a[1..], b, f);
    }
  }

  /** The counter after one station's flags changed from s to s'. */
  function Moved(n: Nums, s: Sta, s': Sta): Nums {
    Nums(n.no_short_preamble + B(s'.no_short_preamble_set) - B(s.no_short_preamble_set),
         n.non_erp + B(s'.nonerp_set) - B(s.nonerp_set),
         n.no_short_slot_time + B(s'.no_short_slot_time_set) - B(s.no_short_slot_time_set),
         n.ht_no_gf + B(s'.no_ht_gf_set) - B(s.no_ht_gf_set),
         n.no_ht + B(s'.no_ht_set) - B(s.no_ht_set),
         n.ht_20mhz + B(s'.ht_20mhz_set) - B(s.ht_20mhz_set),
         n.intolerant + B(s'.ht_40mhz_intolerant) - B(s.ht_40mhz_intolerant))
  }

  /** Every counter is the number of stations holding its flag. */
  ghost predicate Tallied(n: Nums, stas: seq<Sta>) {
    forall f :: Num(n, f) == Count(stas, f)
  }

  lemma CountAt(stas: seq<Sta>, i: nat, s': Sta, f: Flag)
    requires i < |stas|
    ensures Count(stas[i := s'], f) == Count(stas, f) - B(Has(stas[i], f)) + B(Has(s', f))
    ensures Count(stas, f) >= B(Has(stas[i], f))
  {
    Step(stas, i);
    assert stas[i := s'] == stas[..i] + [s'] + stas[i + 1..];
    CountConcat(stas[..i] + [s'], stas[i + 1..], f);
    CountConcat(stas[..i], [s'], f);
    CountConcat(stas[..i] + [stas[i]], stas[i + 1..], f);
    CountConcat(stas[..i], [stas[i]], f);
  }

  lemma TalliedMoves(n: Nums, stas: seq<Sta>, i: nat, s': Sta)
    requires Tallied(n, stas) && i < |stas|
    ensures Tallied(Moved(n, stas[i], s'), stas[i := s'])
    ensures forall f :: Num(n, f) >= B(Has(stas[i], f))
  {
    forall f ensures Num(Moved(n, stas[i], s'), f) == Count(stas[i := s'], f) && Num(n, f) >= B(Has(stas[i], f)) {
      CountAt(stas, i, s', f);
    }
  }

  lemma {:induction false} NobodyCounted(k: nat)
    ensures Tallied(NONE_COUNTED, seq(k, _ => UNFLAGGED))
  {
    var stas := seq(k, _ => UNFLAGGED);
    if k > 0 {
      NobodyCounted(k - 1);
      assert stas[1..] == seq(k - 1, _ => UNFLAGGED);
    }
    forall f ensures Num(NONE_COUNTED, f) == Count(stas, f) {
    }
  }

  /** A flag has changed, and with it the count has become one, or none. */
  predicate Edge(was: bool, on: bool, n: int) {
    was != on && n == B(on)
  }

  // ----- the configuration a run does not change -----

  datatype Config = Config(bstart_bss: bool, ERP_enable: bool, HT_info_enable: bool, ht_option: bool, ht_cap_info: u16,
                           cur_wireless_mode: byte, cur_channel: byte, cur_bwmode: byte, cur_ch_offset: byte,
                           olbc: bool, olbc_ht: bool, ht_20mhz_width_req: bool, ht_intolerant_ch_reported: bool)

  // ----- the HT operation mode -----

  /** The access point's own IEEE80211_HT_CAP_SUP_WIDTH. */
  predicate SupWidth(cfg: Config) {
    Bit(cfg.ht_cap_info, 0x0002)
  }

  /** The operation mode proper: the low two bits. */
  function Protection(n: Nums, cfg: Config): (p: u16)
    ensures p < 4
  {
    if n.no_ht != 0 then 3
    else if SupWidth(cfg) && n.ht_20mhz != 0 then 2
    else if cfg.olbc_ht then 1
    else 0
  }

  /** The mode word: two bits of protection, NON_GF_DEVS_PRESENT (4) and NON_HT_STA_PRESENT (16); the rest
    * is kept. */
  function NewOpMode(m: u16, n: Nums, cfg: Config): u16 {
    assert m / 0x20 <= 0x7FF && m % 0x10 / 8 <= 1;
    m / 0x20 * 0x20 + (if n.no_ht != 0 || cfg.olbc_ht then 0x10 else 0)
    + m % 0x10 / 8 * 8 + (if n.ht_no_gf != 0 then 4 else 0) + Protection(n, cfg)
  }

  predicate OpModeInStep(m: u16, n: Nums, cfg: Config) {
    && m % 4 == Protection(n, cfg)
    && (Bit(m, 4) <==> n.ht_no_gf != 0)
    && (Bit(m, 0x10) <==> n.no_ht != 0 || cfg.olbc_ht)
  }

  function OpModeChanges(m: u16, n: Nums, cfg: Config): nat {
    B(Bit(m, 4) != (n.ht_no_gf != 0)) + B(Bit(m, 0x10) != (n.no_ht != 0 || cfg.olbc_ht))
        + B(m % 4 != Protection(n, cfg))
  }

  /** The new word is in step with the counters and keeps the other bits, and no other word is and does. */
  lemma NewOpModeIs(m: u16, n: Nums, cfg: Config, m': u16)
    ensures m' == NewOpMode(m, n, cfg) <==>
              OpModeInStep(m', n, cfg) && m' / 0x20 == m / 0x20 && m' % 0x10 / 8 == m % 0x10 / 8
  {
    hide Protection;
    WordOf(m' / 0x20, m' / 0x10 % 2, m' % 0x10 / 8, m' / 4 % 2, m' % 4);
    WordParts(m');
    WordOf(m / 0x20, B(n.no_ht != 0 || cfg.olbc_ht), m % 0x10 / 8, B(n.ht_no_gf != 0), Protection(n, cfg));
  }

  /** A word is its parts. */
  lemma WordParts(m: u16)
    ensures m == m / 0x20 * 0x20 + m / 0x10 % 2 * 0x10 + m % 0x10 / 8 * 8 + m / 4 % 2 * 4 + m % 4
    ensures m % 0x10 / 8 < 2
  {
    assert m / 0x20 == m / 0x10 / 2 && m / 0x10 == m / 8 / 2 && m / 8 == m / 4 / 2;
    assert m % 0x10 / 8 == m / 8 % 2;
  }

  /** The parts of a word put together. */
  lemma WordOf(hi: nat, b4: nat, b3: nat, b2: nat, lo: nat)
    requires b4 < 2 && b3 < 2 && b2 < 2 && lo < 4
    ensures var m := hi * 0x20 + b4 * 0x10 + b3 * 8 + b2 * 4 + lo;
            m / 0x20 == hi && m / 0x10 % 2 == b4 && m % 0x10 / 8 == b3 && m / 4 % 2 == b2 && m % 4 == lo
  {
    var m := hi * 0x20 + b4 * 0x10 + b3 * 8 + b2 * 4 + lo;
    assert m == 4 * (hi * 8 + b4 * 4 + b3 * 2 + b2) + lo;
    assert m / 4 == hi * 8 + b4 * 4 + b3 * 2 + b2;
    assert m == 0x10 * (hi * 2 + b4) + (b3 * 8 + b2 * 4 + lo);
    assert m / 0x10 == hi * 2 + b4 && m % 0x10 == b3 * 8 + b2 * 4 + lo;
  }

  /** Zero changes are counted exactly when the word stays as it is. */
  lemma NoChangesIffSame(m: u16, n: Nums, cfg: Config)
    ensures OpModeChanges(m, n, cfg) == 0 <==> NewOpMode(m, n, cfg) == m
  {
    NewOpModeIs(m, n, cfg, m);
  }

  // ----- the advertised elements -----

  /** update_bcn_erpinfo_ie: the low two bits from the number of non-ERP stations being one, and bit 2
    * from the preambles. */
  function ErpOctet(b: byte, n: Nums): byte {
    b / 8 * 8 + (if n.no_short_preamble > 0 then 4 else 0) + (if n.non_erp == 1 then 3 else 0)
  }

  function ErpUpdated(es: seq<Ie>, n: Nums): seq<Ie> {
    var k := IndexOf(es, ERPINFO_IE);
    if k < |es| && es[k].body != [] then es[k := PutIn(es[k], 0, ErpOctet(es[k].body[0], n))] else es
  }

  /** An element with one body octet replaced. */
  function PutIn(e: Ie, i: nat, x: byte): (r: Ie)
    requires i < |e.body|
    ensures r.id == e.id && |r.body| == |e.body|
  {
    Element(e.id, e.body[i := x])
  }

  /** Something asks the access point to give 40 MHz up. */
  predicate Wants20(n: Nums, cfg: Config) {
    n.intolerant > 0 || cfg.ht_20mhz_width_req || cfg.ht_intolerant_ch_reported || cfg.olbc
  }

  datatype Width = Keep | To20 | To40

  function WidthStep(n: Nums, sw_to_20mhz: bool, cfg: Config): Width {
    if !sw_to_20mhz && cfg.cur_channel <= 14 then (if Wants20(n, cfg) then To20 else Keep)
    else if n.intolerant == 0 && !Wants20(n, cfg) && cfg.cur_bwmode >= CHANNEL_WIDTH_40 then To40 else Keep
  }

  /** The octet with the secondary channel offset (two bits) and the channel width. */
  function WidthOctet(b: byte, w: Width, cfg: Config): byte {
    match w
    case Keep => b
    case To20 => b / 8 * 8
    case To40 => b / 8 * 8 + 4 + if cfg.cur_ch_offset == HAL_PRIME_CHNL_OFFSET_LOWER then 1 else 3
  }

  function SwitchedTo20(w: Width, sw_to_20mhz: bool): bool {
    match w
    case Keep => sw_to_20mhz
    case To20 => true
    case To40 => false
  }

  /** update_bcn_htinfo_ie, on the elements: the octet after the primary channel, then the mode word, its low
    * octet first. */
  function HtInfoUpdated(es: seq<Ie>, m: u16, w: Width, cfg: Config): seq<Ie>
    requires HtInfoReadable(es)
  {
    var k := IndexOf(es, HT_ADD_INFO_IE);
    if HasHtInfo(es) then
      var body := es[k].body;
      es[k := PutIn(PutIn(PutIn(es[k], 1, WidthOctet(body[1], w, cfg)), 2, m % 0x100), 3, m / 0x100)]
    else es
  }

  predicate HasHtInfo(es: seq<Ie>) {
    IndexOf(es, HT_ADD_INFO_IE) < |es| && es[IndexOf(es, HT_ADD_INFO_IE)].body != []
  }

  /** An HT Operation element that is not empty reaches as far as the mode word. */
  predicate HtInfoReadable(es: seq<Ie>) {
    HasHtInfo(es) ==> |es[IndexOf(es, HT_ADD_INFO_IE)].body| >= 4
  }

  const EXT_LEN: nat := 8
  type ExtData = s: seq<byte> | |s| == 8 witness [0, 0, 0, 0, 0, 0, 0, 0]
  const NULL_EXT_CAP: ExtData := [0, 0, 0, 0, 0, 0, 0, 0]

  /** update_bcn_ext_capab_ie: the old element out, the current one in if it has a bit set. */
  function ExtCapUpdated(es: seq<Ie>, data: ExtData, len: nat): seq<Ie>
    requires len <= EXT_LEN
  {
    var base := RemoveBcn(es, EXT_CAP_IE);
    if len > 0 && data != NULL_EXT_CAP then AddBcn(base, EXT_CAP_IE, data[..len]) else base
  }

  /** SET_EXT_CAPABILITY_ELE_BSS_COEXIST */
  function WithCoexist(data: ExtData, on: bool): ExtData {
    data[0 := data[0] / 2 * 2 + B(on)]
  }

  // ----- joins and leaves -----

  /** What is derived: the counters, the mode word, the switch to 20 MHz, the extended capabilities, the elements. */
  datatype Core = Core(nums: Nums, ht_op_mode: u16, sw_to_20mhz: bool, ext_data: ExtData, ext_len: nat, es: seq<Ie>)

  /** update_beacon of the ERP element, called when the count reaches one from below or zero from above. */
  function ErpStep(cfg: Config, a: Core, s: Sta, s': Sta): Core {
    if s.nonerp_set != s'.nonerp_set && a.nums.non_erp == B(s'.nonerp_set) && cfg.bstart_bss && cfg.ERP_enable
    then a.(es := ErpUpdated(a.es, a.nums)) else a
  }

  /** The BSS coexistence bit, and update_beacon of the extended capabilities. */
  function CoexistStep(cfg: Config, a: Core, on: bool): Core
    requires a.ext_len <= EXT_LEN
  {
    var data, len := WithCoexist(a.ext_data, on), if a.ext_len == 0 then 1 else a.ext_len;
    a.(ext_data := data, ext_len := len, es := if cfg.bstart_bss then ExtCapUpdated(a.es, data, len) else a.es)
  }

  /** update_beacon of the HT Operation element. */
  function HtInfoStep(cfg: Config, a: Core): Core
    requires HtInfoReadable(a.es)
  {
    var w := WidthStep(a.nums, a.sw_to_20mhz, cfg);
    if cfg.bstart_bss && cfg.ht_option && cfg.HT_info_enable && HasHtInfo(a.es)
    then a.(es := HtInfoUpdated(a.es, a.ht_op_mode, w, cfg), sw_to_20mhz := SwitchedTo20(w, a.sw_to_20mhz)) else a
  }

  /** rtw_ht_operation_update, and the update of the beacon when it reports changes. */
  function OpModeStep(cfg: Config, a: Core): Core
    requires HtInfoReadable(a.es)
  {
    if cfg.ht_option && OpModeChanges(a.ht_op_mode, a.nums, cfg) > 0
    then HtInfoStep(cfg, a.(ht_op_mode := NewOpMode(a.ht_op_mode, a.nums, cfg))) else a
  }

  /** A join: counters, ERP element, extended capabilities, mode word and HT Operation element, in this order. */
  function Joined(cfg: Config, a: Core, s: Sta, c: Caps): Core
    requires Editable(a)
  {
    var a1 := ErpStep(cfg, a.(nums := Moved(a.nums, s, JoinedSta(s, c))), s, JoinedSta(s, c));
    ErpStepKeeps(cfg, a.(nums := Moved(a.nums, s, JoinedSta(s, c))), s, JoinedSta(s, c));
    if c.ht && c.intolerant40 then
      CoexistStepKeeps(cfg, a1, true);
      OpModeStep(cfg, CoexistStep(cfg, a1, true))
    else OpModeStep(cfg, a1)
  }

  /** A leave. The last intolerant station takes the coexistence bit with it, and each one has the width looked at. */
  function Left(cfg: Config, a: Core, s: Sta): Core
    requires Editable(a)
  {
    var a1 := ErpStep(cfg, a.(nums := Moved(a.nums, s, UNFLAGGED)), s, UNFLAGGED);
    ErpStepKeeps(cfg, a.(nums := Moved(a.nums, s, UNFLAGGED)), s, UNFLAGGED);
    if s.ht_40mhz_intolerant then
      CoexistStepKeeps(cfg, a1, false);
      var a2 := if a1.ext_len > 0 && a1.nums.intolerant == 0 then CoexistStep(cfg, a1, false) else a1;
      HtInfoStepKeeps(cfg, a2);
      OpModeStep(cfg, HtInfoStep(cfg, a2))
    else OpModeStep(cfg, a1)
  }

  /** The beacon_updated flag of a join or leave: some count that matters here has become one, or none, or a station's
    * intolerance has changed. */
  predicate BeaconUpdated(cfg: Config, n: Nums, s: Sta, s': Sta) {
    ErpEdges(cfg, n, s, s') || s.ht_40mhz_intolerant != s'.ht_40mhz_intolerant
  }

  predicate ErpEdges(cfg: Config, n: Nums, s: Sta, s': Sta) {
    || (cfg.cur_wireless_mode > WIRELESS_11B
        && (Edge(s.no_short_preamble_set, s'.no_short_preamble_set, n.no_short_preamble)
            || Edge(s.no_short_slot_time_set, s'.no_short_slot_time_set, n.no_short_slot_time)))
    || Edge(s.nonerp_set, s'.nonerp_set, n.non_erp)
  }

  // ----- what the edits need and keep -----

  /** The octets the first extended capabilities element takes up. */
  function ExtCapSize(es: seq<Ie>): nat {
    var k := IndexOf(es, EXT_CAP_IE);
    if k < |es| && es[k].body != [] then 2 + |es[k].body| else 0
  }

  /** There is room for an extended capabilities element, counting the place of the one that is there. */
  predicate Room(es: seq<Ie>) {
    FIXED_IE_LENGTH + |EncodeAll(es)| - ExtCapSize(es) + 2 + EXT_LEN <= MAX_IE_SZ
  }

  predicate Editable(a: Core) {
    a.ext_len <= EXT_LEN && Room(a.es) && HtInfoReadable(a.es)
  }

  /** The elements whose contents follow the stations. */
  predicate Derived(id: byte) {
    id == ERPINFO_IE || id == HT_ADD_INFO_IE || id == EXT_CAP_IE
  }

  /** The elements no join or leave is about. */
  function Others(es: seq<Ie>): seq<Ie> {
    if es == [] then [] else (if Derived(es[0].id) then [] else [es[0]]) + Others(es[1..])
  }

  lemma {:induction false} OthersConcat(a: seq<Ie>, b: seq<Ie>)
    ensures Others(a + b) == Others(a) + Others(b)
  {
    if a == [] {
      assert a + b == b;
    } else {
      TailOfCat(a, b);
      OthersConcat(a[1..], b);
    }
  }

  /** Rewriting the first element of an id, in its size: what another search finds, and the sizes, stay. */
  lemma Rewriting(es: seq<Ie>, id: byte, e: Ie)
    requires var k := IndexOf(es, id); k < |es| && e.id == id && |e.body| == |es[k].body|
    ensures var k := IndexOf(es, id);
            var r := es[k := e];
            && |EncodeAll(r)| == |EncodeAll(es)| && |r| == |es|
            && (forall other :: IndexOf(r, other) == IndexOf(es, other))
            && (Derived(id) ==> Others(r) == Others(es))
  {
    hide EncodeAll, Others, IndexOf, Derived;
    var k := IndexOf(es, id);
    var r := es[k := e];
    IndexOfIsFirst(es, id);
    forall other ensures IndexOf(r, other) == IndexOf(es, other) {
      IndexOfIsFirst(es, other);
      IndexOfUnique(r, other, IndexOf(es, other));
    }
    Step(es, k);
    Replaced(es, k, e);
    OthersAround(es[..k], es[k], es[k + 1..]);
    OthersAround(es[..k], e, es[k + 1..]);
    SizeAround(es[..k], es[k], es[k + 1..]);
    SizeAround(es[..k], e, es[k + 1..]);
  }

  lemma OthersAround(a: seq<Ie>, e: Ie, b: seq<Ie>)
    ensures Derived(e.id) ==> Others(a + [e] + b) == Others(a) + Others(b)
  {
    OthersConcat(a + [e], b);
    OthersConcat(a, [e]);
    assert [e][1..] == [];
  }

  lemma SizeAround(a: seq<Ie>, e: Ie, b: seq<Ie>)
    ensures |EncodeAll(a + [e] + b)| == |EncodeAll(a)| + 2 + |e.body| + |EncodeAll(b)|
    ensures |EncodeAll(a + b)| == |EncodeAll(a)| + |EncodeAll(b)|
  {
    EncodeAllConcat(a + [e], b);
    EncodeAllConcat(a, [e]);
    EncodeAllConcat(a, b);
    EncodeOne(e);
  }

  lemma ErpStepKeeps(cfg: Config, a: Core, s: Sta, s': Sta)
    requires Editable(a)
    ensures var r := ErpStep(cfg, a, s, s');
            && Editable(r) && Others(r.es) == Others(a.es)
            && First(r.es, HT_ADD_INFO_IE) == First(a.es, HT_ADD_INFO_IE)
            && First(r.es, EXT_CAP_IE) == First(a.es, EXT_CAP_IE)
  {
    hide EncodeAll, Others, IndexOf;
    var k := IndexOf(a.es, ERPINFO_IE);
    IndexOfIsFirst(a.es, ERPINFO_IE);
    IndexOfIsFirst(a.es, HT_ADD_INFO_IE);
    IndexOfIsFirst(a.es, EXT_CAP_IE);
    if k < |a.es| && a.es[k].body != [] {
      Rewriting(a.es, ERPINFO_IE, PutIn(a.es[k], 0, ErpOctet(a.es[k].body[0], a.nums)));
    }
  }

  lemma HtInfoStepKeeps(cfg: Config, a: Core)
    requires Editable(a)
    ensures var r := HtInfoStep(cfg, a);
            && Editable(r) && Others(r.es) == Others(a.es)
            && First(r.es, ERPINFO_IE) == First(a.es, ERPINFO_IE) && First(r.es, EXT_CAP_IE) == First(a.es, EXT_CAP_IE)
  {
    hide EncodeAll, Others, IndexOf, WidthStep, WidthOctet;
    var k := IndexOf(a.es, HT_ADD_INFO_IE);
    IndexOfIsFirst(a.es, ERPINFO_IE);
    IndexOfIsFirst(a.es, HT_ADD_INFO_IE);
    IndexOfIsFirst(a.es, EXT_CAP_IE);
    if HasHtInfo(a.es) {
      var w := WidthStep(a.nums, a.sw_to_20mhz, cfg);
      var e := PutIn(PutIn(PutIn(a.es[k], 1, WidthOctet(a.es[k].body[1], w, cfg)), 2, a.ht_op_mode % 0x100),
                     3, a.ht_op_mode / 0x100);
      Rewriting(a.es, HT_ADD_INFO_IE, e);
    }
  }

  lemma CoexistStepKeeps(cfg: Config, a: Core, on: bool)
    requires Editable(a)
    ensures var r := CoexistStep(cfg, a, on);
            && Editable(r) && Others(r.es) == Others(a.es)
            && First(r.es, ERPINFO_IE) == First(a.es, ERPINFO_IE)
            && First(r.es, HT_ADD_INFO_IE) == First(a.es, HT_ADD_INFO_IE)
  {
    hide EncodeAll, Others, IndexOf, ExtCapUpdated;
    var data, len := WithCoexist(a.ext_data, on), if a.ext_len == 0 then 1 else a.ext_len;
    ExtCapKeeps(a.es, data, len);
  }

  /** Whatever is taken out and put in, the rest of the beacon stays, and the next update has room again. */
  lemma ExtCapKeeps(es: seq<Ie>, data: ExtData, len: nat)
    requires Room(es) && len <= EXT_LEN
    ensures var r := ExtCapUpdated(es, data, len);
            && Room(r) && Others(r) == Others(es)
            && First(r, ERPINFO_IE) == First(es, ERPINFO_IE) && First(r, HT_ADD_INFO_IE) == First(es, HT_ADD_INFO_IE)
    ensures FIXED_IE_LENGTH + |EncodeAll(RemoveBcn(es, EXT_CAP_IE))| + 2 + EXT_LEN <= MAX_IE_SZ
  {
    hide EncodeAll, Others, IndexOf, StopIndex, RemoveBcn, AddBcn, ExtCapSize, First;
    var base := RemoveBcn(es, EXT_CAP_IE);
    RemovedExtCap(es);
    RemovedExtCap(base);
    var d: Body := if len > 0 then data[..len] else [];
    EditsIgnoreOthers(es, EXT_CAP_IE, d, ERPINFO_IE);
    EditsIgnoreOthers(es, EXT_CAP_IE, d, HT_ADD_INFO_IE);
    EditsIgnoreOthers(base, EXT_CAP_IE, d, ERPINFO_IE);
    EditsIgnoreOthers(base, EXT_CAP_IE, d, HT_ADD_INFO_IE);
    if len > 0 {
      AddedExtCap(base, d);
    }
  }

  /** What a search for the extended capabilities finds after the update: the new data, when the insertion takes effect
    * or the same data stands in a second element. */
  lemma ExtCapAdvertised(es: seq<Ie>, data: ExtData, len: nat)
    requires 0 < len <= EXT_LEN && data != NULL_EXT_CAP
    ensures var base, ie := RemoveBcn(es, EXT_CAP_IE), Some(Element(EXT_CAP_IE, data[..len]));
            First(ExtCapUpdated(es, data, len), EXT_CAP_IE) == ie <==>
              Writes(base, EXT_CAP_IE) || First(base, EXT_CAP_IE) == ie
  {
    hide First, AddBcn, RemoveBcn, Writes;
    AddIsFound(RemoveBcn(es, EXT_CAP_IE), EXT_CAP_IE, data[..len]);
  }

  lemma RemovedExtCap(es: seq<Ie>)
    ensures Others(RemoveBcn(es, EXT_CAP_IE)) == Others(es)
    ensures |EncodeAll(RemoveBcn(es, EXT_CAP_IE))| == |EncodeAll(es)| - ExtCapSize(es)
  {
    hide EncodeAll, Others, IndexOf;
    var k := IndexOf(es, EXT_CAP_IE);
    IndexOfIsFirst(es, EXT_CAP_IE);
    if k < |es| {
      Step(es, k);
      OthersAround(es[..k], es[k], es[k + 1..]);
      OthersConcat(es[..k], es[k + 1..]);
      SizeAround(es[..k], es[k], es[k + 1..]);
    }
  }

  /** The element put in is the one the next update takes out. */
  lemma AddedExtCap(es: seq<Ie>, d: Body)
    requires d != []
    ensures var r := AddBcn(es, EXT_CAP_IE, d);
            Others(r) == Others(es) && |EncodeAll(r)| - ExtCapSize(r) <= |EncodeAll(es)|
  {
    hide EncodeAll, Others, IndexOf, StopIndex;
    var k, r := StopIndex(es, EXT_CAP_IE), AddBcn(es, EXT_CAP_IE, d);
    var added := Element(EXT_CAP_IE, d);
    StopIndexIs(es, EXT_CAP_IE, k);
    if AddTakesEffect(es, EXT_CAP_IE) {
      var tail := if k < |es| && es[k].id == EXT_CAP_IE then es[k + 1..] else es[k..];
      assert r == es[..k] + [added] + tail;
      IndexOfUnique(r, EXT_CAP_IE, k);
      OthersAround(es[..k], added, tail);
      SizeAround(es[..k], added, tail);
      if k < |es| && es[k].id == EXT_CAP_IE {
        Step(es, k);
        OthersAround(es[..k], es[k], tail);
        SizeAround(es[..k], es[k], tail);
      } else {
        TakeDrop(es, k);
        OthersConcat(es[..k], tail);
      }
    }
  }

  // ----- the invariant -----

  /** NonERP_Present and Use_Protection are both set if there are non-ERP stations, and both clear otherwise. */
  predicate ErpInStep(es: seq<Ie>, n: Nums) {
    var k := IndexOf(es, ERPINFO_IE);
    k < |es| && es[k].body != [] ==>
      (Bit(es[k].body[0], 1) <==> n.non_erp > 0) && (Bit(es[k].body[0], 2) <==> n.non_erp > 0)
  }

  /** The mode word in the HT Operation element. */
  predicate HtInfoInStep(es: seq<Ie>, m: u16)
    requires HtInfoReadable(es)
  {
    var k := IndexOf(es, HT_ADD_INFO_IE);
    HasHtInfo(es) ==> Le16(es[k].body[2], es[k].body[3]) == m
  }

  /** The coexistence bit is set exactly while an intolerant station is counted. */
  predicate CoexistInStep(a: Core) {
    (Bit(a.ext_data[0], 1) <==> a.nums.intolerant > 0) && (a.ext_len == 0 ==> a.nums.intolerant == 0)
  }

  /** The beacon shows the counters and the mode word. */
  ghost predicate Advertised(cfg: Config, a: Core) {
    && Editable(a)
    && (cfg.bstart_bss && cfg.ERP_enable ==> ErpInStep(a.es, a.nums))
    && (cfg.bstart_bss && cfg.HT_info_enable && cfg.ht_option ==> HtInfoInStep(a.es, a.ht_op_mode))
  }

  /** The layers agree. */
  ghost predicate InStep(cfg: Config, stas: seq<Sta>, a: Core) {
    Advertised(cfg, a) && Tallied(a.nums, stas) && CoexistInStep(a)
  }

  /** The update tests the count against one: by itself it would switch protection off where there are two or more. It
    * puts the bits in step exactly when there is at most one, which is when joins and leaves call it. */
  lemma ErpUpdateInStepIff(es: seq<Ie>, n: Nums)
    requires n.non_erp >= 0
    ensures var k := IndexOf(es, ERPINFO_IE);
            ErpInStep(ErpUpdated(es, n), n) <==> n.non_erp <= 1 || k == |es| || es[k].body == []
  {
    hide EncodeAll, IndexOf;
    var k := IndexOf(es, ERPINFO_IE);
    if k < |es| && es[k].body != [] {
      IndexOfIsFirst(es, ERPINFO_IE);
      Rewriting(es, ERPINFO_IE, PutIn(es[k], 0, ErpOctet(es[k].body[0], n)));
      ErpBits(es[k].body[0], n);
    }
  }

  lemma ErpBits(b: byte, n: Nums)
    ensures Bit(ErpOctet(b, n), 1) <==> n.non_erp == 1
    ensures Bit(ErpOctet(b, n), 2) <==> n.non_erp == 1
  {
  }

  lemma ErpStepInStep(cfg: Config, a: Core, s: Sta, s': Sta)
    requires cfg.bstart_bss && cfg.ERP_enable && a.nums.non_erp >= B(s'.nonerp_set) >= 0
    requires ErpInStep(a.es, a.nums.(non_erp := a.nums.non_erp + B(s.nonerp_set) - B(s'.nonerp_set)))
    ensures ErpInStep(ErpStep(cfg, a, s, s').es, a.nums)
  {
    ErpUpdateInStepIff(a.es, a.nums);
  }

  lemma HtInfoStepInStep(cfg: Config, a: Core)
    requires Editable(a) && cfg.bstart_bss && cfg.ht_option && cfg.HT_info_enable
    ensures HtInfoReadable(HtInfoStep(cfg, a).es) && HtInfoInStep(HtInfoStep(cfg, a).es, a.ht_op_mode)
    ensures HtInfoStep(cfg, a).ht_op_mode == a.ht_op_mode
  {
    hide EncodeAll, IndexOf, Others, WidthOctet;
    HtInfoStepKeeps(cfg, a);
    var k := IndexOf(a.es, HT_ADD_INFO_IE);
    if HasHtInfo(a.es) {
      IndexOfIsFirst(a.es, HT_ADD_INFO_IE);
      var w := WidthStep(a.nums, a.sw_to_20mhz, cfg);
      var e := PutIn(PutIn(PutIn(a.es[k], 1, WidthOctet(a.es[k].body[1], w, cfg)), 2, a.ht_op_mode % 0x100),
                     3, a.ht_op_mode / 0x100);
      Rewriting(a.es, HT_ADD_INFO_IE, e);
    }
  }

  /** The HT part agrees after a mode update, without having agreed before. */
  lemma OpModeStepKeeps(cfg: Config, a: Core)
    requires Editable(a)
    ensures var r := OpModeStep(cfg, a);
            && Editable(r) && Others(r.es) == Others(a.es) && r.nums == a.nums
            && r.ext_data == a.ext_data && r.ext_len == a.ext_len
            && First(r.es, ERPINFO_IE) == First(a.es, ERPINFO_IE)
            && (cfg.ht_option ==>
                  OpModeInStep(r.ht_op_mode, r.nums, cfg) && r.ht_op_mode == NewOpMode(a.ht_op_mode, a.nums, cfg))
            && (!cfg.ht_option ==> r == a)
            && (cfg.bstart_bss && cfg.HT_info_enable && cfg.ht_option && HtInfoInStep(a.es, a.ht_op_mode)
                ==> HtInfoInStep(r.es, r.ht_op_mode))
  {
    hide EncodeAll, IndexOf, Others, HtInfoStep, NewOpMode, OpModeInStep, HtInfoInStep, First;
    var m := NewOpMode(a.ht_op_mode, a.nums, cfg);
    NoChangesIffSame(a.ht_op_mode, a.nums, cfg);
    NewOpModeIs(a.ht_op_mode, a.nums, cfg, m);
    HtInfoStepKeeps(cfg, a.(ht_op_mode := m));
    HtInfoStepRest(cfg, a.(ht_op_mode := m));
    if cfg.bstart_bss && cfg.ht_option && cfg.HT_info_enable {
      HtInfoStepInStep(cfg, a.(ht_op_mode := m));
    }
  }

  lemma HtInfoStepRest(cfg: Config, a: Core)
    requires HtInfoReadable(a.es)
    ensures var r := HtInfoStep(cfg, a);
            r.nums == a.nums && r.ext_data == a.ext_data && r.ext_len == a.ext_len && r.ht_op_mode == a.ht_op_mode
  {
  }

  /** In-step is a matter of what the searches find. */
  lemma InStepByFirst(es: seq<Ie>, fs: seq<Ie>, n: Nums, m: u16)
    ensures First(es, ERPINFO_IE) == First(fs, ERPINFO_IE) ==> (ErpInStep(es, n) <==> ErpInStep(fs, n))
    ensures First(es, HT_ADD_INFO_IE) == First(fs, HT_ADD_INFO_IE) && HtInfoReadable(es) ==>
              HtInfoReadable(fs) && (HtInfoInStep(es, m) <==> HtInfoInStep(fs, m))
  {
    hide IndexOf;
  }

  /** A join keeps the layers in step, leaves every other element alone, and puts the mode word in step with the
    * counters, whatever it was. */
  lemma JoinKeeps(cfg: Config, stas: seq<Sta>, a: Core, i: nat, c: Caps)
    requires InStep(cfg, stas, a) && i < |stas|
    ensures var s' := JoinedSta(stas[i], c);
            var r := Joined(cfg, a, stas[i], c);
            && InStep(cfg, stas[i := s'], r) && Others(r.es) == Others(a.es)
            && (cfg.ht_option ==> OpModeInStep(r.ht_op_mode, r.nums, cfg))
  {
    hide EncodeAll, IndexOf, Others, OpModeStep, ErpStep, CoexistStep, First, HtInfoInStep, ErpInStep, Tallied,
         OpModeInStep, Room, HtInfoReadable;
    var s, s' := stas[i], JoinedSta(stas[i], c);
    var a0 := a.(nums := Moved(a.nums, s, s'));
    CountersMove(cfg, stas, a, i, s');
    var a1 := ErpStep(cfg, a0, s, s');
    if c.ht && c.intolerant40 {
      CoexistCarries(cfg, a1, true);
      OpModeCarries(cfg, CoexistStep(cfg, a1, true));
    } else {
      OpModeCarries(cfg, a1);
    }
  }

  lemma LeaveKeeps(cfg: Config, stas: seq<Sta>, a: Core, i: nat)
    requires InStep(cfg, stas, a) && i < |stas|
    ensures var r := Left(cfg, a, stas[i]);
            && InStep(cfg, stas[i := UNFLAGGED], r) && Others(r.es) == Others(a.es)
            && (cfg.ht_option ==> OpModeInStep(r.ht_op_mode, r.nums, cfg))
  {
    hide EncodeAll, IndexOf, Others, OpModeStep, ErpStep, CoexistStep, First, HtInfoStep, HtInfoInStep, ErpInStep,
         Tallied, OpModeInStep, Room, HtInfoReadable;
    var s := stas[i];
    CountersMove(cfg, stas, a, i, UNFLAGGED);
    var a1 := ErpStep(cfg, a.(nums := Moved(a.nums, s, UNFLAGGED)), s, UNFLAGGED);
    if s.ht_40mhz_intolerant {
      CoexistCarries(cfg, a1, false);
      var a2 := if a1.ext_len > 0 && a1.nums.intolerant == 0 then CoexistStep(cfg, a1, false) else a1;
      HtInfoCarries(cfg, a2);
      OpModeCarries(cfg, HtInfoStep(cfg, a2));
    } else {
      OpModeCarries(cfg, a1);
    }
  }

  /** The counters and the ERP element move together. */
  lemma CountersMove(cfg: Config, stas: seq<Sta>, a: Core, i: nat, s': Sta)
    requires InStep(cfg, stas, a) && i < |stas|
    ensures var s := stas[i];
            var n := Moved(a.nums, s, s');
            var r := ErpStep(cfg, a.(nums := n), s, s');
            && Editable(a.(nums := n)) && Tallied(n, stas[i := s']) && Advertised(cfg, r)
            && Others(r.es) == Others(a.es)
            && r.nums == n && r.ext_data == a.ext_data && r.ext_len == a.ext_len && r.ht_op_mode == a.ht_op_mode
            && n.intolerant >= B(s'.ht_40mhz_intolerant)
            && a.nums.intolerant >= B(s.ht_40mhz_intolerant)
  {
    hide EncodeAll, IndexOf, Others, HtInfoInStep, ErpInStep, Tallied, Room, HtInfoReadable;
    var s := stas[i];
    var n := Moved(a.nums, s, s');
    TalliedMoves(a.nums, stas, i, s');
    TalliedMoves(n, stas[i := s'], i, s');
    assert Num(n, NonErp) >= B(Has(s', NonErp)) && Num(n, Intolerant) >= B(Has(s', Intolerant));
    assert Num(a.nums, NonErp) >= B(Has(s, NonErp)) && Num(a.nums, Intolerant) >= B(Has(s, Intolerant));
    ErpStepKeeps(cfg, a.(nums := n), s, s');
    InStepByFirst(a.es, ErpStep(cfg, a.(nums := n), s, s').es, n, a.ht_op_mode);
    ErpInStepByCount(a.es, a.nums, n.(non_erp := n.non_erp + B(s.nonerp_set) - B(s'.nonerp_set)));
    if cfg.bstart_bss && cfg.ERP_enable {
      ErpStepInStep(cfg, a.(nums := n), s, s');
    }
  }

  lemma ErpInStepByCount(es: seq<Ie>, n: Nums, n': Nums)
    requires n.non_erp == n'.non_erp
    ensures ErpInStep(es, n) <==> ErpInStep(es, n')
  {
  }

  lemma CoexistCarries(cfg: Config, a: Core, on: bool)
    requires Advertised(cfg, a)
    ensures var r := CoexistStep(cfg, a, on);
            && Advertised(cfg, r) && Others(r.es) == Others(a.es) && r.nums == a.nums && r.ht_op_mode == a.ht_op_mode
            && (Bit(r.ext_data[0], 1) <==> on) && r.ext_len > 0
  {
    hide EncodeAll, IndexOf, Others, HtInfoInStep, ErpInStep, Room, HtInfoReadable, ExtCapUpdated;
    CoexistStepKeeps(cfg, a, on);
    InStepByFirst(a.es, CoexistStep(cfg, a, on).es, a.nums, a.ht_op_mode);
  }

  lemma HtInfoCarries(cfg: Config, a: Core)
    requires Advertised(cfg, a)
    ensures var r := HtInfoStep(cfg, a);
            && Advertised(cfg, r) && Others(r.es) == Others(a.es)
            && r.nums == a.nums && r.ht_op_mode == a.ht_op_mode && r.ext_data == a.ext_data && r.ext_len == a.ext_len
  {
    hide EncodeAll, IndexOf, Others, HtInfoInStep, ErpInStep, Room, HtInfoReadable, HtInfoStep;
    HtInfoStepKeeps(cfg, a);
    HtInfoStepRest(cfg, a);
    InStepByFirst(a.es, HtInfoStep(cfg, a).es, a.nums, a.ht_op_mode);
    if cfg.bstart_bss && cfg.ht_option && cfg.HT_info_enable {
      HtInfoStepInStep(cfg, a);
    }
  }

  lemma OpModeCarries(cfg: Config, a: Core)
    requires Advertised(cfg, a)
    ensures var r := OpModeStep(cfg, a);
            && Advertised(cfg, r) && Others(r.es) == Others(a.es)
            && r.nums == a.nums && r.ext_data == a.ext_data && r.ext_len == a.ext_len
            && (cfg.ht_option ==> OpModeInStep(r.ht_op_mode, r.nums, cfg))
  {
    hide EncodeAll, IndexOf, Others, HtInfoInStep, ErpInStep, Room, HtInfoReadable, OpModeStep, OpModeInStep, NewOpMode;
    OpModeStepKeeps(cfg, a);
    InStepByFirst(a.es, OpModeStep(cfg, a).es, a.nums, a.ht_op_mode);
  }

  // ----- runs -----

  datatype Event = Join(i: nat, caps: Caps) | Leave(i: nat)

  function StasAfter(stas: seq<Sta>, e: Event): (r: seq<Sta>)
    requires e.i < |stas|
    ensures |r| == |stas|
  {
    stas[e.i := if e.Join? then JoinedSta(stas[e.i], e.caps) else UNFLAGGED]
  }

  function CoreAfter(cfg: Config, stas: seq<Sta>, a: Core, e: Event): Core
    requires e.i < |stas| && Editable(a)
  {
    if e.Join? then Joined(cfg, a, stas[e.i], e.caps) else Left(cfg, a, stas[e.i])
  }

  function RunStas(stas: seq<Sta>, run: seq<Event>): (r: seq<Sta>)
    requires forall e <- run :: e.i < |stas|
    ensures |r| == |stas|
  {
    if run == [] then stas else StasAfter(RunStas(stas, run[..|run| - 1]), run[|run| - 1])
  }

  ghost function RunCore(cfg: Config, stas: seq<Sta>, a: Core, run: seq<Event>): (r: Core)
    requires InStep(cfg, stas, a) && forall e <- run :: e.i < |stas|
    ensures InStep(cfg, RunStas(stas, run), r)
  {
    if run == [] then a
    else
      var n := |run| - 1;
      var before, there := RunCore(cfg, stas, a, run[..n]), RunStas(stas, run[..n]);
      StepKeeps(cfg, there, before, run[n]);
      CoreAfter(cfg, there, before, run[n])
  }

  lemma StepKeeps(cfg: Config, stas: seq<Sta>, a: Core, e: Event)
    requires InStep(cfg, stas, a) && e.i < |stas|
    ensures var r := CoreAfter(cfg, stas, a, e);
            && InStep(cfg, StasAfter(stas, e), r) && Others(r.es) == Others(a.es)
            && (cfg.ht_option ==> OpModeInStep(r.ht_op_mode, r.nums, cfg))
  {
    hide InStep, Joined, Left, OpModeInStep, Others;
    if e.Join? {
      JoinKeeps(cfg, stas, a, e.i, e.caps);
    } else {
      LeaveKeeps(cfg, stas, a, e.i);
    }
  }

  /** Over every run of joins and leaves: the counters count, the mode word is the stated function of the counters, the
    * beacon shows both, and the rest of the beacon is as it was at the start. */
  lemma {:induction false} RunInStep(cfg: Config, stas: seq<Sta>, a: Core, run: seq<Event>)
    requires InStep(cfg, stas, a) && forall e <- run :: e.i < |stas|
    ensures var r := RunCore(cfg, stas, a, run);
            && InStep(cfg, RunStas(stas, run), r) && Others(r.es) == Others(a.es)
            && (run != [] && cfg.ht_option ==> OpModeInStep(r.ht_op_mode, r.nums, cfg))
  {
    if run != [] {
      var n := |run| - 1;
      RunInStep(cfg, stas, a, run[..n]);
      StepKeeps(cfg, RunStas(stas, run[..n]), RunCore(cfg, stas, a, run[..n]), run[n]);
    }
  }

  /** start_ap_mode's values are in step, for a beacon that advertises neither protection nor an operation mode. */
  lemma StartInStep(cfg: Config, k: nat, es: seq<Ie>)
    requires Room(es) && HtInfoReadable(es) && ErpInStep(es, NONE_COUNTED) && HtInfoInStep(es, 0)
    ensures InStep(cfg, seq(k, _ => UNFLAGGED), Core(NONE_COUNTED, 0, false, NULL_EXT_CAP, 0, es))
  {
    NobodyCounted(k);
  }

  /** With every station gone, what a run leaves is what it found: no counter, no protection, no coexistence bit. */
  lemma AllGone(cfg: Config, stas: seq<Sta>, a: Core)
    requires InStep(cfg, stas, a) && forall i :: 0 <= i < |stas| ==> stas[i] == UNFLAGGED
    ensures a.nums == NONE_COUNTED && !Bit(a.ext_data[0], 1)
  {
    assert stas == seq(|stas|, _ => UNFLAGGED);
    NobodyCounted(|stas|);
    forall f ensures Num(a.nums, f) == 0 {
      assert Num(NONE_COUNTED, f) == Count(stas, f);
    }
    assert Num(a.nums, NoShortPreamble) == Num(a.nums, NonErp) == 0;
    assert Num(a.nums, NoShortSlot) == Num(a.nums, NoGreenfield) == 0;
    assert Num(a.nums, NoHt) == Num(a.nums, Ht20) == Num(a.nums, Intolerant) == 0;
  }
}
