/** The NAT2.5 database of core/rtw_br_ext.c as a finite map, and what runs of its operations do to an entry. */
module Nat25Map {
  import opened Bytes

  const MAX_NETWORK_ADDR_LEN: nat := 17
  const NAT25_HASH_SIZE: nat := 16

  type NetworkAddr = a: seq<bv8> | |a| == MAX_NETWORK_ADDR_LEN witness seq(MAX_NETWORK_ADDR_LEN, _ => 0)
  type Mac = seq<byte>

  /** What is recorded for a network address. */
  datatype Rec = Rec(mac: Mac, timer: int, uses: int)

  /** The table and the shortcut entry, by address. */
  datatype Db = Db(table: map<NetworkAddr, Rec>, shortcut: Option<NetworkAddr>)

  /** __nat25_has_expired; age is NAT25_AGEING_TIME * HZ, and jiffies do not wrap. */
  predicate HasExpired(timer: int, now: int, age: nat) {
    timer <= now - age
  }

  function Fresh(mac: Mac, now: int): Rec {
    Rec(mac, now, 1)
  }

  /** __nat25_db_network_insert; mallocOk tells whether rtw_malloc succeeds. */
  function Insert(d: Db, mac: Mac, a: NetworkAddr, now: int, mallocOk: bool): Db {
    if a in d.table then d.(table := d.table[a := d.table[a].(mac := mac, timer := now)])
    else if mallocOk then d.(table := d.table[a := Fresh(mac, now)])
    else d
  }

  /** __nat25_db_network_lookup_and_replace: an expired entry is found but neither used nor counted. */
  function Lookup(d: Db, a: NetworkAddr, now: int, age: nat): Db {
    if a in d.table && !HasExpired(d.table[a].timer, now, age)
    then d.(table := d.table[a := d.table[a].(uses := d.table[a].uses + 1)])
    else d
  }

  /** An entry leaves at this sweep. */
  predicate Leaves(r: Rec, now: int, age: nat) {
    HasExpired(r.timer, now, age) && r.uses == 1
  }

  function Aged(r: Rec, now: int, age: nat): Rec {
    if HasExpired(r.timer, now, age) then r.(uses := r.uses - 1) else r
  }

  /** nat25_db_expire */
  function Sweep(d: Db, now: int, age: nat): Db {
    Db(map a | a in d.table && !Leaves(d.table[a], now, age) :: Aged(d.table[a], now, age),
       if d.shortcut.Some? && (d.shortcut.value !in d.table || Leaves(d.table[d.shortcut.value], now, age))
       then None else d.shortcut)
  }

  /** Halfway through a sweep of v0: the addresses in todo are as they were, the others are done. */
  ghost predicate PartlySwept(v0: Db, v: Db, todo: set<NetworkAddr>, now: int, age: nat) {
    && (forall a :: a in todo ==> a in v0.table && a in v.table && v.table[a] == v0.table[a])
    && (forall a :: a in v.table ==> a in v0.table)
    && (forall a :: a in v0.table && a !in todo ==>
          (a in v.table <==> !Leaves(v0.table[a], now, age))
              && (a in v.table ==> v.table[a] == Aged(v0.table[a], now, age)))
    && v.shortcut == if v0.shortcut.Some? && v0.shortcut.value !in v.table then None else v0.shortcut
  }

  /** What the sweep does at address a. */
  function SweptAt(v: Db, a: NetworkAddr, now: int, age: nat): Db
    requires a in v.table
  {
    if Leaves(v.table[a], now, age) then Db(v.table - {a}, if v.shortcut == Some(a) then None else v.shortcut)
    else v.(table := v.table[a := Aged(v.table[a], now, age)])
  }

  lemma SweepGoesOn(v0: Db, v: Db, todo: set<NetworkAddr>, a: NetworkAddr, now: int, age: nat)
    requires PartlySwept(v0, v, todo, now, age) && a in todo
    ensures PartlySwept(v0, SweptAt(v, a, now, age), todo - {a}, now, age)
  {
  }

  lemma SweepBegins(v0: Db, now: int, age: nat)
    requires v0.shortcut.Some? ==> v0.shortcut.value in v0.table
    ensures PartlySwept(v0, v0, v0.table.Keys, now, age)
  {
  }

  lemma SweepIsDone(v0: Db, v: Db, todo: set<NetworkAddr>, now: int, age: nat)
    requires PartlySwept(v0, v, todo, now, age) && todo == {}
    ensures v == Sweep(v0, now, age)
  {
    assert v.table == Sweep(v0, now, age).table;
  }

  /** nat25_db_cleanup */
  function Cleanup(d: Db): Db {
    Db(map[], None)
  }

  /** The transmit path assigns scdb_findEntry's result and stamps it (core/rtw_xmit.c). */
  function FindShortcut(d: Db, a: NetworkAddr, now: int): Db {
    if a in d.table then Db(d.table[a := d.table[a].(timer := now)], Some(a)) else d.(shortcut := None)
  }

  /** ... and stamps the remembered entry when it is used again. */
  function UseShortcut(d: Db, now: int): Db {
    if d.shortcut.Some? && d.shortcut.value in d.table
    then d.(table := d.table[d.shortcut.value := d.table[d.shortcut.value].(timer := now)])
    else d
  }

  datatype Event =
    | EvInsert(mac: Mac, a: NetworkAddr, mallocOk: bool)
    | EvLookup(a: NetworkAddr)
    | EvSweep
    | EvCleanup
    | EvFindShortcut(a: NetworkAddr)
    | EvUseShortcut

  /** An event and the value of jiffies at which it happens. */
  datatype Timed = Timed(ev: Event, now: int)

  function Step(d: Db, t: Timed, age: nat): Db {
    match t.ev
    case EvInsert(mac, a, mallocOk) => Insert(d, mac, a, t.now, mallocOk)
    case EvLookup(a) => Lookup(d, a, t.now, age)
    case EvSweep => Sweep(d, t.now, age)
    case EvCleanup => Cleanup(d)
    case EvFindShortcut(a) => FindShortcut(d, a, t.now)
    case EvUseShortcut => UseShortcut(d, t.now)
  }

  function Run(d: Db, ts: seq<Timed>, age: nat): Db
    decreases |ts|
  {
    if ts == [] then d else Run(Step(d, ts[0], age), ts[1..], age)
  }

  lemma {:induction false} RunOneMore(d: Db, ts: seq<Timed>, t: Timed, age: nat)
    ensures Run(d, ts + [t], age) == Step(Run(d, ts, age), t, age)
    decreases |ts|
  {
    if ts == [] {
      assert [t][1..] == [];
    } else {
      RunOneMore(Step(d, ts[0], age), ts[1..], t, age);
      assert (ts + [t])[1..] == ts[1..] + [t];
    }
  }

  /** Every entry has a use left, and the shortcut does not dangle. */
  ghost predicate Sound(d: Db) {
    && (forall a :: a in d.table ==> d.table[a].uses >= 1)
    && (d.shortcut.Some? ==> d.shortcut.value in d.table)
  }

  lemma StepKeepsSound(d: Db, t: Timed, age: nat)
    requires Sound(d)
    ensures Sound(Step(d, t, age))
  {
  }

  lemma {:induction false} RunKeepsSound(d: Db, ts: seq<Timed>, age: nat)
    requires Sound(d)
    ensures Sound(Run(d, ts, age))
    decreases |ts|
  {
    if ts != [] {
      StepKeepsSound(d, ts[0], age);
      RunKeepsSound(Step(d, ts[0], age), ts[1..], age);
    }
  }

  // ----- how long an expired entry stays -----

  /** jiffies never go back. */
  ghost predicate Monotone(ts: seq<Timed>, start: int) {
    forall i :: 0 <= i < |ts| ==> start <= ts[i].now && forall j :: i < j < |ts| ==> ts[i].now <= ts[j].now
  }

  /** The event stamps or discards address a. */
  predicate Touches(d: Db, t: Timed, a: NetworkAddr) {
    match t.ev
    case EvInsert(_, b, _) => a == b
    case EvFindShortcut(b) => a == b
    case EvUseShortcut => d.shortcut == Some(a)
    case EvCleanup => true
    case _ => false
  }

  predicate NeverTouched(d: Db, ts: seq<Timed>, a: NetworkAddr, age: nat)
    decreases |ts|
  {
    ts == [] || (!Touches(d, ts[0], a) && NeverTouched(Step(d, ts[0], age), ts[1..], a, age))
  }

  function Sweeps(ts: seq<Timed>): nat {
    if ts == [] then 0 else (if ts[0].ev.EvSweep? then 1 else 0) + Sweeps(ts[1..])
  }

  /** Exactly use_count further sweeps unlink an expired entry, whatever else happens: lookups cannot delay it. */
  lemma {:induction false} ExpiredEntryLastsItsUses(d: Db, ts: seq<Timed>, a: NetworkAddr, start: int, age: nat)
    requires Sound(d) && a in d.table && HasExpired(d.table[a].timer, start, age)
    requires Monotone(ts, start) && NeverTouched(d, ts, a, age)
    ensures var r := Run(d, ts, age).table;
            if Sweeps(ts) >= d.table[a].uses then a !in r
            else a in r && r[a] == d.table[a].(uses := d.table[a].uses - Sweeps(ts))
    decreases |ts|
  {
    if ts != [] {
      var d' := Step(d, ts[0], age);
      StepKeepsSound(d, ts[0], age);
      if a in d'.table {
        ExpiredEntryLastsItsUses(d', ts[1..], a, ts[0].now, age);
      } else {
        GoneStaysGone(d', ts[1..], a, age);
      }
    }
  }

  /** Only an insertion brings an address back. */
  lemma {:induction false} GoneStaysGone(d: Db, ts: seq<Timed>, a: NetworkAddr, age: nat)
    requires a !in d.table && NeverTouched(d, ts, a, age)
    ensures a !in Run(d, ts, age).table
    decreases |ts|
  {
    if ts != [] {
      GoneStaysGone(Step(d, ts[0], age), ts[1..], a, age);
    }
  }

  function Lookups(ts: seq<Timed>, a: NetworkAddr): nat {
    if ts == [] then 0 else (if ts[0].ev == EvLookup(a) then 1 else 0) + Lookups(ts[1..], a)
  }

  /** Before it expires, an entry keeps its stamp and gains one use per lookup; sweeps pass it by. */
  lemma {:induction false} LiveEntryCountsItsLookups(d: Db, ts: seq<Timed>, a: NetworkAddr, start: int, end: int,
                                                     age: nat)
    requires Sound(d) && a in d.table && !HasExpired(d.table[a].timer, end, age)
    requires Monotone(ts, start) && (forall i :: 0 <= i < |ts| ==> ts[i].now <= end) && NeverTouched(d, ts, a, age)
    ensures var r := Run(d, ts, age).table;
            a in r && r[a] == d.table[a].(uses := d.table[a].uses + Lookups(ts, a))
    decreases |ts|
  {
    if ts != [] {
      StepKeepsSound(d, ts[0], age);
      LiveEntryCountsItsLookups(Step(d, ts[0], age), ts[1..], a, ts[0].now, end, age);
    }
  }

  /** So sweeps alone, however many, leave an entry exactly as it was until it expires. */
  lemma SweepsSpareTheLiving(d: Db, ts: seq<Timed>, a: NetworkAddr, start: int, end: int, age: nat)
    requires Sound(d) && a in d.table && !HasExpired(d.table[a].timer, end, age)
    requires Monotone(ts, start) && forall i :: 0 <= i < |ts| ==> ts[i].now <= end && ts[i].ev.EvSweep?
    ensures a in Run(d, ts, age).table && Run(d, ts, age).table[a] == d.table[a]
  {
    OnlySweeps(d, ts, a, age);
    LiveEntryCountsItsLookups(d, ts, a, start, end, age);
  }

  lemma {:induction false} OnlySweeps(d: Db, ts: seq<Timed>, a: NetworkAddr, age: nat)
    requires forall i :: 0 <= i < |ts| ==> ts[i].ev.EvSweep?
    ensures NeverTouched(d, ts, a, age) && Lookups(ts, a) == 0
    decreases |ts|
  {
    if ts != [] {
      OnlySweeps(Step(d, ts[0], age), ts[1..], a, age);
    }
  }

  /** The life of an entry from its insertion: `live` before it expires, `late` after. It survives exactly as many
    * late sweeps as there were live lookups, and goes at the next one. */
  lemma LifeOfAnEntry(d: Db, mac: Mac, a: NetworkAddr, t0: int, live: seq<Timed>, late: seq<Timed>, age: nat)
    requires Sound(d) && a !in d.table
    requires var d0 := Insert(d, mac, a, t0, true);
             && Monotone(live, t0) && (forall i :: 0 <= i < |live| ==> live[i].now < t0 + age)
             && NeverTouched(d0, live, a, age)
             && Monotone(late, t0 + age) && NeverTouched(Run(d0, live, age), late, a, age)
    requires age >= 1
    ensures a in Run(Run(Insert(d, mac, a, t0, true), live, age), late, age).table <==> Sweeps(late) <= Lookups(live, a)
  {
    var d0 := Insert(d, mac, a, t0, true);
    StepKeepsSound(d, Timed(EvInsert(mac, a, true), t0), age);
    LiveEntryCountsItsLookups(d0, live, a, t0, t0 + age - 1, age);
    RunKeepsSound(d0, live, age);
    ExpiredEntryLastsItsUses(Run(d0, live, age), late, a, t0 + age, age);
  }

  // ----- the bucket of an address -----

  function Xor(x: bv8, y: bv8): bv8 {
    x ^ y
  }

  /** The exclusive or of the octets in [i, j). */
  function Fold(a: NetworkAddr, i: nat, j: nat): bv8
    requires i <= j <= MAX_NETWORK_ADDR_LEN
    decreases j - i
  {
    if i == j then 0 else Xor(a[i], Fold(a, i + 1, j))
  }

  /** x & (NAT25_HASH_SIZE - 1) */
  function Low(x: bv8): (h: nat)
    ensures h < NAT25_HASH_SIZE
  {
    assert x & 0xf <= 0xf;
    (x & 0xf) as int
  }

  /** __nat25_network_hash: the octets that identify the address under its type, folded. */
  function NetworkHash(a: NetworkAddr): (h: nat)
    ensures h < NAT25_HASH_SIZE
  {
    Low(if a[0] == 1 then Fold(a, 7, 11)
        else if a[0] == 3 then Fold(a, 1, 11)
        else if a[0] == 4 then Fold(a, 1, 4)
        else if a[0] == 5 then Fold(a, 0, 9)
        else if a[0] == 2 then Fold(a, 1, 17)
        else Fold(a, 0, MAX_NETWORK_ADDR_LEN))
  }

  /** The octets that identify an address, by its type: IPv4, IPX, AppleTalk, PPPoE, IPv6 or none of them. */
  predicate Identifies(type0: bv8, i: nat) {
    if type0 == 1 then 7 <= i < 11
    else if type0 == 3 then 1 <= i < 11
    else if type0 == 4 then 1 <= i < 4
    else if type0 == 5 then i < 9
    else if type0 == 2 then 1 <= i < 17
    else i < MAX_NETWORK_ADDR_LEN
  }

  /** Changing an octet after the type moves the address to another bucket if and only if the octet identifies it and
    * its low nibble changes. */
  lemma BucketMovesIff(a: NetworkAddr, i: nat, x: bv8)
    requires 1 <= i < MAX_NETWORK_ADDR_LEN
    ensures NetworkHash(a[i := x]) == NetworkHash(a) <==> !Identifies(a[0], i) || Low(x) == Low(a[i])
  {
    hide Fold, Low;
    var b: NetworkAddr := a[i := x];
    assert b[0] == a[0];
    if a[0] == 1 { FoldMovesIff(a, i, x, 7, 11); }
    else if a[0] == 3 { FoldMovesIff(a, i, x, 1, 11); }
    else if a[0] == 4 { FoldMovesIff(a, i, x, 1, 4); }
    else if a[0] == 5 { FoldMovesIff(a, i, x, 0, 9); }
    else if a[0] == 2 { FoldMovesIff(a, i, x, 1, 17); }
    else { FoldMovesIff(a, i, x, 0, MAX_NETWORK_ADDR_LEN); }
  }

  lemma FoldMovesIff(a: NetworkAddr, i: nat, x: bv8, lo: nat, hi: nat)
    requires i < MAX_NETWORK_ADDR_LEN && lo <= hi <= MAX_NETWORK_ADDR_LEN
    ensures Low(Fold(a[i := x], lo, hi)) == Low(Fold(a, lo, hi)) <==> !(lo <= i < hi) || Low(x) == Low(a[i])
  {
    hide Fold, Xor, Low;
    FoldAt(a, i, x, lo, hi);
    NibbleMovesIff(Fold(a, lo, hi), a[i], x);
  }

  /** The fold with the octet that changes put aside. */
  lemma {:induction false} FoldAt(a: NetworkAddr, i: nat, x: bv8, lo: nat, hi: nat)
    requires i < MAX_NETWORK_ADDR_LEN && lo <= hi <= MAX_NETWORK_ADDR_LEN
    ensures Fold(a[i := x], lo, hi) == if lo <= i < hi then Xor(Fold(a, lo, hi), Xor(a[i], x)) else Fold(a, lo, hi)
    decreases hi - lo
  {
    hide Xor;
    if lo < hi {
      FoldAt(a, i, x, lo + 1, hi);
      Exchanged(a[i], a[lo], x, Fold(a, lo + 1, hi));
    }
  }

  lemma Exchanged(y: bv8, z: bv8, x: bv8, rest: bv8)
    ensures Xor(x, rest) == Xor(Xor(y, rest), Xor(y, x))
    ensures Xor(z, Xor(rest, Xor(y, x))) == Xor(Xor(z, rest), Xor(y, x))
  {
  }

  lemma NibbleMovesIff(f: bv8, y: bv8, x: bv8)
    ensures Low(Xor(f, Xor(y, x))) == Low(f) <==> Low(x) == Low(y)
  {
    assert (f ^ (y ^ x)) & 0xf == f & 0xf <==> x & 0xf == y & 0xf;
  }
}
