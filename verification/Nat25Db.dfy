/** The NAT2.5 database as core/rtw_br_ext.c keeps it: sixteen buckets of entries chained by next_hash, each entry
  * knowing the pointer that points at it. */
module Nat25Db {
  import opened Bytes
  import opened Seqs
  import opened Nat25Map
  import opened Nat25History

  /** A struct nat25_network_db_entry **: a bucket head or another entry's next_hash. */
  datatype Link = Null | Head(bucket: nat) | NextOf(prev: Entry)

  class Entry {
    var next_hash: Entry?
    var pprev_hash: Link
    var use_count: int
    var macAddr: Mac
    var ageing_timer: int
    const networkAddr: NetworkAddr

    constructor (mac: Mac, a: NetworkAddr, now: int)
      ensures networkAddr == a && Abs() == Fresh(mac, now) && next_hash == null && pprev_hash == Null
    {
      networkAddr, macAddr, use_count, ageing_timer := a, mac, 1, now;
      next_hash, pprev_hash := null, Null;
    }

    ghost function Abs(): Rec
      reads this
    {
      Rec(macAddr, ageing_timer, use_count)
    }
  }

  type Chains = seq<seq<Entry>>
  type Index = map<NetworkAddr, Entry>

  // ----- the shape, as a property of values -----

  /** The entries on the chains, by address: every address once, in the bucket it hashes to. */
  ghost predicate Indexed(chains: Chains, index: Index) {
    && |chains| == NAT25_HASH_SIZE
    && (forall a :: a in index ==> index[a].networkAddr == a && index[a] in chains[NetworkHash(a)])
    && (forall h, i :: 0 <= h < NAT25_HASH_SIZE && 0 <= i < |chains[h]| ==> Placed(chains[h][i], h, index))
    && (forall h, i, j :: 0 <= h < NAT25_HASH_SIZE && 0 <= i < j < |chains[h]| ==> chains[h][i] != chains[h][j])
  }

  ghost predicate Placed(e: Entry, h: nat, index: Index) {
    NetworkHash(e.networkAddr) == h && e.networkAddr in index && index[e.networkAddr] == e
  }

  ghost function At(chain: seq<Entry>, i: nat): Entry? {
    if i < |chain| then chain[i] else null
  }

  ghost function Before(chain: seq<Entry>, h: nat, i: nat): Link
    requires i <= |chain|
  {
    if i == 0 then Head(h) else NextOf(chain[i - 1])
  }

  /** Heads, next_hash and pprev_hash thread exactly the chains, from the bucket heads to the ends and back. */
  ghost predicate Threads(heads: seq<Entry?>, nexts: map<Entry, Entry?>, prevs: map<Entry, Link>, chains: Chains) {
    && |heads| == |chains| == NAT25_HASH_SIZE
    && (forall h :: 0 <= h < NAT25_HASH_SIZE ==> heads[h] == At(chains[h], 0))
    && (forall h, i :: 0 <= h < NAT25_HASH_SIZE && 0 <= i < |chains[h]| ==> Threaded(nexts, prevs, chains[h], h, i))
  }

  /** Entry i of bucket h points at its successor, and knows what points at it. */
  ghost predicate Threaded(nexts: map<Entry, Entry?>, prevs: map<Entry, Link>, chain: seq<Entry>, h: nat, i: nat)
    requires i < |chain|
  {
    && chain[i] in nexts && nexts[chain[i]] == At(chain, i + 1)
    && chain[i] in prevs && prevs[chain[i]] == Before(chain, h, i)
  }

  /** Different places hold different entries. */
  lemma Elsewhere(chains: Chains, index: Index, h: nat, i: nat, g: nat, j: nat)
    requires Indexed(chains, index) && h < NAT25_HASH_SIZE && i < |chains[h]| && g < NAT25_HASH_SIZE && j < |chains[g]|
    ensures chains[h][i] == chains[g][j] <==> h == g && i == j
  {
    assert Placed(chains[h][i], h, index) && Placed(chains[g][j], g, index);
  }

  /** The same with a place that may lie outside chain h. */
  lemma ElsewhereOrNowhere(chains: Chains, index: Index, h: nat, i: int, g: nat, j: nat)
    requires Indexed(chains, index) && h < NAT25_HASH_SIZE && g < NAT25_HASH_SIZE && j < |chains[g]|
    ensures 0 <= i < |chains[h]| ==> (chains[h][i] == chains[g][j] <==> h == g && i == j)
  {
    if 0 <= i < |chains[h]| {
      Elsewhere(chains, index, h, i, g, j);
    }
  }

  function Without(c: seq<Entry>, k: nat): seq<Entry>
    requires k < |c|
  {
    c[..k] + c[k + 1..]
  }

  lemma WithoutAt(c: seq<Entry>, k: nat, i: nat, h: nat)
    requires k < |c| && i < |Without(c, k)|
    ensures var j := if i >= k then i + 1 else i;
            && Without(c, k)[i] == c[j]
            && At(Without(c, k), i + 1) == (if k > 0 && j == k - 1 then At(c, k + 1) else At(c, j + 1))
            && Before(Without(c, k), h, i) == (if j == k + 1 then Before(c, h, k) else Before(c, h, j))
  {
  }

  lemma PlacedMeans(e: Entry, h: nat, index: Index)
    ensures Placed(e, h, index) <==>
              NetworkHash(e.networkAddr) == h && e.networkAddr in index && index[e.networkAddr] == e
  {
  }

  lemma CutPlaced(chains: Chains, index: Index, h: nat, k: nat, g: nat, j: nat)
    requires Indexed(chains, index) && h < NAT25_HASH_SIZE && k < |chains[h]| && g < NAT25_HASH_SIZE && j < |chains[g]|
    requires h != g || j != k
    ensures Placed(chains[g][j], g, index - {chains[h][k].networkAddr})
  {
    assert Placed(chains[g][j], g, index) && Placed(chains[h][k], h, index);
    Elsewhere(chains, index, g, j, h, k);
  }

  lemma CutIndexed(chains: Chains, index: Index, h: nat, k: nat)
    requires Indexed(chains, index) && h < NAT25_HASH_SIZE && k < |chains[h]|
    ensures Indexed(chains[h := Without(chains[h], k)], index - {chains[h][k].networkAddr})
    ensures (index - {chains[h][k].networkAddr}).Values == index.Values - {chains[h][k]}
  {
    hide NetworkHash, Placed;
    var c, ent := chains[h], chains[h][k];
    PlacedMeans(ent, h, index);
    var chains', index' := chains[h := Without(c, k)], index - {ent.networkAddr};
    assert Placed(ent, h, index);
    forall a | a in index' ensures index'[a].networkAddr == a && index'[a] in chains'[NetworkHash(a)] {
      var g, e := NetworkHash(a), index[a];
      var i :| 0 <= i < |chains[g]| && chains[g][i] == e;
      if g == h {
        assert i != k;
        assert c[i] == if i < k then chains'[h][i] else chains'[h][i - 1];
      }
    }
    forall g, i | 0 <= g < NAT25_HASH_SIZE && 0 <= i < |chains'[g]| ensures Placed(chains'[g][i], g, index') {
      CutPlaced(chains, index, h, k, g, if g == h && i >= k then i + 1 else i);
    }
    forall g, i, j | 0 <= g < NAT25_HASH_SIZE && 0 <= i < j < |chains'[g]| ensures chains'[g][i] != chains'[g][j] {
      var i0, j0 := if g == h && i >= k then i + 1 else i, if g == h && j >= k then j + 1 else j;
      assert chains'[g][i] == chains[g][i0] && chains'[g][j] == chains[g][j0];
    }
  }

  /** next_hash of every remaining entry after the unlink of entry k of chain c. */
  ghost function CutNexts(nexts: map<Entry, Entry?>, c: seq<Entry>, k: nat): map<Entry, Entry?>
    requires k < |c|
  {
    map e | e in nexts && e != c[k] :: if k > 0 && e == c[k - 1] then At(c, k + 1) else nexts[e]
  }

  ghost function CutPrevs(prevs: map<Entry, Link>, c: seq<Entry>, h: nat, k: nat): map<Entry, Link>
    requires k < |c|
  {
    map e | e in prevs && e != c[k] :: if k + 1 < |c| && e == c[k + 1] then Before(c, h, k) else prevs[e]
  }

  /** What the assignments of __network_hash_unlink do to the threads. */
  lemma CutThreads(heads: seq<Entry?>, nexts: map<Entry, Entry?>, prevs: map<Entry, Link>,
                   chains: Chains, index: Index, h: nat, k: nat)
    requires Indexed(chains, index) && Threads(heads, nexts, prevs, chains)
    requires h < NAT25_HASH_SIZE && k < |chains[h]|
    ensures var c := chains[h];
            Threads(if k == 0 then heads[h := At(c, 1)] else heads, CutNexts(nexts, c, k), CutPrevs(prevs, c, h, k),
                    chains[h := Without(c, k)])
  {
    var c := chains[h];
    var chains' := chains[h := Without(c, k)];
    forall g, i | 0 <= g < NAT25_HASH_SIZE && 0 <= i < |chains'[g]|
      ensures Threaded(CutNexts(nexts, c, k), CutPrevs(prevs, c, h, k), chains'[g], g, i)
    {
      CutThread(heads, nexts, prevs, chains, index, h, k, g, i);
    }
  }

  lemma CutThread(heads: seq<Entry?>, nexts: map<Entry, Entry?>, prevs: map<Entry, Link>,
                  chains: Chains, index: Index, h: nat, k: nat, g: nat, i: nat)
    requires Indexed(chains, index) && Threads(heads, nexts, prevs, chains)
    requires h < NAT25_HASH_SIZE && k < |chains[h]| && g < NAT25_HASH_SIZE
    requires i < |chains[h := Without(chains[h], k)][g]|
    ensures var c := chains[h];
            Threaded(CutNexts(nexts, c, k), CutPrevs(prevs, c, h, k), chains[h := Without(c, k)][g], g, i)
  {
    var c, chain := chains[h], chains[g];
    var j := if g == h && i >= k then i + 1 else i;
    assert j < |chain|;
    assert Threaded(nexts, prevs, chain, g, j);
    ElsewhereOrNowhere(chains, index, h, k, g, j);
    ElsewhereOrNowhere(chains, index, h, k - 1, g, j);
    ElsewhereOrNowhere(chains, index, h, k + 1, g, j);
    hide Indexed, Threads;
    if g == h {
      WithoutAt(c, k, i, h);
    }
    hide At, Before, Without;
  }

  lemma PushIndexed(chains: Chains, index: Index, h: nat, ent: Entry)
    requires Indexed(chains, index) && h == NetworkHash(ent.networkAddr) && ent.networkAddr !in index
    ensures Indexed(chains[h := [ent] + chains[h]], index[ent.networkAddr := ent])
    ensures ent !in index.Values && index[ent.networkAddr := ent].Values == index.Values + {ent}
  {
    hide NetworkHash;
    var chains', index' := chains[h := [ent] + chains[h]], index[ent.networkAddr := ent];
    forall g, i | 0 <= g < NAT25_HASH_SIZE && 0 <= i < |chains'[g]| ensures Placed(chains'[g][i], g, index') {
      if g != h || i > 0 {
        var j := if g == h then i - 1 else i;
        assert chains'[g][i] == chains[g][j] && Placed(chains[g][j], g, index);
      }
    }
    forall g, i, j | 0 <= g < NAT25_HASH_SIZE && 0 <= i < j < |chains'[g]| ensures chains'[g][i] != chains'[g][j] {
      if g == h {
        assert Placed(chains[h][j - 1], h, index);
        assert chains'[h][j] == chains[h][j - 1] && (i > 0 ==> chains'[h][i] == chains[h][i - 1]);
      }
    }
    forall a | a in index' ensures index'[a].networkAddr == a && index'[a] in chains'[NetworkHash(a)] {
      if a != ent.networkAddr {
        var g := NetworkHash(a);
        var i :| 0 <= i < |chains[g]| && chains[g][i] == index[a];
        assert chains'[g][if g == h then i + 1 else i] == index[a];
      } else {
        assert chains'[h][0] == ent;
      }
    }
    assert index'[ent.networkAddr] == ent;
  }

  ghost function PushPrevs(prevs: map<Entry, Link>, c: seq<Entry>, h: nat, ent: Entry): map<Entry, Link> {
    map e | e in prevs.Keys + {ent} ::
        if e == ent then Head(h) else if c != [] && e == c[0] then NextOf(ent) else prevs[e]
  }

  /** What the assignments of __network_hash_link do to the threads. */
  lemma PushThreads(heads: seq<Entry?>, nexts: map<Entry, Entry?>, prevs: map<Entry, Link>,
                    chains: Chains, index: Index, h: nat, ent: Entry)
    requires Indexed(chains, index) && Threads(heads, nexts, prevs, chains)
    requires h < NAT25_HASH_SIZE && ent !in index.Values
    ensures var c := chains[h];
            Threads(heads[h := ent], nexts[ent := At(c, 0)], PushPrevs(prevs, c, h, ent), chains[h := [ent] + c])
  {
    var c := chains[h];
    var chains', nexts', prevs' := chains[h := [ent] + c], nexts[ent := At(c, 0)], PushPrevs(prevs, c, h, ent);
    forall g, i | 0 <= g < NAT25_HASH_SIZE && 0 <= i < |chains'[g]|
      ensures Threaded(nexts', prevs', chains'[g], g, i)
    {
      if g != h || i > 0 {
        var j := if g == h then i - 1 else i;
        assert chains'[g][i] == chains[g][j] && Placed(chains[g][j], g, index);
        assert Threaded(nexts, prevs, chains[g], g, j);
        ElsewhereOrNowhere(chains, index, h, 0, g, j);
      }
    }
  }

  lemma PushPrevsAre(prevs: map<Entry, Link>, c: seq<Entry>, h: nat, ent: Entry)
    ensures var m := PushPrevs(prevs, c, h, ent);
            && m.Keys == prevs.Keys + {ent} && m[ent] == Head(h)
            && (forall e :: e in prevs && e != ent ==> m[e] == if e == At(c, 0) then NextOf(ent) else prevs[e])
  {
  }

  lemma CutsAre(nexts: map<Entry, Entry?>, prevs: map<Entry, Link>, c: seq<Entry>, h: nat, k: nat)
    requires k < |c| && nexts.Keys == prevs.Keys
    ensures var n, p := CutNexts(nexts, c, k), CutPrevs(prevs, c, h, k);
            && n.Keys == nexts.Keys - {c[k]} == p.Keys
            && (forall e :: e in n ==> n[e] == if k > 0 && e == c[k - 1] then At(c, k + 1) else nexts[e])
            && (forall e :: e in n ==> p[e] == if e == At(c, k + 1) then Before(c, h, k) else prevs[e])
  {
  }

  // ----- the order of a sweep -----

  /** The addresses a sweep has still to visit when it stands at place k of bucket i. */
  ghost predicate StillToVisit(chains: Chains, index: Index, todo: set<NetworkAddr>, i: nat, k: nat) {
    && i < |chains| && k <= |chains[i]|
    && forall a :: a in todo <==> a in index && (NetworkHash(a) > i || index[a] in chains[i][k..])
  }

  lemma BucketBegins(chains: Chains, index: Index, todo: set<NetworkAddr>, i: nat)
    requires Indexed(chains, index) && i < NAT25_HASH_SIZE
    requires forall a :: a in todo <==> a in index && NetworkHash(a) >= i
    ensures StillToVisit(chains, index, todo, i, 0)
  {
    hide NetworkHash;
    forall a | a in index ensures NetworkHash(a) == i <==> index[a] in chains[i] {
      if index[a] in chains[i] {
        var j :| 0 <= j < |chains[i]| && chains[i][j] == index[a];
        assert Placed(chains[i][j], i, index);
      }
    }
    assert chains[i][0..] == chains[i];
  }

  lemma BucketEnds(chains: Chains, index: Index, todo: set<NetworkAddr>, i: nat, k: nat)
    requires StillToVisit(chains, index, todo, i, k) && k == |chains[i]|
    ensures forall a :: a in todo <==> a in index && NetworkHash(a) >= i + 1
  {
    hide NetworkHash;
    assert chains[i][k..] == [];
  }

  /** Visiting place k strikes its address off, whether the entry stays or goes. */
  lemma Visit(chains: Chains, index: Index, todo: set<NetworkAddr>, i: nat, k: nat)
    requires Indexed(chains, index) && i < NAT25_HASH_SIZE
    requires StillToVisit(chains, index, todo, i, k) && k < |chains[i]|
    ensures var a := chains[i][k].networkAddr;
            && a in todo && a in index
            && StillToVisit(chains, index, todo - {a}, i, k + 1)
            && StillToVisit(chains[i := Without(chains[i], k)], index - {a}, todo - {a}, i, k)
            && |Without(chains[i], k)| == |chains[i]| - 1 && At(Without(chains[i], k), k) == At(chains[i], k + 1)
  {
    hide NetworkHash;
    var c, a := chains[i], chains[i][k].networkAddr;
    Seqs.Step(c, k);
    CatParts(c[..k], c[k + 1..]);
    assert Placed(c[k], i, index);
    forall b | b in index && b != a ensures index[b] in c[k..] <==> index[b] in c[k + 1..] {
      assert index[b] != c[k];
    }
    assert c[k] !in c[k + 1..];
  }

  // ----- the database -----

  ghost function NextsOf(es: set<Entry>): map<Entry, Entry?>
    reads es
  {
    map e | e in es :: e.next_hash
  }

  ghost function PrevsOf(es: set<Entry>): map<Entry, Link>
    reads es
  {
    map e | e in es :: e.pprev_hash
  }

  /** Two tables that say of every entry what its fields say. */
  lemma ThreadsAre(es: set<Entry>, nexts: map<Entry, Entry?>, prevs: map<Entry, Link>)
    requires nexts.Keys == prevs.Keys == es
    requires forall e :: e in es ==> e.next_hash == nexts[e] && e.pprev_hash == prevs[e]
    ensures NextsOf(es) == nexts && PrevsOf(es) == prevs
  {
  }

  class Database {
    const nethash: array<Entry?>
    const age: nat
    var scdb_entry: Entry?
    ghost var chains: Chains
    ghost var index: Index

    ghost function Nexts(): map<Entry, Entry?>
      reads this, index.Values
    {
      NextsOf(index.Values)
    }

    ghost function Prevs(): map<Entry, Link>
      reads this, index.Values
    {
      PrevsOf(index.Values)
    }

    ghost predicate Valid()
      reads this, nethash, index.Values
    {
      && Indexed(chains, index) && Threads(nethash[..], Nexts(), Prevs(), chains)
      && (scdb_entry != null ==> scdb_entry in index.Values)
    }

    lemma Parts()
      requires Valid()
      ensures Indexed(chains, index) && Threads(nethash[..], Nexts(), Prevs(), chains)
      ensures scdb_entry != null ==> scdb_entry in index.Values
    {
    }

    lemma Whole(all: set<Entry>)
      requires all == index.Values
      requires Indexed(chains, index) && Threads(nethash[..], NextsOf(all), PrevsOf(all), chains)
      requires scdb_entry != null ==> scdb_entry in all
      ensures Valid()
    {
    }

    /** The database as a finite map. */
    ghost function View(): Db
      reads this, index.Values
    {
      Db(map a | a in index :: index[a].Abs(), if scdb_entry == null then None else Some(scdb_entry.networkAddr))
    }

    constructor (age: nat)
      ensures Valid() && View() == Db(map[], None) && this.age == age && fresh(nethash) && index == map[]
    {
      this.age := age;
      nethash := new Entry?[NAT25_HASH_SIZE](_ => null);
      scdb_entry := null;
      chains := seq(NAT25_HASH_SIZE, _ => []);
      index := map[];
    }

    /** *l = v */
    method SetThrough(l: Link, v: Entry?)
      requires l.Head? ==> l.bucket < nethash.Length
      modifies nethash, (if l.NextOf? then {l.prev} else {})`next_hash
      ensures nethash[..] == if l.Head? then old(nethash[..])[l.bucket := v] else old(nethash[..])
      ensures l.NextOf? ==> l.prev.next_hash == v
    {
      match l {
        case Head(b) => nethash[b] := v;
        case NextOf(p) => p.next_hash := v;
        case Null =>
      }
    }

    /** if (e != NULL) e->pprev_hash = l */
    method SetBack(e: Entry?, l: Link)
      modifies (if e != null then {e} else {})`pprev_hash
      ensures e != null ==> e.pprev_hash == l
    {
      if e != null {
        e.pprev_hash := l;
      }
    }

    /** __network_hash_link, field by field. */
    method LinkFields(ent: Entry, hash: nat)
      requires hash < nethash.Length && ent !in index.Values
      requires nethash[hash] != null ==> nethash[hash] in index.Values
      modifies nethash, ent, index.Values
      ensures nethash[..] == old(nethash[..])[hash := ent]
      ensures ent.next_hash == old(nethash[hash]) && ent.pprev_hash == Head(hash) && ent.Abs() == old(ent.Abs())
      ensures forall e :: e in index.Values ==>
                && e.next_hash == old(e.next_hash) && e.Abs() == old(e.Abs())
                && e.pprev_hash == (if e == old(nethash[hash]) then NextOf(ent) else old(e.pprev_hash))
    {
      ent.next_hash := nethash[hash];
      SetBack(ent.next_hash, NextOf(ent));
      nethash[hash] := ent;
      ent.pprev_hash := Head(hash);
    }

    /** What that makes of the threads, in the buckets with the new entry in front. */
    method LinkThreads(ent: Entry, hash: nat)
      requires Valid() && hash == NetworkHash(ent.networkAddr) && ent.networkAddr !in index
      modifies nethash, ent, index.Values
      ensures var all := index.Values + {ent};
              hash < |chains| && Threads(nethash[..], NextsOf(all), PrevsOf(all), chains[hash := [ent] + chains[hash]])
      ensures forall e :: e in index.Values + {ent} ==> e.Abs() == old(e.Abs())
    {
      hide NetworkHash, Indexed, Threads, PushPrevs, Valid;
      Parts();
      HeadOf(hash);
      ghost var c, heads := chains[hash], nethash[..];
      ghost var nexts: map<Entry, Entry?>, prevs: map<Entry, Link> := Nexts(), Prevs();
      PushIndexed(chains, index, hash, ent);
      PushThreads(heads, nexts, prevs, chains, index, hash, ent);
      PushPrevsAre(prevs, c, hash, ent);
      LinkFields(ent, hash);
      ThreadsAre(index.Values + {ent}, nexts[ent := At(c, 0)], PushPrevs(prevs, c, hash, ent));
    }

    /** __network_hash_link */
    method Link(ent: Entry, hash: nat)
      requires Valid() && hash == NetworkHash(ent.networkAddr) && ent.networkAddr !in index
      modifies this`chains, this`index, nethash, ent, index.Values
      ensures Valid()
      ensures index == old(index)[ent.networkAddr := ent]
      ensures forall e :: e in old(index.Values) ==> e.Abs() == old(e.Abs())
      ensures ent.Abs() == old(ent.Abs())
    {
      hide NetworkHash, Indexed, Threads, Valid, NextsOf, PrevsOf;
      Parts();
      HashInRange(ent.networkAddr);
      PushIndexed(chains, index, hash, ent);
      ghost var all := index.Values + {ent};
      LinkThreads(ent, hash);
      chains := chains[hash := [ent] + chains[hash]];
      index := index[ent.networkAddr := ent];
      Whole(all);
    }

    lemma HeadOf(h: nat)
      requires Valid() && h < NAT25_HASH_SIZE
      ensures nethash.Length == |chains| == NAT25_HASH_SIZE
      ensures nethash[h] == At(chains[h], 0) && (chains[h] != [] ==> chains[h][0] in index.Values)
    {
      assert nethash[h] == nethash[..][h];
      assert chains[h] != [] ==> Placed(chains[h][0], h, index);
    }

    lemma NeighboursOf(h: nat, k: nat)
      requires Valid() && h < NAT25_HASH_SIZE && k < |chains[h]|
      ensures nethash.Length == |chains| == NAT25_HASH_SIZE
      ensures var c := chains[h];
              && c[k] in index.Values && c[k].networkAddr in index && index[c[k].networkAddr] == c[k]
              && c[k].next_hash == At(c, k + 1) && c[k].pprev_hash == Before(c, h, k)
              && (k > 0 ==> c[k - 1] in index.Values && c[k - 1] != c[k])
              && (k + 1 < |c| ==> c[k + 1] in index.Values && c[k + 1] != c[k])
              && (k > 0 && k + 1 < |c| ==> c[k - 1] != c[k + 1])
    {
      var c := chains[h];
      assert Placed(c[k], h, index) && Threaded(Nexts(), Prevs(), c, h, k);
      assert k > 0 ==> Placed(c[k - 1], h, index);
      assert k + 1 < |c| ==> Placed(c[k + 1], h, index);
    }

    /** __network_hash_unlink, field by field. */
    method UnlinkFields(ent: Entry, ghost prev: Entry?, ghost succ: Entry?)
      requires ent in index.Values && ent != prev && ent != succ && (prev != null ==> prev != succ)
      requires ent.next_hash == succ && (succ != null ==> succ in index.Values)
      requires if prev == null then ent.pprev_hash.Head? && ent.pprev_hash.bucket < nethash.Length
               else ent.pprev_hash == NextOf(prev) && prev in index.Values
      modifies nethash, index.Values
      ensures nethash[..] == if prev == null then old(nethash[..])[old(ent.pprev_hash.bucket) := succ]
                             else old(nethash[..])
      ensures ent.next_hash == null && ent.pprev_hash == Null
      ensures forall e :: e in index.Values ==>
                && e.Abs() == old(e.Abs())
                && (e != ent ==> e.next_hash == if e == prev then succ else old(e.next_hash))
                && (e != ent ==> e.pprev_hash == if e == succ then old(ent.pprev_hash) else old(e.pprev_hash))
    {
      SetThrough(ent.pprev_hash, ent.next_hash);
      SetBack(ent.next_hash, ent.pprev_hash);
      ent.next_hash := null;
      ent.pprev_hash := Null;
    }

    /** What that makes of the threads, in the buckets without the entry. */
    method UnlinkThreads(ent: Entry, ghost h: nat, ghost k: nat)
      requires Valid() && h < NAT25_HASH_SIZE && h < |chains| && k < |chains[h]| && chains[h][k] == ent
      modifies nethash, index.Values
      ensures var rest := index.Values - {ent};
              Threads(nethash[..], NextsOf(rest), PrevsOf(rest), chains[h := Without(chains[h], k)])
      ensures forall e :: e in index.Values ==> e.Abs() == old(e.Abs())
      ensures ent.next_hash == null && ent.pprev_hash == Null
    {
      hide NetworkHash, Indexed, Threads, Without, CutNexts, CutPrevs, Valid;
      Parts();
      NeighboursOf(h, k);
      ghost var c, heads := chains[h], nethash[..];
      ghost var nexts: map<Entry, Entry?>, prevs: map<Entry, Link> := Nexts(), Prevs();
      CutThreads(heads, nexts, prevs, chains, index, h, k);
      CutsAre(nexts, prevs, c, h, k);
      UnlinkFields(ent, if k > 0 then c[k - 1] else null, At(c, k + 1));
      ThreadsAre(index.Values - {ent}, CutNexts(nexts, c, k), CutPrevs(prevs, c, h, k));
    }

    /** __network_hash_unlink; h and k say where the entry is. */
    method Unlink(ent: Entry, ghost h: nat, ghost k: nat)
      requires Valid() && h < NAT25_HASH_SIZE && k < |chains[h]| && chains[h][k] == ent && scdb_entry != ent
      modifies this`chains, this`index, nethash, index.Values
      ensures Valid()
      ensures chains == old(chains)[h := Without(old(chains[h]), k)]
      ensures index == old(index) - {ent.networkAddr}
      ensures forall e :: e in old(index.Values) ==> e.Abs() == old(e.Abs())
      ensures ent.next_hash == null && ent.pprev_hash == Null
    {
      hide NetworkHash, Indexed, Threads, Without, Valid, NextsOf, PrevsOf;
      Parts();
      NeighboursOf(h, k);
      CutIndexed(chains, index, h, k);
      ghost var rest := index.Values - {ent};
      UnlinkThreads(ent, h, k);
      chains := chains[h := Without(chains[h], k)];
      index := index - {ent.networkAddr};
      Whole(rest);
    }

    // ----- the operations -----

    /** scdb_findEntry; the same walk starts the insertion and the lookup. */
    method FindEntry(a: NetworkAddr) returns (db: Entry?)
      requires Valid()
      ensures if a in index then db == index[a] else db == null
    {
      hide NetworkHash, Indexed, Threads;
      var hash := NetworkHash(a);
      HashInRange(a);
      HeadOf(hash);
      ghost var c := chains[hash];
      db := nethash[hash];
      ghost var k := 0;
      while db != null
        invariant k <= |c| && db == At(c, k)
        invariant forall j :: 0 <= j < k ==> c[j].networkAddr != a
        decreases |c| - k
      {
        NeighboursOf(hash, k);
        if db.networkAddr == a {
          return;
        }
        db := db.next_hash;
        k := k + 1;
      }
      NotOnChain(a);
    }

    lemma HashInRange(a: NetworkAddr)
      ensures NetworkHash(a) < NAT25_HASH_SIZE
    {
    }

    lemma NotOnChain(a: NetworkAddr)
      requires Valid()
      ensures |chains| == NAT25_HASH_SIZE
      ensures a in index <==>
                exists j :: 0 <= j < |chains[NetworkHash(a)]| && chains[NetworkHash(a)][j].networkAddr == a
    {
      hide NetworkHash;
      var c := chains[NetworkHash(a)];
      if j :| 0 <= j < |c| && c[j].networkAddr == a {
        assert Placed(c[j], NetworkHash(a), index);
      }
    }

    /** __nat25_db_network_lookup_and_replace: returns the source's return value and the address copied into
      * the frame. */
    method LookupAndReplace(a: NetworkAddr, jiffies: int) returns (found: bool, dest: Option<Mac>)
      requires Valid()
      modifies index.Values
      ensures Valid() && View() == Lookup(old(View()), a, jiffies, age)
      ensures found <==> a in index
      ensures dest == if a in index && !HasExpired(old(index[a].ageing_timer), jiffies, age)
                      then Some(old(index[a].macAddr)) else None
      ensures index == old(index)
    {
      hide NetworkHash, Indexed, Threads, Valid;
      IndexSane();
      var db := FindEntry(a);
      found, dest := db != null, None;
      if db != null {
        if !HasExpired(db.ageing_timer, jiffies, age) {
          dest := Some(db.macAddr);
          CountUse(db, 1);
        }
      }
      ViewIs(Lookup(old(View()), a, jiffies, age));
    }

    /** db->use_count += d */
    method CountUse(db: Entry, d: int)
      requires Valid() && db in index.Values
      modifies db`use_count
      ensures Valid() && db.Abs() == old(db.Abs()).(uses := old(db.use_count) + d)
      ensures forall e :: e in index.Values && e != db ==> e.Abs() == old(e.Abs())
    {
      hide NetworkHash, Indexed, Threads;
      db.use_count := db.use_count + d;
      ThreadsAre(index.Values, old(Nexts()), old(Prevs()));
    }

    /** db->ageing_timer = jiffies */
    method Stamp(db: Entry, jiffies: int)
      requires Valid() && db in index.Values
      modifies db`ageing_timer
      ensures Valid() && db.Abs() == old(db.Abs()).(timer := jiffies)
      ensures forall e :: e in index.Values && e != db ==> e.Abs() == old(e.Abs())
    {
      hide NetworkHash, Indexed, Threads;
      db.ageing_timer := jiffies;
      ThreadsAre(index.Values, old(Nexts()), old(Prevs()));
    }

    /** A table that says of every entry what its fields say. */
    lemma ViewIs(d: Db)
      requires d.table.Keys == index.Keys && forall a :: a in index ==> d.table[a] == index[a].Abs()
      requires d.shortcut == if scdb_entry == null then None else Some(scdb_entry.networkAddr)
      ensures View() == d
    {
    }

    lemma IndexSane()
      requires Valid()
      ensures forall a, b :: a in index && b in index && index[a] == index[b] ==> a == b
      ensures forall a :: a in index ==> index[a].networkAddr == a
    {
    }

    /** Rewriting the data of an entry leaves the threads alone. */
    method Refresh(db: Entry, mac: Mac, jiffies: int)
      requires Valid() && db in index.Values
      modifies db`macAddr, db`ageing_timer
      ensures Valid() && index == old(index) && scdb_entry == old(scdb_entry)
      ensures forall e :: e in index.Values && e != db ==> e.Abs() == old(e.Abs())
      ensures db.Abs() == old(db.Abs()).(mac := mac, timer := jiffies)
    {
      hide NetworkHash, Indexed, Threads;
      db.macAddr := mac;
      db.ageing_timer := jiffies;
      ThreadsAre(index.Values, old(Nexts()), old(Prevs()));
    }

    /** The end of the insertion: a new entry, linked at the head of its bucket. */
    method Admit(mac: Mac, a: NetworkAddr, jiffies: int, hash: nat)
      requires Valid() && hash == NetworkHash(a) && a !in index
      modifies this`chains, this`index, nethash, index.Values
      ensures Valid() && index.Keys == old(index).Keys + {a} && fresh(index[a]) && index[a].Abs() == Fresh(mac, jiffies)
      ensures forall b :: b in old(index) ==> index[b] == old(index)[b] && index[b].Abs() == old(index[b].Abs())
    {
      hide NetworkHash, Indexed, Threads;
      var ent := new Entry(mac, a, jiffies);
      ThreadsAre(index.Values, old(Nexts()), old(Prevs()));
      Link(ent, hash);
    }

    /** __nat25_db_network_insert */
    method NetworkInsert(mac: Mac, a: NetworkAddr, jiffies: int, mallocOk: bool)
      requires Valid()
      modifies this`chains, this`index, nethash, index.Values
      ensures Valid() && View() == Insert(old(View()), mac, a, jiffies, mallocOk)
      ensures fresh(index.Values - old(index.Values))
    {
      hide NetworkHash, Indexed, Threads;
      IndexSane();
      var hash := NetworkHash(a);
      var db := FindEntry(a);
      if db != null {
        Refresh(db, mac, jiffies);
        ViewIs(Insert(old(View()), mac, a, jiffies, mallocOk));
        return;
      }
      if !mallocOk {
        return;
      }
      Admit(mac, a, jiffies, hash);
      ViewIs(Insert(old(View()), mac, a, jiffies, mallocOk));
    }

    /** What the transmit path does with scdb_findEntry (core/rtw_xmit.c). */
    method AssignShortcut(a: NetworkAddr, jiffies: int)
      requires Valid()
      modifies this`scdb_entry, index.Values
      ensures Valid() && View() == FindShortcut(old(View()), a, jiffies) && index == old(index)
    {
      hide NetworkHash, Indexed, Threads, Valid;
      IndexSane();
      var db := FindEntry(a);
      SetShortcut(db);
      if scdb_entry != null {
        Stamp(scdb_entry, jiffies);
      }
      ViewIs(FindShortcut(old(View()), a, jiffies));
    }

    /** scdb_entry = db */
    method SetShortcut(db: Entry?)
      requires Valid() && (db != null ==> db in index.Values)
      modifies this`scdb_entry
      ensures Valid() && scdb_entry == db
    {
      hide NetworkHash, Indexed, Threads;
      scdb_entry := db;
      ThreadsAre(index.Values, old(Nexts()), old(Prevs()));
    }

    method StampShortcut(jiffies: int)
      requires Valid()
      modifies index.Values
      ensures Valid() && View() == UseShortcut(old(View()), jiffies) && index == old(index)
    {
      hide NetworkHash, Indexed, Threads;
      IndexSane();
      if scdb_entry != null {
        Stamp(scdb_entry, jiffies);
      }
      ViewIs(UseShortcut(old(View()), jiffies));
    }

    /** An entry about to be freed is not left in the shortcut. */
    method ForgetShortcut(f: Entry)
      requires Valid() && f in index.Values
      modifies this`scdb_entry
      ensures Valid() && scdb_entry != f
      ensures scdb_entry == if old(scdb_entry) == f then null else old(scdb_entry)
    {
      hide NetworkHash, Indexed, Threads;
      if scdb_entry == f {
        SetShortcut(null);
      }
    }

    /** nat25_db_cleanup */
    method DbCleanup()
      requires Valid()
      modifies this`chains, this`index, this`scdb_entry, nethash, index.Values
      ensures Valid() && View() == Cleanup(old(View()))
      ensures index == map[]
    {
      hide NetworkHash, Indexed, Threads;
      for i := 0 to NAT25_HASH_SIZE
        invariant Valid() && index.Values <= old(index.Values)
        invariant forall h :: 0 <= h < i && h < |chains| ==> chains[h] == []
      {
        HeadOf(i);
        var f := nethash[i];
        while f != null
          invariant Valid() && index.Values <= old(index.Values) && |chains| == NAT25_HASH_SIZE
          invariant f == At(chains[i], 0)
          invariant forall h :: 0 <= h < i ==> chains[h] == []
          decreases |chains[i]|
        {
          NeighboursOf(i, 0);
          ghost var c := chains[i];
          var g := f.next_hash;
          ForgetShortcut(f);
          Unlink(f, i, 0);
          assert Without(c, 0) == c[1..];
          f := g;
        }
      }
      NothingLeft();
    }

    lemma NothingLeft()
      requires Valid() && forall h :: 0 <= h < NAT25_HASH_SIZE && h < |chains| ==> chains[h] == []
      ensures index == map[] && index.Values == {}
    {
      hide NetworkHash;
      forall a | a in index ensures false {
        NotOnChain(a);
        HashInRange(a);
      }
    }

    /** nat25_db_expire */
    method DbExpire(jiffies: int)
      requires Valid()
      modifies this`chains, this`index, this`scdb_entry, nethash, index.Values
      ensures Valid() && View() == Sweep(old(View()), jiffies, age)
      ensures index.Values <= old(index.Values)
    {
      hide NetworkHash, Indexed, Threads, PartlySwept, Sweep, StillToVisit, SweptAt, Without;
      ghost var v0 := View();
      ghost var todo := index.Keys;
      ViewSane();
      SweepBegins(v0, jiffies, age);
      for i := 0 to NAT25_HASH_SIZE
        invariant Valid() && index.Values <= old(index.Values)
        invariant PartlySwept(v0, View(), todo, jiffies, age)
        invariant forall a :: a in todo <==> a in index && NetworkHash(a) >= i
      {
        HeadOf(i);
        var f := nethash[i];
        ghost var k := 0;
        BucketBegins(chains, index, todo, i);
        while f != null
          invariant Valid() && index.Values <= old(index.Values) && |chains| == NAT25_HASH_SIZE
          invariant k <= |chains[i]| && f == At(chains[i], k)
          invariant StillToVisit(chains, index, todo, i, k)
          invariant PartlySwept(v0, View(), todo, jiffies, age)
          decreases |chains[i]| - k
        {
          var g := f.next_hash;
          NeighboursOf(i, k);
          ghost var a := f.networkAddr;
          Visit(chains, index, todo, i, k);
          SweepGoesOn(v0, View(), todo, a, jiffies, age);
          var stays := SweepEntry(f, jiffies, i, k);
          todo := todo - {a};
          if stays {
            k := k + 1;
          }
          f := g;
        }
        BucketEnds(chains, index, todo, i, k);
      }
      assert todo == {} by {
        forall a | a in todo ensures false {
          HashInRange(a);
        }
      }
      SweepIsDone(v0, View(), todo, jiffies, age);
    }

    /** The body of the sweep for one entry: whether it stays. */
    method SweepEntry(f: Entry, jiffies: int, ghost i: nat, ghost k: nat) returns (stays: bool)
      requires Valid() && i < NAT25_HASH_SIZE && i < |chains| && k < |chains[i]| && chains[i][k] == f
               && f.networkAddr in index
      modifies this`chains, this`index, this`scdb_entry, nethash, index.Values
      ensures Valid() && View() == SweptAt(old(View()), f.networkAddr, jiffies, age)
      ensures index == if stays then old(index) else old(index) - {f.networkAddr}
      ensures chains == if stays then old(chains) else old(chains)[i := Without(old(chains[i]), k)]
    {
      hide NetworkHash, Indexed, Threads, Without;
      IndexSane();
      NeighboursOf(i, k);
      stays := true;
      if HasExpired(f.ageing_timer, jiffies, age) {
        CountUse(f, -1);
        if f.use_count == 0 {
          ForgetShortcut(f);
          Unlink(f, i, k);
          stays := false;
        }
      }
      ViewIs(SweptAt(old(View()), f.networkAddr, jiffies, age));
    }

    lemma ViewSane()
      requires Valid()
      ensures View().table.Keys == index.Keys
      ensures View().shortcut.Some? ==> View().shortcut.value in View().table
      ensures forall a :: a in index ==> NetworkHash(a) >= 0
    {
      IndexSane();
    }

    // ----- any sequence of operations -----

    method Perform(t: Timed)
      requires Valid()
      modifies this`chains, this`index, this`scdb_entry, nethash, index.Values
      ensures Valid() && View() == Nat25Map.Step(old(View()), t, age)
      ensures fresh(index.Values - old(index.Values))
    {
      hide NetworkHash, Indexed, Threads, Sweep, Cleanup, Insert, Lookup, FindShortcut, UseShortcut, Valid, View;
      match t.ev {
        case EvInsert(mac, a, mallocOk) => NetworkInsert(mac, a, t.now, mallocOk);
        case EvLookup(a) => var found, dest := LookupAndReplace(a, t.now);
        case EvSweep => DbExpire(t.now);
        case EvCleanup => DbCleanup();
        case EvFindShortcut(a) => AssignShortcut(a, t.now);
        case EvUseShortcut => StampShortcut(t.now);
      }
    }

    lemma ViewHolds(a: NetworkAddr)
      requires Valid()
      ensures a in View().table <==> a in index
      ensures a in index ==> View().table[a] == Rec(index[a].macAddr, index[a].ageing_timer, index[a].use_count)
    {
    }

    /** Whatever is done to the table, its chains stay sound and it steps exactly like the map. */
    method PerformAll(ts: seq<Timed>)
      requires Valid()
      modifies this`chains, this`index, this`scdb_entry, nethash, index.Values
      ensures Valid() && View() == Run(old(View()), ts, age) && fresh(index.Values - old(index.Values))
    {
      hide NetworkHash, Indexed, Threads, Run, Nat25Map.Step, Valid, View;
      ghost var v0 := View();
      NoEvents(v0, ts);
      for i := 0 to |ts|
        invariant Valid() && View() == Run(v0, ts[..i], age)
        invariant fresh(index.Values - old(index.Values))
      {
        RunOneMore(v0, ts[..i], ts[i], age);
        assert ts[..i + 1] == ts[..i] + [ts[i]];
        Perform(ts[i]);
      }
      assert ts[..|ts|] == ts;
    }

    lemma NoEvents(v0: Db, ts: seq<Timed>)
      ensures Run(v0, ts[..0], age) == v0
    {
    }
  }

  /** A table taken through any run, and then asked for an address: what the frame is sent to is the MAC address of the
    * latest insertion, as long as the latest stamp is younger than age. */
  method AnswerAfter(ts: seq<Timed>, a: NetworkAddr, jiffies: int, age: nat) returns (found: bool, dest: Option<Mac>)
    ensures found <==> Holds(ts, |ts|, a, age)
    ensures !found ==> dest == None
    ensures found ==>
              && (exists i: nat :: LastStamp(ts, |ts|, a, i, age) && (dest.Some? <==> ts[i].now > jiffies - age))
              && (dest.Some? ==> exists i: nat :: LastInsert(ts, |ts|, a, i) && dest.value == ts[i].ev.mac)
  {
    hide *;
    var db := new Database(age);
    db.PerformAll(ts);
    ghost var v := db.View();
    AllOf(ts, age);
    db.ViewHolds(a);
    found, dest := db.LookupAndReplace(a, jiffies);
    if found {
      RecordedTimer(ts, |ts|, a, age);
      RecordedMac(ts, |ts|, a, age);
      ExpiredMeans(v.table[a].timer, jiffies, age);
    }
  }

  lemma AllOf(ts: seq<Timed>, age: nat)
    ensures Run(Db(map[], None), ts, age) == TableAt(ts, |ts|, age)
    ensures forall a :: Holds(ts, |ts|, a, age) <==> a in TableAt(ts, |ts|, age).table
  {
    assert ts[..|ts|] == ts;
  }

  lemma ExpiredMeans(timer: int, now: int, age: nat)
    ensures HasExpired(timer, now, age) <==> timer <= now - age
  {
  }
}
