/** What a table holds after any run from the empty one, told from the events of the run. */
module Nat25History {
  import opened Bytes
  import opened Nat25Map

  const EMPTY: Db := Db(map[], None)

  /** The table when event j comes. */
  function TableAt(ts: seq<Timed>, j: nat, age: nat): Db
    requires j <= |ts|
  {
    Run(EMPTY, ts[..j], age)
  }

  predicate Holds(ts: seq<Timed>, j: nat, a: NetworkAddr, age: nat)
    requires j <= |ts|
  {
    a in TableAt(ts, j, age).table
  }

  lemma TableSteps(ts: seq<Timed>, j: nat, age: nat)
    requires j < |ts|
    ensures TableAt(ts, j + 1, age) == Nat25Map.Step(TableAt(ts, j, age), ts[j], age)
  {
    RunOneMore(EMPTY, ts[..j], ts[j], age);
    assert ts[..j + 1] == ts[..j] + [ts[j]];
  }

  // ----- what is recorded -----

  predicate Inserts(t: Timed, a: NetworkAddr) {
    t.ev.EvInsert? && t.ev.a == a
  }

  predicate LastInsert(ts: seq<Timed>, n: nat, a: NetworkAddr, i: nat)
    requires n <= |ts|
  {
    i < n && Inserts(ts[i], a) && forall j :: i < j < n ==> !Inserts(ts[j], a)
  }

  /** The recorded MAC address is that of the latest insertion of the network address, whatever else happened. */
  lemma {:induction false} RecordedMac(ts: seq<Timed>, n: nat, a: NetworkAddr, age: nat)
    requires n <= |ts| && Holds(ts, n, a, age)
    ensures exists i: nat :: LastInsert(ts, n, a, i) && TableAt(ts, n, age).table[a].mac == ts[i].ev.mac
  {
    if n > 0 {
      TableSteps(ts, n - 1, age);
      if Inserts(ts[n - 1], a) {
        assert LastInsert(ts, n, a, n - 1);
      } else {
        RecordedMac(ts, n - 1, a, age);
        var i: nat :| LastInsert(ts, n - 1, a, i) && TableAt(ts, n - 1, age).table[a].mac == ts[i].ev.mac;
        assert LastInsert(ts, n, a, i);
      }
    }
  }

  /** Event i stamps a: it inserts it, or makes the transmit path remember it, or uses it where it is remembered. */
  predicate Stamps(ts: seq<Timed>, i: nat, a: NetworkAddr, age: nat)
    requires i < |ts|
  {
    || Inserts(ts[i], a)
    || ts[i].ev == EvFindShortcut(a)
    || (ts[i].ev.EvUseShortcut? && TableAt(ts, i, age).shortcut == Some(a))
  }

  predicate LastStamp(ts: seq<Timed>, n: nat, a: NetworkAddr, i: nat, age: nat)
    requires n <= |ts|
  {
    i < n && Stamps(ts, i, a, age) && forall j :: i < j < n ==> !Stamps(ts, j, a, age)
  }

  /** An entry's timer is the time of the latest event that stamped it. */
  lemma {:induction false} RecordedTimer(ts: seq<Timed>, n: nat, a: NetworkAddr, age: nat)
    requires n <= |ts| && Holds(ts, n, a, age)
    ensures exists i: nat :: LastStamp(ts, n, a, i, age) && TableAt(ts, n, age).table[a].timer == ts[i].now
  {
    if n > 0 {
      TableSteps(ts, n - 1, age);
      if Stamps(ts, n - 1, a, age) {
        assert LastStamp(ts, n, a, n - 1, age);
      } else {
        RecordedTimer(ts, n - 1, a, age);
        var i: nat :| LastStamp(ts, n - 1, a, i, age) && TableAt(ts, n - 1, age).table[a].timer == ts[i].now;
        assert LastStamp(ts, n, a, i, age);
      }
    }
  }

  // ----- which entry the transmit path remembers -----

  /** Event i found a, nothing has been looked for since, and a has been in the table ever since. */
  predicate FoundAt(ts: seq<Timed>, n: nat, a: NetworkAddr, i: nat, age: nat)
    requires n <= |ts|
  {
    && i < n && ts[i].ev == EvFindShortcut(a)
    && (forall j :: i < j < n ==> !ts[j].ev.EvFindShortcut?)
    && (forall j :: i <= j <= n ==> Holds(ts, j, a, age))
  }

  ghost predicate Found(ts: seq<Timed>, n: nat, a: NetworkAddr, age: nat)
    requires n <= |ts|
  {
    exists i: nat :: FoundAt(ts, n, a, i, age)
  }

  /** The shortcut is the entry that the latest search found, as long as it is in the table. */
  lemma {:induction false} ShortcutIs(ts: seq<Timed>, n: nat, a: NetworkAddr, age: nat)
    requires n <= |ts|
    ensures TableAt(ts, n, age).shortcut == Some(a) <==> Found(ts, n, a, age)
  {
    if n > 0 {
      var before, after := TableAt(ts, n - 1, age), TableAt(ts, n, age);
      TableSteps(ts, n - 1, age);
      RunKeepsSound(EMPTY, ts[..n - 1], age);
      ShortcutIs(ts, n - 1, a, age);
      FoundOneMore(ts, n, a, age);
      if ts[n - 1].ev.EvFindShortcut? {
        assert after.shortcut == Some(a) <==> ts[n - 1].ev == EvFindShortcut(a) && a in before.table;
        assert a in after.table <==> a in before.table;
      } else {
        assert after.shortcut == Some(a) <==> before.shortcut == Some(a) && a in after.table;
      }
    }
  }

  lemma FoundOneMore(ts: seq<Timed>, n: nat, a: NetworkAddr, age: nat)
    requires 0 < n <= |ts|
    ensures Found(ts, n, a, age) <==>
              Holds(ts, n, a, age)
              && if ts[n - 1].ev.EvFindShortcut? then ts[n - 1].ev == EvFindShortcut(a) && Holds(ts, n - 1, a, age)
                 else Found(ts, n - 1, a, age)
  {
    hide Holds;
    if Found(ts, n, a, age) {
      var i: nat :| FoundAt(ts, n, a, i, age);
      if i < n - 1 {
        assert !ts[n - 1].ev.EvFindShortcut?;
        assert FoundAt(ts, n - 1, a, i, age);
      }
    }
    if Holds(ts, n, a, age) {
      if ts[n - 1].ev == EvFindShortcut(a) && Holds(ts, n - 1, a, age) {
        assert FoundAt(ts, n, a, n - 1, age);
      } else if !ts[n - 1].ev.EvFindShortcut? {
        if Found(ts, n - 1, a, age) {
          var i: nat :| FoundAt(ts, n - 1, a, i, age);
          assert FoundAt(ts, n, a, i, age);
        }
      }
    }
  }

  // ----- how an entry comes and goes, and its uses in between -----

  /** A sweep that finds the entry expired. */
  predicate Late(ts: seq<Timed>, j: nat, a: NetworkAddr, age: nat)
    requires j < |ts|
  {
    ts[j].ev.EvSweep? && Holds(ts, j, a, age) && TableAt(ts, j, age).table[a].timer + age <= ts[j].now
  }

  /** A lookup that finds the entry, and not expired. */
  predicate Live(ts: seq<Timed>, j: nat, a: NetworkAddr, age: nat)
    requires j < |ts|
  {
    ts[j].ev == EvLookup(a) && Holds(ts, j, a, age) && TableAt(ts, j, age).table[a].timer + age > ts[j].now
  }

  /** An address comes in by an insertion for which there is memory, and leaves when the table is cleared or a sweep
    * finds it expired with one use left; nothing else brings it in or out. */
  lemma ComesAndGoes(ts: seq<Timed>, j: nat, a: NetworkAddr, age: nat)
    requires j < |ts|
    ensures !Holds(ts, j, a, age) ==>
              (Holds(ts, j + 1, a, age) <==> Inserts(ts[j], a) && ts[j].ev.mallocOk)
    ensures Holds(ts, j, a, age) ==>
              (!Holds(ts, j + 1, a, age) <==>
                 ts[j].ev.EvCleanup? || (Late(ts, j, a, age) && TableAt(ts, j, age).table[a].uses == 1))
  {
    TableSteps(ts, j, age);
  }

  /** The entry for a came in at event k and has been there since. */
  predicate Since(ts: seq<Timed>, n: nat, a: NetworkAddr, k: nat, age: nat)
    requires n <= |ts|
  {
    && k < n && Inserts(ts[k], a) && !Holds(ts, k, a, age)
    && forall j :: k < j <= n ==> Holds(ts, j, a, age)
  }

  function LateSweeps(ts: seq<Timed>, n: nat, a: NetworkAddr, k: nat, age: nat): set<nat>
    requires n <= |ts|
  {
    set j: nat | k < j < n && Late(ts, j, a, age)
  }

  function LiveLookups(ts: seq<Timed>, n: nat, a: NetworkAddr, k: nat, age: nat): set<nat>
    requires n <= |ts|
  {
    set j: nat | k < j < n && Live(ts, j, a, age)
  }

  /** The entry came in at event k, and has one use, one more for each lookup served since, and one less for each sweep
    * since that found it expired. */
  predicate Balanced(ts: seq<Timed>, n: nat, a: NetworkAddr, k: nat, age: nat)
    requires n <= |ts|
  {
    && Since(ts, n, a, k, age) && Holds(ts, n, a, age)
    && TableAt(ts, n, age).table[a].uses == 1 + |LiveLookups(ts, n, a, k, age)| - |LateSweeps(ts, n, a, k, age)|
  }

  lemma {:induction false} UsesBalance(ts: seq<Timed>, n: nat, a: NetworkAddr, age: nat)
    requires n <= |ts| && Holds(ts, n, a, age)
    ensures exists k: nat :: Balanced(ts, n, a, k, age)
  {
    hide Balanced;
    if n > 0 {
      if Holds(ts, n - 1, a, age) {
        UsesBalance(ts, n - 1, a, age);
        var k: nat :| Balanced(ts, n - 1, a, k, age);
        StaysBalanced(ts, n, a, k, age);
      } else {
        StartsBalanced(ts, n, a, age);
      }
    }
  }

  lemma StartsBalanced(ts: seq<Timed>, n: nat, a: NetworkAddr, age: nat)
    requires 0 < n <= |ts| && Holds(ts, n, a, age) && !Holds(ts, n - 1, a, age)
    ensures Balanced(ts, n, a, n - 1, age)
  {
    TableSteps(ts, n - 1, age);
    assert LiveLookups(ts, n, a, n - 1, age) == {} == LateSweeps(ts, n, a, n - 1, age);
  }

  lemma StaysBalanced(ts: seq<Timed>, n: nat, a: NetworkAddr, k: nat, age: nat)
    requires 0 < n <= |ts| && Holds(ts, n, a, age) && Holds(ts, n - 1, a, age)
    requires Balanced(ts, n - 1, a, k, age)
    ensures Balanced(ts, n, a, k, age)
  {
    hide LiveLookups, LateSweeps;
    TableSteps(ts, n - 1, age);
    OneMoreLookup(ts, n, a, k, age);
    OneMoreSweep(ts, n, a, k, age);
    assert Since(ts, n, a, k, age);
    UsesStep(ts, n - 1, a, age);
  }

  lemma UsesStep(ts: seq<Timed>, j: nat, a: NetworkAddr, age: nat)
    requires j < |ts| && Holds(ts, j, a, age) && Holds(ts, j + 1, a, age)
    ensures TableAt(ts, j + 1, age).table[a].uses
            == TableAt(ts, j, age).table[a].uses
               + (if Live(ts, j, a, age) then 1 else 0) - (if Late(ts, j, a, age) then 1 else 0)
  {
    TableSteps(ts, j, age);
  }

  lemma OneMoreLookup(ts: seq<Timed>, n: nat, a: NetworkAddr, k: nat, age: nat)
    requires 0 < n <= |ts| && k < n - 1
    ensures |LiveLookups(ts, n, a, k, age)|
            == |LiveLookups(ts, n - 1, a, k, age)| + if Live(ts, n - 1, a, age) then 1 else 0
  {
    hide Live;
    assert LiveLookups(ts, n, a, k, age)
        == LiveLookups(ts, n - 1, a, k, age) + if Live(ts, n - 1, a, age) then {n - 1} else {};
  }

  lemma OneMoreSweep(ts: seq<Timed>, n: nat, a: NetworkAddr, k: nat, age: nat)
    requires 0 < n <= |ts| && k < n - 1
    ensures |LateSweeps(ts, n, a, k, age)|
            == |LateSweeps(ts, n - 1, a, k, age)| + if Late(ts, n - 1, a, age) then 1 else 0
  {
    hide Late;
    assert LateSweeps(ts, n, a, k, age)
        == LateSweeps(ts, n - 1, a, k, age) + if Late(ts, n - 1, a, age) then {n - 1} else {};
  }
}
