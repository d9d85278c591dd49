/** The access control list of core/rtw_ap.c: sixteen slots, and a list threaded through the ones in use. */
module AclPool {
  import opened Bytes
  import opened Seqs

  const NUM_ACL: nat := 16

  type Mac = m: seq<byte> | |m| == 6 witness [0, 0, 0, 0, 0, 0]

  const BADDR: Mac := [0xff, 0xff, 0xff, 0xff, 0xff, 0xff]

  datatype Node = Node(addr: Mac, valid: bool)

  // ----- the list of addresses the pool stands for -----

  function Added(xs: seq<Mac>, addr: Mac): seq<Mac> {
    if |xs| > NUM_ACL - 1 || addr in xs then xs else xs + [addr]
  }

  /** The broadcast address takes every entry out. */
  predicate Leaves(a: Mac, addr: Mac) {
    a == addr || addr == BADDR
  }

  function Removed(xs: seq<Mac>, addr: Mac): seq<Mac> {
    if xs == [] then []
    else Removed(xs[..|xs| - 1], addr) + if Leaves(xs[|xs| - 1], addr) then [] else [xs[|xs| - 1]]
  }

  /** What is removed is what leaves; the rest stays, in order. */
  lemma {:induction false} RemovedIs(xs: seq<Mac>, addr: Mac)
    ensures forall a :: a in Removed(xs, addr) <==> a in xs && !Leaves(a, addr)
    ensures |Removed(xs, addr)| <= |xs| && (Distinct(xs) ==> Distinct(Removed(xs, addr)))
    ensures addr !in xs && addr != BADDR ==> Removed(xs, addr) == xs
    ensures addr == BADDR ==> Removed(xs, addr) == []
  {
    if xs != [] {
      RemovedIs(xs[..|xs| - 1], addr);
      Step(xs, |xs| - 1);
      assert xs[..|xs| - 1] + [xs[|xs| - 1]] == xs;
    }
  }

  datatype Op = AddSta(addr: Mac) | RemoveSta(addr: Mac) | StopAp | StartAp

  function Applied(xs: seq<Mac>, op: Op): seq<Mac> {
    match op
    case AddSta(addr) => Added(xs, addr)
    case RemoveSta(addr) => Removed(xs, addr)
    case StopAp | StartAp => []
  }

  function Run(ops: seq<Op>): seq<Mac> {
    if ops == [] then [] else Applied(Run(ops[..|ops| - 1]), ops[|ops| - 1])
  }

  function Members<T(!new)>(xs: seq<T>): set<T> {
    set a | a in xs
  }

  /** The operations as what they do to a set of at most sixteen addresses. */
  function Updated(s: set<Mac>, op: Op): set<Mac> {
    match op
    case AddSta(addr) => if |s| == NUM_ACL then s else s + {addr}
    case RemoveSta(addr) => if addr == BADDR then {} else s - {addr}
    case StopAp | StartAp => {}
  }

  lemma AppliedAsSet(xs: seq<Mac>, op: Op)
    requires Distinct(xs) && |xs| <= NUM_ACL
    ensures Distinct(Applied(xs, op)) && |Applied(xs, op)| <= NUM_ACL
    ensures Members(Applied(xs, op)) == Updated(Members(xs), op)
  {
    hide Removed;
    DistinctCount(xs);
    if op.RemoveSta? {
      RemovedIs(xs, op.addr);
    } else if op.AddSta? {
      assert Members(xs + [op.addr]) == Members(xs) + {op.addr};
    }
  }

  /** Over every run the entries are distinct and at most sixteen, and each operation acts on the set of addresses as
    * insertion into a bounded set, deletion, or clearing. */
  lemma {:induction false} RunIsBoundedSet(ops: seq<Op>)
    ensures Distinct(Run(ops)) && |Members(Run(ops))| == |Run(ops)| <= NUM_ACL
    ensures ops != [] ==> Members(Run(ops)) == Updated(Members(Run(ops[..|ops| - 1])), ops[|ops| - 1])
  {
    hide Members, Updated, Applied;
    if ops != [] {
      RunIsBoundedSet(ops[..|ops| - 1]);
      AppliedAsSet(Run(ops[..|ops| - 1]), ops[|ops| - 1]);
    }
    DistinctCount(Run(ops));
  }

  /** The address is in the list when operation j comes. */
  predicate ListedAt(ops: seq<Op>, j: nat, a: Mac)
    requires j <= |ops|
  {
    a in Run(ops[..j])
  }

  /** The address came into the list with operation k, and has been in it ever since. */
  ghost predicate Since(ops: seq<Op>, k: nat, a: Mac) {
    && k < |ops| && ops[k] == AddSta(a) && !ListedAt(ops, k, a)
    && forall j :: k < j <= |ops| ==> ListedAt(ops, j, a)
  }

  lemma ListedWithin(ops: seq<Op>, a: Mac)
    ensures ListedAt(ops, |ops|, a) <==> a in Run(ops)
    ensures forall j: nat :: j < |ops| ==> (ListedAt(ops[..|ops| - 1], j, a) <==> ListedAt(ops, j, a))
  {
    hide Run;
    assert ops[..|ops|] == ops;
    forall j: nat | j < |ops| ensures ListedAt(ops[..|ops| - 1], j, a) <==> ListedAt(ops, j, a) {
      assert ops[..|ops| - 1][..j] == ops[..j];
    }
  }

  lemma SinceWithin(ops: seq<Op>, k: nat, a: Mac)
    requires Since(ops, k, a)
    ensures k < |ops|
  {
  }

  lemma SinceOnwards(ops: seq<Op>, k: nat, a: Mac)
    requires ops != [] && Since(ops[..|ops| - 1], k, a) && a in Run(ops)
    ensures Since(ops, k, a)
  {
    hide ListedAt, Run;
    ListedWithin(ops, a);
  }

  lemma {:induction false} ListedSince(ops: seq<Op>, a: Mac)
    requires a in Run(ops)
    ensures exists k: nat :: Since(ops, k, a)
  {
    if ops != [] {
      var n := |ops| - 1;
      var before := Run(ops[..n]);
      if a in before {
        ListedSince(ops[..n], a);
        var k: nat :| Since(ops[..n], k, a);
        SinceOnwards(ops, k, a);
      } else {
        JustIn(ops, a);
      }
    }
  }

  lemma {:induction false} RemovedInOrder(xs: seq<Mac>, addr: Mac, i: nat, j: nat)
    requires i < j < |Removed(xs, addr)|
    ensures exists p: nat, q: nat :: p < q < |xs| && xs[p] == Removed(xs, addr)[i] && xs[q] == Removed(xs, addr)[j]
  {
    var n := |xs| - 1;
    var r := Removed(xs[..n], addr);
    if j < |r| {
      RemovedInOrder(xs[..n], addr, i, j);
    } else {
      RemovedIs(xs[..n], addr);
      assert r[i] in xs[..n];
      var p: nat :| p < n && xs[..n][p] == r[i];
      assert xs[p] == r[i] && xs[n] == Removed(xs, addr)[j];
    }
  }

  /** The list is in the order in which its addresses came in. */
  lemma {:induction false} RunInOrder(ops: seq<Op>, i: nat, j: nat)
    requires i < j < |Run(ops)|
    ensures exists p: nat, q: nat :: p < q && Since(ops, p, Run(ops)[i]) && Since(ops, q, Run(ops)[j])
    decreases |ops|, 1
  {
    hide Removed, Since;
    var n, x, y := |ops| - 1, Run(ops)[i], Run(ops)[j];
    var before := Run(ops[..n]);
    if ops[n].RemoveSta? {
      RemovedInOrder(before, ops[n].addr, i, j);
      var i': nat, j': nat :| i' < j' < |before| && before[i'] == x && before[j'] == y;
      OrderGoesOn(ops, i', j');
    } else if j < |before| {
      OrderGoesOn(ops, i, j);
    } else {
      ListedSince(ops[..n], x);
      var p: nat :| Since(ops[..n], p, x);
      SinceOnwards(ops, p, x);
      JustIn(ops, y);
      SinceWithin(ops[..n], p, x);
    }
  }

  lemma OrderGoesOn(ops: seq<Op>, i: nat, j: nat)
    requires ops != []
    requires var before := Run(ops[..|ops| - 1]); i < j < |before| && before[i] in Run(ops) && before[j] in Run(ops)
    ensures var before := Run(ops[..|ops| - 1]);
            exists p: nat, q: nat :: p < q && Since(ops, p, before[i]) && Since(ops, q, before[j])
    decreases |ops|, 0
  {
    hide Run, Since;
    var n := |ops| - 1;
    RunInOrder(ops[..n], i, j);
    var x, y := Run(ops[..n])[i], Run(ops[..n])[j];
    var p: nat, q: nat :| p < q && Since(ops[..n], p, x) && Since(ops[..n], q, y);
    SinceOnwards(ops, p, x);
    SinceOnwards(ops, q, y);
  }

  /** The last operation brought a in. */
  lemma JustIn(ops: seq<Op>, a: Mac)
    requires ops != [] && a in Run(ops) && a !in Run(ops[..|ops| - 1])
    ensures Since(ops, |ops| - 1, a)
  {
    LastOp(ops);
    AppliedBrings(Run(ops[..|ops| - 1]), ops[|ops| - 1], a);
    ListedWithin(ops, a);
    assert !ListedAt(ops, |ops| - 1, a);
    hide Run, Applied, ListedAt;
  }

  lemma LastOp(ops: seq<Op>)
    requires ops != []
    ensures Run(ops) == Applied(Run(ops[..|ops| - 1]), ops[|ops| - 1])
  {
  }

  lemma AppliedBrings(xs: seq<Mac>, op: Op, a: Mac)
    requires a !in xs && a in Applied(xs, op)
    ensures op == AddSta(a)
  {
    hide Removed;
    if op.RemoveSta? {
      RemovedIs(xs, op.addr);
    }
  }

  lemma {:induction false} DistinctCount<T(!new)>(xs: seq<T>)
    requires Distinct(xs)
    ensures |Members(xs)| == |xs|
  {
    if xs != [] {
      var init, last := xs[..|xs| - 1], xs[|xs| - 1];
      DistinctCount(init);
      assert Members(xs) == Members(init) + {last};
      assert last !in init;
    }
  }

  // ----- the pool -----

  /** The list holds exactly the valid slots, each once, and no address twice. */
  ghost predicate Linked(nodes: seq<Node>, q: seq<nat>) {
    && |nodes| == NUM_ACL && Distinct(q)
    && (forall k :: 0 <= k < |q| ==> q[k] < NUM_ACL)
    && (forall i :: 0 <= i < NUM_ACL ==> (nodes[i].valid <==> i in q))
    && Distinct(Listed(nodes, q))
  }

  ghost function Listed(nodes: seq<Node>, q: seq<nat>): (r: seq<Mac>)
    ensures |r| == |q|
    ensures forall k :: 0 <= k < |q| && q[k] < |nodes| ==> r[k] == nodes[q[k]].addr
  {
    seq(|q|, k requires 0 <= k < |q| => if q[k] < |nodes| then nodes[q[k]].addr else BADDR)
  }

  function ValidSlots(nodes: seq<Node>): set<nat> {
    set i: nat | i < |nodes| && nodes[i].valid
  }

  lemma CountsValidSlots(nodes: seq<Node>, q: seq<nat>)
    requires Linked(nodes, q)
    ensures |q| == |ValidSlots(nodes)| == |Members(Listed(nodes, q))|
  {
    DistinctCount(q);
    DistinctCount(Listed(nodes, q));
    assert forall i: nat :: i in ValidSlots(nodes) <==> i in Members(q);
    assert ValidSlots(nodes) == Members(q);
  }

  class WlanAclPool {
    var num: int
    const aclnode: array<Node>
    /** acl_node_q, as the slots it goes through. */
    var acl_node_q: seq<nat>

    ghost predicate Valid()
      reads this, aclnode
    {
      Linked(aclnode[..], acl_node_q) && num == |acl_node_q|
    }

    ghost function Addresses(): seq<Mac>
      reads this, aclnode
    {
      Listed(aclnode[..], acl_node_q)
    }

    /** The counter is the number of valid slots, and of addresses. */
    lemma NumCounts()
      requires Valid()
      ensures num == |ValidSlots(aclnode[..])| == |Members(Addresses())|
    {
      CountsValidSlots(aclnode[..], acl_node_q);
    }

    constructor ()
      ensures fresh(aclnode) && Valid() && Addresses() == []
    {
      aclnode := new Node[NUM_ACL](_ => Node(BADDR, false));
      num, acl_node_q := 0, [];
    }

    /** The part of start_ap_mode that sets the list up. */
    method Init()
      requires aclnode.Length == NUM_ACL
      modifies this, aclnode
      ensures Valid() && Addresses() == []
    {
      acl_node_q, num := [], 0;
      for i := 0 to NUM_ACL
        invariant acl_node_q == [] && num == 0 && forall k :: 0 <= k < i ==> !aclnode[k].valid
      {
        aclnode[i] := aclnode[i].(valid := false);
      }
    }

    /** The search both operations start with. */
    method IsListed(addr: Mac) returns (added: bool)
      requires Valid()
      ensures added <==> addr in Addresses()
    {
      for k := 0 to |acl_node_q|
        invariant forall j :: 0 <= j < k ==> Addresses()[j] != addr
      {
        var paclnode := aclnode[acl_node_q[k]];
        if paclnode.addr == addr {
          if paclnode.valid {
            assert Addresses()[k] == addr;
            return true;
          }
        }
      }
      return false;
    }

    /** rtw_acl_add_sta */
    method AddSta(addr: Mac) returns (ret: int)
      requires Valid()
      modifies this, aclnode
      ensures Valid() && Addresses() == Added(old(Addresses()), addr)
      ensures ret == -1 <==> |old(Addresses())| == NUM_ACL
      ensures ret == 0 <==> |old(Addresses())| < NUM_ACL
    {
      PoolBound(aclnode[..], acl_node_q);
      if NUM_ACL - 1 < num {
        return -1;
      }
      var added := IsListed(addr);
      if added {
        return 0;
      }
      var i := FreeSlot();
      ghost var nodes, q := aclnode[..], acl_node_q;
      aclnode[i] := Node(addr, true);
      acl_node_q := acl_node_q + [i];
      num := num + 1;
      SlotTaken(nodes, q, i, addr);
      assert aclnode[..] == nodes[i := Node(addr, true)];
      return 0;
    }

    /** The first slot that is not valid: there is one while the counter is below sixteen. */
    method FreeSlot() returns (i: nat)
      requires Valid() && num < NUM_ACL
      ensures i < NUM_ACL && !aclnode[i].valid && forall j :: 0 <= j < i ==> aclnode[j].valid
    {
      i := 0;
      while i < NUM_ACL
        invariant i <= NUM_ACL && forall j :: 0 <= j < i ==> aclnode[j].valid
      {
        if !aclnode[i].valid {
          return;
        }
        i := i + 1;
      }
      CountsValidSlots(aclnode[..], acl_node_q);
      AllValid(aclnode[..]);
      assert false;
    }

    /** The list walk of rtw_acl_remove_sta and, with every address matching, of stop_ap_mode. */
    method RemoveSta(addr: Mac)
      requires Valid()
      modifies this, aclnode
      ensures Valid() && Addresses() == Removed(old(Addresses()), addr)
    {
      hide Walked, Linked, Listed, Removed, Distinct;
      ghost var xs, j := Addresses(), 0;
      var k := 0;
      WalkStarts(xs, addr);
      while k < |acl_node_q|
        invariant Valid() && Walked(Addresses(), xs, j, k, addr)
        decreases |acl_node_q| - k
      {
        ghost var nodes, q := aclnode[..], acl_node_q;
        var i := acl_node_q[k];
        WalkStep(nodes, q, xs, j, k, addr);
        if (aclnode[i].addr == addr || BADDR == addr) && aclnode[i].valid {
          Unlist(k);
        } else {
          k := k + 1;
        }
        j := j + 1;
      }
      WalkEnds(Addresses(), xs, j, k, addr);
    }

    /** The node at place k is deleted from the list and its slot is free again. */
    method Unlist(k: nat)
      requires Valid() && k < |acl_node_q|
      modifies this, aclnode
      ensures Valid() && |acl_node_q| == old(|acl_node_q|) - 1
      ensures Addresses() == old(Addresses())[..k] + old(Addresses())[k + 1..]
    {
      hide Linked, Listed, Distinct;
      ghost var nodes, q := aclnode[..], acl_node_q;
      SlotInRange(nodes, q, k);
      SlotFreed(nodes, q, k);
      var i := acl_node_q[k];
      aclnode[i] := aclnode[i].(valid := false);
      acl_node_q := acl_node_q[..k] + acl_node_q[k + 1..];
      num := num - 1;
      assert aclnode[..] == nodes[i := nodes[i].(valid := false)];
    }

    method Perform(op: Op) returns (ret: int)
      requires Valid()
      modifies this, aclnode
      ensures Valid() && Addresses() == Applied(old(Addresses()), op)
    {
      ret := 0;
      match op {
        case AddSta(addr) => ret := AddSta(addr);
        case RemoveSta(addr) => RemoveSta(addr);
        case StopAp =>
          RemovedIs(Addresses(), BADDR);
          RemoveSta(BADDR);
        case StartAp => Init();
      }
    }

    /** Any run from a fresh pool ends in the list the specification gives. */
    method PerformAll(ops: seq<Op>)
      requires Valid() && Addresses() == []
      modifies this, aclnode
      ensures Valid() && Addresses() == Run(ops)
    {
      for n := 0 to |ops|
        invariant Valid() && Addresses() == Run(ops[..n])
      {
        assert ops[..n + 1][..n] == ops[..n];
        var ret := Perform(ops[n]);
      }
      assert ops[..|ops|] == ops;
    }
  }

  lemma PoolBound(nodes: seq<Node>, q: seq<nat>)
    requires Linked(nodes, q)
    ensures |q| <= NUM_ACL
  {
    CountsValidSlots(nodes, q);
    SubsetOfRange(ValidSlots(nodes), NUM_ACL);
  }

  lemma {:induction false} SubsetOfRange(s: set<nat>, n: nat)
    requires forall i :: i in s ==> i < n
    ensures |s| <= n && ((forall i: nat :: i < n ==> i in s) ==> |s| == n)
  {
    if n > 0 {
      SubsetOfRange(s - {n - 1}, n - 1);
      if n - 1 in s {
        assert |s| == |s - {n - 1}| + 1;
      } else {
        assert s - {n - 1} == s;
      }
    }
  }

  lemma AllValid(nodes: seq<Node>)
    requires |nodes| == NUM_ACL && forall j :: 0 <= j < NUM_ACL ==> nodes[j].valid
    ensures |ValidSlots(nodes)| == NUM_ACL
  {
    SubsetOfRange(ValidSlots(nodes), NUM_ACL);
  }

  lemma SlotTaken(nodes: seq<Node>, q: seq<nat>, i: nat, addr: Mac)
    requires Linked(nodes, q) && i < NUM_ACL && !nodes[i].valid && addr !in Listed(nodes, q)
    ensures var nodes', q' := nodes[i := Node(addr, true)], q + [i];
            Linked(nodes', q') && Listed(nodes', q') == Listed(nodes, q) + [addr]
  {
    var nodes', q' := nodes[i := Node(addr, true)], q + [i];
    assert i !in q;
    forall k | 0 <= k < |q| ensures Listed(nodes', q')[k] == Listed(nodes, q)[k] {
      assert q'[k] == q[k] != i;
    }
    assert Listed(nodes', q') == Listed(nodes, q) + [addr];
  }

  lemma SlotInRange(nodes: seq<Node>, q: seq<nat>, k: nat)
    requires Linked(nodes, q) && k < |q|
    ensures |nodes| == NUM_ACL && q[k] < NUM_ACL && nodes[q[k]].valid
  {
  }

  lemma SlotFreed(nodes: seq<Node>, q: seq<nat>, k: nat)
    requires Linked(nodes, q) && k < |q|
    ensures var nodes', q' := nodes[q[k] := nodes[q[k]].(valid := false)], q[..k] + q[k + 1..];
            Linked(nodes', q') && Listed(nodes', q') == Listed(nodes, q)[..k] + Listed(nodes, q)[k + 1..]
  {
    hide Listed, Distinct;
    CutOut(q, k);
    CutOut(Listed(nodes, q), k);
    ListedCut(nodes, q, k);
  }

  lemma ListedCut(nodes: seq<Node>, q: seq<nat>, k: nat)
    requires |nodes| == NUM_ACL && k < |q| && forall j :: 0 <= j < |q| ==> q[j] < NUM_ACL
    ensures var nodes', q' := nodes[q[k] := nodes[q[k]].(valid := false)], q[..k] + q[k + 1..];
            Listed(nodes', q') == Listed(nodes, q)[..k] + Listed(nodes, q)[k + 1..]
  {
    var nodes', q' := nodes[q[k] := nodes[q[k]].(valid := false)], q[..k] + q[k + 1..];
    var r, r' := Listed(nodes, q), Listed(nodes', q');
    hide Listed;
    forall j | 0 <= j < |q'| ensures r'[j] == (r[..k] + r[k + 1..])[j] {
      assert q'[j] == q[if j < k then j else j + 1];
    }
  }

  lemma CutOut<T>(xs: seq<T>, k: nat)
    requires k < |xs| && Distinct(xs)
    ensures var r := xs[..k] + xs[k + 1..];
            Distinct(r) && forall x :: x in r <==> x in xs && x != xs[k]
  {
    Step(xs, k);
  }

  /** The walk has passed j of the addresses xs, and kept k of them. */
  ghost predicate Walked(now: seq<Mac>, xs: seq<Mac>, j: nat, k: nat, addr: Mac) {
    j <= |xs| && now == Removed(xs[..j], addr) + xs[j..] && k == |Removed(xs[..j], addr)|
  }

  lemma WalkStarts(xs: seq<Mac>, addr: Mac)
    ensures Walked(xs, xs, 0, 0, addr)
  {
    assert xs[..0] == [] && xs[0..] == xs;
  }

  lemma WalkEnds(now: seq<Mac>, xs: seq<Mac>, j: nat, k: nat, addr: Mac)
    requires Walked(now, xs, j, k, addr) && k >= |now|
    ensures now == Removed(xs, addr)
  {
    assert xs[..j] == xs;
  }

  lemma WalkStep(nodes: seq<Node>, q: seq<nat>, xs: seq<Mac>, j: nat, k: nat, addr: Mac)
    requires Linked(nodes, q) && k < |q| && Walked(Listed(nodes, q), xs, j, k, addr)
    ensures q[k] < |nodes| && nodes[q[k]].valid
    ensures var xs' := Listed(nodes, q);
            if Leaves(nodes[q[k]].addr, addr) then Walked(xs'[..k] + xs'[k + 1..], xs, j + 1, k, addr)
            else Walked(xs', xs, j + 1, k + 1, addr)
  {
    hide Removed;
    assert q[k] in q;
    PassedOne(Listed(nodes, q), xs, j, k, addr);
  }

  /** Address j of xs stands at k; it is kept, or cut out. */
  lemma PassedOne(now: seq<Mac>, xs: seq<Mac>, j: nat, k: nat, addr: Mac)
    requires Walked(now, xs, j, k, addr) && k < |now|
    ensures now[k] == xs[j]
    ensures if Leaves(now[k], addr) then Walked(now[..k] + now[k + 1..], xs, j + 1, k, addr)
            else Walked(now, xs, j + 1, k + 1, addr)
  {
    hide Leaves;
    var done := Removed(xs[..j], addr);
    Step(xs, j);
    assert xs[..j + 1][..j] == xs[..j];
    ThreeParts(done, [xs[j]], xs[j + 1..]);
    Assoc(done, [xs[j]], xs[j + 1..]);
  }
}
