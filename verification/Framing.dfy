/** Records written one after another: the shape shared by information elements, P2P attributes and PPPoE tags. */
module Framing {
  import opened Bytes
  import opened Seqs

  /** The octets of xs, each record written by enc. */
  function Flat<T>(enc: T -> seq<byte>, xs: seq<T>): seq<byte> {
    if |xs| == 0 then [] else enc(xs[0]) + Flat(enc, xs[1..])
  }

  /** Where record k starts. */
  function Start<T>(enc: T -> seq<byte>, xs: seq<T>, k: nat): nat
    requires k <= |xs|
  {
    |Flat(enc, xs[..k])|
  }

  lemma {:induction false} FlatConcat<T>(enc: T -> seq<byte>, a: seq<T>, b: seq<T>)
    ensures Flat(enc, a + b) == Flat(enc, a) + Flat(enc, b)
  {
    if |a| == 0 {
      assert a + b == b;
    } else {
      FlatConcat(enc, a[1..], b);
      TailOfCat(a, b);
      Assoc(enc(a[0]), Flat(enc, a[1..]), Flat(enc, b));
    }
  }

  lemma FlatOne<T>(enc: T -> seq<byte>, x: T)
    ensures Flat(enc, [x]) == enc(x)
  {
    assert Flat(enc, [x][1..]) == [];
  }

  /** Cutting the octets at a record boundary cuts the list there. */
  lemma FlatCut<T>(enc: T -> seq<byte>, xs: seq<T>, k: nat)
    requires k <= |xs|
    ensures Flat(enc, xs) == Flat(enc, xs[..k]) + Flat(enc, xs[k..])
    ensures Start(enc, xs, k) <= |Flat(enc, xs)|
    ensures Flat(enc, xs)[..Start(enc, xs, k)] == Flat(enc, xs[..k])
    ensures Flat(enc, xs)[Start(enc, xs, k)..] == Flat(enc, xs[k..])
  {
    hide Flat;
    FlatConcat(enc, xs[..k], xs[k..]);
    TakeDrop(xs, k);
    CatParts(Flat(enc, xs[..k]), Flat(enc, xs[k..]));
  }

  /** Record k sits between the octets of its predecessors and those of its successors. */
  lemma FlatSplit<T>(enc: T -> seq<byte>, xs: seq<T>, k: nat)
    requires k < |xs|
    ensures Flat(enc, xs) == Flat(enc, xs[..k]) + (enc(xs[k]) + Flat(enc, xs[k + 1..]))
    ensures Flat(enc, xs[..k + 1]) == Flat(enc, xs[..k]) + enc(xs[k])
    ensures Start(enc, xs, k + 1) == Start(enc, xs, k) + |enc(xs[k])|
  {
    FlatCut(enc, xs, k);
    Step(xs, k);
    FlatConcat(enc, xs[..k], [xs[k]]);
    FlatOne(enc, xs[k]);
  }

  /** The octets of record k, wherever in a buffer a the slice [lo, hi) holding xs stands. */
  lemma FlatRead<T>(enc: T -> seq<byte>, a: seq<byte>, lo: nat, hi: nat, xs: seq<T>, k: nat)
    requires lo <= hi <= |a| && a[lo..hi] == Flat(enc, xs) && k < |xs|
    ensures var p := lo + Start(enc, xs, k);
            && p + |enc(xs[k])| == lo + Start(enc, xs, k + 1) <= hi
            && a[p..p + |enc(xs[k])|] == enc(xs[k])
  {
    hide Flat;
    FlatSplit(enc, xs, k);
    var o, x := Start(enc, xs, k), enc(xs[k]);
    CatParts(Flat(enc, xs[..k]), x + Flat(enc, xs[k + 1..]));
    CatParts(x, Flat(enc, xs[k + 1..]));
    DropTake(a[lo..hi], o, |x|);
    SliceOfSlice(a, lo, hi, o, o + |x|);
  }

  /** Boundaries are ordered; only the last one is the end of the octets. */
  lemma {:induction false} FlatEnd<T>(enc: T -> seq<byte>, xs: seq<T>, k: nat)
    requires k <= |xs|
    requires forall i :: 0 <= i < |xs| ==> |enc(xs[i])| > 0
    ensures Start(enc, xs, 0) == 0
    ensures k == |xs| <==> Start(enc, xs, k) == |Flat(enc, xs)|
    ensures Start(enc, xs, k) <= |Flat(enc, xs)|
  {
    assert xs[..|xs|] == xs;
    if k < |xs| {
      FlatSplit(enc, xs, k);
    }
  }
}
