/** Information elements (section 8.4.2.1 of IEEE 802.11-2012) and the octet strings they are carried in. */
module Elements {
  import opened Bytes
  import opened Seqs
  import opened Framing

  /** A body fits the one-octet length field. */
  type Body = s: seq<byte> | |s| < 0x100

  datatype Ie = Element(id: byte, body: Body)

  function Encode(e: Ie): (b: seq<byte>)
    ensures |b| == |e.body| + 2
  {
    [e.id, |e.body|] + e.body
  }

  function EncodeAll(es: seq<Ie>): seq<byte> {
    Flat(Encode, es)
  }

  /** The elements a left-to-right reading of b finds before it meets a truncated one. */
  function Prefix(b: seq<byte>): seq<Ie> {
    if |b| < 2 || |b| - 2 < b[1] then
      []
    else
      [Element(b[0], b[2..2 + b[1]])] + Prefix(b[2 + b[1]..])
  }

  /** b is an exact concatenation of elements. */
  ghost predicate WellFormed(b: seq<byte>) {
    EncodeAll(Prefix(b)) == b
  }

  function Offset(es: seq<Ie>, k: nat): nat
    requires k <= |es|
  {
    |EncodeAll(es[..k])|
  }

  lemma EncodeAllConcat(a: seq<Ie>, b: seq<Ie>)
    ensures EncodeAll(a + b) == EncodeAll(a) + EncodeAll(b)
  {
    FlatConcat(Encode, a, b);
  }

  lemma EncodeOne(e: Ie)
    ensures EncodeAll([e]) == Encode(e)
    ensures EncodeAll([]) == []
  {
    FlatOne(Encode, e);
  }

  lemma SplitAt(es: seq<Ie>, k: nat)
    requires k < |es|
    ensures EncodeAll(es) == EncodeAll(es[..k]) + (Encode(es[k]) + EncodeAll(es[k + 1..]))
    ensures EncodeAll(es[..k + 1]) == EncodeAll(es[..k]) + Encode(es[k])
    ensures Offset(es, k + 1) == Offset(es, k) + 2 + |es[k].body|
  {
    FlatSplit(Encode, es, k);
  }

  lemma CutAt(es: seq<Ie>, k: nat)
    requires k <= |es|
    ensures EncodeAll(es) == EncodeAll(es[..k]) + EncodeAll(es[k..])
    ensures Offset(es, k) <= |EncodeAll(es)|
    ensures EncodeAll(es)[..Offset(es, k)] == EncodeAll(es[..k])
    ensures EncodeAll(es)[Offset(es, k)..] == EncodeAll(es[k..])
  {
    FlatCut(Encode, es, k);
  }

  /** Reading back what was written gives the elements that were written. */
  lemma {:induction false} PrefixOfEncodeAll(es: seq<Ie>)
    ensures Prefix(EncodeAll(es)) == es
    ensures WellFormed(EncodeAll(es))
  {
    if es != [] {
      PrefixOfEncodeAll(es[1..]);
      var b := EncodeAll(es);
      assert b[2..2 + b[1]] == es[0].body;
      CatParts(Encode(es[0]), EncodeAll(es[1..]));
      HeadTail(es);
    }
  }

  /** The elements in front are read, whatever follows them. */
  lemma {:induction false} PrefixAfter(es: seq<Ie>, x: seq<byte>)
    ensures Prefix(EncodeAll(es) + x) == es + Prefix(x)
    ensures WellFormed(EncodeAll(es) + x) <==> WellFormed(x)
  {
    if es == [] {
      assert EncodeAll(es) + x == x && es + Prefix(x) == Prefix(x);
    } else {
      var b, tail := EncodeAll(es) + x, EncodeAll(es[1..]) + x;
      PrefixAfter(es[1..], x);
      Assoc(Encode(es[0]), EncodeAll(es[1..]), x);
      assert b == Encode(es[0]) + tail;
      PrefixOne(es[0], tail);
      HeadTail(es);
      Assoc([es[0]], es[1..], Prefix(x));
    }
  }

  lemma PrefixOne(e: Ie, tail: seq<byte>)
    ensures Prefix(Encode(e) + tail) == [e] + Prefix(tail)
    ensures WellFormed(Encode(e) + tail) <==> WellFormed(tail)
  {
    var b := Encode(e) + tail;
    assert b[2..2 + b[1]] == e.body && b[2 + b[1]..] == tail;
    EncodeAllConcat([e], Prefix(tail));
    EncodeOne(e);
    CatParts(Encode(e), tail);
    CatParts(Encode(e), EncodeAll(Prefix(tail)));
  }

  /** Octets have at most one reading as a concatenation of elements. */
  lemma WellFormedIffEncoded(b: seq<byte>, es: seq<Ie>)
    ensures b == EncodeAll(es) <==> WellFormed(b) && Prefix(b) == es
  {
    if b == EncodeAll(es) {
      PrefixOfEncodeAll(es);
    }
  }

  lemma OffsetMonotone(es: seq<Ie>, j: nat, k: nat)
    requires j < k <= |es|
    ensures Offset(es, j) + 2 + |es[j].body| <= Offset(es, k)
  {
    SplitAt(es[..k], j);
    assert es[..k][..j] == es[..j];
  }

  /** What a cursor standing on element k reads, in a buffer a whose slice [lo, hi) encodes es. */
  lemma ReadAt(a: seq<byte>, lo: nat, hi: nat, es: seq<Ie>, k: nat)
    requires lo <= hi <= |a| && a[lo..hi] == EncodeAll(es) && k < |es|
    ensures var p, e := lo + Offset(es, k), es[k];
            && p + 2 + |e.body| == lo + Offset(es, k + 1) <= hi
            && a[p] == e.id && a[p + 1] == |e.body|
    ensures Offset(es, k + 1) < hi - lo <==> k + 1 < |es|
  {
    FlatRead(Encode, a, lo, hi, es, k);
    var p := lo + Offset(es, k);
    assert a[p] == a[p..p + |Encode(es[k])|][0] && a[p + 1] == a[p..p + |Encode(es[k])|][1];
    OffsetEnd(es, k + 1);
  }

  /** The first n body octets of element k, where they stand in the buffer. */
  lemma BodyAt(a: seq<byte>, lo: nat, hi: nat, es: seq<Ie>, k: nat, n: nat)
    requires lo <= hi <= |a| && a[lo..hi] == EncodeAll(es) && k < |es| && n <= |es[k].body|
    ensures var p := lo + Offset(es, k) + 2;
            p + n <= hi && a[p..p + n] == es[k].body[..n]
  {
    FlatRead(Encode, a, lo, hi, es, k);
    var p, e := lo + Offset(es, k), es[k];
    SliceOfSlice(a, p, p + |Encode(e)|, 2, 2 + n);
    assert Encode(e)[2..2 + n] == e.body[..n];
  }

  /** Only the end of the list lies at the end of the octets. */
  lemma OffsetEnd(es: seq<Ie>, k: nat)
    requires k <= |es|
    ensures Offset(es, 0) == 0
    ensures k == |es| <==> Offset(es, k) == |EncodeAll(es)|
    ensures Offset(es, k) <= |EncodeAll(es)|
  {
    FlatEnd(Encode, es, k);
  }

  /** Elements i..j of an encoded slice [lo, hi), cut out and replaced by the octets of mid. */
  lemma Respliced(a: seq<byte>, lo: nat, hi: nat, es: seq<Ie>, i: nat, j: nat, mid: seq<Ie>)
    requires lo <= hi <= |a| && a[lo..hi] == EncodeAll(es) && i <= j <= |es|
    ensures var p, q := lo + Offset(es, i), lo + Offset(es, j);
            p <= hi && q <= hi && a[lo..p] + EncodeAll(mid) + a[q..hi] == EncodeAll(es[..i] + mid + es[j..])
  {
    hide EncodeAll;
    CutAt(es, i);
    CutAt(es, j);
    SliceOfSlice(a, lo, hi, 0, Offset(es, i));
    SliceOfSlice(a, lo, hi, Offset(es, j), hi - lo);
    EncodeAllConcat(es[..i] + mid, es[j..]);
    EncodeAllConcat(es[..i], mid);
  }

  lemma RewrittenAt(a: seq<byte>, lo: nat, hi: nat, es: seq<Ie>, k: nat, e: Ie)
    requires lo <= hi <= |a| && a[lo..hi] == EncodeAll(es) && k < |es|
    ensures var p := lo + Offset(es, k);
            p + |es[k].body| + 2 <= hi && a[lo..p] + Encode(e) + a[p + |es[k].body| + 2..hi] == EncodeAll(es[k := e])
  {
    hide EncodeAll;
    Respliced(a, lo, hi, es, k, k + 1, [e]);
    SplitAt(es, k);
    EncodeOne(e);
    assert es[k := e] == es[..k] + [e] + es[k + 1..];
  }

  // ----- searching -----

  /** Index of the first element with this id, or |es|. */
  function IndexOf(es: seq<Ie>, id: int): (k: nat)
    ensures k <= |es|
  {
    if es == [] || es[0].id == id then 0 else 1 + IndexOf(es[1..], id)
  }

  lemma {:induction false} IndexOfIsFirst(es: seq<Ie>, id: int)
    ensures forall j :: 0 <= j < IndexOf(es, id) ==> es[j].id != id
    ensures IndexOf(es, id) < |es| ==> es[IndexOf(es, id)].id == id
  {
    if es != [] && es[0].id != id {
      IndexOfIsFirst(es[1..], id);
      forall j | 0 <= j < IndexOf(es, id)
        ensures es[j].id != id
      {
        if j > 0 {
          assert es[j] == es[1..][j - 1];
        }
      }
    }
  }

  /** The two facts of IndexOfIsFirst determine the index. */
  lemma IndexOfUnique(es: seq<Ie>, id: int, k: nat)
    requires k <= |es|
    requires forall j :: 0 <= j < k ==> es[j].id != id
    requires k < |es| ==> es[k].id == id
    ensures IndexOf(es, id) == k
  {
    IndexOfIsFirst(es, id);
  }

  /** The first element with this id. */
  function First(es: seq<Ie>, id: int): Option<Ie> {
    if IndexOf(es, id) < |es| then Some(es[IndexOf(es, id)]) else None
  }

  lemma FirstIn(es: seq<Ie>, id: int)
    ensures First(es, id).None? <==> forall e <- es :: e.id != id
    ensures First(es, id).Some? ==> First(es, id).value in es && First(es, id).value.id == id
  {
    IndexOfIsFirst(es, id);
    if First(es, id).Some? {
      assert es[IndexOf(es, id)] in es;
    }
  }

  lemma FirstConcat(a: seq<Ie>, b: seq<Ie>, id: int)
    ensures First(a + b, id) == if First(a, id).Some? then First(a, id) else First(b, id)
  {
    IndexOfIsFirst(a, id);
    IndexOfIsFirst(b, id);
    var k := if IndexOf(a, id) < |a| then IndexOf(a, id) else |a| + IndexOf(b, id);
    IndexOfUnique(a + b, id, k);
  }

  /** Inserting, dropping or rewriting one element is invisible to a search for another id. */
  lemma FirstIgnores(a: seq<Ie>, x: Ie, b: seq<Ie>, id: int)
    requires x.id != id
    ensures First(a + [x] + b, id) == First(a + b, id)
  {
    FirstConcat(a + [x], b, id);
    FirstConcat(a, [x], id);
    FirstConcat(a, b, id);
  }

  /** A rewritten element stays the first of its id. */
  lemma FirstRewritten(a: seq<Ie>, x: Ie, b: seq<Ie>)
    requires First(a, x.id).None?
    ensures First(a + [x] + b, x.id) == Some(x)
  {
    FirstConcat(a + [x], b, x.id);
    FirstConcat(a, [x], x.id);
  }
}
