/** Facts about sequences, each named so that the proofs about buffers can ask for the one they need. */
module Seqs {

  /** No two places hold the same value. */
  predicate Distinct<T(==)>(xs: seq<T>) {
    forall i, j :: 0 <= i < j < |xs| ==> xs[i] != xs[j]
  }

  lemma Assoc<T>(x: seq<T>, y: seq<T>, z: seq<T>)
    ensures (x + y) + z == x + (y + z)
  {
  }

  lemma CatParts<T>(x: seq<T>, y: seq<T>)
    ensures (x + y)[..|x|] == x && (x + y)[|x|..] == y
  {
  }

  lemma ThreeParts<T>(x: seq<T>, y: seq<T>, z: seq<T>)
    ensures var w := x + (y + z);
            w[..|x|] == x && w[|x|..|x| + |y|] == y && w[|x| + |y|..] == z
  {
  }

  lemma TailOfCat<T>(x: seq<T>, y: seq<T>)
    requires x != []
    ensures x + y != [] && (x + y)[0] == x[0] && (x + y)[1..] == x[1..] + y
  {
  }

  lemma HeadTail<T>(x: seq<T>)
    requires x != []
    ensures x == [x[0]] + x[1..]
  {
  }

  lemma TakeDrop<T>(x: seq<T>, k: nat)
    requires k <= |x|
    ensures x[..k] + x[k..] == x
  {
  }

  /** Stepping over element k, seen from the front and from the back. */
  lemma Step<T>(x: seq<T>, k: nat)
    requires k < |x|
    ensures x[..k + 1] == x[..k] + [x[k]]
    ensures x[k..] == [x[k]] + x[k + 1..]
    ensures x[k..] != [] && x[k..][0] == x[k] && x[k..][1..] == x[k + 1..]
    ensures x == x[..k] + [x[k]] + x[k + 1..]
  {
  }

  lemma Replaced<T>(x: seq<T>, k: nat, y: T)
    requires k < |x|
    ensures x[..k] + [y] + x[k + 1..] == x[k := y]
  {
  }

  /** One place of [p, q) rewritten: that slice, those around it, and what stands in front. */
  lemma Put<T>(a: seq<T>, at: nat, y: T, lo: nat, p: nat, q: nat, hi: nat)
    requires lo <= p <= at < q <= hi <= |a|
    ensures var b := a[at := y];
            && b[p..q] == a[p..q][at - p := y] && b[..lo] == a[..lo]
            && b[lo..hi] == a[lo..p] + b[p..q] + a[q..hi]
  {
  }

  lemma SliceOfSlice<T>(a: seq<T>, lo: nat, hi: nat, i: nat, j: nat)
    requires lo <= hi <= |a| && i <= j <= hi - lo
    ensures a[lo..hi][i..j] == a[lo + i..lo + j]
  {
    forall k | 0 <= k < j - i ensures a[lo..hi][i..j][k] == a[lo + i..lo + j][k] {
    }
  }

  lemma DropOfDrop<T>(a: seq<T>, i: nat, j: nat)
    requires i + j <= |a|
    ensures a[i..][j..] == a[i + j..]
  {
  }

  lemma DropTake<T>(a: seq<T>, i: nat, n: nat)
    requires i + n <= |a|
    ensures a[i..][..n] == a[i..i + n]
  {
  }

  /** Element k of the tail is element k + 1; taking it out commutes with dropping the head. */
  lemma CutInTail<T>(a: seq<T>, k: nat)
    requires 0 < k < |a|
    ensures a[1..][..k - 1] == a[..k][1..] && a[1..][k..] == a[k + 1..]
    ensures a[..k] + a[k + 1..] == [a[0]] + (a[1..][..k - 1] + a[1..][k..])
  {
  }

  /** Two neighbouring slices make one. */
  lemma Join<T>(a: seq<T>, lo: nat, mid: nat, hi: nat)
    requires lo <= mid <= hi <= |a|
    ensures a[lo..mid] + a[mid..hi] == a[lo..hi]
  {
  }

  lemma MultisetOfCat<T>(x: seq<T>, y: seq<T>)
    ensures multiset(x + y) == multiset(x) + multiset(y)
  {
  }

  /** x put in at a place, overwritten there, and cut out again. */
  lemma Inserted<T>(s: seq<T>, at: nat, x: T, y: T)
    requires at <= |s|
    ensures var once := s[..at] + [x] + s[at..];
            && (forall j :: 0 <= j < at ==> once[j] == s[j]) && once[at] == x
            && once[at := y] == s[..at] + [y] + s[at..]
  {
  }

  lemma InsertedCut<T>(s: seq<T>, at: nat, x: T)
    requires at <= |s|
    ensures var once := s[..at] + [x] + s[at..]; |once| == |s| + 1 && once[..at] + once[at + 1..] == s
  {
  }
}
