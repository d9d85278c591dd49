/** Octets, 16-bit words, host byte order and the two block moves every buffer edit is made of. */
module Bytes {
  import opened Seqs

  type byte = x: int | 0 <= x < 0x100
  type u16 = x: int | 0 <= x < 0x1_0000

  datatype Option<+T> = None | Some(value: T)

  /** The byte order of the machine the driver was compiled for. */
  datatype Host = LittleEndian | BigEndian

  function Swap16(x: u16): u16 {
    x % 0x100 * 0x100 + x / 0x100
  }

  /** htons/ntohs: the identity on a big-endian host, a byte swap on a little-endian one. */
  function Htons(h: Host, x: u16): u16 {
    if h.BigEndian? then x else Swap16(x)
  }

  /** cpu_to_le16: the identity on a little-endian host, a byte swap on a big-endian one. */
  function CpuToLe16(h: Host, x: u16): u16 {
    if h.LittleEndian? then x else Swap16(x)
  }

  lemma SwapIsInvolutive(x: u16)
    ensures Swap16(Swap16(x)) == x
  {
  }

  /** The value a big-endian 16-bit field holds. */
  function Be16(b0: byte, b1: byte): u16 {
    b0 * 0x100 + b1
  }

  /** The value a little-endian 16-bit field holds. */
  function Le16(b0: byte, b1: byte): u16 {
    b1 * 0x100 + b0
  }

  predicate Bit(x: nat, weight: nat)
    requires weight > 0
  {
    x / weight % 2 == 1
  }

  // ----- block moves -----

  /** s with t written over it from position at. */
  function Stored<T>(s: seq<T>, at: nat, t: seq<T>): (r: seq<T>)
    requires at + |t| <= |s|
    ensures |r| == |s|
  {
    s[..at] + t + s[at + |t|..]
  }

  /** memcpy from a separate buffer. */
  method Store(a: array<byte>, at: nat, t: seq<byte>)
    requires at + |t| <= a.Length
    modifies a
    ensures a[..] == Stored(old(a[..]), at, t)
  {
    forall i | 0 <= i < |t| {
      a[at + i] := t[i];
    }
  }

  /** memmove inside one buffer: source and destination may overlap. */
  method Move(a: array<byte>, dst: nat, src: nat, n: nat)
    requires dst + n <= a.Length && src + n <= a.Length
    modifies a
    ensures a[..] == Stored(old(a[..]), dst, old(a[src..src + n]))
  {
    forall i | 0 <= i < n {
      a[dst + i] := a[src + i];
    }
  }

  /** memset to zero. */
  method Zero(a: array<byte>, at: nat, n: nat)
    requires at + n <= a.Length
    modifies a
    ensures a[..] == Stored(old(a[..]), at, seq(n, _ => 0))
  {
    forall i | 0 <= i < n {
      a[at + i] := 0;
    }
  }

  /** Slices of the result: away from the written part, over it, and before it. */
  lemma StoredSlices<T>(s: seq<T>, at: nat, t: seq<T>)
    requires at + |t| <= |s|
    ensures forall hi :: 0 <= hi <= at ==> Stored(s, at, t)[..hi] == s[..hi]
    ensures forall lo, hi :: 0 <= lo <= hi <= at ==> Stored(s, at, t)[lo..hi] == s[lo..hi]
    ensures forall lo :: at + |t| <= lo <= |s| ==> Stored(s, at, t)[lo..] == s[lo..]
    ensures Stored(s, at, t)[at..at + |t|] == t
  {
  }
}
