/** The part of WLAN_BSSID_EX the beacon code edits: a fixed buffer and the length in use. */
module Bss {
  import opened Bytes
  import opened Elements

  const MAX_IE_SZ: nat := 768
  /** Timestamp, beacon interval and capabilities precede the elements. */
  const FIXED_IE_LENGTH: nat := 12

  class BssidEx {
    var IELength: nat
    const IEs: array<byte>

    constructor ()
      ensures fresh(IEs) && IELength == FIXED_IE_LENGTH && IEs.Length == MAX_IE_SZ && Holds([])
    {
      IEs := new byte[MAX_IE_SZ];
      IELength := FIXED_IE_LENGTH;
    }

    /** The octets in use after the fixed part encode es. */
    ghost predicate Holds(es: seq<Ie>)
      reads this, IEs
    {
      && FIXED_IE_LENGTH <= IELength <= IEs.Length == MAX_IE_SZ
      && IEs[FIXED_IE_LENGTH..IELength] == EncodeAll(es)
    }

    /** The length always determines, and is determined by, what is held. */
    lemma HoldsLength(es: seq<Ie>)
      requires Holds(es)
      ensures IELength == FIXED_IE_LENGTH + |EncodeAll(es)|
    {
    }

    /** The buffer holds at most one list of elements. */
    lemma HoldsUnique(es: seq<Ie>, fs: seq<Ie>)
      requires Holds(es) && Holds(fs)
      ensures es == fs
    {
      PrefixOfEncodeAll(es);
      PrefixOfEncodeAll(fs);
    }
  }
}
