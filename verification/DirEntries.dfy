/** Directories as lists of clusters of 32-byte entries, for both kinds of directory entry. */
module DirEntries {
  import opened Bytes

  /** The case folding of both drivers. */
  function Upper(c: byte): (u: byte) { if 97 <= c <= 122 then c - 32 else c }

  /** How the scan of one cluster ends: behind it, at an entry that ends the directory, or at the entry sought. */
  datatype Scan = Past | Stop | Hit(off: nat)

  /** How the search of a whole directory ends. */
  datatype Found = Exhausted | Ended | At(i: nat, off: nat)

  /** Whole entries only. */
  predicate Entries(c: bytes) { |c| % 32 == 0 }

  lemma EntryFits(c: bytes, off: nat)
    requires Entries(c) && off % 32 == 0 && off < |c|
    ensures off + 32 <= |c|
  {
  }

  function EntryOf(c: bytes, off: nat): (e: bytes)
    requires off + 32 <= |c|
    ensures |e| == 32
  {
    c[off..off + 32]
  }

  predicate AllEntries(cl: seq<bytes>) { forall i | 0 <= i < |cl| :: Entries(cl[i]) }
}
