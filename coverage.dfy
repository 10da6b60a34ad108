/** Phase 3, first half: which notes are unindexed
    (_determine_unindexed_notes in src/main.py). */
module Coverage {
  import opened Keys

  /** The key of the "unindexed" note, which is never reported. */
  const UnindexedName: string := "unindexed"

  lemma UnindexedNameIsKey()
    ensures Normalize(UnindexedName) == UnindexedName
  {
    assert IsKey(UnindexedName);
    NormalizeFixedPoint(UnindexedName);
  }

  /** _determine_unindexed_notes: the known keys that no index note links,
      without the key of "unindexed" itself. */
  function Unindexed(all: set<string>, linked: set<string>): (r: set<string>)
    ensures forall k :: k in r <==> k in all && k !in linked && k != UnindexedName
  {
    if all == {} then {}
    else
      UnindexedNameIsKey();
      (all - linked) - {Normalize(UnindexedName)}
  }
}
