/** Index facts about flag sequences, shared by the "last row that matches" arguments. */
module Seqs {

  /** Flag `i` is set and no later flag is. */
  ghost predicate IsLastSet(flags: seq<bool>, i: int) {
    0 <= i < |flags| && flags[i] && forall j | i < j < |flags| :: !flags[j]
  }

  /** From any set flag, a last set flag exists at or after it. */
  lemma LastSet(flags: seq<bool>, k: int) returns (i: int)
    requires 0 <= k < |flags| && flags[k]
    ensures k <= i && IsLastSet(flags, i)
    decreases |flags| - k
  {
    if j :| k < j < |flags| && flags[j] {
      i := LastSet(flags, j);
    } else {
      i := k;
    }
  }
}
