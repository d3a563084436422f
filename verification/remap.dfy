/** The four ways an operation rearranges the logical bytes of one file.  The engine applies each of
    them twice, once to the extent vector and once to the write buffer; `Source` is the single
    statement both must meet. */
module Remaps {
  import opened Common

  datatype Remap =
    | Punch(lo: nat, hi: nat)      // drop [lo, hi), leave the rest where it is
    | Truncate(size: nat)          // drop everything from `size` on
    | Collapse(lo: nat, hi: nat)   // drop [lo, hi) and move the rest down
    | Insert(lo: nat, len: nat)    // open a gap of `len` at `lo`

  /** The old offset of the byte that is at `k` afterwards; None where nothing is left. */
  function Source(m: Remap, k: nat): (j: Option<nat>) {
    match m
    case Punch(lo, hi) => if lo <= k < hi then None else Some(k)
    case Truncate(size) => if k < size then Some(k) else None
    case Collapse(lo, hi) => if k < lo || hi < lo then Some(k) else Some(k + (hi - lo))
    case Insert(lo, len) => if k < lo then Some(k) else if k < lo + len then None else Some(k - len)
  }

  /** `Source` for a vector that holds several files, when only `target` is rearranged. */
  function SourceFor(m: Remap, target: nat, ino: nat, k: nat): (j: Option<nat>) {
    if ino == target then Source(m, k) else Some(k)
  }

  predicate Sensible(m: Remap) {
    match m
    case Punch(lo, hi) => lo <= hi
    case Collapse(lo, hi) => lo <= hi
    case _ => true
  }

  lemma SourceMonotone(m: Remap, k: nat, k': nat)
    requires Source(m, k).Some? && Source(m, k').Some?
    ensures Source(m, k).value < Source(m, k').value <==> k < k'
  {
  }

  /** Collapsing a range just inserted brings every byte back. */
  lemma InsertThenCollapse(lo: nat, len: nat, k: nat)
    ensures var j := Source(Collapse(lo, lo + len), k); j.Some? && Source(Insert(lo, len), j.value) == Some(k)
  {
  }
}
