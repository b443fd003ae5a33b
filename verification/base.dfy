/** Failure-compatible wrappers shared by every module of the model: the
    counterparts of Rust's `Option` and `Result`, and the positions an in-order filter
    keeps. */
module Base {

  datatype Option<+T> = None | Some(value: T) {
    predicate IsFailure() {
      None?
    }

    function PropagateFailure<U>(): Option<U>
      requires None?
    {
      None
    }

    function Extract(): T
      requires Some?
    {
      value
    }

    /** Rust's `unwrap_or`. */
    function UnwrapOr(default: T): T {
      match this
      case Some(v) => v
      case None => default
    }
  }

  datatype Result<+R, +E> = Ok(value: R) | Err(error: E) {
    predicate IsFailure() {
      Err?
    }

    function PropagateFailure<U>(): Result<U, E>
      requires Err?
    {
      Err(error)
    }

    function Extract(): R
      requires Ok?
    {
      value
    }
  }

  /** Three-way comparison result, Rust's `std::cmp::Ordering`. */
  datatype Ordering = Less | Equal | Greater {
    /** `Ordering::reverse`. */
    function Reverse(): Ordering {
      match this
      case Less => Greater
      case Equal => Equal
      case Greater => Less
    }

    /** `Ordering::then`: the first ordering unless it is `Equal`. */
    function Then(other: Ordering): Ordering {
      if Equal? then other else this
    }
  }

  /** The positions `j`, from `from` on, whose element satisfies `keep`, in increasing
      order: what an in-order `filter` keeps, seen through its indices. */
  function PositionsFrom<T>(s: seq<T>, keep: T -> bool, from: nat): (idx: seq<int>)
    requires from <= |s|
    ensures forall i | 0 <= i < |idx| :: from <= idx[i] < |s| && keep(s[idx[i]])
    ensures forall i, k | 0 <= i < k < |idx| :: idx[i] < idx[k]
    ensures forall j | from <= j < |s| && keep(s[j]) :: j in idx
    decreases |s| - from
  {
    if from == |s| then []
    else
      var rest := PositionsFrom(s, keep, from + 1);
      if keep(s[from]) then [from] + rest else rest
  }
}
