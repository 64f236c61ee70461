/**
 * The values the comparison helpers of the CHAID test suite work on.
 *
 * Python duck-types these helpers over anything iterable: numpy arrays,
 * lists of lists, lists of floats.  Here a value is either a scalar leaf
 * (an integer) or a sequence of values, which is what an n-dimensional
 * list is once its concrete container type is forgotten.
 */
module Values {

  datatype Option<+T> = None | Some(value: T)

  /** A scalar (not iterable) or an iterable of nested values. */
  datatype Nested = Leaf(v: int) | Seq(items: seq<Nested>)

  /**
   * Python's `zip(xs, ys)`: the pairs at equal positions, stopping at the
   * end of the shorter argument.
   */
  function Zip<T, U>(xs: seq<T>, ys: seq<U>): (r: seq<(T, U)>)
    ensures |r| == if |xs| <= |ys| then |xs| else |ys|
    ensures forall i :: 0 <= i < |r| ==> r[i] == (xs[i], ys[i])
    decreases |xs|
  {
    if xs == [] || ys == [] then []
    else [(xs[0], ys[0])] + Zip(xs[1..], ys[1..])
  }
}
