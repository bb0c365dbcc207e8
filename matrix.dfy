/** Two-dimensional integer arrays as row-major sequences of rows, the shape
    numpy gives every 2-D array of the codec. */
module Matrix {
  type Mat = seq<seq<int>>

  /** Number of columns (0 for an array without rows). */
  function Width(m: Mat): nat {
    if m == [] then 0 else |m[0]|
  }

  /** Every row has the same length. */
  predicate Rectangular(m: Mat) {
    forall i :: 0 <= i < |m| ==> |m[i]| == Width(m)
  }

  /** `m` has exactly `rows` rows of `cols` columns. */
  predicate HasShape(m: Mat, rows: nat, cols: nat) {
    |m| == rows && forall i :: 0 <= i < |m| ==> |m[i]| == cols
  }
}
