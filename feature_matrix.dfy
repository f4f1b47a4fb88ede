/** The copy of the feature vectors into the `n_samples x 6` matrix handed
    to the classifier. */
module FeatureMatrix {
  import opened Windowing

  /** Number of columns of the matrix: the length of a feature row. */
  const Columns: nat := 6

  /** Allocates a zero-filled `|features| x 6` matrix and copies row `i`,
      column `j` of the features into cell `[i, j]`, row by row. */
  method FillMatrix(features: seq<FeatureRow>) returns (m: array2<real>)
    ensures fresh(m)
    ensures m.Length0 == |features| && m.Length1 == Columns
    ensures forall i, j :: 0 <= i < m.Length0 && 0 <= j < m.Length1 ==> m[i, j] == features[i][j]
  {
    m := new real[|features|, Columns]((i, j) => 0.0);
    for i := 0 to |features|
      invariant forall r, c :: 0 <= r < i && 0 <= c < Columns ==> m[r, c] == features[r][c]
    {
      for j := 0 to Columns
        invariant forall r, c :: 0 <= r < i && 0 <= c < Columns ==> m[r, c] == features[r][c]
        invariant forall c :: 0 <= c < j ==> m[i, c] == features[i][c]
      {
        m[i, j] := features[i][j];
      }
    }
  }
}
