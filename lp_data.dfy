/**
 * The finished in-memory linear program (the shape of `LpData` in
 * src/lp_data.h) and the extended reals its bounds live in.
 */
module LpRecord {

  /** A double as far as this model needs one: a finite real or one of the two infinities. */
  datatype Ext = NegInf | Fin(r: real) | PosInf

  /** A column's (lower, upper) pair. */
  datatype Bound = Bound(lower: Ext, upper: Ext)

  /** The MPS default for a column: [0, +inf). */
  const DefaultBound := Bound(Fin(0.0), PosInf)

  /**
   * A sparse matrix with its dimensions; `entries` maps (row, column)
   * to the stored value (explicitly stored zeros included).
   */
  datatype SparseMatrix = SparseMatrix(rows: nat, cols: nat, entries: map<(nat, nat), real>)

  /** A default-constructed `Eigen::SparseMatrix<double>`: 0 x 0 and empty. */
  const EmptyMatrix := SparseMatrix(0, 0, map[])

  /** The finished record: objective, bounds, A_eq/b_eq, A_ineq/b_ineq, offset, names, timing. */
  datatype LpData = LpData(
    nVars: nat,
    c: seq<real>,
    lb: seq<Ext>,
    ub: seq<Ext>,
    aEq: SparseMatrix,
    bEq: seq<real>,
    aIneq: SparseMatrix,
    bIneq: seq<real>,
    objOffset: real,
    colNames: seq<string>,
    parseTimeSeconds: real)
}
