/** Decomposition of an agglomerated mesh: the adjacency graph of the coarse
    cells is built, a partitioning strategy assigns a processor to every
    coarse cell, and every mesh cell goes to the processor of its coarse
    cell. */
module CoarseDecomposition {
  import opened Mesh
  import opened CellCells

  datatype Point = Point(x: real, y: real, z: real)

  /** A partitioning strategy working on a graph: from the rows of global
      neighbour ids, the points and their weights, a processor for each
      point. The strategies themselves are not part of this model. */
  type GraphDecomposer = (seq<seq<int>>, seq<Point>, seq<real>) -> seq<int>

  /** A strategy returns one processor per point. */
  ghost predicate OnePerPoint(decomposer: GraphDecomposer) {
    forall g, p, w :: |decomposer(g, p, w)| == |p|
  }

  /** The graph of the coarse cells, row by row. */
  function CoarseGraph(t: Topology): (g: seq<seq<int>>)
    requires t.Valid()
  {
    seq(t.NCoarse(), c requires 0 <= c < t.NCoarse() => GraphRow(t, c))
  }

  /** Every fine cell takes the processor of its coarse cell, so the cells
      of one coarse cell end up together. */
  method Expand(fineToCoarse: seq<nat>, coarse: seq<int>) returns (fine: seq<int>)
    requires forall i :: 0 <= i < |fineToCoarse| ==> fineToCoarse[i] < |coarse|
    ensures |fine| == |fineToCoarse|
    ensures forall i :: 0 <= i < |fine| ==> fine[i] == coarse[fineToCoarse[i]]
    ensures forall i, j :: 0 <= i < |fine| && 0 <= j < |fine| && fineToCoarse[i] == fineToCoarse[j] ==> fine[i] == fine[j]
  {
    var a := new int[|fineToCoarse|];
    for i := 0 to a.Length
      invariant forall k :: 0 <= k < i ==> a[k] == coarse[fineToCoarse[k]]
    {
      a[i] := coarse[fineToCoarse[i]];
    }
    fine := a[..];
  }

  /** Decomposes the coarse cells of t (their points and weights given) with
      the strategy and maps the result back to the mesh cells. */
  method DecomposeCoarse(t: Topology, coarsePoints: seq<Point>, coarseWeights: seq<real>, decomposer: GraphDecomposer)
    returns (fine: seq<int>)
    requires t.Valid() && |coarsePoints| == t.NCoarse()
    requires OnePerPoint(decomposer)
    ensures |fine| == |t.agglom|
    ensures forall i :: 0 <= i < |fine| ==> fine[i] == decomposer(CoarseGraph(t), coarsePoints, coarseWeights)[t.agglom[i]]
  {
    var cellCells := CalcCellCells(t);
    var graph := seq(cellCells.Size(), c requires 0 <= c < cellCells.Size() => cellCells.Row(c));
    assert graph == CoarseGraph(t);
    var coarse := decomposer(graph, coarsePoints, coarseWeights);
    fine := Expand(t.agglom, coarse);
  }
}
