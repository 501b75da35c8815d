/** The mesh topology seen by the decomposition, and the global numbering of
    one process's cells (or agglomerated regions). */
module Mesh {

  /** Face-based polyhedral mesh: faces 0 .. |faceNeighbour|-1 are internal
      (an owner and a neighbour cell), the remaining faces are boundary faces
      (an owner only). `faces` lists the points of each face and
      `pointFaces` the faces using each point. */
  datatype PolyMesh = PolyMesh(
    nCells: nat,
    faceOwner: seq<nat>,
    faceNeighbour: seq<nat>,
    faces: seq<seq<nat>>,
    pointFaces: seq<seq<nat>>)
  {
    function NFaces(): nat { |faceOwner| }

    function NInternalFaces(): nat { |faceNeighbour| }

    function NBoundaryFaces(): nat
      requires WellFormed()
    {
      |faceOwner| - |faceNeighbour|
    }

    predicate IsInternalFace(f: nat) { f < |faceNeighbour| }

    /** Every index the mesh holds refers to an existing entity. */
    predicate WellFormed() {
      && |faceNeighbour| <= |faceOwner|
      && |faces| == |faceOwner|
      && (forall f :: 0 <= f < |faceOwner| ==> faceOwner[f] < nCells)
      && (forall f :: 0 <= f < |faceNeighbour| ==> faceNeighbour[f] < nCells)
      && (forall f, k :: 0 <= f < |faces| && 0 <= k < |faces[f]| ==> faces[f][k] < |pointFaces|)
      && (forall p, k :: 0 <= p < |pointFaces| && 0 <= k < |pointFaces[p]| ==> pointFaces[p][k] < |faceOwner|)
    }
  }

  /** Dense global numbering of one process's `localSize` entities: local
      entity i is global entity offset + i, where offset is the number of
      entities on all lower-ranked processes. */
  datatype GlobalIndex = GlobalIndex(offset: nat, localSize: nat) {

    predicate IsLocal(g: int) { offset <= g < offset + localSize }

    function ToGlobal(i: nat): (g: nat)
      requires i < localSize
      ensures IsLocal(g) && ToLocal(g) == i
    {
      offset + i
    }

    function ToLocal(g: int): (i: int)
      ensures IsLocal(g) <==> 0 <= i < localSize
    {
      g - offset
    }

    /** The test a coupled face applies to the id received from the other
        side: "local, and the owner itself".  It holds exactly when the id is
        the owner's own global id. */
    lemma SelfCouplingIsOwnId(g: int, own: nat)
      requires own < localSize
      ensures (IsLocal(g) && ToLocal(g) == own) <==> g == ToGlobal(own)
    {
    }
  }
}
