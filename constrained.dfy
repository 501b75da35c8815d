/** Decomposition under constraints on one process. The constraints are
    faces whose owner and neighbour must stay on one processor (the faces
    that are not blocked), pairs of faces whose cells must stay together
    (explicit connections, e.g. baffles) and sets of faces whose
    surroundings go to one processor.

    Without constraints the cells are decomposed directly. Otherwise the
    cells are split into regions that no unblocked face separates (the
    region split is an input here), the regions are decomposed as coarse
    cells, and the explicit connections and the face sets are then
    enforced on the result, in that order. */
module ConstrainedDecomposition {
  import opened Mesh
  import opened CellCells
  import opened CoarseDecomposition
  import opened Outcomes

  /** The largest value of a coordinate, 1e300. */
  const VGreat: real := 1.0e300

  /** The point marking a region whose centre has not been set yet. */
  const PointMax: Point := Point(VGreat, VGreat, VGreat)

  /** A partitioning strategy working on points only: from the points and
      their weights, a processor for each point. */
  type PointDecomposer = (seq<Point>, seq<real>) -> seq<int>

  ghost predicate OnePerPointOnly(decomposer: PointDecomposer) {
    forall p, w :: |decomposer(p, w)| == |p|
  }

  /** Two faces whose cells go to one processor. */
  datatype Connection = Connection(first: nat, second: nat)

  // ---------------------------------------------------------------------
  // Whether any constraint is present

  /** Number of faces in all face sets. */
  function SetSizes(sets: seq<seq<nat>>): nat {
    if |sets| == 0 then 0 else SetSizes(sets[..|sets| - 1]) + |sets[|sets| - 1]|
  }

  /** Number of faces that are not blocked. */
  function CountUnblocked(blocked: seq<bool>): nat {
    if |blocked| == 0 then 0 else CountUnblocked(blocked[..|blocked| - 1]) + (if blocked[|blocked| - 1] then 0 else 1)
  }

  /** The three counts whose sum decides whether the decomposition is
      constrained. */
  method CountConstraints(blocked: seq<bool>, sets: seq<seq<nat>>, conns: seq<Connection>)
    returns (nProcSets: nat, nConnections: nat, nUnblocked: nat)
    ensures nProcSets == SetSizes(sets) && nConnections == |conns| && nUnblocked == CountUnblocked(blocked)
  {
    nProcSets := 0;
    for s := 0 to |sets|
      invariant nProcSets == SetSizes(sets[..s])
    {
      assert sets[..s + 1][..s] == sets[..s];
      nProcSets := nProcSets + |sets[s]|;
    }
    assert sets[..|sets|] == sets;
    nConnections := |conns|;
    nUnblocked := 0;
    for f := 0 to |blocked|
      invariant nUnblocked == CountUnblocked(blocked[..f])
    {
      assert blocked[..f + 1][..f] == blocked[..f];
      if !blocked[f] {
        nUnblocked := nUnblocked + 1;
      }
    }
    assert blocked[..|blocked|] == blocked;
  }

  lemma {:induction false} SetSizesZero(sets: seq<seq<nat>>)
    ensures SetSizes(sets) == 0 <==> forall s :: 0 <= s < |sets| ==> sets[s] == []
  {
    if |sets| > 0 {
      var init := sets[..|sets| - 1];
      SetSizesZero(init);
      assert forall s :: 0 <= s < |init| ==> init[s] == sets[s];
    }
  }

  lemma {:induction false} CountUnblockedZero(blocked: seq<bool>)
    ensures CountUnblocked(blocked) == 0 <==> forall f :: 0 <= f < |blocked| ==> blocked[f]
  {
    if |blocked| > 0 {
      var init := blocked[..|blocked| - 1];
      CountUnblockedZero(init);
      assert forall f :: 0 <= f < |init| ==> init[f] == blocked[f];
    }
  }

  /** The decomposition is unconstrained exactly when every face set is
      empty, there are no explicit connections and every face is blocked. */
  predicate Unconstrained(blocked: seq<bool>, sets: seq<seq<nat>>, conns: seq<Connection>) {
    SetSizes(sets) + |conns| + CountUnblocked(blocked) == 0
  }

  lemma UnconstrainedMeaning(blocked: seq<bool>, sets: seq<seq<nat>>, conns: seq<Connection>)
    ensures Unconstrained(blocked, sets, conns)
        <==> (forall s :: 0 <= s < |sets| ==> sets[s] == []) && conns == [] && (forall f :: 0 <= f < |blocked| ==> blocked[f])
  {
    SetSizesZero(sets);
    CountUnblockedZero(blocked);
  }

  /** What the sums over the other processes add to this process's
      counts: cell weights, faces in face sets, explicit connections and
      unblocked faces (all zero on a single process). */
  datatype OtherProcesses = OtherProcesses(nCellWeights: nat, nProcSets: nat, nConnections: nat, nUnblocked: nat)

  /** Whether any process has cell weights. */
  predicate HasWeights(cellWeights: seq<real>, others: OtherProcesses) {
    |cellWeights| + others.nCellWeights > 0
  }

  /** No process has a constraint: the reduced counts sum to zero. */
  predicate UnconstrainedEverywhere(blocked: seq<bool>, sets: seq<seq<nat>>, conns: seq<Connection>,
                                    others: OtherProcesses) {
    (SetSizes(sets) + others.nProcSets) + (|conns| + others.nConnections) + (CountUnblocked(blocked) + others.nUnblocked) == 0
  }

  /** No process has a constraint exactly when this one has none (every
      face set empty, no connections, every face blocked) and the other
      processes have none either. */
  lemma UnconstrainedEverywhereMeaning(blocked: seq<bool>, sets: seq<seq<nat>>, conns: seq<Connection>,
                                       others: OtherProcesses)
    ensures UnconstrainedEverywhere(blocked, sets, conns, others)
        <==> && (forall s :: 0 <= s < |sets| ==> sets[s] == [])
             && conns == []
             && (forall f :: 0 <= f < |blocked| ==> blocked[f])
             && others.nProcSets == 0 && others.nConnections == 0 && others.nUnblocked == 0
  {
    SetSizesZero(sets);
    CountUnblockedZero(blocked);
  }

  // ---------------------------------------------------------------------
  // Region centres: the centre of the first cell of each region

  /** The first of the first len cells in region r, or -1. */
  function FirstCell(regions: seq<nat>, r: nat, len: nat): (c: int)
    requires len <= |regions|
    ensures -1 <= c < len
  {
    if len == 0 then -1
    else if FirstCell(regions, r, len - 1) != -1 then FirstCell(regions, r, len - 1)
    else if regions[len - 1] == r then len - 1
    else -1
  }

  lemma {:induction false} FirstCellMeaning(regions: seq<nat>, r: nat, len: nat)
    requires len <= |regions|
    ensures FirstCell(regions, r, len) == -1 <==> forall k :: 0 <= k < len ==> regions[k] != r
    ensures FirstCell(regions, r, len) != -1 ==> regions[FirstCell(regions, r, len)] == r
    ensures forall k :: 0 <= k < FirstCell(regions, r, len) ==> regions[k] != r
  {
    if len > 0 {
      FirstCellMeaning(regions, r, len - 1);
    }
  }

  /** The region centres as the loop leaves them after the first len cells:
      a region still marked with PointMax takes the centre of the cell. */
  function CentresAfter(regions: seq<nat>, cellCentres: seq<Point>, nRegions: nat, len: nat): (centres: seq<Point>)
    requires len <= |regions| && |cellCentres| == |regions|
    requires forall c :: 0 <= c < |regions| ==> regions[c] < nRegions
    ensures |centres| == nRegions
  {
    if len == 0 then seq(nRegions, r => PointMax)
    else
      var centres := CentresAfter(regions, cellCentres, nRegions, len - 1);
      var r := regions[len - 1];
      if centres[r] == PointMax then centres[r := cellCentres[len - 1]] else centres
  }

  /** When no cell centre is PointMax, the centre of a region is the centre
      of its first cell, and a region without cells keeps PointMax. */
  lemma {:induction false} CentresAreFirstCells(regions: seq<nat>, cellCentres: seq<Point>, nRegions: nat, len: nat)
    requires len <= |regions| && |cellCentres| == |regions|
    requires forall c :: 0 <= c < |regions| ==> regions[c] < nRegions
    requires forall c :: 0 <= c < |cellCentres| ==> cellCentres[c] != PointMax
    ensures forall r :: 0 <= r < nRegions ==>
      CentresAfter(regions, cellCentres, nRegions, len)[r]
        == if FirstCell(regions, r, len) == -1 then PointMax else cellCentres[FirstCell(regions, r, len)]
  {
    if len > 0 {
      CentresAreFirstCells(regions, cellCentres, nRegions, len - 1);
    }
  }

  /** Region centres, one loop over the cells. */
  method RegionCentres(regions: seq<nat>, nRegions: nat, cellCentres: seq<Point>) returns (centres: seq<Point>)
    requires |cellCentres| == |regions|
    requires forall c :: 0 <= c < |regions| ==> regions[c] < nRegions
    ensures centres == CentresAfter(regions, cellCentres, nRegions, |regions|)
  {
    var a := new Point[nRegions](r => PointMax);
    for c := 0 to |regions|
      invariant a[..] == CentresAfter(regions, cellCentres, nRegions, c)
    {
      var r := regions[c];
      if a[r] == PointMax {
        a[r] := cellCentres[c];
      }
    }
    centres := a[..];
  }

  // ---------------------------------------------------------------------
  // Region weights: the sum of the weights of a region's cells

  /** Sum of the weights of the first len cells that are in region r. */
  function RegionSum(regions: seq<nat>, weights: seq<real>, r: nat, len: nat): real
    requires len <= |regions| && len <= |weights|
  {
    if len == 0 then 0.0
    else RegionSum(regions, weights, r, len - 1) + (if regions[len - 1] == r then weights[len - 1] else 0.0)
  }

  /** Number of the first len cells in region r. */
  function CellsIn(regions: seq<nat>, r: nat, len: nat): nat
    requires len <= |regions|
  {
    if len == 0 then 0 else CellsIn(regions, r, len - 1) + (if regions[len - 1] == r then 1 else 0)
  }

  function Total(s: seq<real>): real {
    if |s| == 0 then 0.0 else Total(s[..|s| - 1]) + s[|s| - 1]
  }

  /** A weight of 1 for each of n cells. */
  function UnitWeights(n: nat): (w: seq<real>)
    ensures |w| == n && forall c :: 0 <= c < n ==> w[c] == 1.0
  {
    seq(n, c => 1.0)
  }

  /** The region weights: the sum of the cell weights in each region when
      there are weights, otherwise the number of cells in each region. */
  method RegionWeights(regions: seq<nat>, nRegions: nat, hasWeights: bool, cellWeights: seq<real>) returns (rw: seq<real>)
    requires hasWeights ==> |cellWeights| >= |regions|
    requires forall c :: 0 <= c < |regions| ==> regions[c] < nRegions
    ensures |rw| == nRegions
    ensures hasWeights ==> forall r :: 0 <= r < nRegions ==> rw[r] == RegionSum(regions, cellWeights, r, |regions|)
    ensures !hasWeights ==> forall r :: 0 <= r < nRegions ==> rw[r] == CellsIn(regions, r, |regions|) as real
  {
    var a := new real[nRegions](r => 0.0);
    if hasWeights {
      for c := 0 to |regions|
        invariant forall r :: 0 <= r < nRegions ==> a[r] == RegionSum(regions, cellWeights, r, c)
      {
        var r := regions[c];
        a[r] := a[r] + cellWeights[c];
      }
    } else {
      for c := 0 to |regions|
        invariant forall r :: 0 <= r < nRegions ==> a[r] == CellsIn(regions, r, c) as real
      {
        var r := regions[c];
        a[r] := a[r] + 1.0;
      }
    }
    rw := a[..];
  }

  lemma {:induction false} TotalUpdate(s: seq<real>, k: nat, v: real)
    requires k < |s|
    ensures Total(s[k := s[k] + v]) == Total(s) + v
  {
    var s' := s[k := s[k] + v];
    if k < |s| - 1 {
      TotalUpdate(s[..|s| - 1], k, v);
      assert s'[..|s| - 1] == s[..|s| - 1][k := s[k] + v];
    } else {
      assert s'[..|s| - 1] == s[..|s| - 1];
    }
  }

  /** The weight of every region. */
  function RegionSums(regions: seq<nat>, weights: seq<real>, nRegions: nat, len: nat): (sums: seq<real>)
    requires len <= |regions| && len <= |weights|
  {
    seq(nRegions, r requires 0 <= r => RegionSum(regions, weights, r, len))
  }

  lemma {:induction false} TotalOfZeros(s: seq<real>)
    requires forall k :: 0 <= k < |s| ==> s[k] == 0.0
    ensures Total(s) == 0.0
  {
    if |s| > 0 {
      TotalOfZeros(s[..|s| - 1]);
    }
  }

  /** The region weights add up to the total weight of the cells: every
      cell counts in exactly one region. */
  lemma {:induction false} RegionSumsTotal(regions: seq<nat>, weights: seq<real>, nRegions: nat, len: nat)
    requires len <= |regions| && len <= |weights|
    requires forall c :: 0 <= c < |regions| ==> regions[c] < nRegions
    ensures Total(RegionSums(regions, weights, nRegions, len)) == Total(weights[..len])
  {
    if len == 0 {
      TotalOfZeros(RegionSums(regions, weights, nRegions, 0));
    } else {
      var x := len - 1;
      RegionSumsTotal(regions, weights, nRegions, x);
      var before := RegionSums(regions, weights, nRegions, x);
      var after := RegionSums(regions, weights, nRegions, len);
      var k := regions[x];
      assert after == before[k := before[k] + weights[x]];
      TotalUpdate(before, k, weights[x]);
      assert weights[..len][..x] == weights[..x];
      assert Total(weights[..len]) == Total(weights[..x]) + weights[x];
    }
  }

  /** With unit weights, a region's weight is its number of cells. */
  lemma {:induction false} UnitRegionSum(regions: seq<nat>, r: nat, len: nat)
    requires len <= |regions|
    ensures RegionSum(regions, UnitWeights(|regions|), r, len) == CellsIn(regions, r, len) as real
  {
    if len > 0 {
      UnitRegionSum(regions, r, len - 1);
    }
  }

  // ---------------------------------------------------------------------
  // Explicit connections

  predicate ConnectionsValid(m: PolyMesh, conns: seq<Connection>) {
    forall i :: 0 <= i < |conns| ==> conns[i].first < m.NFaces() && conns[i].second < m.NFaces()
  }

  const MismatchMessage := "the two blockedFace status of an explicit connection are not equal"

  /** The connection joins a blocked and an unblocked face. */
  predicate Mismatched(blocked: seq<bool>, conn: Connection)
    requires conn.first < |blocked| && conn.second < |blocked|
  {
    blocked[conn.first] != blocked[conn.second]
  }

  /** Enforcing one connection on decomposition d: between two unblocked
      faces, the owner of the second face (and its neighbour, for an
      internal face) moves to the processor of the first face's owner;
      between two blocked faces nothing happens, and a blocked face
      connected to an unblocked one is fatal. */
  function Connect(m: PolyMesh, blocked: seq<bool>, d: seq<int>, conn: Connection): (r: Result<seq<int>>)
    requires m.WellFormed() && |blocked| == m.NFaces() && |d| == m.nCells
    requires conn.first < m.NFaces() && conn.second < m.NFaces()
    ensures r.Fatal? <==> Mismatched(blocked, conn)
    ensures r.Fatal? ==> r.message == MismatchMessage
    ensures r.Ok? ==> |r.value| == |d|
    ensures r.Ok? && blocked[conn.first] ==> r.value == d
    ensures r.Ok? && !blocked[conn.first] ==>
      var proci := d[m.faceOwner[conn.first]];
      && r.value[m.faceOwner[conn.second]] == proci
      && (m.IsInternalFace(conn.second) ==> r.value[m.faceNeighbour[conn.second]] == proci)
      && forall c :: (0 <= c < |d| && c != m.faceOwner[conn.second]
                      && !(m.IsInternalFace(conn.second) && c == m.faceNeighbour[conn.second])) ==> r.value[c] == d[c]
  {
    var f0 := conn.first;
    var f1 := conn.second;
    if !blocked[f0] && !blocked[f1] then
      var proci := d[m.faceOwner[f0]];
      var d1 := d[m.faceOwner[f1] := proci];
      Ok(if m.IsInternalFace(f1) then d1[m.faceNeighbour[f1] := proci] else d1)
    else if blocked[f0] != blocked[f1] then
      Fatal(MismatchMessage)
    else
      Ok(d)
  }

  /** Enforcing the connections in list order. */
  function ConnectAll(m: PolyMesh, blocked: seq<bool>, d: seq<int>, conns: seq<Connection>): (r: Result<seq<int>>)
    requires m.WellFormed() && |blocked| == m.NFaces() && |d| == m.nCells && ConnectionsValid(m, conns)
    ensures r.Ok? ==> |r.value| == |d|
    ensures r.Fatal? ==> r.message == MismatchMessage
  {
    if |conns| == 0 then Ok(d)
    else
      var r := ConnectAll(m, blocked, d, conns[..|conns| - 1]);
      if r.Fatal? then r else Connect(m, blocked, r.value, conns[|conns| - 1])
  }

  /** Enforcing the connections is fatal exactly when one of them joins a
      blocked and an unblocked face. */
  lemma {:induction false} ConnectAllFatal(m: PolyMesh, blocked: seq<bool>, d: seq<int>, conns: seq<Connection>)
    requires m.WellFormed() && |blocked| == m.NFaces() && |d| == m.nCells && ConnectionsValid(m, conns)
    ensures ConnectAll(m, blocked, d, conns).Fatal? <==> exists i :: 0 <= i < |conns| && Mismatched(blocked, conns[i])
  {
    if |conns| > 0 {
      var init := conns[..|conns| - 1];
      ConnectAllFatal(m, blocked, d, init);
      assert forall i :: 0 <= i < |init| ==> init[i] == conns[i];
      if exists i :: 0 <= i < |conns| && Mismatched(blocked, conns[i]) {
        var i :| 0 <= i < |conns| && Mismatched(blocked, conns[i]);
        if i < |init| {
          assert Mismatched(blocked, init[i]);
        }
      }
    }
  }

  /** Connections between blocked faces change nothing. */
  lemma {:induction false} ConnectAllBlocked(m: PolyMesh, blocked: seq<bool>, d: seq<int>, conns: seq<Connection>)
    requires m.WellFormed() && |blocked| == m.NFaces() && |d| == m.nCells && ConnectionsValid(m, conns)
    requires forall i :: 0 <= i < |conns| ==> blocked[conns[i].first] && blocked[conns[i].second]
    ensures ConnectAll(m, blocked, d, conns) == Ok(d)
  {
    if |conns| > 0 {
      var init := conns[..|conns| - 1];
      assert forall i :: 0 <= i < |init| ==> init[i] == conns[i];
      ConnectAllBlocked(m, blocked, d, init);
    }
  }

  /** Enforces the connections in place; false when one is fatal. */
  method EnforceConnections(m: PolyMesh, blocked: seq<bool>, conns: seq<Connection>, d: array<int>) returns (ok: bool)
    requires m.WellFormed() && |blocked| == m.NFaces() && d.Length == m.nCells && ConnectionsValid(m, conns)
    modifies d
    ensures ok <==> ConnectAll(m, blocked, old(d[..]), conns).Ok?
    ensures ok ==> d[..] == ConnectAll(m, blocked, old(d[..]), conns).value
  {
    ghost var d0 := d[..];
    for i := 0 to |conns|
      invariant ConnectAll(m, blocked, d0, conns[..i]) == Ok(d[..])
    {
      assert conns[..i + 1][..i] == conns[..i];
      var f0 := conns[i].first;
      var f1 := conns[i].second;
      if !blocked[f0] && !blocked[f1] {
        var proci := d[m.faceOwner[f0]];
        d[m.faceOwner[f1]] := proci;
        if m.IsInternalFace(f1) {
          d[m.faceNeighbour[f1]] := proci;
        }
      } else if blocked[f0] != blocked[f1] {
        ConnectAllFatal(m, blocked, d0, conns);
        assert Mismatched(blocked, conns[i]);
        return false;
      }
    }
    assert conns[..|conns|] == conns;
    return true;
  }

  // ---------------------------------------------------------------------
  // Face sets: every cell next to a face sharing a point with a face of
  // the set goes to the set's processor

  predicate FacesValid(m: PolyMesh, faces: seq<nat>) {
    forall k :: 0 <= k < |faces| ==> faces[k] < m.NFaces()
  }

  predicate PointsValid(m: PolyMesh, points: seq<nat>) {
    forall k :: 0 <= k < |points| ==> points[k] < |m.pointFaces|
  }

  /** The owner of face g and, for an internal face, its neighbour. */
  function FaceCells(m: PolyMesh, g: nat): set<nat>
    requires m.WellFormed() && g < m.NFaces()
  {
    {m.faceOwner[g]} + (if m.IsInternalFace(g) then {m.faceNeighbour[g]} else {})
  }

  /** The cells of the faces in a list. */
  function FacesCells(m: PolyMesh, faces: seq<nat>): set<nat>
    requires m.WellFormed() && FacesValid(m, faces)
  {
    if |faces| == 0 then {}
    else FacesCells(m, faces[..|faces| - 1]) + FaceCells(m, faces[|faces| - 1])
  }

  /** The cells of the faces using the points in a list. */
  function PointsCells(m: PolyMesh, points: seq<nat>): set<nat>
    requires m.WellFormed() && PointsValid(m, points)
  {
    if |points| == 0 then {}
    else PointsCells(m, points[..|points| - 1]) + FacesCells(m, m.pointFaces[points[|points| - 1]])
  }

  /** The cells claimed by a face set: those of the faces sharing a point
      with a face of the set. */
  function SetCells(m: PolyMesh, faceSet: seq<nat>): set<nat>
    requires m.WellFormed() && FacesValid(m, faceSet)
  {
    if |faceSet| == 0 then {}
    else SetCells(m, faceSet[..|faceSet| - 1]) + PointsCells(m, m.faces[faceSet[|faceSet| - 1]])
  }

  /** Cell c is next to face g. */
  predicate OnFace(m: PolyMesh, g: nat, c: nat)
    requires m.WellFormed() && g < m.NFaces()
  {
    c == m.faceOwner[g] || (m.IsInternalFace(g) && c == m.faceNeighbour[g])
  }

  lemma {:induction false} FacesCellsMembers(m: PolyMesh, faces: seq<nat>, c: nat)
    requires m.WellFormed() && FacesValid(m, faces)
    ensures c in FacesCells(m, faces) <==> exists i :: 0 <= i < |faces| && OnFace(m, faces[i], c)
  {
    if |faces| > 0 {
      var init := faces[..|faces| - 1];
      FacesCellsMembers(m, init, c);
      assert forall i :: 0 <= i < |init| ==> init[i] == faces[i];
      if exists i :: 0 <= i < |faces| && OnFace(m, faces[i], c) {
        var i :| 0 <= i < |faces| && OnFace(m, faces[i], c);
        if i < |init| {
          assert OnFace(m, init[i], c);
        }
      }
    }
  }

  /** Cell c is next to a face using point p. */
  ghost predicate NearPoint(m: PolyMesh, p: nat, c: nat)
    requires m.WellFormed() && p < |m.pointFaces|
  {
    exists i :: 0 <= i < |m.pointFaces[p]| && OnFace(m, m.pointFaces[p][i], c)
  }

  /** Cell c is next to a face sharing a point with face f. */
  ghost predicate NearFace(m: PolyMesh, f: nat, c: nat)
    requires m.WellFormed() && f < m.NFaces()
  {
    exists j :: 0 <= j < |m.faces[f]| && NearPoint(m, m.faces[f][j], c)
  }

  lemma {:induction false} PointsCellsMembers(m: PolyMesh, points: seq<nat>, c: nat)
    requires m.WellFormed() && PointsValid(m, points)
    ensures c in PointsCells(m, points) <==> exists j :: 0 <= j < |points| && NearPoint(m, points[j], c)
  {
    if |points| > 0 {
      var init := points[..|points| - 1];
      var last := points[|points| - 1];
      PointsCellsMembers(m, init, c);
      FacesCellsMembers(m, m.pointFaces[last], c);
      assert forall j :: 0 <= j < |init| ==> init[j] == points[j];
      if exists j :: 0 <= j < |points| && NearPoint(m, points[j], c) {
        var j :| 0 <= j < |points| && NearPoint(m, points[j], c);
        if j < |init| {
          assert NearPoint(m, init[j], c);
        }
      }
    }
  }

  /** Cell c is claimed by a face set exactly when it is next to a face
      that shares a point with a face of the set. */
  lemma {:induction false} SetCellsMembers(m: PolyMesh, faceSet: seq<nat>, c: nat)
    requires m.WellFormed() && FacesValid(m, faceSet)
    ensures c in SetCells(m, faceSet) <==> exists k :: 0 <= k < |faceSet| && NearFace(m, faceSet[k], c)
  {
    if |faceSet| > 0 {
      var init := faceSet[..|faceSet| - 1];
      var last := faceSet[|faceSet| - 1];
      SetCellsMembers(m, init, c);
      PointsCellsMembers(m, m.faces[last], c);
      assert forall k :: 0 <= k < |init| ==> init[k] == faceSet[k];
      if exists k :: 0 <= k < |faceSet| && NearFace(m, faceSet[k], c) {
        var k :| 0 <= k < |faceSet| && NearFace(m, faceSet[k], c);
        if k < |init| {
          assert NearFace(m, init[k], c);
        }
      }
    }
  }

  /** d with the cells in `cells` moved to processor p. */
  function Claimed(d: seq<int>, cells: set<nat>, p: int): (d': seq<int>)
  {
    seq(|d|, c requires 0 <= c < |d| => if c in cells then p else d[c])
  }

  /** Claiming two sets of cells one after the other for the same
      processor is claiming their union. */
  lemma ClaimedUnion(d: seq<int>, cells: set<nat>, more: set<nat>, p: int)
    ensures Claimed(Claimed(d, cells, p), more, p) == Claimed(d, cells + more, p)
  {
    var l := Claimed(Claimed(d, cells, p), more, p);
    var r := Claimed(d, cells + more, p);
    assert forall c :: 0 <= c < |d| ==> l[c] == r[c];
  }

  /** Moves the owner and, for an internal face, the neighbour of face g
      to processor p. */
  method ClaimFace(m: PolyMesh, g: nat, p: int, d: array<int>)
    requires m.WellFormed() && d.Length == m.nCells && g < m.NFaces()
    modifies d
    ensures d[..] == Claimed(old(d[..]), FaceCells(m, g), p)
  {
    d[m.faceOwner[g]] := p;
    if m.IsInternalFace(g) {
      d[m.faceNeighbour[g]] := p;
    }
  }

  /** Moves the cells of the faces in pFaces to processor p. */
  method ClaimFaces(m: PolyMesh, pFaces: seq<nat>, p: int, d: array<int>)
    requires m.WellFormed() && d.Length == m.nCells && FacesValid(m, pFaces)
    modifies d
    ensures d[..] == Claimed(old(d[..]), FacesCells(m, pFaces), p)
  {
    ghost var d0 := d[..];
    for i := 0 to |pFaces|
      invariant d[..] == Claimed(d0, FacesCells(m, pFaces[..i]), p)
    {
      assert pFaces[..i + 1][..i] == pFaces[..i];
      var g := pFaces[i];
      ClaimedUnion(d0, FacesCells(m, pFaces[..i]), FaceCells(m, g), p);
      ClaimFace(m, g, p, d);
    }
    assert pFaces[..|pFaces|] == pFaces;
  }

  /** Moves the cells of the faces using the points of a face to p. */
  method ClaimPoints(m: PolyMesh, points: seq<nat>, p: int, d: array<int>)
    requires m.WellFormed() && d.Length == m.nCells && PointsValid(m, points)
    modifies d
    ensures d[..] == Claimed(old(d[..]), PointsCells(m, points), p)
  {
    ghost var d0 := d[..];
    for fp := 0 to |points|
      invariant d[..] == Claimed(d0, PointsCells(m, points[..fp]), p)
    {
      assert points[..fp + 1][..fp] == points[..fp];
      ClaimedUnion(d0, PointsCells(m, points[..fp]), FacesCells(m, m.pointFaces[points[fp]]), p);
      ClaimFaces(m, m.pointFaces[points[fp]], p, d);
    }
    assert points[..|points|] == points;
  }

  /** Moves the cells claimed by a face set to p. */
  method ClaimSet(m: PolyMesh, faceSet: seq<nat>, p: int, d: array<int>)
    requires m.WellFormed() && d.Length == m.nCells && FacesValid(m, faceSet)
    modifies d
    ensures d[..] == Claimed(old(d[..]), SetCells(m, faceSet), p)
  {
    ghost var d0 := d[..];
    for fI := 0 to |faceSet|
      invariant d[..] == Claimed(d0, SetCells(m, faceSet[..fI]), p)
    {
      assert faceSet[..fI + 1][..fI] == faceSet[..fI];
      ClaimedUnion(d0, SetCells(m, faceSet[..fI]), PointsCells(m, m.faces[faceSet[fI]]), p);
      ClaimPoints(m, m.faces[faceSet[fI]], p, d);
    }
    assert faceSet[..|faceSet|] == faceSet;
  }

  /** The face sets are well formed: their faces exist, each has a
      processor entry, and a set whose processor is left open (-1) has a
      first face to take it from. */
  predicate FaceSetsValid(m: PolyMesh, sets: seq<seq<nat>>, procs: seq<int>) {
    && |procs| >= |sets|
    && forall s :: 0 <= s < |sets| ==> FacesValid(m, sets[s]) && (procs[s] == -1 ==> |sets[s]| > 0)
  }

  /** The processor of a face set: the specified one, or else the current
      processor of the owner of its first face. */
  function SetProcessor(m: PolyMesh, faceSet: seq<nat>, proc: int, d: seq<int>): int
    requires m.WellFormed() && FacesValid(m, faceSet) && |d| == m.nCells
    requires proc == -1 ==> |faceSet| > 0
  {
    if proc == -1 then d[m.faceOwner[faceSet[0]]] else proc
  }

  /** Enforcing the face sets in list order. */
  function ClaimAll(m: PolyMesh, sets: seq<seq<nat>>, procs: seq<int>, d: seq<int>): (d': seq<int>)
    requires m.WellFormed() && |d| == m.nCells && FaceSetsValid(m, sets, procs)
    ensures |d'| == |d|
  {
    if |sets| == 0 then d
    else
      var n := |sets| - 1;
      var before := ClaimAll(m, sets[..n], procs, d);
      Claimed(before, SetCells(m, sets[n]), SetProcessor(m, sets[n], procs[n], before))
  }

  /** A cell no face set claims keeps its processor. */
  lemma {:induction false} ClaimAllUntouched(m: PolyMesh, sets: seq<seq<nat>>, procs: seq<int>, d: seq<int>, c: nat)
    requires m.WellFormed() && |d| == m.nCells && FaceSetsValid(m, sets, procs) && c < |d|
    requires forall s :: 0 <= s < |sets| ==> c !in SetCells(m, sets[s])
    ensures ClaimAll(m, sets, procs, d)[c] == d[c]
  {
    if |sets| > 0 {
      var init := sets[..|sets| - 1];
      assert forall s :: 0 <= s < |init| ==> init[s] == sets[s];
      ClaimAllUntouched(m, init, procs, d, c);
    }
  }

  /** One step of ClaimAll, for one cell. */
  lemma ClaimAllStep(m: PolyMesh, sets: seq<seq<nat>>, procs: seq<int>, d: seq<int>, c: nat)
    requires m.WellFormed() && |d| == m.nCells && FaceSetsValid(m, sets, procs) && c < |d| && |sets| > 0
    ensures var n := |sets| - 1;
      ClaimAll(m, sets, procs, d)[c]
      == if c in SetCells(m, sets[n]) then SetProcessor(m, sets[n], procs[n], ClaimAll(m, sets[..n], procs, d))
         else ClaimAll(m, sets[..n], procs, d)[c]
  {
  }

  /** A cell claimed by face set s and by no later set ends on the
      processor set s had when it was enforced. */
  lemma {:induction false} ClaimAllLastClaim(m: PolyMesh, sets: seq<seq<nat>>, procs: seq<int>, d: seq<int>, c: nat, s: nat)
    requires m.WellFormed() && |d| == m.nCells && FaceSetsValid(m, sets, procs) && c < |d|
    requires s < |sets| && c in SetCells(m, sets[s])
    requires forall t :: s < t < |sets| ==> c !in SetCells(m, sets[t])
    ensures ClaimAll(m, sets, procs, d)[c] == SetProcessor(m, sets[s], procs[s], ClaimAll(m, sets[..s], procs, d))
  {
    var n := |sets| - 1;
    ClaimAllStep(m, sets, procs, d, c);
    if s < n {
      var init := sets[..n];
      assert c !in SetCells(m, sets[n]);
      assert init[s] == sets[s] && init[..s] == sets[..s];
      forall t | s < t < |init|
        ensures c !in SetCells(m, init[t])
      {
        assert init[t] == sets[t];
      }
      ClaimAllLastClaim(m, init, procs, d, c, s);
    }
  }

  /** Enforces the face sets in place. */
  method EnforceFaceSets(m: PolyMesh, sets: seq<seq<nat>>, procs: seq<int>, d: array<int>)
    requires m.WellFormed() && d.Length == m.nCells && FaceSetsValid(m, sets, procs)
    modifies d
    ensures d[..] == ClaimAll(m, sets, procs, old(d[..]))
  {
    ghost var d0 := d[..];
    for s := 0 to |sets|
      invariant d[..] == ClaimAll(m, sets[..s], procs, d0)
    {
      assert sets[..s + 1][..s] == sets[..s];
      var faceSet := sets[s];
      var proci := procs[s];
      if proci == -1 {
        proci := d[m.faceOwner[faceSet[0]]];
      }
      ClaimSet(m, faceSet, proci, d);
    }
    assert sets[..|sets|] == sets;
  }

  // ---------------------------------------------------------------------
  // The constrained decomposition

  /** The split of the mesh cells into regions that no unblocked face
      separates (computed by regionSplit, which is not part of this
      model), with the global numbering of the regions: the offset of this
      processor's first region, and for each boundary face whether it is
      coupled and the region across it. */
  datatype Regions = Regions(cellRegion: seq<nat>, nRegions: nat, offset: nat, coupled: seq<bool>, nbrRegion: seq<int>)

  /** The agglomeration of the mesh into its regions. */
  function RegionTopology(m: PolyMesh, regions: Regions): Topology {
    Topology(m, regions.cellRegion, GlobalIndex(regions.offset, regions.nRegions), regions.coupled, regions.nbrRegion)
  }

  /** The weight of each region: the sum of its cells' weights, or its
      number of cells when no weights are given. */
  function RegionWeightsOf(cellRegion: seq<nat>, nRegions: nat, hasWeights: bool, cellWeights: seq<real>): (w: seq<real>)
    requires hasWeights ==> |cellWeights| >= |cellRegion|
    ensures |w| == nRegions
  {
    if hasWeights then RegionSums(cellRegion, cellWeights, nRegions, |cellRegion|)
    else seq(nRegions, r requires 0 <= r < nRegions => CellsIn(cellRegion, r, |cellRegion|) as real)
  }

  /** What the constrained path needs: a region split of the mesh, and
      weights for every cell when any process has weights. */
  predicate ConstrainedInputs(m: PolyMesh, cellWeights: seq<real>, hasWeights: bool, regions: Regions) {
    && RegionTopology(m, regions).Valid()
    && (hasWeights ==> |cellWeights| >= m.nCells)
  }

  /** The constrained decomposition: the regions are decomposed as coarse
      cells centred at their first cell, then the explicit connections and
      the face sets are enforced. */
  function ConstrainedResult(m: PolyMesh, cellCentres: seq<Point>, cellWeights: seq<real>, hasWeights: bool,
                             blocked: seq<bool>, sets: seq<seq<nat>>, procs: seq<int>, conns: seq<Connection>,
                             regions: Regions, graphDecomposer: GraphDecomposer): (r: Result<seq<int>>)
    requires m.WellFormed() && |cellCentres| == m.nCells
    requires |blocked| == m.NFaces() && ConnectionsValid(m, conns) && FaceSetsValid(m, sets, procs)
    requires ConstrainedInputs(m, cellWeights, hasWeights, regions) && OnePerPoint(graphDecomposer)
    ensures r.Ok? ==> |r.value| == m.nCells
  {
    var t := RegionTopology(m, regions);
    var centres := CentresAfter(regions.cellRegion, cellCentres, regions.nRegions, m.nCells);
    var weights := RegionWeightsOf(regions.cellRegion, regions.nRegions, hasWeights, cellWeights);
    var coarse := graphDecomposer(CoarseGraph(t), centres, weights);
    var d := seq(m.nCells, c requires 0 <= c < m.nCells => coarse[regions.cellRegion[c]]);
    var connected := ConnectAll(m, blocked, d, conns);
    if connected.Fatal? then connected else Ok(ClaimAll(m, sets, procs, connected.value))
  }

  /** Decomposition under constraints. When no process has a constraint
      the cell centres are decomposed directly, weighted by the cell
      weights when any process has weights and by one per cell otherwise;
      else the result is the constrained decomposition, which fails
      exactly when an explicit connection of this process joins a blocked
      and an unblocked face. */
  method DecomposeConstrained(m: PolyMesh, cellCentres: seq<Point>, cellWeights: seq<real>,
                              blocked: seq<bool>, sets: seq<seq<nat>>, procs: seq<int>, conns: seq<Connection>,
                              others: OtherProcesses,
                              regions: Regions, pointDecomposer: PointDecomposer, graphDecomposer: GraphDecomposer)
    returns (r: Result<seq<int>>)
    requires m.WellFormed() && |cellCentres| == m.nCells
    requires |blocked| == m.NFaces() && ConnectionsValid(m, conns)
    requires !UnconstrainedEverywhere(blocked, sets, conns, others) ==>
      FaceSetsValid(m, sets, procs) && ConstrainedInputs(m, cellWeights, HasWeights(cellWeights, others), regions) && OnePerPoint(graphDecomposer)
    ensures UnconstrainedEverywhere(blocked, sets, conns, others) ==>
      r == Ok(pointDecomposer(cellCentres, if HasWeights(cellWeights, others) then cellWeights else UnitWeights(|cellCentres|)))
    ensures !UnconstrainedEverywhere(blocked, sets, conns, others) ==>
      r == ConstrainedResult(m, cellCentres, cellWeights, HasWeights(cellWeights, others),
                             blocked, sets, procs, conns, regions, graphDecomposer)
    ensures r.Fatal? <==> exists i :: 0 <= i < |conns| && Mismatched(blocked, conns[i])
  {
    var hasWeights := |cellWeights| + others.nCellWeights > 0;
    UnconstrainedEverywhereMeaning(blocked, sets, conns, others);
    var nProcSets, nConnections, nUnblocked := CountConstraints(blocked, sets, conns);
    nProcSets := nProcSets + others.nProcSets;
    nConnections := nConnections + others.nConnections;
    nUnblocked := nUnblocked + others.nUnblocked;
    if nProcSets + nConnections + nUnblocked == 0 {
      if hasWeights {
        r := Ok(pointDecomposer(cellCentres, cellWeights));
      } else {
        r := Ok(pointDecomposer(cellCentres, UnitWeights(|cellCentres|)));
      }
      return;
    }
    r := DecomposeRegions(m, cellCentres, cellWeights, hasWeights, blocked, sets, procs, conns, regions, graphDecomposer);
  }

  /** The constrained path: decomposes the regions, then enforces the
      explicit connections and the face sets in place. */
  method DecomposeRegions(m: PolyMesh, cellCentres: seq<Point>, cellWeights: seq<real>, hasWeights: bool,
                          blocked: seq<bool>, sets: seq<seq<nat>>, procs: seq<int>, conns: seq<Connection>,
                          regions: Regions, graphDecomposer: GraphDecomposer)
    returns (r: Result<seq<int>>)
    requires m.WellFormed() && |cellCentres| == m.nCells
    requires |blocked| == m.NFaces() && ConnectionsValid(m, conns) && FaceSetsValid(m, sets, procs)
    requires ConstrainedInputs(m, cellWeights, hasWeights, regions) && OnePerPoint(graphDecomposer)
    ensures r == ConstrainedResult(m, cellCentres, cellWeights, hasWeights, blocked, sets, procs, conns, regions, graphDecomposer)
    ensures r.Fatal? <==> exists i :: 0 <= i < |conns| && Mismatched(blocked, conns[i])
  {
    var t := RegionTopology(m, regions);
    var centres := RegionCentres(regions.cellRegion, regions.nRegions, cellCentres);
    var weights := RegionWeights(regions.cellRegion, regions.nRegions, hasWeights, cellWeights);
    assert weights == RegionWeightsOf(regions.cellRegion, regions.nRegions, hasWeights, cellWeights);
    var fine := DecomposeCoarse(t, centres, weights, graphDecomposer);
    var finalDecomp := new int[|fine|](c requires 0 <= c < |fine| => fine[c]);
    assert finalDecomp[..] == seq(m.nCells, c requires 0 <= c < m.nCells
      => graphDecomposer(CoarseGraph(t), centres, weights)[regions.cellRegion[c]]);
    ConnectAllFatal(m, blocked, finalDecomp[..], conns);
    var ok := EnforceConnections(m, blocked, conns, finalDecomp);
    if !ok {
      return Fatal(MismatchMessage);
    }
    EnforceFaceSets(m, sets, procs, finalDecomp);
    r := Ok(finalDecomp[..]);
  }

  /** Without explicit connections and with every face set empty, the
      constrained decomposition cannot fail and keeps the cells of each
      region together. */
  lemma RegionsStayTogether(m: PolyMesh, cellCentres: seq<Point>, cellWeights: seq<real>, hasWeights: bool,
                            blocked: seq<bool>, sets: seq<seq<nat>>, procs: seq<int>,
                            regions: Regions, graphDecomposer: GraphDecomposer, c: nat, c': nat)
    requires m.WellFormed() && |cellCentres| == m.nCells
    requires |blocked| == m.NFaces() && FaceSetsValid(m, sets, procs)
    requires ConstrainedInputs(m, cellWeights, hasWeights, regions) && OnePerPoint(graphDecomposer)
    requires forall s :: 0 <= s < |sets| ==> sets[s] == []
    requires c < m.nCells && c' < m.nCells && regions.cellRegion[c] == regions.cellRegion[c']
    ensures ConstrainedResult(m, cellCentres, cellWeights, hasWeights, blocked, sets, procs, [], regions, graphDecomposer).Ok?
    ensures ConstrainedResult(m, cellCentres, cellWeights, hasWeights, blocked, sets, procs, [], regions, graphDecomposer).value[c]
         == ConstrainedResult(m, cellCentres, cellWeights, hasWeights, blocked, sets, procs, [], regions, graphDecomposer).value[c']
  {
    var t := RegionTopology(m, regions);
    var centres := CentresAfter(regions.cellRegion, cellCentres, regions.nRegions, m.nCells);
    var weights := RegionWeightsOf(regions.cellRegion, regions.nRegions, hasWeights, cellWeights);
    var coarse := graphDecomposer(CoarseGraph(t), centres, weights);
    var d := seq(m.nCells, c requires 0 <= c < m.nCells => coarse[regions.cellRegion[c]]);
    assert ConnectAll(m, blocked, d, []) == Ok(d);
    ClaimAllUntouched(m, sets, procs, d, c);
    ClaimAllUntouched(m, sets, procs, d, c');
  }

  // ---------------------------------------------------------------------
  // Collecting the constraints

  /** The lists the constraints fill: the blocked faces, the face sets
      with their processors, and the explicit connections. */
  datatype ConstraintLists = ConstraintLists(
    blockedFace: seq<bool>,
    specifiedProcessorFaces: seq<seq<nat>>,
    specifiedProcessor: seq<int>,
    explicitConnections: seq<Connection>)

  /** A decomposition constraint adds its requirements to the lists. The
      constraints themselves are not part of this model. */
  type Constraint = ConstraintLists -> ConstraintLists

  /** The lists after the constraints have been added in order. */
  function AddAll(constraints: seq<Constraint>, lists: ConstraintLists): ConstraintLists {
    if |constraints| == 0 then lists
    else constraints[|constraints| - 1](AddAll(constraints[..|constraints| - 1], lists))
  }

  /** The lists before any constraint: every face blocked, no face sets,
      no connections; the processors of the face sets are kept as they
      were. */
  function NoConstraints(nFaces: nat, specifiedProcessor: seq<int>): (lists: ConstraintLists)
  {
    ConstraintLists(seq(nFaces, f => true), [], specifiedProcessor, [])
  }

  /** Blocks every face, clears the face sets and connections and lets
      each constraint add to the lists. */
  method SetConstraints(m: PolyMesh, specifiedProcessor: seq<int>, constraints: seq<Constraint>)
    returns (lists: ConstraintLists)
    ensures lists == AddAll(constraints, NoConstraints(m.NFaces(), specifiedProcessor))
  {
    lists := ConstraintLists(seq(m.NFaces(), f => true), [], specifiedProcessor, []);
    for i := 0 to |constraints|
      invariant lists == AddAll(constraints[..i], NoConstraints(m.NFaces(), specifiedProcessor))
    {
      assert constraints[..i + 1][..i] == constraints[..i];
      lists := constraints[i](lists);
    }
    assert constraints[..|constraints|] == constraints;
  }

  /** With no constraint the lists leave the decomposition unconstrained. */
  lemma NoConstraintsUnconstrained(m: PolyMesh, specifiedProcessor: seq<int>)
    ensures var lists := AddAll([], NoConstraints(m.NFaces(), specifiedProcessor));
      Unconstrained(lists.blockedFace, lists.specifiedProcessorFaces, lists.explicitConnections)
  {
    var lists := NoConstraints(m.NFaces(), specifiedProcessor);
    UnconstrainedMeaning(lists.blockedFace, lists.specifiedProcessorFaces, lists.explicitConnections);
  }
}
