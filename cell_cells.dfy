/** The compressed adjacency graph of the (agglomerated) cells of one
    process, built as calcCellCells does: count the entries of each row,
    lay the rows out at prefix-sum offsets, fill them face by face, then
    remove repeated and self connections in place. */
module CellCells {
  import opened Mesh
  import opened FirstOccurrence

  /** A list of rows stored as one flat list `m` and the start of each row
      in `offsets` (one more offset than rows). */
  datatype CompactList<T> = CompactList(offsets: seq<nat>, m: seq<T>) {

    function Size(): nat { if |offsets| == 0 then 0 else |offsets| - 1 }

    predicate WellFormed() {
      && |offsets| >= 1
      && offsets[0] == 0
      && offsets[|offsets| - 1] == |m|
      && Ascending(offsets)
    }

    function Row(c: nat): seq<T>
      requires WellFormed() && c < Size()
    {
      m[offsets[c]..offsets[c + 1]]
    }
  }

  predicate Ascending(s: seq<nat>) {
    forall a, b :: 0 <= a <= b < |s| ==> s[a] <= s[b]
  }

  /** What one call reads on this process.  `agglom` maps each mesh cell to
      its coarse cell; `numbering` numbers the coarse cells globally;
      `coupled` marks the boundary faces of the coupled patches taken into
      account; `nbrGlobal` holds, per boundary face, the global coarse id
      received from the other side of the coupling. */
  datatype Topology = Topology(
    mesh: PolyMesh,
    agglom: seq<nat>,
    numbering: GlobalIndex,
    coupled: seq<bool>,
    nbrGlobal: seq<int>)
  {
    predicate Valid() {
      && mesh.WellFormed()
      && |agglom| == mesh.nCells
      && (forall c :: 0 <= c < |agglom| ==> agglom[c] < numbering.localSize)
      && |coupled| == mesh.NBoundaryFaces()
      && |nbrGlobal| == mesh.NBoundaryFaces()
    }

    function NCoarse(): nat { numbering.localSize }

    function NInternal(): nat { mesh.NInternalFaces() }

    function NBoundary(): nat
      requires Valid()
    {
      mesh.NBoundaryFaces()
    }

    /** Coarse cell owning face f. */
    function Own(f: nat): (c: nat)
      requires Valid() && f < mesh.NFaces()
      ensures c < NCoarse()
    {
      agglom[mesh.faceOwner[f]]
    }

    /** Coarse cell on the neighbour side of internal face f. */
    function Nei(f: nat): (c: nat)
      requires Valid() && f < NInternal()
      ensures c < NCoarse()
    {
      agglom[mesh.faceNeighbour[f]]
    }

    /** Coarse cell owning boundary face b (face NInternal() + b). */
    function BoundaryOwner(b: nat): (c: nat)
      requires Valid() && b < NBoundary()
      ensures c < NCoarse()
    {
      Own(NInternal() + b)
    }

    function G(c: nat): int
      requires c < NCoarse()
    {
      numbering.ToGlobal(c)
    }

    /** A coupled boundary face contributes an entry unless the id received
        is local and names the owner itself. */
    predicate AddsCoupled(b: nat)
      requires Valid() && b < NBoundary()
    {
      var globalNei := nbrGlobal[b];
      coupled[b] && (!numbering.IsLocal(globalNei) || numbering.ToLocal(globalNei) != BoundaryOwner(b))
    }
  }

  /** Entries of row c contributed by internal faces 0 .. f-1: each face puts
      the neighbour's global id into the owner's row, then the owner's global
      id into the neighbour's row. */
  function InternalRow(t: Topology, c: nat, f: nat): seq<int>
    requires t.Valid() && f <= t.NInternal()
  {
    if f == 0 then []
    else
      InternalRow(t, c, f - 1)
      + (if t.Own(f - 1) == c then [t.G(t.Nei(f - 1))] else [])
      + (if t.Nei(f - 1) == c then [t.G(t.Own(f - 1))] else [])
  }

  /** Entries of row c contributed by boundary faces 0 .. b-1. */
  function CoupledRow(t: Topology, c: nat, b: nat): seq<int>
    requires t.Valid() && b <= t.NBoundary()
  {
    if b == 0 then []
    else
      CoupledRow(t, c, b - 1)
      + (if t.AddsCoupled(b - 1) && t.BoundaryOwner(b - 1) == c then [t.nbrGlobal[b - 1]] else [])
  }

  /** Row c as filled, before removing repeats. */
  function RawRow(t: Topology, c: nat): seq<int>
    requires t.Valid()
  {
    InternalRow(t, c, t.NInternal()) + CoupledRow(t, c, t.NBoundary())
  }

  /** Row c of the finished graph. */
  function GraphRow(t: Topology, c: nat): seq<int>
    requires t.Valid() && c < t.NCoarse()
  {
    Dedup(RawRow(t, c), {t.G(c)})
  }

  /** Internal face f links coarse cell c to the cell with global id x. */
  predicate InternalLink(t: Topology, c: nat, x: int, f: nat)
    requires t.Valid() && f < t.NInternal()
  {
    (t.Own(f) == c && x == t.G(t.Nei(f))) || (t.Nei(f) == c && x == t.G(t.Own(f)))
  }

  /** Coupled boundary face b links its owner c to the remote id x. */
  predicate CoupledLink(t: Topology, c: nat, x: int, b: nat)
    requires t.Valid() && b < t.NBoundary()
  {
    t.coupled[b] && t.BoundaryOwner(b) == c && x == t.nbrGlobal[b]
  }

  predicate Linked(t: Topology, c: nat, x: int)
    requires t.Valid()
  {
    || (exists f :: 0 <= f < t.NInternal() && InternalLink(t, c, x, f))
    || (exists b :: 0 <= b < t.NBoundary() && CoupledLink(t, c, x, b))
  }

  // ---------------------------------------------------------------------
  // Properties of the rows

  /** Internal face f adds to row c exactly the ids it links c to. */
  lemma InternalRowStep(t: Topology, c: nat, f: nat, x: int)
    requires t.Valid() && f < t.NInternal()
    ensures x in InternalRow(t, c, f + 1) <==> x in InternalRow(t, c, f) || InternalLink(t, c, x, f)
  {
    var tail := (if t.Own(f) == c then [t.G(t.Nei(f))] else [])
      + (if t.Nei(f) == c then [t.G(t.Own(f))] else []);
    assert InternalRow(t, c, f + 1) == InternalRow(t, c, f) + tail;
  }

  /** Some internal face below f links c to x. */
  ghost predicate LinkedBelow(t: Topology, c: nat, x: int, f: nat)
    requires t.Valid() && f <= t.NInternal()
  {
    exists g :: 0 <= g < f && InternalLink(t, c, x, g)
  }

  lemma LinkedBelowStep(t: Topology, c: nat, x: int, f: nat)
    requires t.Valid() && f < t.NInternal()
    ensures LinkedBelow(t, c, x, f + 1) <==> LinkedBelow(t, c, x, f) || InternalLink(t, c, x, f)
  {
    if LinkedBelow(t, c, x, f + 1) {
      var g :| 0 <= g < f + 1 && InternalLink(t, c, x, g);
      if g < f {
        assert LinkedBelow(t, c, x, f);
      }
    }
  }

  lemma {:induction false} InternalRowMember(t: Topology, c: nat, f: nat, x: int)
    requires t.Valid() && f <= t.NInternal()
    ensures x in InternalRow(t, c, f) <==> LinkedBelow(t, c, x, f)
    decreases f
  {
    if f > 0 {
      InternalRowMember(t, c, f - 1, x);
      InternalRowStep(t, c, f - 1, x);
      LinkedBelowStep(t, c, x, f - 1);
    }
  }

  lemma InternalRowMembers(t: Topology, c: nat, f: nat)
    requires t.Valid() && f <= t.NInternal()
    ensures forall x :: x in InternalRow(t, c, f) <==> exists g :: 0 <= g < f && InternalLink(t, c, x, g)
  {
    forall x
      ensures x in InternalRow(t, c, f) <==> exists g :: 0 <= g < f && InternalLink(t, c, x, g)
    {
      InternalRowMember(t, c, f, x);
    }
  }

  lemma {:induction false} CoupledRowMembers(t: Topology, c: nat, b: nat)
    requires t.Valid() && b <= t.NBoundary() && c < t.NCoarse()
    ensures forall x :: x in CoupledRow(t, c, b) <==>
      x != t.G(c) && exists a :: 0 <= a < b && CoupledLink(t, c, x, a)
    decreases b
  {
    if b > 0 {
      CoupledRowMembers(t, c, b - 1);
      if t.coupled[b - 1] && t.BoundaryOwner(b - 1) == c {
        t.numbering.SelfCouplingIsOwnId(t.nbrGlobal[b - 1], c);
      }
      var tail := if t.AddsCoupled(b - 1) && t.BoundaryOwner(b - 1) == c then [t.nbrGlobal[b - 1]] else [];
      assert CoupledRow(t, c, b) == CoupledRow(t, c, b - 1) + tail;
      forall x
        ensures x in CoupledRow(t, c, b) <==> x != t.G(c) && exists a :: 0 <= a < b && CoupledLink(t, c, x, a)
      {
        assert x in tail <==> x != t.G(c) && CoupledLink(t, c, x, b - 1);
        if x in CoupledRow(t, c, b - 1) {
          var a :| 0 <= a < b - 1 && CoupledLink(t, c, x, a);
          assert 0 <= a < b && CoupledLink(t, c, x, a);
        }
        if x in tail {
          assert 0 <= b - 1 < b && CoupledLink(t, c, x, b - 1);
        }
        if x != t.G(c) && exists a :: 0 <= a < b && CoupledLink(t, c, x, a) {
          var a :| 0 <= a < b && CoupledLink(t, c, x, a);
          if a < b - 1 {
            assert x in CoupledRow(t, c, b - 1);
          } else {
            assert x in tail;
          }
        }
      }
    }
  }

  /** The filled row holds the id of every cell linked to c by an internal
      face, and the remote id of every coupled face of c except its own id. */
  lemma RawRowMembers(t: Topology, c: nat)
    requires t.Valid() && c < t.NCoarse()
    ensures forall x :: x in RawRow(t, c) <==>
      || (exists f :: 0 <= f < t.NInternal() && InternalLink(t, c, x, f))
      || (x != t.G(c) && exists b :: 0 <= b < t.NBoundary() && CoupledLink(t, c, x, b))
  {
    InternalRowMembers(t, c, t.NInternal());
    CoupledRowMembers(t, c, t.NBoundary());
  }

  /** The finished row of c lists each cell linked to c exactly once, never
      c itself, in the order the links were first met. */
  lemma GraphRowMeaning(t: Topology, c: nat)
    requires t.Valid() && c < t.NCoarse()
    ensures forall x :: x in GraphRow(t, c) <==> x != t.G(c) && Linked(t, c, x)
    ensures forall j, k :: 0 <= j < k < |GraphRow(t, c)| ==> GraphRow(t, c)[j] != GraphRow(t, c)[k]
  {
    RawRowMembers(t, c);
    DedupElements(RawRow(t, c), {t.G(c)});
    DedupDistinct(RawRow(t, c), {t.G(c)});
  }

  lemma {:induction false} InternalRowGrows(t: Topology, c: nat, f: nat, g: nat)
    requires t.Valid() && f <= g <= t.NInternal()
    ensures |InternalRow(t, c, f)| <= |InternalRow(t, c, g)|
    decreases g
  {
    if f < g {
      InternalRowGrows(t, c, f, g - 1);
    }
  }

  lemma {:induction false} InternalRowPrefix(t: Topology, c: nat, f: nat, g: nat)
    requires t.Valid() && f <= g <= t.NInternal()
    ensures |InternalRow(t, c, f)| <= |InternalRow(t, c, g)|
    ensures InternalRow(t, c, f) == InternalRow(t, c, g)[..|InternalRow(t, c, f)|]
    decreases g
  {
    if f < g {
      InternalRowPrefix(t, c, f, g - 1);
      var r, r' := InternalRow(t, c, g - 1), InternalRow(t, c, g);
      assert r == r'[..|r|];
    }
  }

  lemma {:induction false} CoupledRowGrows(t: Topology, c: nat, a: nat, b: nat)
    requires t.Valid() && a <= b <= t.NBoundary()
    ensures |CoupledRow(t, c, a)| <= |CoupledRow(t, c, b)|
    decreases b
  {
    if a < b {
      CoupledRowGrows(t, c, a, b - 1);
    }
  }

  // ---------------------------------------------------------------------
  // Rows under construction in the flat list

  /** The slots [offsets[c], offsets[c + 1]) of `m` hold row c, whose
      first `filled[c]` entries are `rows[c]`. */
  ghost predicate RowHolds<T>(m: seq<T>, offsets: seq<nat>, filled: seq<nat>, rows: seq<seq<T>>, c: nat) {
    && c + 1 < |offsets| && c < |filled| && c < |rows|
    && filled[c] == |rows[c]| && offsets[c] + filled[c] <= offsets[c + 1] <= |m|
    && m[offsets[c]..offsets[c] + filled[c]] == rows[c]
  }

  /** Row c of the flat list `m` holds `rows[c]` in its first `filled[c]`
      slots, and no row overflows into the next. */
  ghost predicate RowsHold<T>(m: seq<T>, offsets: seq<nat>, filled: seq<nat>, rows: seq<seq<T>>) {
    && |offsets| == |filled| + 1
    && |rows| == |filled|
    && Ascending(offsets)
    && forall c :: 0 <= c < |filled| ==> RowHolds(m, offsets, filled, rows, c)
  }

  lemma SliceAfterWrite<T>(m: seq<T>, p: nat, v: T, lo: nat, hi: nat)
    requires lo <= hi <= |m| && p < |m| && (p < lo || hi <= p)
    ensures m[p := v][lo..hi] == m[lo..hi]
  {
  }

  lemma SliceGrows<T>(m: seq<T>, p: nat, v: T, lo: nat)
    requires lo <= p < |m|
    ensures m[p := v][lo..p + 1] == m[lo..p] + [v]
  {
  }

  /** Writing v into the first free slot of row r appends v to that row and
      disturbs no other row. */
  lemma RowAppend<T>(m: seq<T>, offsets: seq<nat>, filled: seq<nat>, rows: seq<seq<T>>, r: nat, v: T)
    requires RowsHold(m, offsets, filled, rows)
    requires r < |filled| && offsets[r] + |rows[r]| < offsets[r + 1]
    ensures offsets[r] + filled[r] < |m|
    ensures RowsHold(m[offsets[r] + filled[r] := v], offsets, filled[r := filled[r] + 1], rows[r := rows[r] + [v]])
  {
    assert RowHolds(m, offsets, filled, rows, r);
    var p := offsets[r] + filled[r];
    var m' := m[p := v];
    var filled' := filled[r := filled[r] + 1];
    var rows' := rows[r := rows[r] + [v]];
    forall c | 0 <= c < |filled|
      ensures RowHolds(m', offsets, filled', rows', c)
    {
      assert RowHolds(m, offsets, filled, rows, c);
      if c < r {
        assert offsets[c + 1] <= offsets[r];
        SliceAfterWrite(m, p, v, offsets[c], offsets[c] + filled[c]);
      } else if c > r {
        assert offsets[r + 1] <= offsets[c];
        SliceAfterWrite(m, p, v, offsets[c], offsets[c] + filled[c]);
      } else {
        SliceGrows(m, p, v, offsets[r]);
      }
    }
  }

  /** One coupled face on the flat list: v goes into the first free slot
      of row r, giving `rows2` when the row has room for it. */
  lemma RowAppendTo<T>(m: seq<T>, offsets: seq<nat>, filled: seq<nat>, rows: seq<seq<T>>, rows2: seq<seq<T>>,
                       r: nat, v: T)
    requires RowsHold(m, offsets, filled, rows) && r < |filled|
    requires rows2 == rows[r := rows[r] + [v]]
    requires offsets[r] + |rows2[r]| <= offsets[r + 1]
    ensures offsets[r] + filled[r] < |m|
    ensures RowsHold(m[offsets[r] + filled[r] := v], offsets, filled[r := filled[r] + 1], rows2)
  {
    RowAppend(m, offsets, filled, rows, r, v);
  }

  /** One internal face on the flat list: x goes into the first free slot
      of the owner's row, then y into the first free slot of the
      neighbour's row, giving `rows2` when both rows have room for it. */
  lemma FaceAppend<T>(m: seq<T>, offsets: seq<nat>, filled: seq<nat>, rows: seq<seq<T>>, rows2: seq<seq<T>>,
                      own: nat, nei: nat, x: T, y: T)
    requires RowsHold(m, offsets, filled, rows) && own < |filled| && nei < |filled|
    requires var rows1 := rows[own := rows[own] + [x]]; rows2 == rows1[nei := rows1[nei] + [y]]
    requires offsets[own] + |rows2[own]| <= offsets[own + 1] && offsets[nei] + |rows2[nei]| <= offsets[nei + 1]
    ensures var filled1 := filled[own := filled[own] + 1];
            && offsets[own] + filled[own] < |m| && offsets[nei] + filled1[nei] < |m|
            && RowsHold(m[offsets[own] + filled[own] := x][offsets[nei] + filled1[nei] := y], offsets,
                        filled1[nei := filled1[nei] + 1], rows2)
  {
    assert RowHolds(m, offsets, filled, rows, own);
    assert RowHolds(m, offsets, filled, rows, nei);
    RowAppend(m, offsets, filled, rows, own, x);
    RowAppend(m[offsets[own] + filled[own] := x], offsets, filled[own := filled[own] + 1], rows[own := rows[own] + [x]], nei, y);
  }

  /** The rows of the owner and the neighbour of internal face f have
      room for the entries of faces 0 .. f. */
  lemma InternalRoom(t: Topology, offsets: seq<nat>, f: nat)
    requires t.Valid() && f < t.NInternal() && |offsets| == t.NCoarse() + 1
    requires forall c :: 0 <= c < t.NCoarse() ==> offsets[c] + |InternalRow(t, c, t.NInternal())| <= offsets[c + 1]
    ensures offsets[t.Own(f)] + |InternalRow(t, t.Own(f), f + 1)| <= offsets[t.Own(f) + 1]
    ensures offsets[t.Nei(f)] + |InternalRow(t, t.Nei(f), f + 1)| <= offsets[t.Nei(f) + 1]
  {
    InternalRowGrows(t, t.Own(f), f + 1, t.NInternal());
    InternalRowGrows(t, t.Nei(f), f + 1, t.NInternal());
  }

  /** One internal face of the fill claims a slot in the owner's row and
      then one in the neighbour's row, and stores the other side's id in
      each. */
  lemma InternalFaceIds(t: Topology, f: nat, m: seq<int>, offsets: seq<nat>, filled: seq<nat>)
    requires t.Valid() && f < t.NInternal()
    requires |filled| == t.NCoarse() && |offsets| == t.NCoarse() + 1
    requires forall c :: 0 <= c < t.NCoarse() ==> offsets[c] + |InternalRow(t, c, t.NInternal())| <= offsets[c + 1]
    requires RowsHold(m, offsets, filled, RowsUpTo(t, f))
    ensures var own := t.Own(f);
            var nei := t.Nei(f);
            var ownIndex := offsets[own] + filled[own];
            var filled1 := filled[own := filled[own] + 1];
            var neiIndex := offsets[nei] + filled1[nei];
            && ownIndex < |m| && neiIndex < |m|
            && RowsHold(m[ownIndex := t.G(nei)][neiIndex := t.G(own)], offsets,
                        filled1[nei := filled1[nei] + 1], RowsUpTo(t, f + 1))
  {
    var own, nei := t.Own(f), t.Nei(f);
    var rows, rows2 := RowsUpTo(t, f), RowsUpTo(t, f + 1);
    RowsUpToStep(t, f);
    InternalRoom(t, offsets, f);
    assert rows2[own] == InternalRow(t, own, f + 1);
    assert rows2[nei] == InternalRow(t, nei, f + 1);
    FaceAppend(m, offsets, filled, rows, rows2, own, nei, t.G(nei), t.G(own));
  }

  /** The row of the owner of boundary face b has room for its entries
      from boundary faces 0 .. b. */
  lemma CoupledRoom(t: Topology, offsets: seq<nat>, b: nat)
    requires t.Valid() && b < t.NBoundary() && |offsets| == t.NCoarse() + 1
    requires forall c :: 0 <= c < t.NCoarse() ==> offsets[c] + |RawRow(t, c)| <= offsets[c + 1]
    ensures var own := t.BoundaryOwner(b);
            offsets[own] + |InternalRow(t, own, t.NInternal())| + |CoupledRow(t, own, b + 1)| <= offsets[own + 1]
  {
    CoupledRowGrows(t, t.BoundaryOwner(b), b + 1, t.NBoundary());
  }

  /** One coupled boundary face of the fill: when the received id is not
      the owner's own, it goes into the owner's next slot; otherwise
      nothing changes. */
  lemma CoupledFaceIds(t: Topology, b: nat, m: seq<int>, offsets: seq<nat>, filled: seq<nat>)
    requires t.Valid() && b < t.NBoundary()
    requires |filled| == t.NCoarse() && |offsets| == t.NCoarse() + 1
    requires forall c :: 0 <= c < t.NCoarse() ==> offsets[c] + |RawRow(t, c)| <= offsets[c + 1]
    requires RowsHold(m, offsets, filled, RowsWithCoupled(t, b))
    ensures t.AddsCoupled(b) ==>
      var own := t.BoundaryOwner(b);
      var ownIndex := offsets[own] + filled[own];
      && ownIndex < |m|
      && RowsHold(m[ownIndex := t.nbrGlobal[b]], offsets, filled[own := filled[own] + 1], RowsWithCoupled(t, b + 1))
    ensures !t.AddsCoupled(b) ==> RowsHold(m, offsets, filled, RowsWithCoupled(t, b + 1))
  {
    RowsWithCoupledStep(t, b);
    if t.AddsCoupled(b) {
      var own := t.BoundaryOwner(b);
      var rows := RowsWithCoupled(t, b);
      CoupledRoom(t, offsets, b);
      assert CoupledRow(t, own, b + 1) == CoupledRow(t, own, b) + [t.nbrGlobal[b]];
      assert rows[own] == InternalRow(t, own, t.NInternal()) + CoupledRow(t, own, b);
      RowAppend(m, offsets, filled, rows, own, t.nbrGlobal[b]);
    }
  }

  // ---------------------------------------------------------------------
  // The four passes

  /** The global id of the owner of every coupled boundary face, the list
      sent to the other side of each coupling.  Faces of uncoupled patches
      are not written. */
  method CoupledOwnerIds(t: Topology) returns (globalNeighbour: array<int>)
    requires t.Valid()
    ensures fresh(globalNeighbour) && globalNeighbour.Length == t.NBoundary()
    ensures forall b :: 0 <= b < t.NBoundary() && t.coupled[b] ==> globalNeighbour[b] == t.G(t.BoundaryOwner(b))
  {
    globalNeighbour := new int[t.NBoundary()];
    var bFacei := 0;
    while bFacei < t.NBoundary()
      invariant bFacei <= t.NBoundary()
      invariant forall b :: 0 <= b < bFacei && t.coupled[b] ==> globalNeighbour[b] == t.G(t.BoundaryOwner(b))
    {
      if t.coupled[bFacei] {
        globalNeighbour[bFacei] := t.G(t.BoundaryOwner(bFacei));
      }
      bFacei := bFacei + 1;
    }
  }

  /** Pass 1: number of entries of each coarse row. */
  method CountFaces(t: Topology) returns (nFacesPerCell: array<nat>)
    requires t.Valid()
    ensures fresh(nFacesPerCell) && nFacesPerCell.Length == t.NCoarse()
    ensures forall c :: 0 <= c < t.NCoarse() ==> nFacesPerCell[c] == |RawRow(t, c)|
  {
    nFacesPerCell := new nat[t.NCoarse()](_ => 0);
    CountInternalFaces(t, nFacesPerCell);
    var bFacei := 0;
    while bFacei < t.NBoundary()
      invariant bFacei <= t.NBoundary()
      invariant forall c :: 0 <= c < t.NCoarse() ==>
        nFacesPerCell[c] == |InternalRow(t, c, t.NInternal())| + |CoupledRow(t, c, bFacei)|
    {
      if t.coupled[bFacei] {
        var own := t.BoundaryOwner(bFacei);
        var globalNei := t.nbrGlobal[bFacei];
        if !t.numbering.IsLocal(globalNei) || t.numbering.ToLocal(globalNei) != own {
          nFacesPerCell[own] := nFacesPerCell[own] + 1;
        }
      }
      bFacei := bFacei + 1;
    }
  }

  /** Pass 1, internal faces: one entry for the owner and one for the
      neighbour of each. */
  method CountInternalFaces(t: Topology, nFacesPerCell: array<nat>)
    requires t.Valid() && nFacesPerCell.Length == t.NCoarse()
    requires forall c :: 0 <= c < t.NCoarse() ==> nFacesPerCell[c] == 0
    modifies nFacesPerCell
    ensures forall c :: 0 <= c < t.NCoarse() ==> nFacesPerCell[c] == |InternalRow(t, c, t.NInternal())|
  {
    var facei := 0;
    while facei < t.NInternal()
      invariant facei <= t.NInternal()
      invariant forall c :: 0 <= c < t.NCoarse() ==> nFacesPerCell[c] == |InternalRow(t, c, facei)|
    {
      var own := t.Own(facei);
      var nei := t.Nei(facei);
      nFacesPerCell[own] := nFacesPerCell[own] + 1;
      nFacesPerCell[nei] := nFacesPerCell[nei] + 1;
      facei := facei + 1;
    }
  }

  /** Pass 2: row starts as prefix sums of the row sizes. */
  method OffsetsOf(sizes: array<nat>) returns (offsets: array<nat>)
    ensures fresh(offsets) && offsets.Length == sizes.Length + 1
    ensures offsets[0] == 0
    ensures forall c :: 0 <= c < sizes.Length ==> offsets[c + 1] == offsets[c] + sizes[c]
    ensures Ascending(offsets[..])
  {
    offsets := new nat[sizes.Length + 1](_ => 0);
    var c := 0;
    while c < sizes.Length
      invariant c <= sizes.Length
      invariant offsets[0] == 0
      invariant forall d :: 0 <= d < c ==> offsets[d + 1] == offsets[d] + sizes[d]
      invariant forall a, b :: 0 <= a <= b <= c ==> offsets[a] <= offsets[b]
    {
      offsets[c + 1] := offsets[c] + sizes[c];
      c := c + 1;
    }
  }

  function RowsUpTo(t: Topology, f: nat): (rows: seq<seq<int>>)
    requires t.Valid() && f <= t.NInternal()
    ensures |rows| == t.NCoarse()
  {
    seq(t.NCoarse(), c requires 0 <= c < t.NCoarse() => InternalRow(t, c, f))
  }

  function RowsWithCoupled(t: Topology, b: nat): (rows: seq<seq<int>>)
    requires t.Valid() && b <= t.NBoundary()
    ensures |rows| == t.NCoarse()
  {
    seq(t.NCoarse(), c requires 0 <= c < t.NCoarse() => InternalRow(t, c, t.NInternal()) + CoupledRow(t, c, b))
  }

  lemma RowsUpToStep(t: Topology, f: nat)
    requires t.Valid() && f < t.NInternal()
    ensures var rows := RowsUpTo(t, f);
            var own := t.Own(f);
            var nei := t.Nei(f);
            var rows1 := rows[own := rows[own] + [t.G(nei)]];
            RowsUpTo(t, f + 1) == rows1[nei := rows1[nei] + [t.G(own)]]
  {
    var rows := RowsUpTo(t, f);
    var own := t.Own(f);
    var nei := t.Nei(f);
    var rows1 := rows[own := rows[own] + [t.G(nei)]];
    var rows2 := rows1[nei := rows1[nei] + [t.G(own)]];
    forall c | 0 <= c < t.NCoarse()
      ensures RowsUpTo(t, f + 1)[c] == rows2[c]
    {
      assert InternalRow(t, c, f + 1) == InternalRow(t, c, f)
        + (if own == c then [t.G(nei)] else []) + (if nei == c then [t.G(own)] else []);
    }
  }

  lemma RowsWithCoupledStep(t: Topology, b: nat)
    requires t.Valid() && b < t.NBoundary()
    ensures var rows := RowsWithCoupled(t, b);
            var own := t.BoundaryOwner(b);
            RowsWithCoupled(t, b + 1) == if t.AddsCoupled(b) then rows[own := rows[own] + [t.nbrGlobal[b]]] else rows
  {
    var rows := RowsWithCoupled(t, b);
    var own := t.BoundaryOwner(b);
    var rows' := if t.AddsCoupled(b) then rows[own := rows[own] + [t.nbrGlobal[b]]] else rows;
    forall c | 0 <= c < t.NCoarse()
      ensures RowsWithCoupled(t, b + 1)[c] == rows'[c]
    {
      assert CoupledRow(t, c, b + 1) == CoupledRow(t, c, b) + (if t.AddsCoupled(b) && own == c then [t.nbrGlobal[b]] else []);
    }
  }

  /** Pass 3, internal faces: each face appends the neighbour's id to the
      owner's row and the owner's id to the neighbour's row. */
  method FillInternal(t: Topology, offsets: array<nat>, m: array<int>, filled: array<nat>)
    requires t.Valid() && offsets != filled
    requires filled.Length == t.NCoarse() && offsets.Length == t.NCoarse() + 1
    requires forall c :: 0 <= c < t.NCoarse() ==> offsets[c] + |InternalRow(t, c, t.NInternal())| <= offsets[c + 1]
    requires RowsHold(m[..], offsets[..], filled[..], RowsUpTo(t, 0))
    modifies m, filled
    ensures RowsHold(m[..], offsets[..], filled[..], RowsUpTo(t, t.NInternal()))
  {
    var facei := 0;
    while facei < t.NInternal()
      invariant facei <= t.NInternal()
      invariant RowsHold(m[..], offsets[..], filled[..], RowsUpTo(t, facei))
    {
      FillInternalFace(t, facei, offsets, m, filled);
      facei := facei + 1;
    }
  }

  /** One internal face of pass 3: the neighbour's id goes into the
      owner's next slot, then the owner's id into the neighbour's. */
  method FillInternalFace(t: Topology, facei: nat, offsets: array<nat>, m: array<int>, filled: array<nat>)
    requires t.Valid() && offsets != filled && facei < t.NInternal()
    requires filled.Length == t.NCoarse() && offsets.Length == t.NCoarse() + 1
    requires forall c :: 0 <= c < t.NCoarse() ==> offsets[c] + |InternalRow(t, c, t.NInternal())| <= offsets[c + 1]
    requires RowsHold(m[..], offsets[..], filled[..], RowsUpTo(t, facei))
    modifies m, filled
    ensures RowsHold(m[..], offsets[..], filled[..], RowsUpTo(t, facei + 1))
  {
    var own := t.Own(facei);
    var nei := t.Nei(facei);
    ghost var m0, filled0 := m[..], filled[..];
    InternalFaceIds(t, facei, m0, offsets[..], filled0);

    var ownIndex := offsets[own] + filled[own];
    filled[own] := filled[own] + 1;
    var neiIndex := offsets[nei] + filled[nei];
    filled[nei] := filled[nei] + 1;

    m[ownIndex] := t.G(nei);
    m[neiIndex] := t.G(own);

    ghost var filled1 := filled0[own := filled0[own] + 1];
    assert filled[..] == filled1[nei := filled1[nei] + 1];
    assert m[..] == m0[ownIndex := t.G(nei)][neiIndex := t.G(own)];
  }

  /** Pass 3, coupled boundary faces: the received id is appended to the
      owner's row unless it is the owner's own id. */
  method FillCoupled(t: Topology, offsets: array<nat>, m: array<int>, filled: array<nat>)
    requires t.Valid() && offsets != filled
    requires filled.Length == t.NCoarse() && offsets.Length == t.NCoarse() + 1
    requires forall c :: 0 <= c < t.NCoarse() ==> offsets[c] + |RawRow(t, c)| <= offsets[c + 1]
    requires RowsHold(m[..], offsets[..], filled[..], RowsWithCoupled(t, 0))
    modifies m, filled
    ensures RowsHold(m[..], offsets[..], filled[..], RowsWithCoupled(t, t.NBoundary()))
  {
    var bFacei := 0;
    while bFacei < t.NBoundary()
      invariant bFacei <= t.NBoundary()
      invariant RowsHold(m[..], offsets[..], filled[..], RowsWithCoupled(t, bFacei))
    {
      FillCoupledFace(t, bFacei, offsets, m, filled);
      bFacei := bFacei + 1;
    }
  }

  /** One boundary face of pass 3: a coupled face whose other side is not
      the owner itself adds the other side's id to the owner's row. */
  method FillCoupledFace(t: Topology, bFacei: nat, offsets: array<nat>, m: array<int>, filled: array<nat>)
    requires t.Valid() && offsets != filled && bFacei < t.NBoundary()
    requires filled.Length == t.NCoarse() && offsets.Length == t.NCoarse() + 1
    requires forall c :: 0 <= c < t.NCoarse() ==> offsets[c] + |RawRow(t, c)| <= offsets[c + 1]
    requires RowsHold(m[..], offsets[..], filled[..], RowsWithCoupled(t, bFacei))
    modifies m, filled
    ensures RowsHold(m[..], offsets[..], filled[..], RowsWithCoupled(t, bFacei + 1))
  {
    CoupledFaceIds(t, bFacei, m[..], offsets[..], filled[..]);
    if t.coupled[bFacei] {
      var own := t.BoundaryOwner(bFacei);
      var globalNei := t.nbrGlobal[bFacei];
      if !t.numbering.IsLocal(globalNei) || t.numbering.ToLocal(globalNei) != own {
        ghost var m0, filled0 := m[..], filled[..];
        var ownIndex := offsets[own] + filled[own];
        filled[own] := filled[own] + 1;
        m[ownIndex] := globalNei;
        assert filled[..] == filled0[own := filled0[own] + 1];
        assert m[..] == m0[ownIndex := globalNei];
      }
    }
  }

  lemma EmptyRowsHold<T>(m: seq<T>, offsets: seq<nat>, filled: seq<nat>, rows: seq<seq<T>>)
    requires |offsets| == |filled| + 1 && |rows| == |filled| && Ascending(offsets)
    requires offsets[|offsets| - 1] <= |m|
    requires forall c :: 0 <= c < |filled| ==> filled[c] == 0 && rows[c] == []
    ensures RowsHold(m, offsets, filled, rows)
  {
    forall c | 0 <= c < |filled|
      ensures RowHolds(m, offsets, filled, rows, c)
    {
      assert offsets[c + 1] <= offsets[|offsets| - 1];
    }
  }

  lemma FullRowsHold(t: Topology, m: seq<int>, offsets: seq<nat>, filled: seq<nat>)
    requires t.Valid()
    requires RowsHold(m, offsets, filled, RowsWithCoupled(t, t.NBoundary()))
    requires forall c :: 0 <= c < t.NCoarse() ==> offsets[c + 1] == offsets[c] + |RawRow(t, c)|
    ensures forall c :: 0 <= c < t.NCoarse() ==> offsets[c] + |RawRow(t, c)| <= |m| && m[offsets[c]..offsets[c + 1]] == RawRow(t, c)
  {
    var rows := RowsWithCoupled(t, t.NBoundary());
    forall c | 0 <= c < t.NCoarse()
      ensures offsets[c] + |RawRow(t, c)| <= |m| && m[offsets[c]..offsets[c + 1]] == RawRow(t, c)
    {
      assert RowHolds(m, offsets, filled, rows, c);
    }
  }

  lemma InternalRowsComplete(t: Topology)
    requires t.Valid()
    ensures RowsUpTo(t, t.NInternal()) == RowsWithCoupled(t, 0)
    ensures forall c :: 0 <= c < t.NCoarse() ==> |InternalRow(t, c, t.NInternal())| <= |RawRow(t, c)|
  {
    forall c | 0 <= c < t.NCoarse()
      ensures RowsUpTo(t, t.NInternal())[c] == RowsWithCoupled(t, 0)[c]
    {
      assert InternalRow(t, c, t.NInternal()) + [] == InternalRow(t, c, t.NInternal());
    }
  }

  /** Pass 3: every row of `m` receives its entries, internal faces first,
      then coupled boundary faces. */
  method FillRows(t: Topology, offsets: array<nat>, m: array<int>)
    requires t.Valid()
    requires offsets.Length == t.NCoarse() + 1 && offsets[0] == 0 && Ascending(offsets[..])
    requires forall c :: 0 <= c < t.NCoarse() ==> offsets[c + 1] == offsets[c] + |RawRow(t, c)|
    requires offsets[t.NCoarse()] == m.Length
    modifies m
    ensures forall c :: 0 <= c < t.NCoarse() ==> m[offsets[c]..offsets[c + 1]] == RawRow(t, c)
  {
    var n := t.NCoarse();
    var filled := new nat[n](_ => 0);
    EmptyRowsHold(m[..], offsets[..], filled[..], RowsUpTo(t, 0));
    InternalRowsComplete(t);
    FillInternal(t, offsets, m, filled);
    FillCoupled(t, offsets, m, filled);
    FullRowsHold(t, m[..], offsets[..], filled[..]);
  }

  /** The rows of a flat list laid out at `offsets`. */
  function RowsOf<T>(offsets: seq<nat>, m: seq<T>): (rows: seq<seq<T>>)
    requires |offsets| >= 1 && Ascending(offsets) && offsets[|offsets| - 1] <= |m|
    ensures |rows| == |offsets| - 1
  {
    seq(|offsets| - 1, c requires 0 <= c < |offsets| - 1 => m[offsets[c]..offsets[c + 1]])
  }

  /** Each row with repeats and the row's own global id removed. */
  function DedupedRows(numbering: GlobalIndex, rows: seq<seq<int>>): (out: seq<seq<int>>)
    requires |rows| <= numbering.localSize
    ensures |out| == |rows|
  {
    seq(|rows|, c requires 0 <= c < |rows| => Dedup(rows[c], {numbering.ToGlobal(c)}))
  }

  /** Inserting row[j] into the set of ids met so far succeeds exactly when
      the first-occurrence filter keeps position j. */
  lemma InsertStep(row: seq<int>, seed: set<int>, j: nat, nbrCells: set<int>)
    requires j < |row|
    requires forall y :: y in nbrCells <==> y in seed || y in row[..j]
    ensures Kept(row, seed, j + 1) == if row[j] !in nbrCells then Kept(row, seed, j) + [j] else Kept(row, seed, j)
    ensures Select(row, Kept(row, seed, j + 1))
      == Select(row, Kept(row, seed, j)) + (if row[j] !in nbrCells then [row[j]] else [])
    ensures forall y :: y in nbrCells + {row[j]} <==> y in seed || y in row[..j + 1]
  {
    var x := row[j];
    assert x in nbrCells <==> x in seed || x in row[..j];
    assert row[..j + 1] == row[..j] + [x];
    SelectAppend(row, Kept(row, seed, j), j);
  }

  /** The list, the next free slot and the ids met after the compaction
      of one row has read its first j entries, step by step as the loop
      does it. */
  datatype IdCompaction = IdCompaction(m: seq<int>, next: nat, met: set<int>)

  /** Reading the entry at position p: when its id is new, it moves down
      to the next free slot. */
  function ReadId(s: IdCompaction, p: nat): (s': IdCompaction)
    requires p < |s.m| && s.next <= p
    ensures |s'.m| == |s.m| && s.next <= s'.next <= s.next + 1
  {
    var x := s.m[p];
    if x in s.met then s else IdCompaction(s.m[s.next := x], s.next + 1, s.met + {x})
  }

  function IdsCompactedAfter(m0: seq<int>, start: nat, newIndex: nat, self: int, j: nat): (s: IdCompaction)
    requires newIndex <= start && start + j <= |m0|
    ensures |s.m| == |m0| && newIndex <= s.next <= newIndex + j
    decreases j
  {
    if j == 0 then IdCompaction(m0, newIndex, {self})
    else ReadId(IdsCompactedAfter(m0, start, newIndex, self, j - 1), start + (j - 1))
  }

  /** The compaction state s after j entries of the row: the kept ids of
      those entries follow the untouched prefix, the entries not yet read
      are untouched, and s has met exactly the seed and those entries. */
  ghost predicate IdCompactionAt(s: IdCompaction, m0: seq<int>, start: nat, newIndex: nat,
                                 row: seq<int>, seed: set<int>, j: nat) {
    && |s.m| == |m0| && start + |row| <= |m0| && row == m0[start..start + |row|] && j <= |row|
    && s.next == newIndex + |Kept(row, seed, j)| <= start + j
    && s.m[..s.next] == m0[..newIndex] + Select(row, Kept(row, seed, j))
    && (forall k :: start + j <= k < |m0| ==> s.m[k] == m0[k])
    && (forall y :: y in s.met <==> y in seed || y in row[..j])
  }

  /** Writing x into the next free slot after a compacted prefix extends
      that prefix by x. */
  lemma KeepAt<T>(m: seq<T>, m0: seq<T>, newIndex: nat, next: nat, done: seq<T>, x: T)
    requires newIndex <= |m0| && next < |m| && m[..next] == m0[..newIndex] + done
    ensures m[next := x][..next + 1] == m0[..newIndex] + (done + [x])
  {
    assert m[next := x][..next + 1] == m[..next] + [x];
  }

  /** Reading entry j and keeping it exactly when inserting it into the
      ids met so far succeeds extends the compaction by one entry. */
  lemma IdCompactStep(s: IdCompaction, m0: seq<int>, start: nat, newIndex: nat, row: seq<int>, seed: set<int>, j: nat)
    requires IdCompactionAt(s, m0, start, newIndex, row, seed, j) && j < |row|
    ensures IdCompactionAt(ReadId(s, start + j), m0, start, newIndex, row, seed, j + 1)
  {
    InsertStep(row, seed, j, s.met);
    assert s.m[start + j] == m0[start + j] == row[j];
    if row[j] !in s.met {
      KeepAt(s.m, m0, newIndex, s.next, Select(row, Kept(row, seed, j)), row[j]);
      assert ReadId(s, start + j) == IdCompaction(s.m[s.next := row[j]], s.next + 1, s.met + {row[j]});
    } else {
      assert ReadId(s, start + j) == s;
    }
  }

  /** After j entries the compaction holds the ids the first-occurrence
      filter keeps among them, and has met exactly the row's own id and
      those entries. */
  lemma {:induction false} IdsCompactedAfterMeaning(m0: seq<int>, start: nat, newIndex: nat, self: int,
                                                    row: seq<int>, j: nat)
    requires newIndex <= start && start + |row| <= |m0| && j <= |row| && row == m0[start..start + |row|]
    ensures IdCompactionAt(IdsCompactedAfter(m0, start, newIndex, self, j), m0, start, newIndex, row, {self}, j)
    decreases j
  {
    if j == 0 {
      IdsCompactedAfterStart(m0, start, newIndex, self, row);
    } else {
      IdsCompactedAfterMeaning(m0, start, newIndex, self, row, j - 1);
      IdsCompactedAfterStep(m0, start, newIndex, self, row, j);
    }
  }

  lemma IdsCompactedAfterStart(m0: seq<int>, start: nat, newIndex: nat, self: int, row: seq<int>)
    requires newIndex <= start && start + |row| <= |m0| && row == m0[start..start + |row|]
    ensures IdCompactionAt(IdsCompactedAfter(m0, start, newIndex, self, 0), m0, start, newIndex, row, {self}, 0)
  {
    assert row[..0] == [];
  }

  lemma IdsCompactedAfterStep(m0: seq<int>, start: nat, newIndex: nat, self: int, row: seq<int>, j: nat)
    requires newIndex <= start && start + |row| <= |m0| && 0 < j <= |row|
    requires IdCompactionAt(IdsCompactedAfter(m0, start, newIndex, self, j - 1), m0, start, newIndex, row, {self}, j - 1)
    ensures IdCompactionAt(IdsCompactedAfter(m0, start, newIndex, self, j), m0, start, newIndex, row, {self}, j)
  {
    var i := j - 1;
    var s := IdsCompactedAfter(m0, start, newIndex, self, i);
    assert IdsCompactedAfter(m0, start, newIndex, self, j) == ReadId(s, start + i);
    IdCompactStep(s, m0, start, newIndex, row, {self}, i);
  }

  /** The whole row read: the compaction holds the deduplicated row after
      the untouched prefix, and the list after the row is as it was. */
  lemma IdsCompactedRow(m0: seq<int>, start: nat, end: nat, newIndex: nat, self: int)
    requires newIndex <= start <= end <= |m0|
    ensures var s := IdsCompactedAfter(m0, start, newIndex, self, end - start);
            && s.next == newIndex + |Dedup(m0[start..end], {self})| <= end
            && s.m[..s.next] == m0[..newIndex] + Dedup(m0[start..end], {self})
            && forall k :: end <= k < |m0| ==> s.m[k] == m0[k]
  {
    IdsCompactedAfterMeaning(m0, start, newIndex, self, m0[start..end], end - start);
  }

  /** Reads the entry at position p: when inserting it into `met`
      succeeds, it moves down to slot `next`. */
  method ReadIdInPlace(m: array<int>, p: nat, next: nat, met: set<int>) returns (next': nat, met': set<int>)
    requires next <= p < m.Length
    modifies m
    ensures IdCompaction(m[..], next', met') == ReadId(IdCompaction(old(m[..]), next, met), p)
  {
    var x := m[p];
    next', met' := next, met;
    if x !in met {
      m[next] := x;
      next' := next + 1;
      met' := met + {x};
    }
  }

  /** The loop of pass 4 over one row: reads the entries in [start, end)
      one by one, leaving the list as IdsCompactedAfter describes it. */
  method ReadRowIdsInPlace(m: array<int>, start: nat, end: nat, newIndex: nat, self: int) returns (next: nat)
    requires newIndex <= start <= end <= m.Length
    modifies m
    ensures var s := IdsCompactedAfter(old(m[..]), start, newIndex, self, end - start);
            m[..] == s.m && next == s.next
  {
    ghost var m0 := m[..];
    var nbrCells: set<int> := {self};
    next := newIndex;
    var j := 0;
    while j < end - start
      invariant j <= end - start
      invariant IdCompaction(m[..], next, nbrCells) == IdsCompactedAfter(m0, start, newIndex, self, j)
    {
      assert IdsCompactedAfter(m0, start, newIndex, self, j + 1)
        == ReadId(IdsCompactedAfter(m0, start, newIndex, self, j), start + j);
      next, nbrCells := ReadIdInPlace(m, start + j, next, nbrCells);
      j := j + 1;
    }
  }

  /** Pass 4, one row: the entries in [start, end) are copied down to
      `newIndex` onwards, each only if inserting it into the set seeded
      with the row's own id succeeds. */
  method CompactRow(m: array<int>, start: nat, end: nat, newIndex: nat, self: int) returns (next: nat)
    requires newIndex <= start <= end <= m.Length
    modifies m
    ensures next == newIndex + |Dedup(old(m[start..end]), {self})| <= end
    ensures m[..next] == old(m[..newIndex]) + Dedup(old(m[start..end]), {self})
    ensures forall k :: end <= k < m.Length ==> m[k] == old(m[k])
  {
    ghost var m0 := m[..];
    next := ReadRowIdsInPlace(m, start, end, newIndex, self);
    IdsCompactedRow(m0, start, end, newIndex, self);
  }

  /** The part of the flat list not yet read still holds the original
      row. */
  lemma RowUnread(m0: seq<int>, m: seq<int>, offsets0: seq<nat>, c: nat)
    requires c + 1 < |offsets0| && Ascending(offsets0) && offsets0[|offsets0| - 1] <= |m0| == |m|
    requires forall k :: offsets0[c] <= k < |m| ==> m[k] == m0[k]
    ensures m[offsets0[c]..offsets0[c + 1]] == RowsOf(offsets0, m0)[c]
  {
  }

  /** The state of pass 4 after `celli` rows: the compacted prefix holds
      the deduplicated rows so far, the rows not yet read are untouched, and
      the offsets up to `celli` are the compacted row boundaries. */
  ghost predicate DedupSoFar(m: seq<int>, offsets: seq<nat>, m0: seq<int>, offsets0: seq<nat>,
                             out: seq<seq<int>>, celli: nat, newIndex: nat) {
    && |m| == |m0|
    && |offsets| == |offsets0| == |out| + 1
    && offsets0[|out|] <= |m0|
    && celli <= |out| && offsets0[celli] <= |m0|
    && newIndex == |Flatten(out[..celli])| <= offsets0[celli]
    && m[..newIndex] == Flatten(out[..celli])
    && (forall k :: offsets0[celli] <= k < |m| ==> m[k] == m0[k])
    && (forall c :: 0 <= c <= celli ==> offsets[c] == |Flatten(out[..c])|)
    && (forall c :: celli < c < |offsets| ==> offsets[c] == offsets0[c])
  }

  /** Row `celli` of pass 4: it is still unread, and compacting it (as
      CompactRow promises) and moving its end offset extends the state by
      one row. */
  lemma DedupStep(numbering: GlobalIndex, m: seq<int>, offsets: seq<nat>, m': seq<int>,
                  m0: seq<int>, offsets0: seq<nat>, out: seq<seq<int>>, celli: nat, newIndex: nat, newIndex': nat)
    requires |offsets0| == numbering.localSize + 1 && Ascending(offsets0) && offsets0[|offsets0| - 1] <= |m0|
    requires out == DedupedRows(numbering, RowsOf(offsets0, m0))
    requires DedupSoFar(m, offsets, m0, offsets0, out, celli, newIndex) && celli < |out|
    requires var row := m[offsets0[celli]..offsets0[celli + 1]];
             var self := {numbering.ToGlobal(celli)};
             && newIndex' == newIndex + |Dedup(row, self)|
             && |m'| == |m|
             && m'[..newIndex'] == m[..newIndex] + Dedup(row, self)
             && (forall k :: offsets0[celli + 1] <= k < |m| ==> m'[k] == m[k])
    ensures DedupSoFar(m', offsets[celli + 1 := newIndex'], m0, offsets0, out, celli + 1, newIndex')
  {
    RowUnread(m0, m, offsets0, celli);
    assert out[celli] == Dedup(m[offsets0[celli]..offsets0[celli + 1]], {numbering.ToGlobal(celli)});
    assert offsets0[celli + 1] <= offsets0[|out|];
    FlattenStep(out, celli);
  }

  /** After the last row the whole list is compacted. */
  lemma DedupAll(m: seq<int>, offsets: seq<nat>, m0: seq<int>, offsets0: seq<nat>, out: seq<seq<int>>, newIndex: nat)
    requires DedupSoFar(m, offsets, m0, offsets0, out, |out|, newIndex)
    ensures newIndex <= |m|
    ensures m[..newIndex] == Flatten(out)
    ensures forall c :: 0 <= c < |offsets| ==> offsets[c] == |Flatten(out[..c])|
  {
    assert out[..|out|] == out;
  }

  /** Pass 4, one row: its entries are compacted and its end offset is
      moved to the compacted end. */
  method DedupCell(numbering: GlobalIndex, offsets: array<nat>, m: array<int>,
                   celli: nat, startIndex: nat, newIndex: nat,
                   ghost m0: seq<int>, ghost offsets0: seq<nat>, ghost out: seq<seq<int>>)
    returns (endIndex: nat, next: nat)
    requires |offsets0| == numbering.localSize + 1 && Ascending(offsets0) && offsets0[|offsets0| - 1] <= |m0|
    requires out == DedupedRows(numbering, RowsOf(offsets0, m0))
    requires celli < |out| && startIndex == offsets0[celli]
    requires DedupSoFar(m[..], offsets[..], m0, offsets0, out, celli, newIndex)
    modifies offsets, m
    ensures endIndex == offsets0[celli + 1]
    ensures DedupSoFar(m[..], offsets[..], m0, offsets0, out, celli + 1, next)
  {
    endIndex := offsets[celli + 1];
    ghost var mBefore, offsetsBefore := m[..], offsets[..];
    next := CompactRow(m, startIndex, endIndex, newIndex, numbering.ToGlobal(celli));
    DedupStep(numbering, mBefore, offsetsBefore, m[..], m0, offsets0, out, celli, newIndex, next);
    offsets[celli + 1] := next;
    assert offsets[..] == offsetsBefore[celli + 1 := next];
  }

  /** Pass 4: every row is compacted in place and the offsets are moved to
      the compacted row boundaries. */
  method DedupRows(numbering: GlobalIndex, offsets: array<nat>, m: array<int>) returns (newIndex: nat)
    requires offsets.Length == numbering.localSize + 1
    requires offsets[0] == 0 && Ascending(offsets[..]) && offsets[offsets.Length - 1] <= m.Length
    modifies offsets, m
    ensures newIndex <= m.Length
    ensures var out := DedupedRows(numbering, RowsOf(old(offsets[..]), old(m[..])));
            && m[..newIndex] == Flatten(out)
            && forall c :: 0 <= c < offsets.Length ==> offsets[c] == |Flatten(out[..c])|
  {
    ghost var offsets0, m0 := offsets[..], m[..];
    ghost var out := DedupedRows(numbering, RowsOf(offsets0, m0));
    var n := offsets.Length - 1;
    newIndex := 0;
    var startIndex := offsets[0];
    var celli := 0;
    while celli < n
      invariant celli <= n && startIndex == offsets0[celli]
      invariant DedupSoFar(m[..], offsets[..], m0, offsets0, out, celli, newIndex)
    {
      startIndex, newIndex := DedupCell(numbering, offsets, m, celli, startIndex, newIndex, m0, offsets0, out);
      celli := celli + 1;
    }
    DedupAll(m[..], offsets[..], m0, offsets0, out, newIndex);
  }

  /** Rows laid out at the prefix lengths of their flattening form a
      well-formed compact list whose rows are the given rows. */
  lemma FlattenedRows<T>(out: seq<seq<T>>, offsets: seq<nat>)
    requires |offsets| == |out| + 1
    requires forall c :: 0 <= c < |offsets| ==> offsets[c] == |Flatten(out[..c])|
    ensures CompactList(offsets, Flatten(out)).WellFormed()
    ensures forall c :: 0 <= c < |out| ==> CompactList(offsets, Flatten(out)).Row(c) == out[c]
  {
    assert out[..|out|] == out;
    forall a, b | 0 <= a <= b < |offsets|
      ensures offsets[a] <= offsets[b]
    {
      FlattenPrefix(out, a, b);
    }
    forall c | 0 <= c < |out|
      ensures CompactList(offsets, Flatten(out)).Row(c) == out[c]
    {
      FlattenSlice(out, c);
      FlattenStep(out, c);
    }
  }

  /** calcCellCells: the compact adjacency graph of the coarse cells.  Row c
      lists, without repeats and without c's own global id, the global ids
      of the cells linked to c through internal faces and coupled patches,
      in the order those faces were met. */
  method CalcCellCells(t: Topology) returns (cellCells: CompactList<int>)
    requires t.Valid()
    ensures cellCells.WellFormed() && cellCells.Size() == t.NCoarse()
    ensures forall c :: 0 <= c < t.NCoarse() ==> cellCells.Row(c) == GraphRow(t, c)
  {
    var n := t.NCoarse();
    var nFacesPerCell := CountFaces(t);
    var offsets := OffsetsOf(nFacesPerCell);
    var m := new int[offsets[n]];
    FillRows(t, offsets, m);
    if n == 0 {
      return CompactList(offsets[..], m[..]);
    }
    ghost var rows := RowsOf(offsets[..], m[..]);
    assert forall c :: 0 <= c < n ==> rows[c] == RawRow(t, c);
    var newIndex := DedupRows(t.numbering, offsets, m);
    ghost var out := DedupedRows(t.numbering, rows);
    FlattenedRows(out, offsets[..]);
    cellCells := CompactList(offsets[..], m[..newIndex]);
  }
}
