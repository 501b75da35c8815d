/** The weighted overload of calcCellCells: next to every adjacency entry it
    stores the area of the face behind it, and deduplication keeps the
    weight of the first face that linked two cells. */
module WeightedCellCells {
  import opened Mesh
  import opened FirstOccurrence
  import opened CellCells

  datatype Option<T> = None | Some(value: T)

  /** Face f links cell c to id x: an internal face, or a coupled boundary
      face numbered after the internal ones. */
  predicate FaceLink(t: Topology, c: nat, x: int, face: nat)
    requires t.Valid()
  {
    if face < t.NInternal() then InternalLink(t, c, x, face)
    else face - t.NInternal() < t.NBoundary() && CoupledLink(t, c, x, face - t.NInternal())
  }

  /** The face behind each entry that internal faces 0 .. f-1 put in row c. */
  function InternalFaces(t: Topology, c: nat, f: nat): (faces: seq<nat>)
    requires t.Valid() && f <= t.NInternal()
    ensures |faces| == |InternalRow(t, c, f)|
    ensures forall k :: 0 <= k < |faces| ==> faces[k] < f
  {
    if f == 0 then []
    else
      InternalFaces(t, c, f - 1)
      + (if t.Own(f - 1) == c then [f - 1] else [])
      + (if t.Nei(f - 1) == c then [f - 1] else [])
  }

  /** The face behind each entry that boundary faces 0 .. b-1 put in row c. */
  function CoupledFaces(t: Topology, c: nat, b: nat): (faces: seq<nat>)
    requires t.Valid() && b <= t.NBoundary()
    ensures |faces| == |CoupledRow(t, c, b)|
    ensures forall k :: 0 <= k < |faces| ==> t.NInternal() <= faces[k] < t.NInternal() + b
  {
    if b == 0 then []
    else
      CoupledFaces(t, c, b - 1)
      + (if t.AddsCoupled(b - 1) && t.BoundaryOwner(b - 1) == c then [t.NInternal() + b - 1] else [])
  }

  function RawFaces(t: Topology, c: nat): (faces: seq<nat>)
    requires t.Valid()
    ensures |faces| == |RawRow(t, c)|
    ensures forall k :: 0 <= k < |faces| ==> faces[k] < t.mesh.NFaces()
  {
    InternalFaces(t, c, t.NInternal()) + CoupledFaces(t, c, t.NBoundary())
  }

  lemma {:induction false} InternalFacesLink(t: Topology, c: nat, f: nat)
    requires t.Valid() && f <= t.NInternal()
    ensures forall k :: 0 <= k < |InternalFaces(t, c, f)| ==> FaceLink(t, c, InternalRow(t, c, f)[k], InternalFaces(t, c, f)[k])
    decreases f
  {
    if f > 0 {
      InternalFacesLink(t, c, f - 1);
    }
  }

  lemma {:induction false} CoupledFacesLink(t: Topology, c: nat, b: nat)
    requires t.Valid() && b <= t.NBoundary()
    ensures forall k :: 0 <= k < |CoupledFaces(t, c, b)| ==> FaceLink(t, c, CoupledRow(t, c, b)[k], CoupledFaces(t, c, b)[k])
    decreases b
  {
    if b > 0 {
      CoupledFacesLink(t, c, b - 1);
    }
  }

  /** The face behind every entry of the filled row of c links c to that
      entry's id. */
  lemma RawFacesLink(t: Topology, c: nat)
    requires t.Valid()
    ensures forall k :: 0 <= k < |RawRow(t, c)| ==> FaceLink(t, c, RawRow(t, c)[k], RawFaces(t, c)[k])
  {
    var i := InternalFaces(t, c, t.NInternal());
    var b := CoupledFaces(t, c, t.NBoundary());
    InternalFacesLink(t, c, t.NInternal());
    CoupledFacesLink(t, c, t.NBoundary());
    assert forall k :: 0 <= k < |b| ==> RawRow(t, c)[|i| + k] == CoupledRow(t, c, t.NBoundary())[k];
    assert forall k :: 0 <= k < |b| ==> RawFaces(t, c)[|i| + k] == b[k];
  }

  /** Weights, as intended, of the entries internal faces 0 .. f-1 put in
      row c: the area of the face behind each. */
  function InternalAreas(t: Topology, area: seq<real>, c: nat, f: nat): (w: seq<real>)
    requires t.Valid() && |area| == t.mesh.NFaces() && f <= t.NInternal()
    ensures |w| == |InternalRow(t, c, f)|
  {
    if f == 0 then []
    else
      InternalAreas(t, area, c, f - 1)
      + (if t.Own(f - 1) == c then [area[f - 1]] else [])
      + (if t.Nei(f - 1) == c then [area[f - 1]] else [])
  }

  /** Weights of the entries boundary faces 0 .. b-1 put in row c. */
  function CoupledAreas(t: Topology, area: seq<real>, c: nat, b: nat): (w: seq<real>)
    requires t.Valid() && |area| == t.mesh.NFaces() && b <= t.NBoundary()
    ensures |w| == |CoupledRow(t, c, b)|
  {
    if b == 0 then []
    else
      CoupledAreas(t, area, c, b - 1)
      + (if t.AddsCoupled(b - 1) && t.BoundaryOwner(b - 1) == c then [area[t.NInternal() + b - 1]] else [])
  }

  /** Weights of row c before deduplication. */
  function RawWeights(t: Topology, area: seq<real>, c: nat): (w: seq<real>)
    requires t.Valid() && |area| == t.mesh.NFaces()
    ensures |w| == |RawRow(t, c)|
  {
    InternalAreas(t, area, c, t.NInternal()) + CoupledAreas(t, area, c, t.NBoundary())
  }

  lemma {:induction false} InternalAreasOfFaces(t: Topology, area: seq<real>, c: nat, f: nat)
    requires t.Valid() && |area| == t.mesh.NFaces() && f <= t.NInternal()
    ensures forall k :: 0 <= k < |InternalAreas(t, area, c, f)| ==>
      InternalAreas(t, area, c, f)[k] == area[InternalFaces(t, c, f)[k]]
    decreases f
  {
    if f > 0 {
      InternalAreasOfFaces(t, area, c, f - 1);
    }
  }

  lemma {:induction false} CoupledAreasOfFaces(t: Topology, area: seq<real>, c: nat, b: nat)
    requires t.Valid() && |area| == t.mesh.NFaces() && b <= t.NBoundary()
    ensures forall k :: 0 <= k < |CoupledAreas(t, area, c, b)| ==>
      CoupledAreas(t, area, c, b)[k] == area[CoupledFaces(t, c, b)[k]]
    decreases b
  {
    if b > 0 {
      CoupledAreasOfFaces(t, area, c, b - 1);
    }
  }

  /** Each weight of the filled row is the area of the face behind its
      entry. */
  lemma RawWeightsAreFaceAreas(t: Topology, area: seq<real>, c: nat)
    requires t.Valid() && |area| == t.mesh.NFaces()
    ensures forall k :: 0 <= k < |RawRow(t, c)| ==> RawWeights(t, area, c)[k] == area[RawFaces(t, c)[k]]
  {
    var ni := |InternalFaces(t, c, t.NInternal())|;
    InternalAreasOfFaces(t, area, c, t.NInternal());
    CoupledAreasOfFaces(t, area, c, t.NBoundary());
    assert forall k :: ni <= k < |RawRow(t, c)| ==>
      RawWeights(t, area, c)[k] == CoupledAreas(t, area, c, t.NBoundary())[k - ni]
      && RawFaces(t, c)[k] == CoupledFaces(t, c, t.NBoundary())[k - ni];
  }

  /** The weights that stay beside the entries Dedup keeps. */
  function DedupWeights(ids: seq<int>, ws: seq<real>, seed: set<int>): (r: seq<real>)
    requires |ws| == |ids|
    ensures |r| == |Dedup(ids, seed)|
  {
    Select(ws, Kept(ids, seed, |ids|))
  }

  /** Weights of row c of the finished graph: those of the surviving
      entries. */
  function GraphWeights(t: Topology, area: seq<real>, c: nat): seq<real>
    requires t.Valid() && |area| == t.mesh.NFaces() && c < t.NCoarse()
  {
    DedupWeights(RawRow(t, c), RawWeights(t, area, c), {t.G(c)})
  }

  /** Every weight of the finished row of c is the area of the first face
      met that links c to the cell of the matching entry. */
  lemma GraphWeightIsFirstLinkArea(t: Topology, area: seq<real>, c: nat)
    requires t.Valid() && |area| == t.mesh.NFaces() && c < t.NCoarse()
    ensures |GraphWeights(t, area, c)| == |GraphRow(t, c)|
    ensures forall k :: 0 <= k < |GraphRow(t, c)| ==>
      exists j :: (0 <= j < |RawRow(t, c)|
        && RawRow(t, c)[j] == GraphRow(t, c)[k] && RawRow(t, c)[j] !in RawRow(t, c)[..j]
        && FaceLink(t, c, GraphRow(t, c)[k], RawFaces(t, c)[j])
        && GraphWeights(t, area, c)[k] == area[RawFaces(t, c)[j]])
  {
    var row := RawRow(t, c);
    var kept := Kept(row, {t.G(c)}, |row|);
    KeptFirstOccurrences(row, {t.G(c)}, |row|);
    RawFacesLink(t, c);
    RawWeightsAreFaceAreas(t, area, c);
    forall k | 0 <= k < |GraphRow(t, c)|
      ensures exists j :: (0 <= j < |row|
        && row[j] == GraphRow(t, c)[k] && row[j] !in row[..j]
        && FaceLink(t, c, GraphRow(t, c)[k], RawFaces(t, c)[j])
        && GraphWeights(t, area, c)[k] == area[RawFaces(t, c)[j]])
    {
      var j := kept[k];
      assert row[j] == GraphRow(t, c)[k];
    }
  }

  // ---------------------------------------------------------------------
  // Weight slots as the source fills them

  /** The weight slots internal faces 0 .. f-1 fill in row c, in step with
      InternalRow, as the internal-face loop is written: the owner's entry
      gets the face area (twice), and the neighbour's entry is never
      written (None). */
  function InternalSlotsAsWritten(t: Topology, area: seq<real>, c: nat, f: nat): (slots: seq<Option<real>>)
    requires t.Valid() && |area| == t.mesh.NFaces() && f <= t.NInternal()
    ensures |slots| == |InternalRow(t, c, f)|
  {
    if f == 0 then []
    else
      InternalSlotsAsWritten(t, area, c, f - 1)
      + (if t.Own(f - 1) == c then [Some(area[f - 1])] else [])
      + (if t.Nei(f - 1) == c then [None] else [])
  }

  /** Value expected in a weight slot: the written weight, or what the slot
      held before the fill when nothing was written. */
  function Expected(before: real, slots: seq<Option<real>>, k: nat): real {
    if k < |slots| && slots[k].Some? then slots[k].value else before
  }

  /** Row c of `w` matches `slots[c]` slot by slot; every other slot of the
      row still holds its value from `w0`. */
  ghost predicate SlotsHold(w: seq<real>, w0: seq<real>, offsets: seq<nat>, filled: seq<nat>, slots: seq<seq<Option<real>>>) {
    && |offsets| == |filled| + 1
    && |slots| == |filled|
    && |w| == |w0|
    && Ascending(offsets)
    && forall c :: 0 <= c < |filled| ==> SlotRowHolds(w, w0, offsets, filled, slots, c)
  }

  /** Row c of `w` matches `slots[c]` slot by slot. */
  ghost predicate SlotRowHolds(w: seq<real>, w0: seq<real>, offsets: seq<nat>, filled: seq<nat>,
                               slots: seq<seq<Option<real>>>, c: nat)
    requires |w| == |w0|
  {
    && c + 1 < |offsets| && c < |filled| && c < |slots|
    && filled[c] == |slots[c]|
    && offsets[c] + filled[c] <= offsets[c + 1] <= |w|
    && forall p :: offsets[c] <= p < offsets[c + 1] ==> w[p] == Expected(w0[p], slots[c], p - offsets[c])
  }

  /** Filling the next slot of row r, with a weight or without writing. */
  lemma SlotAppend(w: seq<real>, w0: seq<real>, offsets: seq<nat>, filled: seq<nat>, slots: seq<seq<Option<real>>>,
                   r: nat, o: Option<real>)
    requires SlotsHold(w, w0, offsets, filled, slots)
    requires r < |filled| && offsets[r] + |slots[r]| < offsets[r + 1]
    ensures offsets[r] + filled[r] < |w|
    ensures SlotsHold(if o.Some? then w[offsets[r] + filled[r] := o.value] else w, w0, offsets,
                      filled[r := filled[r] + 1], slots[r := slots[r] + [o]])
  {
    assert SlotRowHolds(w, w0, offsets, filled, slots, r);
    var p := offsets[r] + filled[r];
    var w' := if o.Some? then w[p := o.value] else w;
    var filled' := filled[r := filled[r] + 1];
    var slots' := slots[r := slots[r] + [o]];
    forall c | 0 <= c < |filled|
      ensures SlotRowHolds(w', w0, offsets, filled', slots', c)
    {
      assert SlotRowHolds(w, w0, offsets, filled, slots, c);
      if c < r {
        assert offsets[c + 1] <= offsets[r];
      } else if c > r {
        assert offsets[r + 1] <= offsets[c];
      } else {
        forall q | offsets[c] <= q < offsets[c + 1]
          ensures w'[q] == Expected(w0[q], slots'[c], q - offsets[c])
        {
          assert w[q] == Expected(w0[q], slots[c], q - offsets[c]);
        }
      }
    }
  }

  function SlotRowsAsWritten(t: Topology, area: seq<real>, f: nat): (rows: seq<seq<Option<real>>>)
    requires t.Valid() && |area| == t.mesh.NFaces() && f <= t.NInternal()
    ensures |rows| == t.NCoarse()
  {
    seq(t.NCoarse(), c requires 0 <= c < t.NCoarse() => InternalSlotsAsWritten(t, area, c, f))
  }

  lemma SlotRowsAsWrittenStep(t: Topology, area: seq<real>, f: nat)
    requires t.Valid() && |area| == t.mesh.NFaces() && f < t.NInternal()
    ensures var rows := SlotRowsAsWritten(t, area, f);
            var own := t.Own(f);
            var nei := t.Nei(f);
            var rows1 := rows[own := rows[own] + [Some(area[f])]];
            SlotRowsAsWritten(t, area, f + 1) == rows1[nei := rows1[nei] + [None]]
  {
    var rows := SlotRowsAsWritten(t, area, f);
    var own := t.Own(f);
    var nei := t.Nei(f);
    var rows1 := rows[own := rows[own] + [Some(area[f])]];
    var rows2 := rows1[nei := rows1[nei] + [None]];
    forall c | 0 <= c < t.NCoarse()
      ensures SlotRowsAsWritten(t, area, f + 1)[c] == rows2[c]
    {
      assert InternalSlotsAsWritten(t, area, c, f + 1) == InternalSlotsAsWritten(t, area, c, f)
        + (if own == c then [Some(area[f])] else []) + (if nei == c then [None] else []);
    }
  }

  /** Claiming a slot in the owner's row with a weight x, then a slot in
      the neighbour's row without writing it. */
  lemma SlotFaceAppend(w: seq<real>, w0: seq<real>, offsets: seq<nat>, filled: seq<nat>,
                       slots: seq<seq<Option<real>>>, slots2: seq<seq<Option<real>>>, own: nat, nei: nat, x: real)
    requires SlotsHold(w, w0, offsets, filled, slots) && own < |filled| && nei < |filled|
    requires var slots1 := slots[own := slots[own] + [Some(x)]]; slots2 == slots1[nei := slots1[nei] + [None]]
    requires offsets[own] + |slots2[own]| <= offsets[own + 1] && offsets[nei] + |slots2[nei]| <= offsets[nei + 1]
    ensures var filled1 := filled[own := filled[own] + 1];
            && offsets[own] + filled[own] < |w|
            && SlotsHold(w[offsets[own] + filled[own] := x], w0, offsets, filled1[nei := filled1[nei] + 1], slots2)
  {
    assert SlotRowHolds(w, w0, offsets, filled, slots, own);
    assert SlotRowHolds(w, w0, offsets, filled, slots, nei);
    SlotAppend(w, w0, offsets, filled, slots, own, Some(x));
    SlotAppend(w[offsets[own] + filled[own] := x], w0, offsets, filled[own := filled[own] + 1],
               slots[own := slots[own] + [Some(x)]], nei, None);
  }

  /** One internal face of the weighted fill as written: the owner's slot
      gets the area and the neighbour's slot is claimed but not written. */
  lemma InternalFaceWeightsAsWritten(t: Topology, area: seq<real>, f: nat, w: seq<real>, w0: seq<real>,
                                     offsets: seq<nat>, filled: seq<nat>)
    requires t.Valid() && |area| == t.mesh.NFaces() && f < t.NInternal()
    requires |filled| == t.NCoarse() && |offsets| == t.NCoarse() + 1
    requires forall c :: 0 <= c < t.NCoarse() ==> offsets[c] + |InternalRow(t, c, t.NInternal())| <= offsets[c + 1]
    requires SlotsHold(w, w0, offsets, filled, SlotRowsAsWritten(t, area, f))
    ensures var own := t.Own(f);
            var nei := t.Nei(f);
            var ownIndex := offsets[own] + filled[own];
            var filled1 := filled[own := filled[own] + 1];
            && ownIndex < |w|
            && SlotsHold(w[ownIndex := area[f]], w0, offsets,
                         filled1[nei := filled1[nei] + 1], SlotRowsAsWritten(t, area, f + 1))
  {
    var own, nei := t.Own(f), t.Nei(f);
    var slots, slots2 := SlotRowsAsWritten(t, area, f), SlotRowsAsWritten(t, area, f + 1);
    SlotRowsAsWrittenStep(t, area, f);
    InternalRoom(t, offsets, f);
    assert |slots2[own]| == |InternalRow(t, own, f + 1)|;
    assert |slots2[nei]| == |InternalRow(t, nei, f + 1)|;
    SlotFaceAppend(w, w0, offsets, filled, slots, slots2, own, nei, area[f]);
  }

  method FillInternalWeightedAsWritten(t: Topology, area: seq<real>, offsets: array<nat>, m: array<int>,
                                        w: array<real>, filled: array<nat>)
    requires t.Valid() && |area| == t.mesh.NFaces() && offsets != filled
    requires filled.Length == t.NCoarse() && offsets.Length == t.NCoarse() + 1
    requires forall c :: 0 <= c < t.NCoarse() ==> offsets[c] + |InternalRow(t, c, t.NInternal())| <= offsets[c + 1]
    requires RowsHold(m[..], offsets[..], filled[..], RowsUpTo(t, 0))
    requires SlotsHold(w[..], w[..], offsets[..], filled[..], SlotRowsAsWritten(t, area, 0))
    modifies m, w, filled
    ensures RowsHold(m[..], offsets[..], filled[..], RowsUpTo(t, t.NInternal()))
    ensures SlotsHold(w[..], old(w[..]), offsets[..], filled[..], SlotRowsAsWritten(t, area, t.NInternal()))
  {
    ghost var fresh0 := w[..];
    var facei := 0;
    while facei < t.NInternal()
      invariant facei <= t.NInternal()
      invariant RowsHold(m[..], offsets[..], filled[..], RowsUpTo(t, facei))
      invariant SlotsHold(w[..], fresh0, offsets[..], filled[..], SlotRowsAsWritten(t, area, facei))
    {
      FillInternalFaceWeightedAsWritten(t, area, facei, offsets, m, w, filled, fresh0);
      facei := facei + 1;
    }
  }

  /** One internal face of the weighted fill as written: the owner's weight
      slot is written twice and the neighbour's is left as it was. */
  method FillInternalFaceWeightedAsWritten(t: Topology, area: seq<real>, facei: nat, offsets: array<nat>,
                                           m: array<int>, w: array<real>, filled: array<nat>, ghost fresh0: seq<real>)
    requires t.Valid() && |area| == t.mesh.NFaces() && offsets != filled && facei < t.NInternal()
    requires filled.Length == t.NCoarse() && offsets.Length == t.NCoarse() + 1
    requires forall c :: 0 <= c < t.NCoarse() ==> offsets[c] + |InternalRow(t, c, t.NInternal())| <= offsets[c + 1]
    requires RowsHold(m[..], offsets[..], filled[..], RowsUpTo(t, facei))
    requires SlotsHold(w[..], fresh0, offsets[..], filled[..], SlotRowsAsWritten(t, area, facei))
    modifies m, w, filled
    ensures RowsHold(m[..], offsets[..], filled[..], RowsUpTo(t, facei + 1))
    ensures SlotsHold(w[..], fresh0, offsets[..], filled[..], SlotRowsAsWritten(t, area, facei + 1))
  {
    var own := t.Own(facei);
    var nei := t.Nei(facei);
    ghost var m0, w0, filled0 := m[..], w[..], filled[..];
    InternalFaceIds(t, facei, m0, offsets[..], filled0);
    InternalFaceWeightsAsWritten(t, area, facei, w0, fresh0, offsets[..], filled0);

    var ownIndex := offsets[own] + filled[own];
    filled[own] := filled[own] + 1;
    var neiIndex := offsets[nei] + filled[nei];
    filled[nei] := filled[nei] + 1;

    m[ownIndex] := t.G(nei);
    w[ownIndex] := area[facei];
    m[neiIndex] := t.G(own);
    w[ownIndex] := area[facei];

    ghost var filled1 := filled0[own := filled0[own] + 1];
    assert filled[..] == filled1[nei := filled1[nei] + 1];
    assert m[..] == m0[ownIndex := t.G(nei)][neiIndex := t.G(own)];
    assert w[..] == w0[ownIndex := area[facei]];
  }

  // ---------------------------------------------------------------------
  // The weighted build with every weight slot written

  function AreaRowsUpTo(t: Topology, area: seq<real>, f: nat): (rows: seq<seq<real>>)
    requires t.Valid() && |area| == t.mesh.NFaces() && f <= t.NInternal()
    ensures |rows| == t.NCoarse()
  {
    seq(t.NCoarse(), c requires 0 <= c < t.NCoarse() => InternalAreas(t, area, c, f))
  }

  function AreaRowsWithCoupled(t: Topology, area: seq<real>, b: nat): (rows: seq<seq<real>>)
    requires t.Valid() && |area| == t.mesh.NFaces() && b <= t.NBoundary()
    ensures |rows| == t.NCoarse()
  {
    seq(t.NCoarse(), c requires 0 <= c < t.NCoarse() =>
      InternalAreas(t, area, c, t.NInternal()) + CoupledAreas(t, area, c, b))
  }

  lemma AreaRowsUpToStep(t: Topology, area: seq<real>, f: nat)
    requires t.Valid() && |area| == t.mesh.NFaces() && f < t.NInternal()
    ensures var rows := AreaRowsUpTo(t, area, f);
            var own := t.Own(f);
            var nei := t.Nei(f);
            var rows1 := rows[own := rows[own] + [area[f]]];
            AreaRowsUpTo(t, area, f + 1) == rows1[nei := rows1[nei] + [area[f]]]
  {
    var rows := AreaRowsUpTo(t, area, f);
    var own := t.Own(f);
    var nei := t.Nei(f);
    var rows1 := rows[own := rows[own] + [area[f]]];
    var rows2 := rows1[nei := rows1[nei] + [area[f]]];
    forall c | 0 <= c < t.NCoarse()
      ensures AreaRowsUpTo(t, area, f + 1)[c] == rows2[c]
    {
      assert InternalAreas(t, area, c, f + 1) == InternalAreas(t, area, c, f)
        + (if own == c then [area[f]] else []) + (if nei == c then [area[f]] else []);
    }
  }

  lemma AreaRowsWithCoupledStep(t: Topology, area: seq<real>, b: nat)
    requires t.Valid() && |area| == t.mesh.NFaces() && b < t.NBoundary()
    ensures var rows := AreaRowsWithCoupled(t, area, b);
            var own := t.BoundaryOwner(b);
            AreaRowsWithCoupled(t, area, b + 1)
              == if t.AddsCoupled(b) then rows[own := rows[own] + [area[t.NInternal() + b]]] else rows
  {
    var rows := AreaRowsWithCoupled(t, area, b);
    var own := t.BoundaryOwner(b);
    var rows' := if t.AddsCoupled(b) then rows[own := rows[own] + [area[t.NInternal() + b]]] else rows;
    forall c | 0 <= c < t.NCoarse()
      ensures AreaRowsWithCoupled(t, area, b + 1)[c] == rows'[c]
    {
      assert CoupledAreas(t, area, c, b + 1) == CoupledAreas(t, area, c, b)
        + (if t.AddsCoupled(b) && own == c then [area[t.NInternal() + b]] else []);
    }
  }

  /** One internal face of the weighted fill with both weight slots
      written. */
  lemma InternalFaceWeights(t: Topology, area: seq<real>, f: nat, w: seq<real>, offsets: seq<nat>, filled: seq<nat>)
    requires t.Valid() && |area| == t.mesh.NFaces() && f < t.NInternal()
    requires |filled| == t.NCoarse() && |offsets| == t.NCoarse() + 1
    requires forall c :: 0 <= c < t.NCoarse() ==> offsets[c] + |InternalRow(t, c, t.NInternal())| <= offsets[c + 1]
    requires RowsHold(w, offsets, filled, AreaRowsUpTo(t, area, f))
    ensures var own := t.Own(f);
            var nei := t.Nei(f);
            var ownIndex := offsets[own] + filled[own];
            var filled1 := filled[own := filled[own] + 1];
            var neiIndex := offsets[nei] + filled1[nei];
            && ownIndex < |w| && neiIndex < |w|
            && RowsHold(w[ownIndex := area[f]][neiIndex := area[f]], offsets,
                        filled1[nei := filled1[nei] + 1], AreaRowsUpTo(t, area, f + 1))
  {
    var own, nei := t.Own(f), t.Nei(f);
    var rows, rows2 := AreaRowsUpTo(t, area, f), AreaRowsUpTo(t, area, f + 1);
    AreaRowsUpToStep(t, area, f);
    InternalRoom(t, offsets, f);
    assert |rows2[own]| == |InternalRow(t, own, f + 1)|;
    assert |rows2[nei]| == |InternalRow(t, nei, f + 1)|;
    FaceAppend(w, offsets, filled, rows, rows2, own, nei, area[f], area[f]);
  }

  /** Internal faces, every slot written: each entry's weight is the area of
      its face. */
  method FillInternalWeighted(t: Topology, area: seq<real>, offsets: array<nat>, m: array<int>,
                              w: array<real>, filled: array<nat>)
    requires t.Valid() && |area| == t.mesh.NFaces() && offsets != filled
    requires filled.Length == t.NCoarse() && offsets.Length == t.NCoarse() + 1
    requires forall c :: 0 <= c < t.NCoarse() ==> offsets[c] + |InternalRow(t, c, t.NInternal())| <= offsets[c + 1]
    requires RowsHold(m[..], offsets[..], filled[..], RowsUpTo(t, 0))
    requires RowsHold(w[..], offsets[..], filled[..], AreaRowsUpTo(t, area, 0))
    modifies m, w, filled
    ensures RowsHold(m[..], offsets[..], filled[..], RowsUpTo(t, t.NInternal()))
    ensures RowsHold(w[..], offsets[..], filled[..], AreaRowsUpTo(t, area, t.NInternal()))
  {
    var facei := 0;
    while facei < t.NInternal()
      invariant facei <= t.NInternal()
      invariant RowsHold(m[..], offsets[..], filled[..], RowsUpTo(t, facei))
      invariant RowsHold(w[..], offsets[..], filled[..], AreaRowsUpTo(t, area, facei))
    {
      FillInternalFaceWeighted(t, area, facei, offsets, m, w, filled);
      facei := facei + 1;
    }
  }

  /** One internal face of the weighted fill: the face area goes into the
      owner's and the neighbour's weight slots next to the ids. */
  method FillInternalFaceWeighted(t: Topology, area: seq<real>, facei: nat, offsets: array<nat>, m: array<int>,
                                  w: array<real>, filled: array<nat>)
    requires t.Valid() && |area| == t.mesh.NFaces() && offsets != filled && facei < t.NInternal()
    requires filled.Length == t.NCoarse() && offsets.Length == t.NCoarse() + 1
    requires forall c :: 0 <= c < t.NCoarse() ==> offsets[c] + |InternalRow(t, c, t.NInternal())| <= offsets[c + 1]
    requires RowsHold(m[..], offsets[..], filled[..], RowsUpTo(t, facei))
    requires RowsHold(w[..], offsets[..], filled[..], AreaRowsUpTo(t, area, facei))
    modifies m, w, filled
    ensures RowsHold(m[..], offsets[..], filled[..], RowsUpTo(t, facei + 1))
    ensures RowsHold(w[..], offsets[..], filled[..], AreaRowsUpTo(t, area, facei + 1))
  {
    var own := t.Own(facei);
    var nei := t.Nei(facei);
    ghost var m0, w0, filled0 := m[..], w[..], filled[..];
    InternalFaceIds(t, facei, m0, offsets[..], filled0);
    InternalFaceWeights(t, area, facei, w0, offsets[..], filled0);

    var ownIndex := offsets[own] + filled[own];
    filled[own] := filled[own] + 1;
    var neiIndex := offsets[nei] + filled[nei];
    filled[nei] := filled[nei] + 1;

    m[ownIndex] := t.G(nei);
    w[ownIndex] := area[facei];
    m[neiIndex] := t.G(own);
    w[neiIndex] := area[facei];

    ghost var filled1 := filled0[own := filled0[own] + 1];
    assert filled[..] == filled1[nei := filled1[nei] + 1];
    assert m[..] == m0[ownIndex := t.G(nei)][neiIndex := t.G(own)];
    assert w[..] == w0[ownIndex := area[facei]][neiIndex := area[facei]];
  }

  /** One coupled boundary face of the weighted fill: when the received id
      is not the owner's own, the face area goes into the owner's next
      weight slot; otherwise nothing changes. */
  lemma CoupledFaceWeights(t: Topology, area: seq<real>, b: nat, w: seq<real>, offsets: seq<nat>, filled: seq<nat>)
    requires t.Valid() && |area| == t.mesh.NFaces() && b < t.NBoundary()
    requires |filled| == t.NCoarse() && |offsets| == t.NCoarse() + 1
    requires forall c :: 0 <= c < t.NCoarse() ==> offsets[c] + |RawRow(t, c)| <= offsets[c + 1]
    requires RowsHold(w, offsets, filled, AreaRowsWithCoupled(t, area, b))
    ensures t.AddsCoupled(b) ==>
      var own := t.BoundaryOwner(b);
      var ownIndex := offsets[own] + filled[own];
      && ownIndex < |w|
      && RowsHold(w[ownIndex := area[t.NInternal() + b]], offsets, filled[own := filled[own] + 1],
                  AreaRowsWithCoupled(t, area, b + 1))
    ensures !t.AddsCoupled(b) ==> RowsHold(w, offsets, filled, AreaRowsWithCoupled(t, area, b + 1))
  {
    if t.AddsCoupled(b) {
      CoupledRoom(t, offsets, b);
      CoupledAreaRows(t, area, b, offsets);
      RowAppendTo(w, offsets, filled, AreaRowsWithCoupled(t, area, b), AreaRowsWithCoupled(t, area, b + 1),
                  t.BoundaryOwner(b), area[t.NInternal() + b]);
    } else {
      AreaRowsWithCoupledStep(t, area, b);
    }
  }

  /** A coupled face that adds an entry appends its area to its owner's
      row, which has room for it. */
  lemma CoupledAreaRows(t: Topology, area: seq<real>, b: nat, offsets: seq<nat>)
    requires t.Valid() && |area| == t.mesh.NFaces() && b < t.NBoundary() && t.AddsCoupled(b)
    requires |offsets| == t.NCoarse() + 1
    requires var own := t.BoundaryOwner(b);
             offsets[own] + |InternalRow(t, own, t.NInternal())| + |CoupledRow(t, own, b + 1)| <= offsets[own + 1]
    ensures var own := t.BoundaryOwner(b);
            var rows, rows2 := AreaRowsWithCoupled(t, area, b), AreaRowsWithCoupled(t, area, b + 1);
            && rows2 == rows[own := rows[own] + [area[t.NInternal() + b]]]
            && offsets[own] + |rows2[own]| <= offsets[own + 1]
  {
    var own := t.BoundaryOwner(b);
    var rows2 := AreaRowsWithCoupled(t, area, b + 1);
    AreaRowsWithCoupledStep(t, area, b);
    assert rows2[own] == InternalAreas(t, area, own, t.NInternal()) + CoupledAreas(t, area, own, b + 1);
  }

  /** Coupled boundary faces: the received id and the face area go into
      the owner's row unless the id is the owner's own. */
  method FillCoupledWeighted(t: Topology, area: seq<real>, offsets: array<nat>, m: array<int>,
                             w: array<real>, filled: array<nat>)
    requires t.Valid() && |area| == t.mesh.NFaces() && offsets != filled
    requires filled.Length == t.NCoarse() && offsets.Length == t.NCoarse() + 1
    requires forall c :: 0 <= c < t.NCoarse() ==> offsets[c] + |RawRow(t, c)| <= offsets[c + 1]
    requires RowsHold(m[..], offsets[..], filled[..], RowsWithCoupled(t, 0))
    requires RowsHold(w[..], offsets[..], filled[..], AreaRowsWithCoupled(t, area, 0))
    modifies m, w, filled
    ensures RowsHold(m[..], offsets[..], filled[..], RowsWithCoupled(t, t.NBoundary()))
    ensures RowsHold(w[..], offsets[..], filled[..], AreaRowsWithCoupled(t, area, t.NBoundary()))
  {
    var bFacei := 0;
    while bFacei < t.NBoundary()
      invariant bFacei <= t.NBoundary()
      invariant RowsHold(m[..], offsets[..], filled[..], RowsWithCoupled(t, bFacei))
      invariant RowsHold(w[..], offsets[..], filled[..], AreaRowsWithCoupled(t, area, bFacei))
    {
      FillCoupledFaceWeighted(t, area, bFacei, offsets, m, w, filled);
      bFacei := bFacei + 1;
    }
  }

  /** One boundary face of the weighted coupled fill: a coupled face whose
      other side is not the owner itself adds the other side's global id
      and the face area to the owner's row. */
  method FillCoupledFaceWeighted(t: Topology, area: seq<real>, bFacei: nat, offsets: array<nat>, m: array<int>,
                                 w: array<real>, filled: array<nat>)
    requires t.Valid() && |area| == t.mesh.NFaces() && offsets != filled && bFacei < t.NBoundary()
    requires filled.Length == t.NCoarse() && offsets.Length == t.NCoarse() + 1
    requires forall c :: 0 <= c < t.NCoarse() ==> offsets[c] + |RawRow(t, c)| <= offsets[c + 1]
    requires RowsHold(m[..], offsets[..], filled[..], RowsWithCoupled(t, bFacei))
    requires RowsHold(w[..], offsets[..], filled[..], AreaRowsWithCoupled(t, area, bFacei))
    modifies m, w, filled
    ensures RowsHold(m[..], offsets[..], filled[..], RowsWithCoupled(t, bFacei + 1))
    ensures RowsHold(w[..], offsets[..], filled[..], AreaRowsWithCoupled(t, area, bFacei + 1))
  {
    CoupledFaceIds(t, bFacei, m[..], offsets[..], filled[..]);
    CoupledFaceWeights(t, area, bFacei, w[..], offsets[..], filled[..]);
    if t.coupled[bFacei] {
      var facei := t.NInternal() + bFacei;
      var own := t.BoundaryOwner(bFacei);
      var globalNei := t.nbrGlobal[bFacei];
      if !t.numbering.IsLocal(globalNei) || t.numbering.ToLocal(globalNei) != own {
        ghost var m0, w0, filled0 := m[..], w[..], filled[..];
        var ownIndex := offsets[own] + filled[own];
        filled[own] := filled[own] + 1;
        m[ownIndex] := globalNei;
        w[ownIndex] := area[facei];
        assert filled[..] == filled0[own := filled0[own] + 1];
        assert m[..] == m0[ownIndex := globalNei];
        assert w[..] == w0[ownIndex := area[facei]];
      }
    }
  }

  lemma InternalAreasComplete(t: Topology, area: seq<real>)
    requires t.Valid() && |area| == t.mesh.NFaces()
    ensures AreaRowsUpTo(t, area, t.NInternal()) == AreaRowsWithCoupled(t, area, 0)
  {
    forall c | 0 <= c < t.NCoarse()
      ensures AreaRowsUpTo(t, area, t.NInternal())[c] == AreaRowsWithCoupled(t, area, 0)[c]
    {
      assert InternalAreas(t, area, c, t.NInternal()) + [] == InternalAreas(t, area, c, t.NInternal());
    }
  }

  lemma FullAreaRowsHold(t: Topology, area: seq<real>, w: seq<real>, offsets: seq<nat>, filled: seq<nat>)
    requires t.Valid() && |area| == t.mesh.NFaces()
    requires RowsHold(w, offsets, filled, AreaRowsWithCoupled(t, area, t.NBoundary()))
    requires forall c :: 0 <= c < t.NCoarse() ==> offsets[c + 1] == offsets[c] + |RawRow(t, c)|
    ensures forall c :: 0 <= c < t.NCoarse() ==>
      offsets[c] + |RawRow(t, c)| <= |w| && w[offsets[c]..offsets[c + 1]] == RawWeights(t, area, c)
  {
    var rows := AreaRowsWithCoupled(t, area, t.NBoundary());
    forall c | 0 <= c < t.NCoarse()
      ensures offsets[c] + |RawRow(t, c)| <= |w| && w[offsets[c]..offsets[c + 1]] == RawWeights(t, area, c)
    {
      assert RowHolds(w, offsets, filled, rows, c);
    }
  }

  /** Pass 3 of the weighted build: every row receives its ids and, beside
      each, the area of the face behind it. */
  method FillRowsWeighted(t: Topology, area: seq<real>, offsets: array<nat>, m: array<int>, w: array<real>)
    requires t.Valid() && |area| == t.mesh.NFaces()
    requires offsets.Length == t.NCoarse() + 1 && offsets[0] == 0 && Ascending(offsets[..])
    requires forall c :: 0 <= c < t.NCoarse() ==> offsets[c + 1] == offsets[c] + |RawRow(t, c)|
    requires offsets[t.NCoarse()] == m.Length == w.Length
    modifies m, w
    ensures forall c :: 0 <= c < t.NCoarse() ==>
      m[offsets[c]..offsets[c + 1]] == RawRow(t, c) && w[offsets[c]..offsets[c + 1]] == RawWeights(t, area, c)
  {
    var n := t.NCoarse();
    var filled := new nat[n](_ => 0);
    EmptyRowsHold(m[..], offsets[..], filled[..], RowsUpTo(t, 0));
    EmptyRowsHold(w[..], offsets[..], filled[..], AreaRowsUpTo(t, area, 0));
    InternalRowsComplete(t);
    InternalAreasComplete(t, area);
    FillInternalWeighted(t, area, offsets, m, w, filled);
    FillCoupledWeighted(t, area, offsets, m, w, filled);
    FullRowsHold(t, m[..], offsets[..], filled[..]);
    FullAreaRowsHold(t, area, w[..], offsets[..], filled[..]);
  }

  // ---------------------------------------------------------------------
  // Pass 4 with weights

  /** The weights that survive in each row. */
  function DedupedWeights(numbering: GlobalIndex, rows: seq<seq<int>>, wrows: seq<seq<real>>): (out: seq<seq<real>>)
    requires |rows| <= numbering.localSize && |wrows| == |rows|
    requires forall c :: 0 <= c < |rows| ==> |wrows[c]| == |rows[c]|
    ensures |out| == |rows|
  {
    seq(|rows|, c requires 0 <= c < |rows| => DedupWeights(rows[c], wrows[c], {numbering.ToGlobal(c)}))
  }

  /** Each row keeps as many weights as ids. */
  lemma DedupedShapes(numbering: GlobalIndex, rows: seq<seq<int>>, wrows: seq<seq<real>>)
    requires |rows| <= numbering.localSize && |wrows| == |rows|
    requires forall c :: 0 <= c < |rows| ==> |wrows[c]| == |rows[c]|
    ensures forall c :: 0 <= c < |rows| ==>
      |DedupedWeights(numbering, rows, wrows)[c]| == |DedupedRows(numbering, rows)[c]|
  {
  }

  /** The lists, the next free slot and the ids met after the weighted
      compaction of one row has read its first j entries, step by step as
      the loop does it. */
  datatype RowCompaction = RowCompaction(m: seq<int>, w: seq<real>, next: nat, met: set<int>)

  /** The ids of a weighted compaction state, as the unweighted overload
      keeps them. */
  function Ids(s: RowCompaction): IdCompaction {
    IdCompaction(s.m, s.next, s.met)
  }

  /** Reading the entry at position p: when its id is new, the id and its
      weight move down to the next free slot. */
  function ReadEntry(s: RowCompaction, p: nat): (s': RowCompaction)
    requires p < |s.m| == |s.w| && s.next <= p
    ensures |s'.m| == |s.m| && |s'.w| == |s.w| && s.next <= s'.next <= s.next + 1
  {
    var x := s.m[p];
    if x in s.met then s
    else RowCompaction(s.m[s.next := x], s.w[s.next := s.w[p]], s.next + 1, s.met + {x})
  }

  function CompactedAfter(m0: seq<int>, w0: seq<real>, start: nat, newIndex: nat, self: int, j: nat): (s: RowCompaction)
    requires newIndex <= start && start + j <= |m0| == |w0|
    ensures |s.m| == |m0| && |s.w| == |w0| && newIndex <= s.next <= newIndex + j
    decreases j
  {
    if j == 0 then RowCompaction(m0, w0, newIndex, {self})
    else ReadEntry(CompactedAfter(m0, w0, start, newIndex, self, j - 1), start + (j - 1))
  }

  /** The weights of compaction state s after j entries of the row: the
      weights of the kept entries follow the untouched prefix, and the
      weights not yet read are untouched. */
  ghost predicate WeightsCompacted(s: RowCompaction, w0: seq<real>, start: nat, newIndex: nat,
                                   row: seq<int>, wrow: seq<real>, seed: set<int>, j: nat) {
    && |s.w| == |w0| == |s.m| && |wrow| == |row| && start + |wrow| <= |w0| && wrow == w0[start..start + |wrow|]
    && j <= |row| && newIndex <= s.next <= |s.w|
    && s.w[..s.next] == w0[..newIndex] + Select(wrow, Kept(row, seed, j))
    && (forall k :: start + j <= k < |w0| ==> s.w[k] == w0[k])
  }

  /** The compaction state s after j entries of the row: its ids are
      compacted as in the unweighted overload, and its weights with them. */
  ghost predicate CompactionAt(s: RowCompaction, m0: seq<int>, w0: seq<real>, start: nat, newIndex: nat,
                               row: seq<int>, wrow: seq<real>, seed: set<int>, j: nat) {
    && IdCompactionAt(Ids(s), m0, start, newIndex, row, seed, j)
    && WeightsCompacted(s, w0, start, newIndex, row, wrow, seed, j)
  }

  /** Reading entry j moves its weight along with its id: the weights
      stay compacted with one more entry read. */
  lemma WeightsStep(s: RowCompaction, w0: seq<real>, start: nat, newIndex: nat,
                    row: seq<int>, wrow: seq<real>, seed: set<int>, j: nat)
    requires WeightsCompacted(s, w0, start, newIndex, row, wrow, seed, j) && j < |row|
    requires s.next <= start + j && s.m[start + j] == row[j]
    requires forall y :: y in s.met <==> y in seed || y in row[..j]
    ensures WeightsCompacted(ReadEntry(s, start + j), w0, start, newIndex, row, wrow, seed, j + 1)
  {
    InsertStep(row, seed, j, s.met);
    if row[j] !in s.met {
      WeightsKeep(s, w0, start, newIndex, row, wrow, seed, j);
    } else {
      assert ReadEntry(s, start + j) == s;
    }
  }

  /** Reading a new id moves its weight to the next free slot. */
  lemma WeightsKeep(s: RowCompaction, w0: seq<real>, start: nat, newIndex: nat,
                    row: seq<int>, wrow: seq<real>, seed: set<int>, j: nat)
    requires WeightsCompacted(s, w0, start, newIndex, row, wrow, seed, j) && j < |row|
    requires s.next <= start + j && s.m[start + j] == row[j] && row[j] !in s.met
    requires Kept(row, seed, j + 1) == Kept(row, seed, j) + [j]
    ensures WeightsCompacted(ReadEntry(s, start + j), w0, start, newIndex, row, wrow, seed, j + 1)
  {
    var kept := Kept(row, seed, j);
    var x := wrow[j];
    assert s.w[start + j] == w0[start + j] == x;
    var s' := ReadEntry(s, start + j);
    assert s'.w == s.w[s.next := x] && s'.next == s.next + 1;
    KeepAt(s.w, w0, newIndex, s.next, Select(wrow, kept), x);
    SelectAppend(wrow, kept, j);
    assert s'.w[..s'.next] == w0[..newIndex] + Select(wrow, Kept(row, seed, j + 1));
  }

  /** Reading entry j and keeping it exactly when inserting its id into
      the ids met so far succeeds extends the compaction by one entry. */
  lemma CompactStep(s: RowCompaction, m0: seq<int>, w0: seq<real>, start: nat, newIndex: nat,
                    row: seq<int>, wrow: seq<real>, seed: set<int>, j: nat)
    requires CompactionAt(s, m0, w0, start, newIndex, row, wrow, seed, j) && j < |row|
    ensures CompactionAt(ReadEntry(s, start + j), m0, w0, start, newIndex, row, wrow, seed, j + 1)
  {
    IdCompactStep(Ids(s), m0, start, newIndex, row, seed, j);
    assert Ids(ReadEntry(s, start + j)) == ReadId(Ids(s), start + j);
    assert s.m[start + j] == Ids(s).m[start + j] == row[j];
    WeightsStep(s, w0, start, newIndex, row, wrow, seed, j);
  }

  /** After j entries the compaction holds the ids and weights the
      first-occurrence filter keeps among them, and has met exactly the
      row's own id and those entries. */
  lemma {:induction false} CompactedAfterMeaning(m0: seq<int>, w0: seq<real>, start: nat, newIndex: nat, self: int,
                                                 row: seq<int>, wrow: seq<real>, j: nat)
    requires newIndex <= start && start + |row| <= |m0| == |w0| && j <= |row|
    requires row == m0[start..start + |row|] && wrow == w0[start..start + |row|]
    ensures CompactionAt(CompactedAfter(m0, w0, start, newIndex, self, j), m0, w0, start, newIndex, row, wrow, {self}, j)
    decreases j
  {
    if j == 0 {
      CompactedAfterStart(m0, w0, start, newIndex, self, row, wrow);
    } else {
      CompactedAfterMeaning(m0, w0, start, newIndex, self, row, wrow, j - 1);
      CompactedAfterStep(m0, w0, start, newIndex, self, row, wrow, j);
    }
  }

  lemma CompactedAfterStart(m0: seq<int>, w0: seq<real>, start: nat, newIndex: nat, self: int,
                            row: seq<int>, wrow: seq<real>)
    requires newIndex <= start && start + |row| <= |m0| == |w0|
    requires row == m0[start..start + |row|] && wrow == w0[start..start + |row|]
    ensures CompactionAt(CompactedAfter(m0, w0, start, newIndex, self, 0), m0, w0, start, newIndex, row, wrow, {self}, 0)
  {
    IdsCompactedAfterStart(m0, start, newIndex, self, row);
  }

  lemma CompactedAfterStep(m0: seq<int>, w0: seq<real>, start: nat, newIndex: nat, self: int,
                           row: seq<int>, wrow: seq<real>, j: nat)
    requires newIndex <= start && start + |row| <= |m0| == |w0| && 0 < j <= |row|
    requires CompactionAt(CompactedAfter(m0, w0, start, newIndex, self, j - 1), m0, w0, start, newIndex, row, wrow, {self}, j - 1)
    ensures CompactionAt(CompactedAfter(m0, w0, start, newIndex, self, j), m0, w0, start, newIndex, row, wrow, {self}, j)
  {
    var i := j - 1;
    var s := CompactedAfter(m0, w0, start, newIndex, self, i);
    assert CompactedAfter(m0, w0, start, newIndex, self, j) == ReadEntry(s, start + i);
    CompactStep(s, m0, w0, start, newIndex, row, wrow, {self}, i);
  }

  /** The whole row read: the compaction holds the deduplicated ids and
      their weights after the untouched prefix, and the rest of the lists
      after the row is as it was. */
  lemma CompactedRow(m0: seq<int>, w0: seq<real>, start: nat, end: nat, newIndex: nat, self: int)
    requires newIndex <= start <= end <= |m0| == |w0|
    ensures var s := CompactedAfter(m0, w0, start, newIndex, self, end - start);
            && s.next == newIndex + |Dedup(m0[start..end], {self})| <= end
            && s.m[..s.next] == m0[..newIndex] + Dedup(m0[start..end], {self})
            && s.w[..s.next] == w0[..newIndex] + DedupWeights(m0[start..end], w0[start..end], {self})
            && forall k :: end <= k < |m0| ==> s.m[k] == m0[k] && s.w[k] == w0[k]
  {
    CompactedAfterMeaning(m0, w0, start, newIndex, self, m0[start..end], w0[start..end], end - start);
  }

  /** m[to] = m[from]; w[to] = w[from]. */
  method MovePair(m: array<int>, w: array<real>, from: nat, to: nat)
    requires from < m.Length && to < m.Length == w.Length
    modifies m, w
    ensures m[..] == old(m[..])[to := old(m[from])]
    ensures w[..] == old(w[..])[to := old(w[from])]
  {
    m[to] := m[from];
    w[to] := w[from];
  }

  /** Reads the entry at position p: when inserting its id into `met`
      succeeds, the id and its weight move down to slot `next`. */
  method ReadEntryInPlace(m: array<int>, w: array<real>, p: nat, next: nat, met: set<int>)
    returns (next': nat, met': set<int>)
    requires next <= p < m.Length == w.Length
    modifies m, w
    ensures RowCompaction(m[..], w[..], next', met') == ReadEntry(RowCompaction(old(m[..]), old(w[..]), next, met), p)
  {
    var x := m[p];
    next', met' := next, met;
    if x !in met {
      MovePair(m, w, p, next);
      next' := next + 1;
      met' := met + {x};
    }
  }

  /** The loop of pass 4 over one row: reads the entries in [start, end)
      one by one, leaving the lists as CompactedAfter describes them. */
  method ReadRowInPlace(m: array<int>, w: array<real>, start: nat, end: nat, newIndex: nat, self: int)
    returns (next: nat)
    requires newIndex <= start <= end <= m.Length == w.Length
    modifies m, w
    ensures var s := CompactedAfter(old(m[..]), old(w[..]), start, newIndex, self, end - start);
            m[..] == s.m && w[..] == s.w && next == s.next
  {
    ghost var m0, w0 := m[..], w[..];
    var nbrCells: set<int> := {self};
    next := newIndex;
    var j := 0;
    while j < end - start
      invariant j <= end - start
      invariant RowCompaction(m[..], w[..], next, nbrCells) == CompactedAfter(m0, w0, start, newIndex, self, j)
    {
      assert CompactedAfter(m0, w0, start, newIndex, self, j + 1)
        == ReadEntry(CompactedAfter(m0, w0, start, newIndex, self, j), start + j);
      next, nbrCells := ReadEntryInPlace(m, w, start + j, next, nbrCells);
      j := j + 1;
    }
  }

  /** Pass 4, one row: ids and weights in [start, end) are copied down to
      `newIndex` onwards together, each pair only if inserting its id into
      the set seeded with the row's own id succeeds. */
  method CompactRowWeighted(m: array<int>, w: array<real>, start: nat, end: nat, newIndex: nat, self: int)
    returns (next: nat)
    requires newIndex <= start <= end <= m.Length == w.Length
    modifies m, w
    ensures next == newIndex + |Dedup(old(m[start..end]), {self})| <= end
    ensures m[..next] == old(m[..newIndex]) + Dedup(old(m[start..end]), {self})
    ensures w[..next] == old(w[..newIndex]) + DedupWeights(old(m[start..end]), old(w[start..end]), {self})
    ensures forall k :: end <= k < m.Length ==> m[k] == old(m[k]) && w[k] == old(w[k])
  {
    ghost var m0, w0 := m[..], w[..];
    next := ReadRowInPlace(m, w, start, end, newIndex, self);
    CompactedRow(m0, w0, start, end, newIndex, self);
  }

  /** Two row lists of the same shape flatten to lists of the same
      length, prefix by prefix. */
  lemma {:induction false} FlattenSameShape(a: seq<seq<int>>, b: seq<seq<real>>, c: nat)
    requires |a| == |b| && c <= |a|
    requires forall d :: 0 <= d < |a| ==> |a[d]| == |b[d]|
    ensures |Flatten(a[..c])| == |Flatten(b[..c])|
  {
    if c > 0 {
      FlattenSameShape(a, b, c - 1);
      FlattenStep(a, c - 1);
      FlattenStep(b, c - 1);
    }
  }

  lemma SliceUnchanged(a: seq<real>, b: seq<real>, lo: nat, hi: nat)
    requires lo <= hi <= |a| == |b|
    requires forall k :: lo <= k < |a| ==> b[k] == a[k]
    ensures b[lo..hi] == a[lo..hi]
  {
  }

  /** The state of weighted pass 4 after its first `celli` rows: the
      compacted rows fill the front of both lists, the shared offsets of
      those rows are moved, and the rest is as it was. */
  ghost predicate DedupedSoFar(m: seq<int>, w: seq<real>, offsets: seq<nat>, m0: seq<int>, w0: seq<real>,
                               offsets0: seq<nat>, out: seq<seq<int>>, wout: seq<seq<real>>, celli: nat, newIndex: nat) {
    && DedupSoFar(m, offsets, m0, offsets0, out, celli, newIndex)
    && |w| == |w0| == |m0| && |wout| == |out|
    && newIndex == |Flatten(wout[..celli])|
    && w[..newIndex] == Flatten(wout[..celli])
    && (forall k :: offsets0[celli] <= k < |w| ==> w[k] == w0[k])
  }

  /** The rows weighted pass 4 is to produce from the list `m0`, its
      weights `w0` and their shared offsets `offsets0`. */
  ghost predicate DedupTargets(numbering: GlobalIndex, m0: seq<int>, w0: seq<real>, offsets0: seq<nat>,
                               out: seq<seq<int>>, wout: seq<seq<real>>) {
    && |offsets0| == numbering.localSize + 1 && Ascending(offsets0) && offsets0[|offsets0| - 1] <= |m0|
    && |w0| == |m0|
    && out == DedupedRows(numbering, RowsOf(offsets0, m0))
    && wout == DedupedWeights(numbering, RowsOf(offsets0, m0), RowsOf(offsets0, w0))
  }

  /** Row `celli` of weighted pass 4: it is still unread, and compacting it
      (as CompactRowWeighted promises) and moving its end offset extends
      the state by one row. */
  lemma DedupCellStep(numbering: GlobalIndex, m: seq<int>, w: seq<real>, offsets: seq<nat>, m': seq<int>, w': seq<real>,
                      m0: seq<int>, w0: seq<real>, offsets0: seq<nat>, out: seq<seq<int>>, wout: seq<seq<real>>,
                      celli: nat, newIndex: nat, newIndex': nat)
    requires DedupTargets(numbering, m0, w0, offsets0, out, wout)
    requires DedupedSoFar(m, w, offsets, m0, w0, offsets0, out, wout, celli, newIndex) && celli < |out|
    requires var row := m[offsets0[celli]..offsets0[celli + 1]];
             var wrow := w[offsets0[celli]..offsets0[celli + 1]];
             var self := {numbering.ToGlobal(celli)};
             && newIndex' == newIndex + |Dedup(row, self)|
             && |m'| == |m| && |w'| == |w|
             && m'[..newIndex'] == m[..newIndex] + Dedup(row, self)
             && w'[..newIndex'] == w[..newIndex] + DedupWeights(row, wrow, self)
             && (forall k :: offsets0[celli + 1] <= k < |m| ==> m'[k] == m[k] && w'[k] == w[k])
    ensures DedupedSoFar(m', w', offsets[celli + 1 := newIndex'], m0, w0, offsets0, out, wout, celli + 1, newIndex')
  {
    DedupStep(numbering, m, offsets, m', m0, offsets0, out, celli, newIndex, newIndex');
    RowUnread(m0, m, offsets0, celli);
    SliceUnchanged(w0, w, offsets0[celli], offsets0[celli + 1]);
    var row := m[offsets0[celli]..offsets0[celli + 1]];
    var wrow := w[offsets0[celli]..offsets0[celli + 1]];
    assert wout[celli] == DedupWeights(row, wrow, {numbering.ToGlobal(celli)});
    FlattenStep(wout, celli);
  }

  /** After the last row the whole of both lists is compacted. */
  lemma DedupedAll(numbering: GlobalIndex, m: seq<int>, w: seq<real>, offsets: seq<nat>, m0: seq<int>, w0: seq<real>,
                   offsets0: seq<nat>, out: seq<seq<int>>, wout: seq<seq<real>>, newIndex: nat)
    requires DedupTargets(numbering, m0, w0, offsets0, out, wout)
    requires DedupedSoFar(m, w, offsets, m0, w0, offsets0, out, wout, |out|, newIndex)
    ensures newIndex <= |m|
    ensures m[..newIndex] == Flatten(out) && w[..newIndex] == Flatten(wout)
    ensures forall c :: 0 <= c < |offsets| ==> offsets[c] == |Flatten(out[..c])| == |Flatten(wout[..c])|
  {
    DedupedShapes(numbering, RowsOf(offsets0, m0), RowsOf(offsets0, w0));
    assert out[..|out|] == out;
    assert wout[..|out|] == wout;
    forall c | 0 <= c < |offsets|
      ensures |Flatten(out[..c])| == |Flatten(wout[..c])|
    {
      FlattenSameShape(out, wout, c);
    }
  }

  /** Pass 4 with weights, one row: its ids and weights are compacted
      together and its end offset is moved to the compacted end. */
  method DedupCellWeighted(numbering: GlobalIndex, offsets: array<nat>, m: array<int>, w: array<real>,
                           celli: nat, startIndex: nat, newIndex: nat,
                           ghost m0: seq<int>, ghost w0: seq<real>, ghost offsets0: seq<nat>,
                           ghost out: seq<seq<int>>, ghost wout: seq<seq<real>>)
    returns (endIndex: nat, next: nat)
    requires DedupTargets(numbering, m0, w0, offsets0, out, wout)
    requires celli < |out| && startIndex == offsets0[celli]
    requires DedupedSoFar(m[..], w[..], offsets[..], m0, w0, offsets0, out, wout, celli, newIndex)
    modifies offsets, m, w
    ensures endIndex == offsets0[celli + 1]
    ensures DedupedSoFar(m[..], w[..], offsets[..], m0, w0, offsets0, out, wout, celli + 1, next)
  {
    endIndex := offsets[celli + 1];
    ghost var mBefore, wBefore, offsetsBefore := m[..], w[..], offsets[..];
    next := CompactRowWeighted(m, w, startIndex, endIndex, newIndex, numbering.ToGlobal(celli));
    DedupCellStep(numbering, mBefore, wBefore, offsetsBefore, m[..], w[..], m0, w0, offsets0, out, wout,
                  celli, newIndex, next);
    offsets[celli + 1] := next;
    assert offsets[..] == offsetsBefore[celli + 1 := next];
  }

  /** Pass 4 with weights: ids and weights are compacted together, and the
      shared offsets move to the compacted row boundaries. */
  method DedupRowsWeighted(numbering: GlobalIndex, offsets: array<nat>, m: array<int>, w: array<real>)
    returns (newIndex: nat)
    requires offsets.Length == numbering.localSize + 1 && m.Length == w.Length
    requires offsets[0] == 0 && Ascending(offsets[..]) && offsets[offsets.Length - 1] <= m.Length
    modifies offsets, m, w
    ensures newIndex <= m.Length
    ensures var rows := RowsOf(old(offsets[..]), old(m[..]));
            var out := DedupedRows(numbering, rows);
            var wout := DedupedWeights(numbering, rows, RowsOf(old(offsets[..]), old(w[..])));
            && m[..newIndex] == Flatten(out)
            && w[..newIndex] == Flatten(wout)
            && forall c :: 0 <= c < offsets.Length ==> offsets[c] == |Flatten(out[..c])| == |Flatten(wout[..c])|
  {
    ghost var offsets0, m0, w0 := offsets[..], m[..], w[..];
    ghost var rows := RowsOf(offsets0, m0);
    ghost var out := DedupedRows(numbering, rows);
    ghost var wout := DedupedWeights(numbering, rows, RowsOf(offsets0, w0));
    assert DedupedSoFar(m[..], w[..], offsets[..], m0, w0, offsets0, out, wout, 0, 0);
    newIndex := DedupCellsWeighted(numbering, offsets, m, w, m0, w0, offsets0, out, wout);
    DedupedAll(numbering, m[..], w[..], offsets[..], m0, w0, offsets0, out, wout, newIndex);
  }

  /** The loop of weighted pass 4 over the rows. */
  method DedupCellsWeighted(numbering: GlobalIndex, offsets: array<nat>, m: array<int>, w: array<real>,
                            ghost m0: seq<int>, ghost w0: seq<real>, ghost offsets0: seq<nat>,
                            ghost out: seq<seq<int>>, ghost wout: seq<seq<real>>)
    returns (newIndex: nat)
    requires DedupTargets(numbering, m0, w0, offsets0, out, wout) && offsets[..] == offsets0
    requires DedupedSoFar(m[..], w[..], offsets[..], m0, w0, offsets0, out, wout, 0, 0)
    modifies offsets, m, w
    ensures DedupedSoFar(m[..], w[..], offsets[..], m0, w0, offsets0, out, wout, |out|, newIndex)
  {
    var n := offsets.Length - 1;
    newIndex := 0;
    var startIndex := offsets[0];
    var celli := 0;
    while celli < n
      invariant celli <= n && startIndex == offsets0[celli]
      invariant DedupedSoFar(m[..], w[..], offsets[..], m0, w0, offsets0, out, wout, celli, newIndex)
    {
      startIndex, newIndex := DedupCellWeighted(numbering, offsets, m, w, celli, startIndex, newIndex,
                                                m0, w0, offsets0, out, wout);
      celli := celli + 1;
    }
  }

  /** Compacting the raw rows, laid out at `offsets0`, gives the graph,
      laid out at the new offsets. */
  lemma DedupedGraphIds(t: Topology, offsets0: seq<nat>, m0: seq<int>, offsets: seq<nat>, ms: seq<int>)
    requires t.Valid()
    requires |offsets0| == t.NCoarse() + 1 && Ascending(offsets0) && offsets0[t.NCoarse()] <= |m0|
    requires forall c :: 0 <= c < t.NCoarse() ==> m0[offsets0[c]..offsets0[c + 1]] == RawRow(t, c)
    requires var out := DedupedRows(t.numbering, RowsOf(offsets0, m0));
             && ms == Flatten(out) && |offsets| == |offsets0|
             && forall c :: 0 <= c < |offsets| ==> offsets[c] == |Flatten(out[..c])|
    ensures CompactList(offsets, ms).WellFormed() && CompactList(offsets, ms).Size() == t.NCoarse()
    ensures forall c :: 0 <= c < t.NCoarse() ==> CompactList(offsets, ms).Row(c) == GraphRow(t, c)
  {
    var rows := RowsOf(offsets0, m0);
    assert forall c :: 0 <= c < t.NCoarse() ==> rows[c] == RawRow(t, c);
    FlattenedRows(DedupedRows(t.numbering, rows), offsets);
  }

  /** Compacting the weights along with the raw rows gives the graph's
      weights, laid out at the same new offsets. */
  lemma DedupedGraphWeights(t: Topology, area: seq<real>, offsets0: seq<nat>, m0: seq<int>, w0: seq<real>,
                            offsets: seq<nat>, ws: seq<real>)
    requires t.Valid() && |area| == t.mesh.NFaces()
    requires |offsets0| == t.NCoarse() + 1 && Ascending(offsets0) && offsets0[t.NCoarse()] <= |m0| == |w0|
    requires forall c :: 0 <= c < t.NCoarse() ==>
      m0[offsets0[c]..offsets0[c + 1]] == RawRow(t, c) && w0[offsets0[c]..offsets0[c + 1]] == RawWeights(t, area, c)
    requires var rows := RowsOf(offsets0, m0);
             var wout := DedupedWeights(t.numbering, rows, RowsOf(offsets0, w0));
             && ws == Flatten(wout) && |offsets| == |offsets0|
             && forall c :: 0 <= c < |offsets| ==> offsets[c] == |Flatten(wout[..c])|
    ensures CompactList(offsets, ws).WellFormed()
    ensures forall c :: 0 <= c < t.NCoarse() ==> CompactList(offsets, ws).Row(c) == GraphWeights(t, area, c)
  {
    var rows := RowsOf(offsets0, m0);
    var wrows := RowsOf(offsets0, w0);
    forall c | 0 <= c < t.NCoarse()
      ensures rows[c] == RawRow(t, c) && wrows[c] == RawWeights(t, area, c)
    {
    }
    var wout := DedupedWeights(t.numbering, rows, wrows);
    FlattenedRows(wout, offsets);
    forall c | 0 <= c < t.NCoarse()
      ensures CompactList(offsets, ws).Row(c) == GraphWeights(t, area, c)
    {
      assert wout[c] == DedupWeights(rows[c], wrows[c], {t.G(c)});
    }
  }

  /** The uncompacted weighted graph: every coarse cell's raw row of
      neighbour ids and face areas, laid out by the face counts. */
  method RawRowsWeighted(t: Topology, area: seq<real>) returns (offsets: array<nat>, m: array<int>, w: array<real>)
    requires t.Valid() && |area| == t.mesh.NFaces()
    ensures offsets.Length == t.NCoarse() + 1 && m.Length == w.Length
    ensures offsets[0] == 0 && Ascending(offsets[..]) && offsets[t.NCoarse()] <= m.Length
    ensures forall c :: 0 <= c < t.NCoarse() ==>
      m[offsets[c]..offsets[c + 1]] == RawRow(t, c) && w[offsets[c]..offsets[c + 1]] == RawWeights(t, area, c)
    ensures fresh(offsets) && fresh(m) && fresh(w)
  {
    var n := t.NCoarse();
    var nFacesPerCell := CountFaces(t);
    offsets := OffsetsOf(nFacesPerCell);
    m := new int[offsets[n]];
    w := new real[offsets[n]];
    FillRowsWeighted(t, area, offsets, m, w);
  }

  /** calcCellCells with weights: the compact adjacency graph of the coarse
      cells and, laid out the same way, the area of the face that first
      linked each pair of cells. */
  method CalcCellCellsWeighted(t: Topology, area: seq<real>)
    returns (cellCells: CompactList<int>, cellCellWeights: CompactList<real>)
    requires t.Valid() && |area| == t.mesh.NFaces()
    ensures cellCells.WellFormed() && cellCells.Size() == t.NCoarse()
    ensures cellCellWeights.WellFormed() && cellCellWeights.offsets == cellCells.offsets
    ensures forall c :: 0 <= c < t.NCoarse() ==>
      cellCells.Row(c) == GraphRow(t, c) && cellCellWeights.Row(c) == GraphWeights(t, area, c)
  {
    var offsets, m, w := RawRowsWeighted(t, area);
    ghost var offsets0, m0, w0 := offsets[..], m[..], w[..];
    var newIndex := DedupRowsWeighted(t.numbering, offsets, m, w);
    var offs, ms, ws := offsets[..], m[..newIndex], w[..newIndex];
    DedupedGraphIds(t, offsets0, m0, offs, ms);
    DedupedGraphWeights(t, area, offsets0, m0, w0, offs, ws);
    cellCells := CompactList(offs, ms);
    cellCellWeights := CompactList(offs, ws);
  }

  // ---------------------------------------------------------------------
  // The discrepancy

  lemma {:induction false} SlotsGrow(t: Topology, area: seq<real>, c: nat, f: nat, g: nat)
    requires t.Valid() && |area| == t.mesh.NFaces() && f <= g <= t.NInternal()
    ensures |InternalSlotsAsWritten(t, area, c, f)| <= |InternalSlotsAsWritten(t, area, c, g)|
    ensures InternalSlotsAsWritten(t, area, c, f)
      == InternalSlotsAsWritten(t, area, c, g)[..|InternalSlotsAsWritten(t, area, c, f)|]
    decreases g
  {
    if f < g {
      SlotsGrow(t, area, c, f, g - 1);
      var s, s' := InternalSlotsAsWritten(t, area, c, g - 1), InternalSlotsAsWritten(t, area, c, g);
      assert s == s'[..|s|];
    }
  }

  lemma {:induction false} AreasGrow(t: Topology, area: seq<real>, c: nat, f: nat, g: nat)
    requires t.Valid() && |area| == t.mesh.NFaces() && f <= g <= t.NInternal()
    ensures |InternalAreas(t, area, c, f)| <= |InternalAreas(t, area, c, g)|
    ensures InternalAreas(t, area, c, f) == InternalAreas(t, area, c, g)[..|InternalAreas(t, area, c, f)|]
    decreases g
  {
    if f < g {
      AreasGrow(t, area, c, f, g - 1);
      var a, a' := InternalAreas(t, area, c, g - 1), InternalAreas(t, area, c, g);
      assert a == a'[..|a|];
    }
  }

  /** Position, in the neighbour's row, of the entry internal face f adds
      there: after the entries of the earlier faces, and after the owner's
      entry when owner and neighbour are the same coarse cell. */
  function NeighbourSlot(t: Topology, f: nat): (k: nat)
    requires t.Valid() && f < t.NInternal()
    ensures k < |InternalRow(t, t.Nei(f), t.NInternal())|
    ensures InternalRow(t, t.Nei(f), t.NInternal())[k] == t.G(t.Own(f))
  {
    InternalRowGrows(t, t.Nei(f), f + 1, t.NInternal());
    InternalRowPrefix(t, t.Nei(f), f + 1, t.NInternal());
    |InternalRow(t, t.Nei(f), f)| + (if t.Own(f) == t.Nei(f) then 1 else 0)
  }

  /** For every internal face, the entry it adds to the neighbour's row is
      left without a weight by the loop as written (its slot keeps whatever
      the fresh list held), while the intended weight there is the face
      area. */
  lemma NeighbourWeightUnwritten(t: Topology, area: seq<real>, f: nat)
    requires t.Valid() && |area| == t.mesh.NFaces() && f < t.NInternal()
    ensures SlotRowsAsWritten(t, area, t.NInternal())[t.Nei(f)][NeighbourSlot(t, f)] == None
    ensures AreaRowsUpTo(t, area, t.NInternal())[t.Nei(f)][NeighbourSlot(t, f)] == area[f]
  {
    var nei, k := t.Nei(f), NeighbourSlot(t, f);
    SlotsGrow(t, area, nei, f + 1, t.NInternal());
    AreasGrow(t, area, nei, f + 1, t.NInternal());
    var s := InternalSlotsAsWritten(t, area, nei, f + 1);
    var a := InternalAreas(t, area, nei, f + 1);
    assert k == |s| - 1 && s[k] == None;
    assert k == |a| - 1 && a[k] == area[f];
  }
}
