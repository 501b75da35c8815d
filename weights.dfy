/** The number of weights per point a decomposition is given, and the
    conversion of the weights into the integer weights a partitioning
    library takes, which drops every weight component whose total is zero.

    Weights are stored point by point: with n weights per point, entry i is
    component i % n of point i / n. */
module Weights {
  import opened Outcomes

  /** Weights per point on this process: the number of weights divided by
      the number of points, or 0 when there are no points. */
  function LocalNWeights(nPoints: nat, nPointWeights: nat): nat {
    if nPoints > 0 then nPointWeights / nPoints else 0
  }

  function Max(a: int, b: int): int {
    if a < b then b else a
  }

  /** The weights per point over all processes, the largest local count;
      `othersMax` is the largest count on the other processes (0 when this
      is the only one). A process with weights whose count is not the
      largest is fatal. */
  function NWeights(nPoints: nat, nPointWeights: nat, othersMax: int): (r: Result<int>)
    ensures r.Ok? <==> LocalNWeights(nPoints, nPointWeights) == 0 || othersMax <= LocalNWeights(nPoints, nPointWeights)
    ensures r.Ok? ==> r.value >= LocalNWeights(nPoints, nPointWeights) && r.value >= othersMax
    ensures r.Ok? ==> r.value == LocalNWeights(nPoints, nPointWeights) || r.value == othersMax
  {
    var local := LocalNWeights(nPoints, nPointWeights);
    var global := Max(local, othersMax);
    if local != 0 && local != global then
      Fatal("Number of weights on this processor does not equal the maximum number of weights")
    else
      Ok(global)
  }

  /** NWeights for a method that takes a single weight per point at most:
      more than one is fatal. */
  function CheckWeights(nPoints: nat, nPointWeights: nat, othersMax: int): (r: Result<int>)
    ensures r.Ok? <==> NWeights(nPoints, nPointWeights, othersMax).Ok? && NWeights(nPoints, nPointWeights, othersMax).value <= 1
    ensures r.Ok? ==> r.value <= 1 && r.value >= LocalNWeights(nPoints, nPointWeights)
  {
    var n := NWeights(nPoints, nPointWeights, othersMax);
    if n.Fatal? then n
    else if n.value > 1 then Fatal("decompositionMethod does not support multiple constraints")
    else n
  }

  /** On a single process the count is the local count, and it is never
      fatal. */
  lemma NWeightsSingleProcess(nPoints: nat, nPointWeights: nat)
    ensures NWeights(nPoints, nPointWeights, 0) == Ok(LocalNWeights(nPoints, nPointWeights))
  {
  }

  /** On a single process, CheckWeights accepts exactly the inputs with
      fewer than two weights per point. */
  lemma CheckWeightsSingleProcess(nPoints: nat, nPointWeights: nat)
    ensures CheckWeights(nPoints, nPointWeights, 0).Ok? <==> nPoints == 0 || nPointWeights < 2 * nPoints
  {
    if nPoints > 0 {
      var q := nPointWeights / nPoints;
      assert nPointWeights == q * nPoints + nPointWeights % nPoints;
      if q >= 2 {
        MulLe(2, q, nPoints);
      } else {
        MulLe(q + 1, 2, nPoints);
        MulStep(q, nPoints);
      }
    }
  }

  // ---------------------------------------------------------------------
  // Multiplication and division facts for the component index i % n

  lemma MulStep(a: nat, n: nat)
    ensures (a + 1) * n == a * n + n
  {
  }

  lemma {:induction false} MulLe(a: nat, b: nat, n: nat)
    requires a <= b
    ensures a * n <= b * n
  {
    if a < b {
      MulLe(a, b - 1, n);
      MulStep(b - 1, n);
    }
  }

  lemma DivModUnique(x: nat, n: nat, q: nat, r: nat)
    requires n > 0 && r < n && x == q * n + r
    ensures x / n == q && x % n == r
  {
    var q' := x / n;
    var r' := x % n;
    assert x == q' * n + r';
    if q' < q {
      MulLe(q' + 1, q, n);
      MulStep(q', n);
    }
    if q < q' {
      MulLe(q + 1, q', n);
      MulStep(q, n);
    }
    assert q == q';
  }

  /** How the point index and the component index move from entry x to
      entry x + 1. */
  lemma NextEntry(x: nat, n: nat)
    requires n > 0
    ensures x % n < n - 1 ==> (x + 1) / n == x / n && (x + 1) % n == x % n + 1
    ensures x % n == n - 1 ==> (x + 1) / n == x / n + 1 && (x + 1) % n == 0
  {
    var q := x / n;
    var r := x % n;
    assert x == q * n + r;
    if r < n - 1 {
      DivModUnique(x + 1, n, q, r + 1);
    } else {
      assert x + 1 == (q + 1) * n;
      DivModUnique(x + 1, n, q + 1, 0);
    }
  }

  // ---------------------------------------------------------------------
  // Specification of the integer weights

  /** Number of whole points among len entries. */
  function Points(len: nat, n: nat): nat
    requires n > 0
  {
    len / n
  }

  /** Sum of the entries of component k. */
  function ComponentSum(w: seq<int>, n: nat, k: nat): int
    requires n > 0
  {
    if |w| == 0 then 0
    else ComponentSum(w[..|w| - 1], n, k) + (if (|w| - 1) % n == k then w[|w| - 1] else 0)
  }

  /** Number of components marked in keep. */
  function CountTrue(keep: seq<bool>): (c: nat)
    ensures c <= |keep|
  {
    if |keep| == 0 then 0
    else CountTrue(keep[..|keep| - 1]) + (if keep[|keep| - 1] then 1 else 0)
  }

  /** The entries whose component is marked in keep, in order. */
  function Pruned(w: seq<int>, keep: seq<bool>, n: nat): (p: seq<int>)
    requires n > 0 && |keep| == n
    ensures |p| <= |w|
  {
    if |w| == 0 then []
    else Pruned(w[..|w| - 1], keep, n) + (if keep[(|w| - 1) % n] then [w[|w| - 1]] else [])
  }

  /** Positions of the entries Pruned keeps, in order. */
  function KeptIndices(len: nat, keep: seq<bool>, n: nat): (idx: seq<nat>)
    requires n > 0 && |keep| == n
  {
    if len == 0 then []
    else KeptIndices(len - 1, keep, n) + (if keep[(len - 1) % n] then [len - 1] else [])
  }

  /** Sum of component k over every process: the local sum plus the
      other processes' sum `others[k]` (zero on a single process). */
  function ReducedSum(w: seq<int>, n: nat, others: seq<int>, k: nat): int
    requires n > 0 && k < |others|
  {
    ComponentSum(w, n, k) + others[k]
  }

  /** Flags of the components whose sum over every process is nonzero. */
  function NonZeroFlags(w: seq<int>, n: nat, others: seq<int>): (keep: seq<bool>)
    requires n > 0 && |others| == n
  {
    seq(n, k requires 0 <= k < n => ReducedSum(w, n, others, k) != 0)
  }

  /** What the other processes add to each component's sum: their sums
      when the weights are distributed, and nothing otherwise. */
  function OthersSums(distributed: bool, othersSums: seq<int>, n: nat): (others: seq<int>)
    requires distributed ==> |othersSums| == n
    ensures |others| == n
  {
    if distributed then othersSums else seq(n, _ => 0)
  }

  /** The integer weights and the number of weights per point that remain:
      when some component sums to zero over every process, the entries of
      the nonzero components, cut to whole points of the remaining
      components. */
  function Scaled(w: seq<int>, n: nat, others: seq<int>): (r: (seq<int>, nat))
    requires n > 0 && |others| == n
  {
    var keep := NonZeroFlags(w, n, others);
    var k := CountTrue(keep);
    if k != n then
      PrunedCovers(w, keep, n);
      (Pruned(w, keep, n)[..Times(k, Points(|w|, n))], k)
    else
      (w, n)
  }

  // ---------------------------------------------------------------------
  // Properties of the specification

  /** The kept positions are exactly the positions below len whose
      component is marked. */
  lemma {:induction false} KeptIndicesMembers(len: nat, keep: seq<bool>, n: nat)
    requires n > 0 && |keep| == n
    ensures forall i :: i in KeptIndices(len, keep, n) <==> 0 <= i < len && keep[i % n]
  {
    if len > 0 {
      var x := len - 1;
      KeptIndicesMembers(x, keep, n);
      var idx' := KeptIndices(x, keep, n);
      var last := if keep[x % n] then [x] else [];
      assert KeptIndices(len, keep, n) == idx' + last;
      forall i
        ensures i in idx' + last <==> 0 <= i < len && keep[i % n]
      {
        assert i in idx' + last <==> i in idx' || i in last;
      }
    }
  }

  /** The kept positions are below len. */
  lemma {:induction false} KeptIndicesBelow(len: nat, keep: seq<bool>, n: nat)
    requires n > 0 && |keep| == n
    ensures forall j :: 0 <= j < |KeptIndices(len, keep, n)| ==> KeptIndices(len, keep, n)[j] < len
  {
    if len > 0 {
      var x := len - 1;
      KeptIndicesBelow(x, keep, n);
      var idx' := KeptIndices(x, keep, n);
      var idx := KeptIndices(len, keep, n);
      assert idx == idx' + (if keep[x % n] then [x] else []);
      forall j | 0 <= j < |idx|
        ensures idx[j] < len
      {
        if j < |idx'| {
          assert idx[j] == idx'[j];
          assert idx'[j] < x;
        } else {
          assert idx[j] == x;
        }
      }
    }
  }

  /** The kept positions are in increasing order. */
  lemma {:induction false} KeptIndicesAscending(len: nat, keep: seq<bool>, n: nat)
    requires n > 0 && |keep| == n
    ensures forall a, b :: 0 <= a < b < |KeptIndices(len, keep, n)| ==>
              KeptIndices(len, keep, n)[a] < KeptIndices(len, keep, n)[b]
  {
    if len > 0 {
      var x := len - 1;
      KeptIndicesAscending(x, keep, n);
      KeptIndicesBelow(x, keep, n);
      var idx' := KeptIndices(x, keep, n);
      var idx := KeptIndices(len, keep, n);
      assert idx == idx' + (if keep[x % n] then [x] else []);
      forall a, b | 0 <= a < b < |idx|
        ensures idx[a] < idx[b]
      {
        if b < |idx'| {
          assert idx[a] == idx'[a] && idx[b] == idx'[b];
        } else {
          assert idx[a] == idx'[a] < x && idx[b] == x;
        }
      }
    }
  }

  /** Pruned holds the entries at the kept positions, in order. */
  lemma {:induction false} PrunedSelects(w: seq<int>, keep: seq<bool>, n: nat)
    requires n > 0 && |keep| == n
    ensures var p := Pruned(w, keep, n); var idx := KeptIndices(|w|, keep, n);
            && |p| == |idx|
            && (forall j :: 0 <= j < |idx| ==> idx[j] < |w| && p[j] == w[idx[j]])
  {
    if |w| > 0 {
      var w' := w[..|w| - 1];
      PrunedSelects(w', keep, n);
    }
  }

  /** c added q times: a product kept apart from the solver's nonlinear
      arithmetic. */
  function Times(c: nat, q: nat): nat {
    if q == 0 then 0 else Times(c, q - 1) + c
  }

  lemma {:induction false} TimesIsProduct(c: nat, q: nat)
    ensures Times(c, q) == c * q
  {
    if q > 0 {
      TimesIsProduct(c, q - 1);
      MulStep(q - 1, c);
    }
  }

  /** One more entry adds one kept entry exactly when its component is
      marked. */
  lemma PrunedStep(w: seq<int>, keep: seq<bool>, n: nat, x: nat)
    requires n > 0 && |keep| == n && x < |w|
    ensures |Pruned(w[..x + 1], keep, n)| == |Pruned(w[..x], keep, n)| + (if keep[x % n] then 1 else 0)
  {
    assert w[..x + 1][..x] == w[..x];
  }

  lemma CountTrueStep(keep: seq<bool>, r: nat)
    requires r < |keep|
    ensures CountTrue(keep[..r + 1]) == CountTrue(keep[..r]) + (if keep[r] then 1 else 0)
  {
    assert keep[..r + 1][..r] == keep[..r];
  }

  /** Number of kept entries among the first len: the whole points below
      len contribute the kept components each, the partial point the kept
      ones among its first len % n. */
  lemma {:induction false} PrunedBlocks(w: seq<int>, keep: seq<bool>, n: nat, len: nat)
    requires n > 0 && |keep| == n && len <= |w|
    ensures |Pruned(w[..len], keep, n)| == Times(CountTrue(keep), len / n) + CountTrue(keep[..len % n])
  {
    if len == 0 {
      assert keep[..0] == [];
    } else {
      var x := len - 1;
      PrunedBlocks(w, keep, n, x);
      PrunedStep(w, keep, n, x);
      var r := x % n;
      CountTrueStep(keep, r);
      NextEntry(x, n);
      if r == n - 1 {
        assert keep[..r + 1] == keep;
        assert keep[..0] == [];
      }
    }
  }

  /** Pruned holds the entries of the whole points of the kept components
      and the kept entries of the last, partial point. */
  lemma PrunedLength(w: seq<int>, keep: seq<bool>, n: nat)
    requires n > 0 && |keep| == n
    ensures |Pruned(w, keep, n)| == Times(CountTrue(keep), |w| / n) + CountTrue(keep[..|w| % n])
  {
    PrunedBlocks(w, keep, n, |w|);
    assert w[..|w|] == w;
  }

  /** Pruned holds at least the entries of the whole points of the kept
      components. */
  lemma PrunedCovers(w: seq<int>, keep: seq<bool>, n: nat)
    requires n > 0 && |keep| == n
    ensures Times(CountTrue(keep), Points(|w|, n)) <= |Pruned(w, keep, n)|
  {
    PrunedLength(w, keep, n);
  }

  /** With every component kept, Pruned is the identity. */
  lemma {:induction false} PrunedAllKept(w: seq<int>, keep: seq<bool>, n: nat)
    requires n > 0 && |keep| == n && forall k :: 0 <= k < n ==> keep[k]
    ensures Pruned(w, keep, n) == w
  {
    if |w| > 0 {
      PrunedAllKept(w[..|w| - 1], keep, n);
    }
  }

  /** Every component is counted exactly when every component is marked. */
  lemma {:induction false} CountTrueAll(keep: seq<bool>)
    ensures CountTrue(keep) == |keep| <==> forall k :: 0 <= k < |keep| ==> keep[k]
  {
    if |keep| > 0 {
      var init := keep[..|keep| - 1];
      CountTrueAll(init);
      assert forall k :: 0 <= k < |init| ==> init[k] == keep[k];
    }
  }

  /** Nothing changes when no component sums to zero; otherwise the number
      of weights per point drops to the number of nonzero components. */
  lemma ScaledUnchanged(w: seq<int>, n: nat, others: seq<int>)
    requires n > 0 && |others| == n
    ensures Scaled(w, n, others) == (w, n) <==> forall k :: 0 <= k < n ==> ReducedSum(w, n, others, k) != 0
    ensures Scaled(w, n, others).1 == CountTrue(NonZeroFlags(w, n, others)) <= n
  {
    var keep := NonZeroFlags(w, n, others);
    assert |keep| == n;
    CountTrueAll(keep);
    if forall k :: 0 <= k < n ==> ReducedSum(w, n, others, k) != 0 {
      forall k | 0 <= k < n
        ensures keep[k]
      {
        assert ReducedSum(w, n, others, k) != 0;
      }
    }
    if CountTrue(keep) != n {
      var k :| 0 <= k < n && !keep[k];
      assert ReducedSum(w, n, others, k) == 0;
      assert !(forall j :: 0 <= j < n ==> ReducedSum(w, n, others, j) != 0);
      assert Scaled(w, n, others).1 != n;
      assert Scaled(w, n, others) != (w, n);
    } else {
      forall k | 0 <= k < n
        ensures ReducedSum(w, n, others, k) != 0
      {
        assert keep[k];
      }
    }
  }

  /** When the entries form whole points, the result keeps exactly the
      entries of the nonzero components, in order, and has the length of
      the remaining components' whole points. */
  lemma ScaledWholePoints(w: seq<int>, n: nat, others: seq<int>)
    requires n > 0 && |w| % n == 0 && |others| == n
    ensures var (r, k) := Scaled(w, n, others);
            && r == Pruned(w, NonZeroFlags(w, n, others), n)
            && |r| == k * (|w| / n)
  {
    var keep := NonZeroFlags(w, n, others);
    PrunedLength(w, keep, n);
    TimesIsProduct(CountTrue(keep), |w| / n);
    assert keep[..0] == [];
    if CountTrue(keep) == n {
      CountTrueAll(keep);
      PrunedAllKept(w, keep, n);
    }
  }

  // ---------------------------------------------------------------------
  // The computation

  /** Sum of each component, accumulated entry by entry. */
  method SumComponents(a: array<int>, n: nat) returns (sums: array<int>)
    requires n > 0
    ensures sums.Length == n
    ensures forall k :: 0 <= k < n ==> sums[k] == ComponentSum(a[..], n, k)
  {
    sums := new int[n](k => 0);
    for i := 0 to a.Length
      invariant sums.Length == n
      invariant forall k :: 0 <= k < n ==> sums[k] == ComponentSum(a[..i], n, k)
    {
      assert a[..i + 1][..i] == a[..i];
      sums[i % n] := sums[i % n] + a[i];
    }
    assert a[..a.Length] == a[..];
  }

  /** Sum of each component over every process: the local sums, to which
      the other processes' sums are added when the weights are
      distributed. */
  method ReducedSums(a: array<int>, n: nat, distributed: bool, othersSums: seq<int>) returns (sums: array<int>)
    requires n > 0 && (distributed ==> |othersSums| == n)
    ensures sums.Length == n
    ensures forall k :: 0 <= k < n ==> sums[k] == ReducedSum(a[..], n, OthersSums(distributed, othersSums, n), k)
  {
    var local := SumComponents(a, n);
    ghost var others := OthersSums(distributed, othersSums, n);
    sums := new int[n];
    for k := 0 to n
      invariant forall c :: 0 <= c < k ==> sums[c] == ComponentSum(a[..], n, c) + others[c]
      invariant forall c :: 0 <= c < n ==> local[c] == ComponentSum(a[..], n, c)
    {
      assert others[k] == if distributed then othersSums[k] else 0;
      sums[k] := local[k] + (if distributed then othersSums[k] else 0);
    }
  }

  /** Marks the components with a nonzero sum and counts them. */
  method MarkNonZero(sums: array<int>) returns (nonZero: array<bool>, nNonZero: nat)
    ensures nonZero.Length == sums.Length
    ensures forall k :: 0 <= k < sums.Length ==> (nonZero[k] <==> sums[k] != 0)
    ensures nNonZero == CountTrue(nonZero[..])
  {
    nonZero := new bool[sums.Length](k => false);
    nNonZero := 0;
    for i := 0 to sums.Length
      invariant forall k :: 0 <= k < i ==> (nonZero[k] <==> sums[k] != 0)
      invariant forall k :: i <= k < sums.Length ==> !nonZero[k]
      invariant nNonZero == CountTrue(nonZero[..i])
    {
      if sums[i] != 0 {
        nonZero[i] := true;
        nNonZero := nNonZero + 1;
      }
      assert nonZero[..i + 1][..i] == nonZero[..i];
    }
    assert nonZero[..sums.Length] == nonZero[..];
  }

  /** Moves the entries of the marked components to the front, in order;
      returns how many were kept. */
  method CompactInPlace(a: array<int>, nonZero: array<bool>, n: nat) returns (j: nat)
    requires n > 0 && nonZero.Length == n
    modifies a
    ensures j <= a.Length && a[..j] == Pruned(old(a[..]), nonZero[..], n)
  {
    ghost var w := a[..];
    j := 0;
    for i := 0 to a.Length
      invariant j <= i
      invariant a[..j] == Pruned(w[..i], nonZero[..], n)
      invariant a[i..] == w[i..]
    {
      assert w[..i + 1][..i] == w[..i];
      assert a[i] == w[i];
      if nonZero[i % n] {
        a[j] := a[i];
        j := j + 1;
      }
      assert a[i + 1..] == w[i + 1..];
    }
    assert w[..a.Length] == w;
  }

  /** Length of the kept entries' whole points: the kept components per
      point times the number of whole points. */
  method KeptLength(nNonZero: nat, size: nat, n: nat) returns (len: nat)
    requires n > 0
    ensures len == Times(nNonZero, Points(size, n))
  {
    len := nNonZero * (size / n);
    TimesIsProduct(nNonZero, size / n);
  }

  /** The integer weights of `converted` (the weights already scaled to
      integers) and the number of weights per point that remain. With no
      weights per point the result is empty and the count unchanged. When
      the weights are distributed, `othersSums` is what the reduction over
      the other processes adds to each component's sum. */
  method ScaleWeights(converted: seq<int>, nWeights: int, distributed: bool, othersSums: seq<int>)
    returns (intWeights: seq<int>, nWeightsOut: int)
    requires nWeights > 0 && distributed ==> |othersSums| == nWeights
    ensures nWeights <= 0 ==> intWeights == [] && nWeightsOut == nWeights
    ensures nWeights > 0 ==>
      (intWeights, nWeightsOut) == Scaled(converted, nWeights, OthersSums(distributed, othersSums, nWeights))
  {
    if nWeights <= 0 {
      return [], nWeights;
    }
    var a := new int[|converted|](i requires 0 <= i < |converted| => converted[i]);
    assert a[..] == converted;
    ghost var others := OthersSums(distributed, othersSums, nWeights);
    var sums := ReducedSums(a, nWeights, distributed, othersSums);
    var nonZero, nNonZero := MarkNonZero(sums);
    assert nonZero[..] == NonZeroFlags(converted, nWeights, others);
    if nNonZero != nWeights {
      var j := CompactInPlace(a, nonZero, nWeights);
      PrunedLength(converted, nonZero[..], nWeights);
      var newLen := KeptLength(nNonZero, a.Length, nWeights);
      assert a[..newLen] == a[..j][..newLen];
      intWeights := a[..newLen];
      nWeightsOut := nNonZero;
    } else {
      intWeights := a[..];
      nWeightsOut := nWeights;
    }
  }
}
