/** Removal of repeated neighbour ids from one adjacency row, as done with a
    hash set seeded with the row's own id: the first occurrence of every id
    that is not already in the set survives, in its original order. */
module FirstOccurrence {

  /** The entries of `s` at the positions `idx`, in that order. */
  function Select<T>(s: seq<T>, idx: seq<nat>): (r: seq<T>)
    requires forall k :: 0 <= k < |idx| ==> idx[k] < |s|
  {
    seq(|idx|, k requires 0 <= k < |idx| => s[idx[k]])
  }

  /** Positions below n whose id is neither in `seed` nor earlier in `s`:
      exactly the positions at which inserting into a set that starts as
      `seed` succeeds, scanning left to right. */
  function Kept(s: seq<int>, seed: set<int>, n: nat): (r: seq<nat>)
    requires n <= |s|
    ensures |r| <= n
    ensures forall k :: 0 <= k < |r| ==> r[k] < n
    decreases n
  {
    if n == 0 then []
    else
      var p := Kept(s, seed, n - 1);
      if s[n - 1] !in seed && s[n - 1] !in s[..n - 1] then p + [n - 1] else p
  }

  /** The kept positions increase, and each holds the first occurrence of
      an id outside the seed. */
  lemma {:induction false} KeptFirstOccurrences(s: seq<int>, seed: set<int>, n: nat)
    requires n <= |s|
    ensures forall j, k :: 0 <= j < k < |Kept(s, seed, n)| ==> Kept(s, seed, n)[j] < Kept(s, seed, n)[k]
    ensures forall k :: 0 <= k < |Kept(s, seed, n)| ==>
      s[Kept(s, seed, n)[k]] !in seed && s[Kept(s, seed, n)[k]] !in s[..Kept(s, seed, n)[k]]
    decreases n
  {
    if n > 0 {
      KeptFirstOccurrences(s, seed, n - 1);
    }
  }

  /** The deduplicated row. */
  function Dedup(s: seq<int>, seed: set<int>): seq<int> {
    Select(s, Kept(s, seed, |s|))
  }

  lemma SelectAppend<T>(s: seq<T>, idx: seq<nat>, j: nat)
    requires forall k :: 0 <= k < |idx| ==> idx[k] < |s|
    requires j < |s|
    ensures Select(s, idx + [j]) == Select(s, idx) + [s[j]]
  {
  }

  /** No id survives twice, and no id of the seed (the row's own id)
      survives. */
  lemma {:induction false} DedupDistinct(s: seq<int>, seed: set<int>)
    ensures forall j, k :: 0 <= j < k < |Dedup(s, seed)| ==> Dedup(s, seed)[j] != Dedup(s, seed)[k]
    ensures forall k :: 0 <= k < |Dedup(s, seed)| ==> Dedup(s, seed)[k] !in seed
  {
    var r := Kept(s, seed, |s|);
    KeptFirstOccurrences(s, seed, |s|);
    forall j, k | 0 <= j < k < |r|
      ensures s[r[j]] != s[r[k]]
    {
      assert s[r[j]] == s[..r[k]][r[j]];
    }
  }

  /** Exactly the ids of the row outside the seed survive. */
  lemma {:induction false} KeptCovers(s: seq<int>, seed: set<int>, n: nat)
    requires n <= |s|
    ensures forall x :: x in Select(s, Kept(s, seed, n)) <==> x in s[..n] && x !in seed
    decreases n
  {
    if n > 0 {
      KeptCovers(s, seed, n - 1);
      var p := Kept(s, seed, n - 1);
      assert s[..n] == s[..n - 1] + [s[n - 1]];
      if s[n - 1] !in seed && s[n - 1] !in s[..n - 1] {
        SelectAppend(s, p, n - 1);
      }
    }
  }

  lemma DedupElements(s: seq<int>, seed: set<int>)
    ensures forall x :: x in Dedup(s, seed) <==> x in s && x !in seed
  {
    KeptCovers(s, seed, |s|);
    assert s[..|s|] == s;
  }

  /** Surviving ids keep the order of their first occurrences: each survivor
      sits at its first position in `s`, and those positions increase. */
  lemma DedupKeepsFirstOccurrenceOrder(s: seq<int>, seed: set<int>)
    ensures forall k :: 0 <= k < |Kept(s, seed, |s|)| ==>
      s[Kept(s, seed, |s|)[k]] !in s[..Kept(s, seed, |s|)[k]]
    ensures forall j, k :: 0 <= j < k < |Kept(s, seed, |s|)| ==>
      Kept(s, seed, |s|)[j] < Kept(s, seed, |s|)[k]
  {
    KeptFirstOccurrences(s, seed, |s|);
  }

  /** A row without repeats and without seed ids is left as it is. */
  lemma {:induction false} KeptAllWhenDistinct(s: seq<int>, seed: set<int>, n: nat)
    requires n <= |s|
    requires forall j, k :: 0 <= j < k < |s| ==> s[j] != s[k]
    requires forall k :: 0 <= k < |s| ==> s[k] !in seed
    ensures Select(s, Kept(s, seed, n)) == s[..n]
    decreases n
  {
    if n > 0 {
      KeptAllWhenDistinct(s, seed, n - 1);
      assert s[n - 1] !in s[..n - 1] by {
        forall k | 0 <= k < n - 1 ensures s[k] != s[n - 1] { }
      }
      SelectAppend(s, Kept(s, seed, n - 1), n - 1);
      assert s[..n] == s[..n - 1] + [s[n - 1]];
    }
  }

  /** Concatenation of rows, last row last. */
  function Flatten<T>(rows: seq<seq<T>>): (r: seq<T>)
    ensures rows == [] ==> r == []
    decreases |rows|
  {
    if rows == [] then [] else Flatten(rows[..|rows| - 1]) + rows[|rows| - 1]
  }

  lemma FlattenStep<T>(rows: seq<seq<T>>, c: nat)
    requires c < |rows|
    ensures Flatten(rows[..c + 1]) == Flatten(rows[..c]) + rows[c]
  {
    assert rows[..c + 1][..c] == rows[..c];
  }

  lemma {:induction false} FlattenPrefix<T>(rows: seq<seq<T>>, c: nat, d: nat)
    requires c <= d <= |rows|
    ensures |Flatten(rows[..c])| <= |Flatten(rows[..d])|
    ensures Flatten(rows[..d])[..|Flatten(rows[..c])|] == Flatten(rows[..c])
    decreases d - c
  {
    if c < d {
      FlattenPrefix(rows, c + 1, d);
      FlattenStep(rows, c);
    }
  }

  /** Row c of a flattened list sits between the lengths of the flattened
      first c and c+1 rows. */
  lemma FlattenSlice<T>(rows: seq<seq<T>>, c: nat)
    requires c < |rows|
    ensures |Flatten(rows[..c])| + |rows[c]| <= |Flatten(rows)|
    ensures Flatten(rows)[|Flatten(rows[..c])|..|Flatten(rows[..c])| + |rows[c]|] == rows[c]
  {
    FlattenPrefix(rows, c + 1, |rows|);
    FlattenStep(rows, c);
    assert rows[..|rows|] == rows;
  }
}
