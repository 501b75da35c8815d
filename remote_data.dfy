/** A piece of data tagged with the process and the element it comes from,
    and the operators that combine two such values when a reduction across
    processes looks for the first process, or the smallest or greatest
    value. A processor index of -1 marks an invalid value.

    The data type is generic; its ordering (`<` in the operators) is a
    parameter `less`, which the reduction lemmas require to be a strict
    total order. The `*FirstEqOp` operators order by the first component of
    a pair. Each `*EqOp` updates its first argument: the functions below
    give the new value of that argument, and the methods of `Variable`
    perform the update on a variable. */
module RemoteDatas {

  /** The `remote` base (processor and element) and the data. */
  datatype RemoteData<T> = RemoteData(proci: int, elementi: int, data: T) {
    predicate Valid() { proci != -1 }
  }

  /** The pair data of the `*FirstEqOp` operators. */
  datatype Pair<A, B> = Pair(first: A, second: B)

  ghost predicate StrictTotalOrder<T(!new)>(less: (T, T) -> bool) {
    && (forall x :: !less(x, x))
    && (forall x, y, z :: less(x, y) && less(y, z) ==> less(x, z))
    && (forall x, y :: x == y || less(x, y) || less(y, x))
  }

  /** Combining operator of a reduction keeping the value of the greatest
      valid processor index. */
  function FirstProcOp<T>(a: RemoteData<T>, b: RemoteData<T>): (r: RemoteData<T>)
    ensures r == a || r == b
  {
    if b.proci != -1 && (a.proci == -1 || a.proci < b.proci) then b else a
  }

  /** Keeps the valid value with the smallest data; the new value of a. */
  function SmallestEqOp<T>(less: (T, T) -> bool, a: RemoteData<T>, b: RemoteData<T>): (a': RemoteData<T>)
    ensures a' == a || a' == b
  {
    if b.proci != -1 && (a.proci == -1 || less(b.data, a.data)) then b else a
  }

  /** Keeps the valid value with the greatest data; the new value of a. */
  function GreatestEqOp<T>(less: (T, T) -> bool, a: RemoteData<T>, b: RemoteData<T>): (a': RemoteData<T>)
    ensures a' == a || a' == b
  {
    if b.proci != -1 && (a.proci == -1 || less(a.data, b.data)) then b else a
  }

  /** SmallestEqOp comparing the first components of the data only. */
  function SmallestFirstEqOp<A, B>(less: (A, A) -> bool, a: RemoteData<Pair<A, B>>, b: RemoteData<Pair<A, B>>)
    : (a': RemoteData<Pair<A, B>>)
    ensures a' == a || a' == b
  {
    if b.proci != -1 && (a.proci == -1 || less(b.data.first, a.data.first)) then b else a
  }

  /** GreatestEqOp comparing the first components of the data only. */
  function GreatestFirstEqOp<A, B>(less: (A, A) -> bool, a: RemoteData<Pair<A, B>>, b: RemoteData<Pair<A, B>>)
    : (a': RemoteData<Pair<A, B>>)
    ensures a' == a || a' == b
  {
    if b.proci != -1 && (a.proci == -1 || less(a.data.first, b.data.first)) then b else a
  }

  /** Equality of the remote parts and of the data. */
  function Equal<T(==)>(a: RemoteData<T>, b: RemoteData<T>): (r: bool)
    ensures r <==> a == b
  {
    a.proci == b.proci && a.elementi == b.elementi && a.data == b.data
  }

  function NotEqual<T(==)>(a: RemoteData<T>, b: RemoteData<T>): (r: bool)
    ensures r <==> a != b
  {
    !Equal(a, b)
  }

  /** A RemoteData variable, the first argument the `*EqOp` operators
      update in place. */
  class Variable<T> {
    var value: RemoteData<T>

    constructor(v: RemoteData<T>)
      ensures value == v
    {
      value := v;
    }

    method FirstProcEq(b: RemoteData<T>)
      modifies this
      ensures value == FirstProcOp(old(value), b)
    {
      if b.proci != -1 && (value.proci == -1 || value.proci < b.proci) {
        value := b;
      }
    }

    method SmallestEq(less: (T, T) -> bool, b: RemoteData<T>)
      modifies this
      ensures value == SmallestEqOp(less, old(value), b)
    {
      if b.proci != -1 && (value.proci == -1 || less(b.data, value.data)) {
        value := b;
      }
    }

    method GreatestEq(less: (T, T) -> bool, b: RemoteData<T>)
      modifies this
      ensures value == GreatestEqOp(less, old(value), b)
    {
      if b.proci != -1 && (value.proci == -1 || less(value.data, b.data)) {
        value := b;
      }
    }
  }

  /** The `*FirstEqOp` operators on a variable holding pair data. */
  class PairVariable<A, B> {
    var value: RemoteData<Pair<A, B>>

    constructor(v: RemoteData<Pair<A, B>>)
      ensures value == v
    {
      value := v;
    }

    method SmallestFirstEq(less: (A, A) -> bool, b: RemoteData<Pair<A, B>>)
      modifies this
      ensures value == SmallestFirstEqOp(less, old(value), b)
    {
      if b.proci != -1 && (value.proci == -1 || less(b.data.first, value.data.first)) {
        value := b;
      }
    }

    method GreatestFirstEq(less: (A, A) -> bool, b: RemoteData<Pair<A, B>>)
      modifies this
      ensures value == GreatestFirstEqOp(less, old(value), b)
    {
      if b.proci != -1 && (value.proci == -1 || less(value.data.first, b.data.first)) {
        value := b;
      }
    }
  }

  /** FirstProcOp answers b exactly when b is valid and a is invalid or
      from a lower processor, so its processor index is the greater valid
      one. */
  lemma FirstProcOpChoice<T>(a: RemoteData<T>, b: RemoteData<T>)
    ensures FirstProcOp(a, b) == b <== (b.Valid() && (!a.Valid() || a.proci < b.proci))
    ensures FirstProcOp(a, b) == a <== !(b.Valid() && (!a.Valid() || a.proci < b.proci))
    ensures FirstProcOp(a, b).Valid() <==> a.Valid() || b.Valid()
    ensures a.Valid() && b.Valid() ==> FirstProcOp(a, b).proci == if a.proci < b.proci then b.proci else a.proci
  {
  }

  /** An invalid right operand leaves every in-place operator's left
      operand unchanged. */
  lemma InvalidRightIsNoOp<T, A, B>(less: (T, T) -> bool, lessFirst: (A, A) -> bool,
                                    a: RemoteData<T>, b: RemoteData<T>,
                                    p: RemoteData<Pair<A, B>>, q: RemoteData<Pair<A, B>>)
    requires !b.Valid() && !q.Valid()
    ensures FirstProcOp(a, b) == a
    ensures SmallestEqOp(less, a, b) == a && GreatestEqOp(less, a, b) == a
    ensures SmallestFirstEqOp(lessFirst, p, q) == p && GreatestFirstEqOp(lessFirst, p, q) == p
  {
  }

  /** An invalid left operand is replaced by a valid right operand. */
  lemma InvalidLeftTakesRight<T, A, B>(less: (T, T) -> bool, lessFirst: (A, A) -> bool,
                                       a: RemoteData<T>, b: RemoteData<T>,
                                       p: RemoteData<Pair<A, B>>, q: RemoteData<Pair<A, B>>)
    requires !a.Valid() && b.Valid() && !p.Valid() && q.Valid()
    ensures FirstProcOp(a, b) == b
    ensures SmallestEqOp(less, a, b) == b && GreatestEqOp(less, a, b) == b
    ensures SmallestFirstEqOp(lessFirst, p, q) == q && GreatestFirstEqOp(lessFirst, p, q) == q
  {
  }

  /** Between two valid values, the smallest (greatest) operator replaces a
      only on a strictly smaller (greater) b: ties keep a, and combining a
      value with itself changes nothing. */
  lemma StrictComparison<T, A, B>(less: (T, T) -> bool, lessFirst: (A, A) -> bool,
                                  a: RemoteData<T>, b: RemoteData<T>,
                                  p: RemoteData<Pair<A, B>>, q: RemoteData<Pair<A, B>>)
    requires a.Valid() && b.Valid() && p.Valid() && q.Valid()
    ensures SmallestEqOp(less, a, b) == (if less(b.data, a.data) then b else a)
    ensures GreatestEqOp(less, a, b) == (if less(a.data, b.data) then b else a)
    ensures SmallestFirstEqOp(lessFirst, p, q) == (if lessFirst(q.data.first, p.data.first) then q else p)
    ensures GreatestFirstEqOp(lessFirst, p, q) == (if lessFirst(p.data.first, q.data.first) then q else p)
    ensures SmallestEqOp(less, a, a) == a && GreatestEqOp(less, a, a) == a
    ensures SmallestFirstEqOp(lessFirst, p, p) == p && GreatestFirstEqOp(lessFirst, p, p) == p
  {
  }

  // ---------------------------------------------------------------------
  // Reductions: combining the values of all processes in turn

  function ReduceSmallest<T>(less: (T, T) -> bool, a: RemoteData<T>, bs: seq<RemoteData<T>>): RemoteData<T>
  {
    if |bs| == 0 then a else SmallestEqOp(less, ReduceSmallest(less, a, bs[..|bs| - 1]), bs[|bs| - 1])
  }

  function ReduceFirstProc<T>(a: RemoteData<T>, bs: seq<RemoteData<T>>): RemoteData<T>
  {
    if |bs| == 0 then a else FirstProcOp(ReduceFirstProc(a, bs[..|bs| - 1]), bs[|bs| - 1])
  }

  /** Reducing with SmallestEqOp over a strict total order finds a valid
      value whenever there is one, and no valid value has smaller data; the
      result is one of the values combined. */
  lemma {:induction false} ReduceSmallestIsMinimum<T(!new)>(less: (T, T) -> bool, a: RemoteData<T>, bs: seq<RemoteData<T>>)
    requires StrictTotalOrder(less)
    ensures var r := ReduceSmallest(less, a, bs);
            && (r == a || r in bs)
            && (r.Valid() <==> a.Valid() || exists i :: 0 <= i < |bs| && bs[i].Valid())
            && (r.Valid() ==> (a.Valid() ==> !less(a.data, r.data))
                              && forall i :: 0 <= i < |bs| && bs[i].Valid() ==> !less(bs[i].data, r.data))
  {
    if |bs| > 0 {
      var init := bs[..|bs| - 1];
      ReduceSmallestIsMinimum(less, a, init);
      var r0 := ReduceSmallest(less, a, init);
      var r := ReduceSmallest(less, a, bs);
      assert forall i :: 0 <= i < |init| ==> init[i] == bs[i];
      if r0.Valid() && bs[|bs| - 1].Valid() && less(bs[|bs| - 1].data, r0.data) {
        assert r == bs[|bs| - 1];
        forall i | 0 <= i < |bs| && bs[i].Valid()
          ensures !less(bs[i].data, r.data)
        {
          if i < |init| {
            assert !less(init[i].data, r0.data);
          }
        }
      }
    }
  }

  /** Reducing with FirstProcOp yields the value of the greatest valid
      processor index among those combined. */
  lemma {:induction false} ReduceFirstProcIsGreatest<T>(a: RemoteData<T>, bs: seq<RemoteData<T>>)
    ensures var r := ReduceFirstProc(a, bs);
            && (r == a || r in bs)
            && (r.Valid() <==> a.Valid() || exists i :: 0 <= i < |bs| && bs[i].Valid())
            && (r.Valid() ==> (a.Valid() ==> a.proci <= r.proci)
                              && forall i :: 0 <= i < |bs| && bs[i].Valid() ==> bs[i].proci <= r.proci)
  {
    if |bs| > 0 {
      var init := bs[..|bs| - 1];
      ReduceFirstProcIsGreatest(a, init);
      assert forall i :: 0 <= i < |init| ==> init[i] == bs[i];
    }
  }
}
