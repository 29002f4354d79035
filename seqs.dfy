/**
 * The trace of a counted loop: the traces of its iterations, one after the
 * other. Each `for` loop of the driver is modelled by `Join` over a function
 * from the iteration index to what that iteration emits.
 */
module Seqs {
  import opened Bits

  /** The concatenation of `ss`, first to last. */
  function Flatten<T>(ss: seq<seq<T>>): seq<T>
  {
    if |ss| == 0 then [] else Flatten(ss[..|ss| - 1]) + ss[|ss| - 1]
  }

  /** Iterations `0 .. n-1` of `body`, in order. */
  function Join<T>(body: nat -> seq<T>, n: nat): seq<T>
  {
    Flatten(seq(n, (i: int) requires 0 <= i => body(i)))
  }

  /** One more iteration appends what it yields. */
  lemma JoinSnoc<T>(body: nat -> seq<T>, n: nat)
    ensures Join(body, 0) == []
    ensures Join(body, n + 1) == Join(body, n) + body(n)
  {
    var ss := seq(n + 1, (i: int) requires 0 <= i => body(i));
    assert ss[..n] == seq(n, (i: int) requires 0 <= i => body(i));
  }

  /** When every iteration yields `k` elements, `n` iterations yield `k * n`. */
  lemma {:induction false} JoinLength<T>(body: nat -> seq<T>, n: nat, k: nat)
    requires forall i :: 0 <= i < n ==> |body(i)| == k
    ensures |Join(body, n)| == k * n
  {
    JoinSnoc(body, 0);
    if n > 0 {
      JoinSnoc(body, n - 1);
      JoinLength(body, n - 1, k);
      assert k * n == k * (n - 1) + k;
    }
  }

  /** With `k` elements per iteration, element `j` of iteration `i` sits at `k * i + j`. */
  lemma {:induction false} JoinIndex<T>(body: nat -> seq<T>, n: nat, k: nat, i: nat, j: nat)
    requires forall i' :: 0 <= i' < n ==> |body(i')| == k
    requires i < n && j < k
    ensures k * i + j < |Join(body, n)| && Join(body, n)[k * i + j] == body(i)[j]
  {
    JoinLength(body, n, k);
    JoinLength(body, n - 1, k);
    JoinSnoc(body, n - 1);
    if i < n - 1 {
      MulMono(k, i + 1, n - 1);
      JoinIndex(body, n - 1, k, i, j);
    } else {
      assert k * i == k * (n - 1);
    }
  }

  /** Iterations that yield nothing can be dropped from the end. */
  lemma {:induction false} JoinEmptyTail<T>(body: nat -> seq<T>, m: nat, n: nat)
    requires m <= n
    requires forall i :: m <= i < n ==> body(i) == []
    ensures Join(body, n) == Join(body, m)
  {
    if m < n {
      JoinEmptyTail(body, m, n - 1);
      JoinSnoc(body, n - 1);
    }
  }

  /** A value that no iteration yields is not in the join. */
  lemma {:induction false} JoinAvoids<T>(body: nat -> seq<T>, n: nat, x: T)
    requires forall i :: 0 <= i < n ==> x !in body(i)
    ensures x !in Join(body, n)
  {
    JoinSnoc(body, 0);
    if n > 0 {
      JoinAvoids(body, n - 1, x);
      JoinSnoc(body, n - 1);
    }
  }

  lemma AppendAssoc<T>(a: seq<T>, b: seq<T>, c: seq<T>)
    ensures a + b + c == a + (b + c)
  {
  }

  /** A loop that has appended its first `n` iterations to `t` and appends one more. */
  lemma LoopStep<T>(t: seq<T>, body: nat -> seq<T>, n: nat)
    ensures t + Join(body, n) + body(n) == t + Join(body, n + 1)
  {
    JoinSnoc(body, n);
    AppendAssoc(t, Join(body, n), body(n));
  }
}
