/** Ordering of candidate indices by probability, the job `qsort` does with
    the file-scope comparator `nms_comparator2` in mobile_retinaface.cc. The
    NMS step is proved for every order this module's predicates admit; the
    insertion sort here is one such order (it keeps equal probabilities in
    index order, which `qsort` need not). */
module IndexSort {

  /** A permutation of the candidate indices `0 .. n-1`. */
  predicate IsIndexPermutation(order: seq<int>, n: nat)
  {
    && |order| == n
    && (forall i :: 0 <= i < n ==> 0 <= order[i] < n)
    && (forall i, j :: 0 <= i < j < n ==> order[i] != order[j])
  }

  /** `order` lists indices of `probs` by non-increasing probability. */
  predicate SortedByProbDesc(order: seq<int>, probs: seq<real>)
  {
    && (forall i :: 0 <= i < |order| ==> 0 <= order[i] < |probs|)
    && (forall i, j :: 0 <= i < j < |order| ==> probs[order[i]] >= probs[order[j]])
  }

  predicate Distinct(l: seq<int>)
  {
    forall i, j :: 0 <= i < j < |l| ==> l[i] != l[j]
  }

  /** Insert index `x` into a list sorted by non-increasing probability, after
      the entries whose probability equals its own. */
  function Insert(x: int, l: seq<int>, probs: seq<real>): (r: seq<int>)
    requires 0 <= x < |probs| && SortedByProbDesc(l, probs)
    ensures |r| == |l| + 1
    ensures forall v :: v in r <==> v == x || v in l
    ensures SortedByProbDesc(r, probs)
    decreases |l|
  {
    if |l| == 0 then [x]
    else if probs[x] > probs[l[0]] then [x] + l
    else
      var rest := Insert(x, l[1..], probs);
      assert forall v :: v in rest ==> probs[l[0]] >= probs[v] by {
        forall v | v in rest ensures probs[l[0]] >= probs[v] {
          if v != x {
            var k :| 1 <= k < |l| && l[k] == v;
          }
        }
      }
      [l[0]] + rest
  }

  /** Putting a new index in front of a list without repetitions keeps it
      without repetitions. */
  lemma ConsDistinct(y: int, l: seq<int>)
    requires Distinct(l) && y !in l
    ensures Distinct([y] + l)
  {
    var r := [y] + l;
    forall i, j | 0 <= i < j < |r| ensures r[i] != r[j] {
      assert r[j] == l[j - 1];
    }
  }

  /** Inserting a new index into a list without repetitions keeps it without
      repetitions. */
  lemma {:induction false} InsertDistinct(x: int, l: seq<int>, probs: seq<real>)
    requires 0 <= x < |probs| && SortedByProbDesc(l, probs)
    requires Distinct(l) && x !in l
    ensures Distinct(Insert(x, l, probs))
    decreases |l|
  {
    if |l| > 0 && !(probs[x] > probs[l[0]]) {
      var tail := l[1..];
      assert l == [l[0]] + tail;
      assert Distinct(tail) by {
        forall i, j | 0 <= i < j < |tail| ensures tail[i] != tail[j] {
          assert l[i + 1] != l[j + 1];
        }
      }
      assert l[0] !in tail by {
        forall k | 0 <= k < |tail| ensures tail[k] != l[0] {
          assert l[k + 1] != l[0];
        }
      }
      InsertDistinct(x, tail, probs);
      ConsDistinct(l[0], Insert(x, tail, probs));
    } else if |l| > 0 {
      ConsDistinct(x, l);
    }
  }

  /** Insertion sort of the indices `0 .. n-1` by non-increasing `probs`. */
  function SortByProb(probs: seq<real>, n: nat): (r: seq<int>)
    requires n <= |probs|
    ensures |r| == n
    ensures SortedByProbDesc(r, probs)
    ensures forall v :: v in r <==> 0 <= v < n
  {
    if n == 0 then []
    else Insert(n - 1, SortByProb(probs, n - 1), probs)
  }

  /** The insertion sort yields an order `qsort` could have produced: a
      permutation of the indices, by non-increasing probability. */
  lemma {:induction false} SortByProbIsPermutation(probs: seq<real>, n: nat)
    requires n <= |probs|
    ensures IsIndexPermutation(SortByProb(probs, n), n)
    ensures SortedByProbDesc(SortByProb(probs, n), probs)
  {
    DistinctSort(probs, n);
    var r := SortByProb(probs, n);
    forall i | 0 <= i < n ensures 0 <= r[i] < n {
      assert r[i] in r;
    }
  }

  lemma {:induction false} DistinctSort(probs: seq<real>, n: nat)
    requires n <= |probs|
    ensures Distinct(SortByProb(probs, n))
  {
    if n > 0 {
      DistinctSort(probs, n - 1);
      InsertDistinct(n - 1, SortByProb(probs, n - 1), probs);
    }
  }
}
