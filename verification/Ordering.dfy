/** Relations between every element of a sequence and every later one, and selections in order. */
module Ordering {

  ghost predicate Pairwise<T(!new)>(rel: (T, T) -> bool, s: seq<T>) {
    forall i, j :: 0 <= i < j < |s| ==> rel(s[i], s[j])
  }

  /** A sequence seen as its head and the rest. */
  lemma HeadAndTail<T(!new)>(rel: (T, T) -> bool, s: seq<T>)
    requires s != []
    ensures forall x :: x in s <==> x == s[0] || x in s[1..]
    ensures Pairwise(rel, s) <==> Pairwise(rel, s[1..]) && forall x | x in s[1..] :: rel(s[0], x)
  {
    var tail := s[1..];
    assert forall i :: 0 <= i < |tail| ==> tail[i] == s[i + 1];
    assert s == [s[0]] + tail;
    if Pairwise(rel, tail) && forall x | x in tail :: rel(s[0], x) {
      forall i, j | 0 <= i < j < |s| ensures rel(s[i], s[j]) {
        assert s[j] == tail[j - 1];
        if i > 0 {
          assert s[i] == tail[i - 1];
        }
      }
    }
  }

  /** A sequence cut in two. */
  lemma TwoParts<T(!new)>(rel: (T, T) -> bool, s: seq<T>, n: nat)
    requires n <= |s| && Pairwise(rel, s)
    ensures Pairwise(rel, s[..n]) && Pairwise(rel, s[n..])
    ensures forall x, y | x in s[..n] && y in s[n..] :: rel(x, y)
    ensures forall x :: x in s <==> x in s[..n] || x in s[n..]
  {
    var top, rest := s[..n], s[n..];
    assert s == top + rest;
    assert forall j :: 0 <= j < |rest| ==> rest[j] == s[n + j];
    forall x, y | x in top && y in rest ensures rel(x, y) {
      var i :| 0 <= i < n && s[i] == x;
      var j :| 0 <= j < |rest| && rest[j] == y;
      assert rel(s[i], s[n + j]);
    }
  }

  /** `at` lists in ascending order exactly the numbers below `n` that are kept. */
  ghost predicate Picks(at: seq<nat>, n: nat, keep: nat -> bool) {
    && (forall j :: 0 <= j < |at| ==> at[j] < n && keep(at[j]))
    && (forall i, j :: 0 <= i < j < |at| ==> at[i] < at[j])
    && forall k: nat | k < n && keep(k) :: k in at
  }

  /** One more number, and possibly another way to say which of the earlier ones are kept. */
  lemma PickNext(at: seq<nat>, n: nat, keep: nat -> bool, keep': nat -> bool)
    requires Picks(at, n, keep) && forall k: nat | k < n :: keep(k) == keep'(k)
    ensures Picks(if keep'(n) then at + [n] else at, n + 1, keep')
  {
    var at' := if keep'(n) then at + [n] else at;
    assert forall j :: 0 <= j < |at| ==> at'[j] == at[j];
    forall k: nat | k < n + 1 && keep'(k) ensures k in at' {
      if k == n {
        assert at'[|at|] == n;
      } else {
        assert keep(k);
      }
    }
  }

  ghost function Kept(n: nat, keep: nat -> bool): set<nat> {
    set k: nat | k < n && keep(k)
  }

  lemma KeptNext(n: nat, keep: nat -> bool)
    ensures |Kept(0, keep)| == 0
    ensures |Kept(n + 1, keep)| == |Kept(n, keep)| + if keep(n) then 1 else 0
  {
    assert Kept(0, keep) == {};
    assert Kept(n + 1, keep) == Kept(n, keep) + if keep(n) then {n} else {};
  }

  lemma KeptAlike(n: nat, keep: nat -> bool, keep': nat -> bool)
    requires forall k: nat | k < n :: keep(k) == keep'(k)
    ensures Kept(n, keep) == Kept(n, keep')
  {
  }

  /** The items stand, in order, for exactly the numbers below `n` that are kept. */
  ghost predicate Selection<T(!new)>(items: seq<T>, at: seq<nat>, n: nat, keep: nat -> bool, fits: (T, nat) -> bool) {
    && Picks(at, n, keep) && |items| == |at|
    && forall j :: 0 <= j < |at| ==> fits(items[j], at[j])
  }

  lemma SelectNext<T(!new)>(
      items: seq<T>, at: seq<nat>, n: nat, keep: nat -> bool, fits: (T, nat) -> bool, more: seq<T>)
      returns (at': seq<nat>)
    requires Selection(items, at, n, keep, fits)
    requires if keep(n) then |more| == 1 && fits(more[0], n) else more == []
    ensures Selection(items + more, at', n + 1, keep, fits)
  {
    PickNext(at, n, keep, keep);
    at' := if keep(n) then at + [n] else at;
    forall j | 0 <= j < |at'| ensures fits((items + more)[j], at'[j]) {
      if j < |at| {
        assert (items + more)[j] == items[j] && at'[j] == at[j];
      }
    }
  }
}
