/** Sequences of threads and items: how many satisfy a condition, and whether any occurs twice. */
module Counting {

  function Count<T>(s: seq<T>, p: T -> bool): nat {
    if s == [] then 0 else Count(s[..|s| - 1], p) + if p(s[|s| - 1]) then 1 else 0
  }

  lemma {:induction false} CountUpdate<T>(s: seq<T>, p: T -> bool, i: nat, x: T)
    requires i < |s|
    ensures Count(s[i := x], p) + (if p(s[i]) then 1 else 0) == Count(s, p) + (if p(x) then 1 else 0)
  {
    var n := |s| - 1;
    if i < n {
      assert s[i := x][..n] == s[..n][i := x];
      CountUpdate(s[..n], p, i, x);
    } else {
      assert s[i := x][..n] == s[..n];
    }
  }

  lemma {:induction false} CountZero<T>(s: seq<T>, p: T -> bool, i: nat)
    requires i < |s| && Count(s, p) == 0
    ensures !p(s[i])
  {
    if i < |s| - 1 {
      CountZero(s[..|s| - 1], p, i);
    }
  }

  lemma {:induction false} CountNone<T>(s: seq<T>, p: T -> bool)
    requires forall i :: 0 <= i < |s| ==> !p(s[i])
    ensures Count(s, p) == 0
  {
    if s != [] {
      CountNone(s[..|s| - 1], p);
    }
  }

  lemma {:induction false} CountSome<T>(s: seq<T>, p: T -> bool) returns (i: nat)
    requires Count(s, p) > 0
    ensures i < |s| && p(s[i])
  {
    if p(s[|s| - 1]) {
      i := |s| - 1;
    } else {
      i := CountSome(s[..|s| - 1], p);
    }
  }

  predicate NoDuplicates<T(==)>(list: seq<T>) {
    forall i, j :: 0 <= i < j < |list| ==> list[i] != list[j]
  }

  lemma AppendOne<T>(list: seq<T>, x: T)
    requires NoDuplicates(list) && x !in list
    ensures NoDuplicates(list + [x])
  {}

  /** The work that is left to a row of threads. */
  function Total<T>(s: seq<T>, weight: T -> nat): nat {
    if s == [] then 0 else Total(s[..|s| - 1], weight) + weight(s[|s| - 1])
  }

  lemma {:induction false} TotalUpdate<T>(s: seq<T>, weight: T -> nat, i: nat, x: T)
    requires i < |s|
    ensures Total(s[i := x], weight) + weight(s[i]) == Total(s, weight) + weight(x)
  {
    var n := |s| - 1;
    if i < n {
      assert s[i := x][..n] == s[..n][i := x];
      TotalUpdate(s[..n], weight, i, x);
    } else {
      assert s[i := x][..n] == s[..n];
    }
  }
}
