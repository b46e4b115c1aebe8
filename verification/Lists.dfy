/** Lists without repetitions, and unlinking from them. */
module Lists {
  ghost predicate Distinct<T>(s: seq<T>) {
    forall i, j :: 0 <= i < j < |s| ==> s[i] != s[j]
  }

  /** The list without the first occurrence of `x`. */
  function Drop<T(==)>(s: seq<T>, x: T): seq<T> {
    if s == [] then [] else if s[0] == x then s[1..] else [s[0]] + Drop(s[1..], x)
  }

  lemma {:induction false} DropMembers<T>(s: seq<T>, x: T)
    requires Distinct(s)
    ensures Distinct(Drop(s, x))
    ensures forall y :: y in Drop(s, x) <==> y in s && y != x
    ensures forall i :: 0 <= i < |Drop(s, x)| ==> Drop(s, x)[i] in s && Drop(s, x)[i] != x
    ensures forall i :: 0 <= i < |s| && s[i] != x ==> s[i] in Drop(s, x)
    ensures x !in s ==> Drop(s, x) == s
    ensures x in s ==> |Drop(s, x)| == |s| - 1
    decreases |s|
  {
    if s != [] && s[0] != x {
      DropMembers(s[1..], x);
      assert s == [s[0]] + s[1..];
      assert Drop(s, x) == [s[0]] + Drop(s[1..], x);
      DistinctCons(s[0], Drop(s[1..], x));
    } else if s != [] {
      assert s == [x] + s[1..];
    }
  }

  lemma DistinctCons<T>(x: T, s: seq<T>)
    requires Distinct(s) && x !in s
    ensures Distinct([x] + s)
  {
  }

  lemma DistinctSnoc<T>(s: seq<T>, x: T)
    requires Distinct(s) && x !in s
    ensures Distinct(s + [x])
  {
  }

  lemma {:induction false} DropAt<T>(s: seq<T>, k: nat)
    requires k < |s| && forall i :: 0 <= i < k ==> s[i] != s[k]
    ensures Drop(s, s[k]) == s[..k] + s[k + 1..]
    decreases k
  {
    if k > 0 {
      DropAt(s[1..], k - 1);
      assert s[..k] == [s[0]] + s[1..][..k - 1];
    }
  }

  lemma {:induction false} DropStranger<T>(s: seq<T>, x: T)
    requires x !in s
    ensures Drop(s, x) == s
  {
    if s != [] {
      DropStranger(s[1..], x);
    }
  }
}
