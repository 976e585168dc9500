/** Small shared vocabulary: optional values, outcomes and facts about sequences. */
module Prelude {
  datatype Option<+T> = None | Some(value: T)

  datatype Result<+T, +E> = Ok(value: T) | Err(error: E)

  predicate Distinct<T(==)>(s: seq<T>) {
    forall i, j :: 0 <= i < j < |s| ==> s[i] != s[j]
  }

  function Elements<T(==)>(s: seq<T>): set<T> {
    set x | x in s
  }

  /** The values that occur more than once. */
  function Duplicates<T(==)>(values: seq<T>): set<T> {
    set v | v in values && multiset(values)[v] > 1
  }

  lemma DistinctCount<T>(s: seq<T>)
    requires Distinct(s)
    ensures forall x :: multiset(s)[x] <= 1
  {
    if s != [] {
      var n := |s| - 1;
      DistinctCount(s[..n]);
      assert s == s[..n] + [s[n]];
      assert s[n] !in s[..n];
    }
  }

  lemma RepeatedCount<T>(s: seq<T>, i: nat, j: nat)
    requires i < j < |s| && s[i] == s[j]
    ensures multiset(s)[s[i]] > 1
  {
    assert s == s[..j] + s[j..];
    assert s[i] in s[..j] && s[j] in s[j..];
  }

  lemma NoDuplicatesIffDistinct<T>(s: seq<T>)
    ensures Duplicates(s) == {} <==> Distinct(s)
  {
    if Distinct(s) {
      DistinctCount(s);
    } else {
      var i, j :| 0 <= i < j < |s| && s[i] == s[j];
      RepeatedCount(s, i, j);
      assert s[i] in Duplicates(s);
    }
  }

  lemma TakeNext<T>(s: seq<T>, k: nat)
    requires k < |s|
    ensures s[..k + 1] == s[..k] + [s[k]]
  {
  }

  lemma NoneOutside<T>(s: seq<T>, known: set<T>)
    ensures Elements(s) - known == {} <==> forall x :: x in s ==> x in known
  {
    if Elements(s) - known == {} {
      forall x | x in s
        ensures x in known
      {
        assert x !in Elements(s) - known;
      }
    }
  }

  lemma NoneInside<T>(s: seq<T>, known: set<T>)
    ensures Elements(s) * known == {} <==> forall x :: x in s ==> x !in known
  {
    if Elements(s) * known == {} {
      forall x | x in s
        ensures x !in known
      {
        assert x !in Elements(s) * known;
      }
    }
  }

  lemma DistinctAppend<T>(a: seq<T>, b: seq<T>)
    ensures Distinct(a + b) <==> Distinct(a) && Distinct(b) && forall x :: x in b ==> x !in Elements(a)
  {
    var s := a + b;
    if Distinct(s) {
      assert forall i :: 0 <= i < |a| ==> s[i] == a[i];
      assert forall j :: 0 <= j < |b| ==> s[|a| + j] == b[j];
      forall i, j | 0 <= i < |a| && 0 <= j < |b|
        ensures a[i] != b[j]
      {
        assert s[i] != s[|a| + j];
      }
      forall i, j | 0 <= i < j < |b|
        ensures b[i] != b[j]
      {
        assert s[|a| + i] != s[|a| + j];
      }
    }
    if Distinct(a) && Distinct(b) && forall x :: x in b ==> x !in Elements(a) {
      forall i, j | 0 <= i < j < |s|
        ensures s[i] != s[j]
      {
        if i < |a| <= j {
          assert s[j] in b && s[i] in Elements(a);
        }
      }
    }
  }

  function Concat<T>(lists: seq<seq<T>>): seq<T> {
    if lists == [] then [] else Concat(lists[..|lists| - 1]) + lists[|lists| - 1]
  }

  ghost predicate Disjoint<T>(a: seq<T>, b: seq<T>) {
    forall x :: x in a ==> x !in b
  }

  /** No list repeats a value, and no two lists share one. */
  ghost predicate Apart<T>(lists: seq<seq<T>>) {
    && (forall k :: 0 <= k < |lists| ==> Distinct(lists[k]))
    && (forall i, j :: 0 <= i < j < |lists| ==> Disjoint(lists[i], lists[j]))
  }

  lemma {:induction false} ConcatHas<T>(lists: seq<seq<T>>)
    ensures forall x :: x in Concat(lists) <==> exists k :: 0 <= k < |lists| && x in lists[k]
  {
    if lists != [] {
      var n := |lists| - 1;
      ConcatHas(lists[..n]);
      assert forall k :: 0 <= k < n ==> lists[..n][k] == lists[k];
      assert forall x :: x in lists[n] ==> exists k :: 0 <= k < |lists| && x in lists[k];
    }
  }

  lemma {:induction false} ConcatDistinct<T>(lists: seq<seq<T>>)
    ensures Distinct(Concat(lists)) <==> Apart(lists)
  {
    if lists != [] {
      hide Distinct;
      var n := |lists| - 1;
      var front := lists[..n];
      ConcatDistinct(front);
      ConcatHas(front);
      DistinctAppend(Concat(front), lists[n]);
      assert forall k :: 0 <= k < n ==> front[k] == lists[k];
      assert (forall x :: x in lists[n] ==> x !in Elements(Concat(front))) <==> forall i :: 0 <= i < n ==> Disjoint(lists[i], lists[n]);
      hide Concat, Disjoint;
    }
  }
}
