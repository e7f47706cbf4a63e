/** Sequences without repetition, and what is left when one element is taken out. */
module Sequences {
  ghost predicate NoDup<T>(s: seq<T>) {
    forall i, j :: 0 <= i < j < |s| ==> s[i] != s[j]
  }

  /** The first occurrence of `x` is taken out. */
  function Without<T(==)>(s: seq<T>, x: T): seq<T> {
    if s == [] then [] else if s[0] == x then s[1..] else [s[0]] + Without(s[1..], x)
  }

  lemma {:induction false} WithoutMember<T>(s: seq<T>, x: T, y: T)
    requires NoDup(s)
    ensures y in Without(s, x) <==> y in s && y != x
  {
    if s != [] && s[0] != x {
      WithoutMember(s[1..], x, y);
    }
  }

  lemma {:induction false} WithoutNoDup<T>(s: seq<T>, x: T)
    requires NoDup(s)
    ensures NoDup(Without(s, x))
  {
    if s != [] && s[0] != x {
      WithoutNoDup(s[1..], x);
      WithoutMember(s[1..], x, s[0]);
    }
  }

  /** The same for an element given by its index. */
  lemma DroppedMember<T>(s: seq<T>, i: nat, x: T)
    requires NoDup(s) && i < |s|
    ensures x in s[..i] + s[i + 1..] <==> x in s && x != s[i]
  {
    if x in s && x != s[i] {
      var k :| 0 <= k < |s| && s[k] == x;
      if k < i {
        assert s[..i][k] == x;
      } else {
        assert s[i + 1..][k - i - 1] == x;
      }
    }
  }
}
