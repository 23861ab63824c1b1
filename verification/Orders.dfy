/** Duplicate-free sequences, used for lists whose members are linked through their own fields. */
module Orders {

  ghost predicate Distinct<T>(s: seq<T>) {
    forall i, j :: 0 <= i < j < |s| ==> s[i] != s[j]
  }

  /** Position of the first occurrence of `x`. */
  function Index<T(==)>(s: seq<T>, x: T): (i: nat)
    requires x in s
    ensures i < |s| && s[i] == x
  {
    if s[0] == x then 0 else 1 + Index(s[1..], x)
  }

  /** `s` with the first occurrence of `x`, if any, taken out. */
  function Without<T(==)>(s: seq<T>, x: T): seq<T> {
    if x in s then s[..Index(s, x)] + s[Index(s, x) + 1..] else s
  }

  /** The element after `x`: what following the `next` field of a listed node yields. */
  function After<T(==)>(s: seq<T>, x: T): seq<T> {
    if x in s && Index(s, x) + 1 < |s| then [s[Index(s, x) + 1]] else []
  }

  lemma {:induction false} IndexIsFirst<T>(s: seq<T>, x: T, i: nat)
    requires i < |s| && s[i] == x
    ensures Index(s, x) <= i
  {
    if i > 0 && s[0] != x {
      IndexIsFirst(s[1..], x, i - 1);
    }
  }

  lemma WithoutFirst<T>(s: seq<T>, x: T, i: nat)
    requires i < |s| && s[i] == x && forall j :: 0 <= j < i ==> s[j] != x
    ensures Without(s, x) == s[..i] + s[i + 1..]
  {
    hide Index;
    IndexIsFirst(s, x, i);
    assert forall j :: 0 <= j < i ==> s[j] != s[Index(s, x)];
  }

  lemma WithoutNone<T>(s: seq<T>, x: T)
    requires forall j :: 0 <= j < |s| ==> s[j] != x
    ensures Without(s, x) == s
  {
  }

  lemma WithoutAt<T>(s: seq<T>, x: T, j: nat)
    requires x in s && j < |s| && j != Index(s, x)
    ensures |Without(s, x)| == |s| - 1
    ensures Without(s, x)[if j < Index(s, x) then j else j - 1] == s[j]
  {
    hide Index;
  }

  lemma WithoutMembers<T>(s: seq<T>, x: T)
    requires Distinct(s)
    ensures Distinct(Without(s, x))
    ensures forall y :: y in Without(s, x) <==> y in s && y != x
  {
    hide Index;
    if x in s {
      var i, r := Index(s, x), Without(s, x);
      assert |r| == |s| - 1;
      hide Without;
      forall j: nat | j < |r| ensures r[j] == s[if j < i then j else j + 1] {
        WithoutAt(s, x, if j < i then j else j + 1);
      }
      forall y | y in s && y != x ensures y in r {
        var j :| 0 <= j < |s| && s[j] == y;
        WithoutAt(s, x, j);
      }
    }
  }
}
