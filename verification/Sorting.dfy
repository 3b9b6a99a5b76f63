/** Sorting, as the contract of Go's `sort` package: a sorted permutation. Insertion sort stands for
    the algorithm; `SortedPermutationIsUnique` shows when the choice does not matter. */
module Sorting {
  import opened Text

  ghost predicate TotalOrder<T(!new)>(le: (T, T) -> bool) {
    && (forall x, y :: le(x, y) || le(y, x))
    && (forall x, y, z :: le(x, y) && le(y, z) ==> le(x, z))
  }

  ghost predicate Sorted<T>(s: seq<T>, le: (T, T) -> bool) {
    forall i, j :: 0 <= i < j < |s| ==> le(s[i], s[j])
  }

  function Insert<T>(x: T, s: seq<T>, le: (T, T) -> bool): seq<T> {
    if s == [] || le(x, s[0]) then [x] + s else [s[0]] + Insert(x, s[1..], le)
  }

  function Sort<T>(s: seq<T>, le: (T, T) -> bool): seq<T> {
    if s == [] then [] else Insert(s[0], Sort(s[1..], le), le)
  }

  lemma {:induction false} InsertAdds<T>(x: T, s: seq<T>, le: (T, T) -> bool)
    ensures multiset(Insert(x, s, le)) == multiset(s) + multiset{x}
  {
    if s == [] || le(x, s[0]) {
    } else {
      InsertAdds(x, s[1..], le);
      assert s == [s[0]] + s[1..];
    }
  }

  /** Every element of `s` is at or above `x`. */
  ghost predicate Above<T>(x: T, s: seq<T>, le: (T, T) -> bool) {
    forall j :: 0 <= j < |s| ==> le(x, s[j])
  }

  lemma {:induction false} InsertStaysAbove<T>(low: T, x: T, s: seq<T>, le: (T, T) -> bool)
    requires le(low, x) && Above(low, s, le)
    ensures Above(low, Insert(x, s, le), le)
  {
    if s == [] || le(x, s[0]) {
    } else {
      assert Above(low, s[1..], le);
      InsertStaysAbove(low, x, s[1..], le);
    }
  }

  lemma ConsSorts<T>(x: T, s: seq<T>, le: (T, T) -> bool)
    requires Sorted(s, le) && Above(x, s, le)
    ensures Sorted([x] + s, le)
  {
  }

  lemma {:induction false} InsertSorts<T(!new)>(x: T, s: seq<T>, le: (T, T) -> bool)
    requires TotalOrder(le) && Sorted(s, le)
    ensures Sorted(Insert(x, s, le), le)
  {
    if s == [] {
    } else if le(x, s[0]) {
      assert Above(x, s, le);
      ConsSorts(x, s, le);
    } else {
      InsertSorts(x, s[1..], le);
      assert Above(s[0], s[1..], le);
      InsertStaysAbove(s[0], x, s[1..], le);
      ConsSorts(s[0], Insert(x, s[1..], le), le);
    }
  }

  lemma SameElements<T>(a: seq<T>, b: seq<T>)
    requires multiset(a) == multiset(b)
    ensures |a| == |b| && forall x :: x in a <==> x in b
  {
    assert |multiset(a)| == |multiset(b)|;
    forall x ensures x in a <==> x in b {
      assert x in multiset(a) <==> x in multiset(b);
    }
  }

  lemma {:induction false} SortSorts<T(!new)>(s: seq<T>, le: (T, T) -> bool)
    requires TotalOrder(le)
    ensures Sorted(Sort(s, le), le) && multiset(Sort(s, le)) == multiset(s)
    ensures |Sort(s, le)| == |s| && forall x :: x in Sort(s, le) <==> x in s
  {
    if s != [] {
      SortSorts(s[1..], le);
      InsertSorts(s[0], Sort(s[1..], le), le);
      InsertAdds(s[0], Sort(s[1..], le), le);
      assert s == [s[0]] + s[1..];
    }
    SameElements(Sort(s, le), s);
  }

  /** Elements that are equivalent in the order are equal. */
  ghost predicate Antisymmetric<T>(s: seq<T>, le: (T, T) -> bool) {
    forall i, j :: 0 <= i < |s| && 0 <= j < |s| && le(s[i], s[j]) && le(s[j], s[i]) ==> s[i] == s[j]
  }

  lemma FirstIsLeast<T(!new)>(a: seq<T>, b: seq<T>, le: (T, T) -> bool)
    requires a != [] && b != [] && TotalOrder(le) && Sorted(a, le) && Sorted(b, le) && Antisymmetric(a, le)
    requires forall x :: x in a <==> x in b
    ensures a[0] == b[0]
  {
    assert a[0] in b && b[0] in a;
    var i :| 0 <= i < |b| && b[i] == a[0];
    var j :| 0 <= j < |a| && a[j] == b[0];
    assert le(b[0], b[i]) && le(a[0], a[j]);
  }

  lemma MultisetTail<T>(s: seq<T>)
    requires s != []
    ensures multiset(s[1..]) == multiset(s) - multiset{s[0]}
  {
    assert s == [s[0]] + s[1..];
  }

  lemma TailStays<T>(s: seq<T>, le: (T, T) -> bool)
    requires s != [] && Sorted(s, le)
    ensures Sorted(s[1..], le) && (Antisymmetric(s, le) ==> Antisymmetric(s[1..], le))
  {
    assert forall i :: 0 <= i < |s[1..]| ==> s[1..][i] == s[i + 1];
  }

  /** If equivalent elements are equal there is one sorted permutation, whatever algorithm finds it. */
  lemma {:induction false} SortedPermutationIsUnique<T(!new)>(a: seq<T>, b: seq<T>, le: (T, T) -> bool)
    requires TotalOrder(le) && Sorted(a, le) && Sorted(b, le) && Antisymmetric(a, le)
    requires multiset(a) == multiset(b)
    ensures a == b
  {
    SameFirst(a, b, le);
    if a != [] {
      TailStays(a, le);
      TailStays(b, le);
      SortedPermutationIsUnique(a[1..], b[1..], le);
      assert a == [a[0]] + a[1..] && b == [b[0]] + b[1..];
    }
  }

  lemma SameFirst<T(!new)>(a: seq<T>, b: seq<T>, le: (T, T) -> bool)
    requires TotalOrder(le) && Sorted(a, le) && Sorted(b, le) && Antisymmetric(a, le)
    requires multiset(a) == multiset(b)
    ensures |a| == |b| && (a != [] ==> a[0] == b[0] && multiset(a[1..]) == multiset(b[1..]))
  {
    SameElements(a, b);
    if a != [] {
      FirstIsLeast(a, b, le);
      MultisetTail(a);
      MultisetTail(b);
    }
  }

  // ---------------------------------------------------------------- images

  function Image<A, B>(f: A -> B, s: seq<A>): (r: seq<B>)
    ensures |r| == |s| && forall i :: 0 <= i < |s| ==> r[i] == f(s[i])
  {
    seq(|s|, i requires 0 <= i < |s| => f(s[i]))
  }

  /** `f` carries one order over into the other. */
  ghost predicate Carries<A(!new), B(!new)>(f: A -> B, a: (A, A) -> bool, b: (B, B) -> bool) {
    forall x, y :: a(x, y) <==> b(f(x), f(y))
  }

  lemma {:induction false} InsertCarries<A(!new), B(!new)>(
    f: A -> B, x: A, s: seq<A>, a: (A, A) -> bool, b: (B, B) -> bool)
    requires Carries(f, a, b)
    ensures Insert(f(x), Image(f, s), b) == Image(f, Insert(x, s, a))
  {
    if s != [] {
      assert a(x, s[0]) <==> b(f(x), f(s[0]));
      assert Image(f, s)[1..] == Image(f, s[1..]);
      InsertCarries(f, x, s[1..], a, b);
    }
  }

  /** Sorting the images is taking the images of the sorted. */
  lemma {:induction false} SortCarries<A(!new), B(!new)>(f: A -> B, s: seq<A>, a: (A, A) -> bool, b: (B, B) -> bool)
    requires Carries(f, a, b)
    ensures Sort(Image(f, s), b) == Image(f, Sort(s, a))
  {
    if s != [] {
      assert Image(f, s)[1..] == Image(f, s[1..]);
      SortCarries(f, s[1..], a, b);
      InsertCarries(f, s[0], Sort(s[1..], a), a, b);
    }
  }

  // ---------------------------------------------------------------- permutations

  lemma MultisetWithout<T>(s: seq<T>, i: nat)
    requires i < |s|
    ensures multiset(s[..i] + s[i + 1..]) == multiset(s) - multiset{s[i]}
  {
    assert s == s[..i] + [s[i]] + s[i + 1..];
  }

  lemma SameWithout<T>(a: seq<T>, b: seq<T>) returns (i: nat)
    requires a != [] && multiset(a) == multiset(b)
    ensures i < |b| && b[i] == Last(a) && multiset(Front(a)) == multiset(b[..i] + b[i + 1..])
  {
    assert Last(a) in multiset(b);
    i :| 0 <= i < |b| && b[i] == Last(a);
    MultisetWithout(b, i);
    assert a == Front(a) + [Last(a)];
  }

  /** Two places of a sequence have two places in every permutation of it. */
  lemma PairSurvives<T>(s: seq<T>, t: seq<T>, i: nat, j: nat) returns (k: nat, l: nat)
    requires multiset(s) == multiset(t) && i < j < |s|
    ensures k < |t| && l < |t| && k != l && t[k] == s[i] && t[l] == s[j]
  {
    assert s[i] in multiset(t);
    k :| 0 <= k < |t| && t[k] == s[i];
    MultisetWithout(s, i);
    MultisetWithout(t, k);
    var a, b := s[..i] + s[i + 1..], t[..k] + t[k + 1..];
    assert s[j] == a[j - 1] && s[j] in multiset(a) && multiset(a) == multiset(b);
    assert s[j] in multiset(b);
    var m :| 0 <= m < |b| && b[m] == s[j];
    l := if m < k then m else m + 1;
  }

  // ---------------------------------------------------------------- strings

  /** Byte-wise string comparison, `<=`. */
  predicate StringLe(a: string, b: string) {
    if a == "" then true
    else if b == "" then false
    else if a[0] != b[0] then a[0] < b[0]
    else StringLe(a[1..], b[1..])
  }

  lemma {:induction false} StringLeTotal(a: string, b: string)
    ensures StringLe(a, b) || StringLe(b, a)
    ensures StringLe(a, b) && StringLe(b, a) ==> a == b
  {
    if a != "" && b != "" && a[0] == b[0] {
      StringLeTotal(a[1..], b[1..]);
      assert a == [a[0]] + a[1..] && b == [b[0]] + b[1..];
    }
  }

  lemma {:induction false} StringLeTransitive(a: string, b: string, c: string)
    requires StringLe(a, b) && StringLe(b, c)
    ensures StringLe(a, c)
  {
    if a != "" && b != "" && c != "" && a[0] == b[0] == c[0] {
      StringLeTransitive(a[1..], b[1..], c[1..]);
    }
  }

  lemma StringLeIsTotalOrder()
    ensures TotalOrder(StringLe)
  {
    forall x, y ensures StringLe(x, y) || StringLe(y, x) { StringLeTotal(x, y); }
    forall x, y, z | StringLe(x, y) && StringLe(y, z) ensures StringLe(x, z) { StringLeTransitive(x, y, z); }
  }
}
