/** Sums over sequences, stable sorting and permutations, shared by every component. */
module Sequences {

  datatype Option<+T> = None | Some(value: T)

  datatype Result<+R, +E> = Success(value: R) | Failure(error: E)

  // ----- sums -----

  function SumBy<T>(s: seq<T>, f: T -> int): int {
    if s == [] then 0 else f(s[0]) + SumBy(s[1..], f)
  }

  function TotalBy<T>(s: seq<T>, f: T -> real): real {
    if s == [] then 0.0 else f(s[0]) + TotalBy(s[1..], f)
  }

  lemma SumByConcat<T>(a: seq<T>, b: seq<T>, f: T -> int)
    ensures SumBy(a + b, f) == SumBy(a, f) + SumBy(b, f)
  {
    if a == [] {
      assert a + b == b;
    } else {
      assert (a + b)[1..] == a[1..] + b;
      SumByConcat(a[1..], b, f);
    }
  }

  lemma TotalByConcat<T>(a: seq<T>, b: seq<T>, f: T -> real)
    ensures TotalBy(a + b, f) == TotalBy(a, f) + TotalBy(b, f)
  {
    if a == [] {
      assert a + b == b;
    } else {
      assert (a + b)[1..] == a[1..] + b;
      TotalByConcat(a[1..], b, f);
    }
  }

  /** Taking one element out of a sequence takes its value out of the sum. */
  lemma SumByRemove<T>(s: seq<T>, k: nat, f: T -> int)
    requires k < |s|
    ensures SumBy(s, f) == f(s[k]) + SumBy(s[..k] + s[k + 1..], f)
  {
    var tail := s[k..];
    assert s == s[..k] + tail && tail[0] == s[k] && tail[1..] == s[k + 1..];
    SumByConcat(s[..k], tail, f);
    SumByConcat(s[..k], s[k + 1..], f);
  }

  lemma TotalByRemove<T>(s: seq<T>, k: nat, f: T -> real)
    requires k < |s|
    ensures TotalBy(s, f) == f(s[k]) + TotalBy(s[..k] + s[k + 1..], f)
  {
    var tail := s[k..];
    assert s == s[..k] + tail && tail[0] == s[k] && tail[1..] == s[k + 1..];
    TotalByConcat(s[..k], tail, f);
    TotalByConcat(s[..k], s[k + 1..], f);
  }

  /** Replacing one element changes the sum by the difference of the two values. */
  lemma SumByUpdate<T>(s: seq<T>, k: nat, x: T, f: T -> int)
    requires k < |s|
    ensures SumBy(s[k := x], f) == SumBy(s, f) - f(s[k]) + f(x)
  {
    var t := s[k := x];
    SumByRemove(s, k, f);
    SumByRemove(t, k, f);
    assert t[..k] + t[k + 1..] == s[..k] + s[k + 1..];
  }

  /** The element a permutation starts with can be found and cut out of the other side. */
  lemma CutPermutation<T>(a: seq<T>, b: seq<T>) returns (k: nat)
    requires a != [] && multiset(a) == multiset(b)
    ensures k < |b| && b[k] == a[0]
    ensures multiset(a[1..]) == multiset(b[..k] + b[k + 1..])
  {
    assert a[0] in multiset(b);
    k :| 0 <= k < |b| && b[k] == a[0];
    assert a == [a[0]] + a[1..];
    MultisetWithout(b, k);
    assert multiset(a[1..]) == multiset(a) - multiset{a[0]};
  }

  lemma MultisetWithout<T>(s: seq<T>, k: nat)
    requires k < |s|
    ensures multiset(s[..k] + s[k + 1..]) == multiset(s) - multiset{s[k]}
  {
    assert s == s[..k] + [s[k]] + s[k + 1..];
  }

  lemma SumByPermutation<T>(a: seq<T>, b: seq<T>, f: T -> int)
    requires multiset(a) == multiset(b)
    ensures SumBy(a, f) == SumBy(b, f)
    decreases |a|
  {
    if a == [] {
      assert |multiset(b)| == 0;
    } else {
      var k := CutPermutation(a, b);
      SumByRemove(b, k, f);
      SumByPermutation(a[1..], b[..k] + b[k + 1..], f);
    }
  }

  lemma TotalByPermutation<T>(a: seq<T>, b: seq<T>, f: T -> real)
    requires multiset(a) == multiset(b)
    ensures TotalBy(a, f) == TotalBy(b, f)
    decreases |a|
  {
    if a == [] {
      assert |multiset(b)| == 0;
    } else {
      var k := CutPermutation(a, b);
      TotalByRemove(b, k, f);
      TotalByPermutation(a[1..], b[..k] + b[k + 1..], f);
    }
  }

  // ----- the stable sort of ECMAScript -----

  ghost predicate TotalPreorder<T(!new)>(le: (T, T) -> bool) {
    && (forall x, y :: le(x, y) || le(y, x))
    && (forall x, y, z :: le(x, y) && le(y, z) ==> le(x, z))
  }

  ghost predicate Sorted<T>(s: seq<T>, le: (T, T) -> bool) {
    forall i, j :: 0 <= i < j < |s| ==> le(s[i], s[j])
  }

  function Insert<T>(x: T, s: seq<T>, le: (T, T) -> bool): seq<T> {
    if s == [] || le(x, s[0]) then [x] + s else [s[0]] + Insert(x, s[1..], le)
  }

  /** `Array.prototype.sort` for a comparator whose "not after" relation is `le`. */
  function Sort<T>(s: seq<T>, le: (T, T) -> bool): seq<T> {
    if s == [] then [] else Insert(s[0], Sort(s[1..], le), le)
  }

  lemma {:induction false} InsertKeeps<T>(x: T, s: seq<T>, le: (T, T) -> bool)
    ensures multiset(Insert(x, s, le)) == multiset(s) + multiset{x}
  {
    if s == [] || le(x, s[0]) {
    } else {
      InsertKeeps(x, s[1..], le);
      assert s == [s[0]] + s[1..];
    }
  }

  lemma {:induction false} InsertSorts<T(!new)>(x: T, s: seq<T>, le: (T, T) -> bool)
    requires TotalPreorder(le) && Sorted(s, le)
    ensures Sorted(Insert(x, s, le), le)
  {
    if s == [] {
    } else if le(x, s[0]) {
      assert forall j :: 0 <= j < |s| ==> le(s[0], s[j]);
    } else {
      InsertSorts(x, s[1..], le);
      var r := Insert(x, s[1..], le);
      InsertKeeps(x, s[1..], le);
      forall j | 0 <= j < |r| ensures le(s[0], r[j]) {
        assert r[j] in multiset(r);
        assert r[j] == x || r[j] in s[1..];
      }
    }
  }

  /** The result is a sorted rearrangement of the input. */
  lemma {:induction false} SortCorrect<T(!new)>(s: seq<T>, le: (T, T) -> bool)
    requires TotalPreorder(le)
    ensures Sorted(Sort(s, le), le)
    ensures multiset(Sort(s, le)) == multiset(s)
    ensures |Sort(s, le)| == |s|
  {
    if s == [] {
    } else {
      SortCorrect(s[1..], le);
      InsertSorts(s[0], Sort(s[1..], le), le);
      InsertKeeps(s[0], Sort(s[1..], le), le);
      assert s == [s[0]] + s[1..];
    }
    assert |multiset(Sort(s, le))| == |multiset(s)|;
  }

  /** Stability: an input that is already in order is returned as it stands. */
  lemma {:induction false} SortFixpoint<T>(s: seq<T>, le: (T, T) -> bool)
    requires Sorted(s, le)
    ensures Sort(s, le) == s
  {
    if s != [] {
      SortFixpoint(s[1..], le);
      if |s| > 1 {
        assert le(s[0], s[1]);
      }
    }
  }

  // ----- sequences without repetition -----

  ghost predicate NoDuplicates<T>(s: seq<T>) {
    forall i, j :: 0 <= i < j < |s| ==> s[i] != s[j]
  }

  lemma {:induction false} MultiplicityOne<T>(s: seq<T>, x: T)
    requires NoDuplicates(s)
    ensures multiset(s)[x] <= 1
  {
    if s != [] {
      assert s == [s[0]] + s[1..];
      MultiplicityOne(s[1..], x);
      assert s[0] !in s[1..];
    }
  }

  lemma RepeatedElement<T>(s: seq<T>, i: nat, j: nat)
    requires i < j < |s| && s[i] == s[j]
    ensures multiset(s)[s[i]] >= 2
  {
    assert s == s[..j] + s[j..];
    assert s[..j][i] == s[i] && s[j..][0] == s[i];
    assert s[i] in multiset(s[..j]) && s[i] in multiset(s[j..]);
  }

  lemma PermutationNoDuplicates<T>(a: seq<T>, b: seq<T>)
    requires NoDuplicates(a) && multiset(a) == multiset(b)
    ensures NoDuplicates(b)
  {
    forall i, j | 0 <= i < j < |b| ensures b[i] != b[j] {
      MultiplicityOne(a, b[i]);
      if b[i] == b[j] {
        RepeatedElement(b, i, j);
      }
    }
  }

  // ----- products -----

  lemma MulOrder(m: int, a: int, b: int)
    requires m > 0
    ensures m * a < m * b <==> a < b
  {
    if a < b {
      assert m * (b - a) > 0;
    } else {
      assert m * (a - b) >= 0;
    }
  }

  lemma Distribute(m: int, a: int, b: int)
    ensures m * (a + b) == m * a + m * b
    ensures m * (a - b) == m * a - m * b
  {
  }

  lemma SmallModulus(a: nat, n: nat)
    requires a < n
    ensures a % n == a
  {
  }

  /** Quotients and remainders are ordered like the numbers they stand for. */
  lemma QuotientOrder(m: int, qa: int, ra: int, qb: int, rb: int)
    requires 0 <= ra < m && 0 <= rb < m && m * qa + ra >= m * qb + rb
    ensures qa >= qb
    ensures qa == qb ==> ra >= rb
  {
    Distribute(m, qb, qa);
    MulOrder(m, qb - qa, 1);
  }
}
