/** Sequence helpers shared by every module: an Option type, order-preserving
    filtering, subsequences, and the two de-duplication idioms the sources use
    (`xs.filter((x, i) => xs.indexOf(x) === i)` and "push unless already included"). */
module Common {

  datatype Option<T> = None | Some(value: T)

  datatype Result<T, E> = Ok(value: T) | Err(error: E)

  /** `a` can be obtained from `b` by deleting elements (order is kept). */
  predicate IsSubsequence<T(==)>(a: seq<T>, b: seq<T>)
    decreases |b|
  {
    if a == [] then true
    else if b == [] then false
    else (a[0] == b[0] && IsSubsequence(a[1..], b[1..])) || IsSubsequence(a, b[1..])
  }

  lemma {:induction false} SubsequenceElements<T>(a: seq<T>, b: seq<T>)
    requires IsSubsequence(a, b)
    ensures |a| <= |b|
    ensures forall x :: x in a ==> x in b
    decreases |b|
  {
    if a != [] && b != [] {
      if a[0] == b[0] && IsSubsequence(a[1..], b[1..]) {
        SubsequenceElements(a[1..], b[1..]);
        forall x | x in a ensures x in b {
          if x != a[0] { assert x in a[1..]; }
        }
      } else {
        SubsequenceElements(a, b[1..]);
      }
    }
  }

  lemma {:induction false} SubsequenceTransitive<T>(a: seq<T>, b: seq<T>, c: seq<T>)
    requires IsSubsequence(a, b) && IsSubsequence(b, c)
    ensures IsSubsequence(a, c)
    decreases |c|
  {
    if a != [] {
      if IsSubsequence(b, c[1..]) {
        SubsequenceTransitive(a, b, c[1..]);
      } else if a[0] == b[0] && IsSubsequence(a[1..], b[1..]) {
        SubsequenceTransitive(a[1..], b[1..], c[1..]);
      } else {
        SubsequenceTransitive(a, b[1..], c[1..]);
      }
    }
  }

  lemma {:induction false} SubsequenceOfSelf<T>(a: seq<T>)
    ensures IsSubsequence(a, a)
    decreases |a|
  {
    if a != [] { SubsequenceOfSelf(a[1..]); }
  }

  lemma {:induction false} PrefixIsSubsequence<T>(a: seq<T>, n: nat)
    requires n <= |a|
    ensures IsSubsequence(a[..n], a)
    decreases |a|
  {
    if n == 0 {
    } else {
      assert a[..n][0] == a[0];
      assert a[..n][1..] == a[1..][..n - 1];
      PrefixIsSubsequence(a[1..], n - 1);
    }
  }

  predicate NoDuplicates<T(==)>(xs: seq<T>)
  {
    forall i, j :: 0 <= i < j < |xs| ==> xs[i] != xs[j]
  }

  /** `Array.prototype.filter`: the elements satisfying `p`, in their original order. */
  function Filter<T>(xs: seq<T>, p: T -> bool): (r: seq<T>)
    ensures |r| <= |xs|
    ensures forall i :: 0 <= i < |r| ==> r[i] in xs && p(r[i])
    ensures forall i :: 0 <= i < |xs| && p(xs[i]) ==> xs[i] in r
    ensures IsSubsequence(r, xs)
    decreases |xs|
  {
    if xs == [] then []
    else if p(xs[0]) then [xs[0]] + Filter(xs[1..], p)
    else Filter(xs[1..], p)
  }

  /** Every element kept by a filter is kept as often as it occurs, and the others not at
      all; with `IsSubsequence` this pins the result down completely. */
  lemma {:induction false} FilterMultiplicity<T>(xs: seq<T>, p: T -> bool)
    ensures forall x :: multiset(Filter(xs, p))[x] == if p(x) then multiset(xs)[x] else 0
    decreases |xs|
  {
    if xs != [] {
      FilterMultiplicity(xs[1..], p);
      assert xs == [xs[0]] + xs[1..];
    }
  }

  lemma {:induction false} FilterAll<T>(xs: seq<T>, p: T -> bool)
    requires forall x :: x in xs ==> p(x)
    ensures Filter(xs, p) == xs
    decreases |xs|
  {
    if xs != [] { FilterAll(xs[1..], p); }
  }

  lemma {:induction false} FilterNoDuplicates<T>(xs: seq<T>, p: T -> bool)
    requires NoDuplicates(xs)
    ensures NoDuplicates(Filter(xs, p))
    decreases |xs|
  {
    if xs != [] {
      FilterNoDuplicates(xs[1..], p);
      var r := Filter(xs[1..], p);
      assert xs[0] !in xs[1..] by {
        forall k | 0 <= k < |xs[1..]| ensures xs[1..][k] != xs[0] { assert xs[1..][k] == xs[k + 1]; }
      }
      if p(xs[0]) {
        var out := [xs[0]] + r;
        forall i, j | 0 <= i < j < |out| ensures out[i] != out[j] {
          if i == 0 { assert out[j] == r[j - 1]; assert r[j - 1] in r; } else { assert out[i] == r[i - 1] && out[j] == r[j - 1]; }
        }
      }
    }
  }

  lemma {:induction false} FilterAppend<T>(a: seq<T>, b: seq<T>, p: T -> bool)
    ensures Filter(a + b, p) == Filter(a, p) + Filter(b, p)
    decreases |a|
  {
    if a == [] {
      assert a + b == b;
    } else {
      var head := if p(a[0]) then [a[0]] else [];
      assert (a + b)[0] == a[0] && (a + b)[1..] == a[1..] + b;
      assert Filter(a + b, p) == head + Filter(a[1..] + b, p);
      assert Filter(a, p) == head + Filter(a[1..], p);
      FilterAppend(a[1..], b, p);
      AppendAssoc(head, Filter(a[1..], p), Filter(b, p));
    }
  }

  /** `r` holds between every element and each later one. */
  predicate Pairwise<T>(xs: seq<T>, r: (T, T) -> bool)
  {
    forall i, j :: 0 <= i < j < |xs| ==> r(xs[i], xs[j])
  }

  /** A pairwise relation on `[x] + ys`: `x` relates to every later element, and `ys` is pairwise. */
  lemma PairwiseCons<T>(x: T, ys: seq<T>, r: (T, T) -> bool)
    ensures Pairwise([x] + ys, r) <==> (forall k :: 0 <= k < |ys| ==> r(x, ys[k])) && Pairwise(ys, r)
  {
    var xs := [x] + ys;
    if Pairwise(xs, r) {
      forall k | 0 <= k < |ys| ensures r(x, ys[k]) { assert xs[0] == x && xs[k + 1] == ys[k]; }
      forall i, j | 0 <= i < j < |ys| ensures r(ys[i], ys[j]) { assert xs[i + 1] == ys[i] && xs[j + 1] == ys[j]; }
    }
    if (forall k :: 0 <= k < |ys| ==> r(x, ys[k])) && Pairwise(ys, r) {
      forall i, j | 0 <= i < j < |xs| ensures r(xs[i], xs[j]) {
        if i == 0 { assert xs[j] == ys[j - 1]; } else { assert xs[i] == ys[i - 1] && xs[j] == ys[j - 1]; }
      }
    }
  }

  /** Filtering keeps a pairwise relation: it only deletes elements. */
  lemma {:induction false} FilterPairwise<T>(xs: seq<T>, p: T -> bool, r: (T, T) -> bool)
    requires Pairwise(xs, r)
    ensures Pairwise(Filter(xs, p), r)
    decreases |xs|
  {
    if xs != [] {
      var rest := xs[1..];
      assert xs == [xs[0]] + rest;
      PairwiseCons(xs[0], rest, r);
      FilterPairwise(rest, p, r);
      if p(xs[0]) {
        var fr := Filter(rest, p);
        forall k | 0 <= k < |fr| ensures r(xs[0], fr[k]) {
          var m :| 0 <= m < |rest| && rest[m] == fr[k];
        }
        PairwiseCons(xs[0], fr, r);
      }
    }
  }

  /** Filters with pointwise equal predicates agree. */
  lemma {:induction false} FilterSame<T>(xs: seq<T>, p: T -> bool, q: T -> bool)
    requires forall x :: p(x) == q(x)
    ensures Filter(xs, p) == Filter(xs, q)
    decreases |xs|
  {
    if xs != [] { FilterSame(xs[1..], p, q); }
  }

  /** `Array.prototype.indexOf`: the first index holding `x`, or -1. */
  function IndexOf<T(==)>(xs: seq<T>, x: T): (r: int)
    ensures r == -1 <==> x !in xs
    ensures 0 <= r ==> r < |xs| && xs[r] == x && x !in xs[..r]
    ensures forall j :: 0 <= j < |xs| && xs[j] == x ==> 0 <= r <= j
    decreases |xs|
  {
    if xs == [] then -1
    else if xs[0] == x then 0
    else
      var k := IndexOf(xs[1..], x);
      assert k >= 0 ==> xs[..k + 1] == [xs[0]] + xs[1..][..k];
      if k < 0 then -1 else k + 1
  }

  /** The elements at positions `from..` that are the first occurrence of their value in `xs`. */
  function KeepFirstFrom<T(==)>(xs: seq<T>, from: nat): seq<T>
    requires from <= |xs|
    decreases |xs| - from
  {
    if from == |xs| then []
    else (if IndexOf(xs, xs[from]) == from then [xs[from]] else []) + KeepFirstFrom(xs, from + 1)
  }

  /** `xs.filter((x, index) => xs.indexOf(x) === index)`, the de-duplication idiom of the sources. */
  function Unique<T(==)>(xs: seq<T>): seq<T>
  {
    KeepFirstFrom(xs, 0)
  }

  /** "Push each element unless it is already included", starting from `acc`. */
  function DedupInto<T(==)>(acc: seq<T>, xs: seq<T>): seq<T>
    decreases |xs|
  {
    if xs == [] then acc
    else DedupInto(if xs[0] in acc then acc else acc + [xs[0]], xs[1..])
  }

  lemma {:induction false} DedupIntoPrefix<T>(acc: seq<T>, xs: seq<T>)
    ensures |acc| <= |DedupInto(acc, xs)| && DedupInto(acc, xs)[..|acc|] == acc
    decreases |xs|
  {
    if xs != [] {
      var acc' := if xs[0] in acc then acc else acc + [xs[0]];
      DedupIntoPrefix(acc', xs[1..]);
      var r := DedupInto(acc', xs[1..]);
      assert r[..|acc|] == r[..|acc'|][..|acc|];
    }
  }

  lemma {:induction false} DedupIntoElements<T>(acc: seq<T>, xs: seq<T>)
    ensures forall x :: x in DedupInto(acc, xs) <==> x in acc || x in xs
    decreases |xs|
  {
    if xs != [] {
      var acc' := if xs[0] in acc then acc else acc + [xs[0]];
      DedupIntoElements(acc', xs[1..]);
      forall x ensures x in xs <==> x == xs[0] || x in xs[1..] {
        if x in xs[1..] { var k :| 0 <= k < |xs[1..]| && xs[1..][k] == x; assert xs[k + 1] == x; }
      }
    }
  }

  lemma {:induction false} DedupIntoNoDuplicates<T>(acc: seq<T>, xs: seq<T>)
    requires NoDuplicates(acc)
    ensures NoDuplicates(DedupInto(acc, xs))
    decreases |xs|
  {
    if xs != [] {
      var acc' := if xs[0] in acc then acc else acc + [xs[0]];
      assert NoDuplicates(acc');
      DedupIntoNoDuplicates(acc', xs[1..]);
    }
  }

  lemma {:induction false} DedupIntoOrder<T>(acc: seq<T>, xs: seq<T>)
    ensures |acc| <= |DedupInto(acc, xs)|
    ensures IsSubsequence(DedupInto(acc, xs)[|acc|..], xs)
    decreases |xs|
  {
    DedupIntoPrefix(acc, xs);
    if xs != [] {
      var acc' := if xs[0] in acc then acc else acc + [xs[0]];
      DedupIntoOrder(acc', xs[1..]);
      DedupIntoPrefix(acc', xs[1..]);
      var r := DedupInto(acc', xs[1..]);
      if xs[0] in acc {
        assert IsSubsequence(r[|acc|..], xs);
      } else {
        assert r[..|acc'|] == acc';
        assert r[|acc|..][0] == xs[0];
        assert r[|acc|..][1..] == r[|acc'|..];
      }
    } else {
      SubsequenceOfSelf<T>([]);
    }
  }

  /** `indexOf` finds position `from` exactly when its element does not occur earlier. */
  lemma FirstOccurrence<T>(xs: seq<T>, from: nat)
    requires from < |xs|
    ensures IndexOf(xs, xs[from]) == from <==> xs[from] !in xs[..from]
  {
    var k := IndexOf(xs, xs[from]);
    if k < from { assert xs[..from][k] == xs[from]; }
  }

  /** The two de-duplication idioms agree: the indexOf filter equals "push unless included". */
  lemma {:induction false} KeepFirstIsDedup<T>(xs: seq<T>, from: nat, acc: seq<T>)
    requires from <= |xs|
    requires forall x :: x in acc <==> x in xs[..from]
    ensures DedupInto(acc, xs[from..]) == acc + KeepFirstFrom(xs, from)
    decreases |xs| - from
  {
    if from == |xs| {
      assert xs[from..] == [];
    } else {
      var x := xs[from];
      assert xs[from..][0] == x && xs[from..][1..] == xs[from + 1..];
      assert xs[..from + 1] == xs[..from] + [x];
      FirstOccurrence(xs, from);
      if x in acc {
        KeepFirstIsDedup(xs, from + 1, acc);
      } else {
        KeepFirstIsDedup(xs, from + 1, acc + [x]);
      }
    }
  }

  lemma UniqueIsDedup<T>(xs: seq<T>)
    ensures Unique(xs) == DedupInto([], xs)
  {
    KeepFirstIsDedup(xs, 0, []);
    assert xs[0..] == xs;
  }

  /** What `Unique` promises: no repeats, the same elements, first-occurrence order. */
  lemma UniqueProperties<T>(xs: seq<T>)
    ensures NoDuplicates(Unique(xs))
    ensures forall x :: x in Unique(xs) <==> x in xs
    ensures IsSubsequence(Unique(xs), xs)
    ensures |Unique(xs)| <= |xs|
    ensures Unique(xs) == [] <==> xs == []
  {
    UniqueIsDedup(xs);
    DedupIntoElements([], xs);
    DedupIntoNoDuplicates([], xs);
    DedupIntoOrder([], xs);
    assert DedupInto([], xs)[0..] == DedupInto([], xs);
    SubsequenceElements(Unique(xs), xs);
    if xs != [] { assert xs[0] in Unique(xs); }
  }

  /** Elements `DedupInto` appends were not in the accumulator and come from `xs`. */
  lemma {:induction false} DedupIntoFresh<T>(acc: seq<T>, xs: seq<T>)
    ensures forall k :: |acc| <= k < |DedupInto(acc, xs)| ==> DedupInto(acc, xs)[k] !in acc && DedupInto(acc, xs)[k] in xs
    decreases |xs|
  {
    DedupIntoPrefix(acc, xs);
    if xs != [] {
      var acc' := if xs[0] in acc then acc else acc + [xs[0]];
      DedupIntoFresh(acc', xs[1..]);
      DedupIntoPrefix(acc', xs[1..]);
      var r := DedupInto(acc', xs[1..]);
      forall k | |acc| <= k < |r| ensures r[k] !in acc && r[k] in xs {
        if k >= |acc'| {
          assert r[k] in xs[1..];
        } else {
          assert r[k] == r[..|acc'|][k] == xs[0];
        }
      }
    }
  }

  /** The appended elements appear in the order of their first occurrence in `xs`. */
  lemma {:induction false} DedupIntoFirstOrder<T>(acc: seq<T>, xs: seq<T>)
    ensures forall i, j :: |acc| <= i < j < |DedupInto(acc, xs)| ==>
      0 <= IndexOf(xs, DedupInto(acc, xs)[i]) < IndexOf(xs, DedupInto(acc, xs)[j])
    decreases |xs|
  {
    if xs != [] {
      var acc' := if xs[0] in acc then acc else acc + [xs[0]];
      DedupIntoFirstOrder(acc', xs[1..]);
      DedupIntoFresh(acc', xs[1..]);
      DedupIntoPrefix(acc', xs[1..]);
      var r := DedupInto(acc', xs[1..]);
      forall k | |acc'| <= k < |r| ensures IndexOf(xs, r[k]) == IndexOf(xs[1..], r[k]) + 1 >= 1 {
        assert r[k] != xs[0];
      }
      forall i, j | |acc| <= i < j < |r| ensures 0 <= IndexOf(xs, r[i]) < IndexOf(xs, r[j]) {
        if i < |acc'| {
          assert r[i] == r[..|acc'|][i] == xs[0];
          assert IndexOf(xs, r[i]) == 0;
        } else {
          assert 0 <= IndexOf(xs[1..], r[i]) < IndexOf(xs[1..], r[j]);
        }
      }
      assert DedupInto(acc, xs) == r;
      assert forall i, j :: |acc| <= i < j < |r| ==> 0 <= IndexOf(xs, r[i]) < IndexOf(xs, r[j]);
    } else {
      assert DedupInto(acc, xs) == acc;
    }
  }

  /** `xs.reduce((total, x) => total + f(x), 0)`. */
  function SumBy<T>(xs: seq<T>, f: T -> real): real
    decreases |xs|
  {
    if xs == [] then 0.0 else SumBy(xs[..|xs| - 1], f) + f(xs[|xs| - 1])
  }

  lemma {:induction false} SumByAppend<T>(a: seq<T>, b: seq<T>, f: T -> real)
    ensures SumBy(a + b, f) == SumBy(a, f) + SumBy(b, f)
    decreases |b|
  {
    if b == [] {
      assert a + b == a;
    } else {
      assert (a + b)[..|a + b| - 1] == a + b[..|b| - 1];
      SumByAppend(a, b[..|b| - 1], f);
    }
  }

  /** The sum does not depend on the order of the elements. */
  lemma {:induction false} SumByPermutation<T>(a: seq<T>, b: seq<T>, f: T -> real)
    requires multiset(a) == multiset(b)
    ensures SumBy(a, f) == SumBy(b, f)
    decreases |a|
  {
    if a == [] {
      assert |b| == |multiset(b)| == 0;
    } else {
      var x := a[|a| - 1];
      assert a == a[..|a| - 1] + [x];
      assert x in multiset(b);
      var k :| 0 <= k < |b| && b[k] == x;
      assert b == b[..k] + [x] + b[k + 1..];
      var b' := b[..k] + b[k + 1..];
      assert multiset(b') == multiset(b) - multiset{x};
      assert multiset(a[..|a| - 1]) == multiset(a) - multiset{x};
      SumByPermutation(a[..|a| - 1], b', f);
      SumByAppend(b[..k] + [x], b[k + 1..], f);
      SumByAppend(b[..k], b[k + 1..], f);
      assert (b[..k] + [x])[..|b[..k] + [x]| - 1] == b[..k];
    }
  }

  /** Concatenation of a sequence of sequences. */
  function Flatten<T>(xss: seq<seq<T>>): seq<T>
    decreases |xss|
  {
    if xss == [] then [] else xss[0] + Flatten(xss[1..])
  }

  function SumLengths<T>(xss: seq<seq<T>>): nat
    decreases |xss|
  {
    if xss == [] then 0 else |xss[0]| + SumLengths(xss[1..])
  }

  lemma {:induction false} FlattenLength<T>(xss: seq<seq<T>>)
    ensures |Flatten(xss)| == SumLengths(xss)
    decreases |xss|
  {
    if xss != [] { FlattenLength(xss[1..]); }
  }

  predicate IsPrefix<T(==)>(a: seq<T>, b: seq<T>)
  {
    |a| <= |b| && b[..|a|] == a
  }

  lemma PrefixOfAppend<T>(x: seq<T>, y: seq<T>, z: seq<T>)
    ensures IsPrefix(x, x + y + z)
  {
    assert (x + y + z)[..|x|] == x;
  }

  lemma SuffixOfAppend<T>(x: seq<T>, y: seq<T>, z: seq<T>)
    ensures |z| <= |x + (y + z)| && (x + (y + z))[|x + (y + z)| - |z|..] == z
  {
    assert (x + (y + z))[|x + (y + z)| - |z|..] == z;
  }

  lemma AppendAssoc<T>(a: seq<T>, b: seq<T>, c: seq<T>)
    ensures (a + b) + c == a + (b + c)
  {
  }
}
