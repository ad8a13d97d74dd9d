/**
 The list mergesort of HASH_SRT as a function on sequences, and what it computes: the sorted
 sequence in which elements that compare equal keep their order. There is only one such sequence.
 */
module StableSort {

  /** `leq` is total and transitive on the elements of `u` (a comparator with cmp(x, y) <= 0). */
  ghost predicate TotalPreorder<T>(leq: (T, T) -> bool, u: set<T>)
  {
    && (forall x, y | x in u && y in u :: leq(x, y) || leq(y, x))
    && (forall x, y, z | x in u && y in u && z in u :: leq(x, y) && leq(y, z) ==> leq(x, z))
  }

  ghost predicate Within<T>(s: seq<T>, u: set<T>)
  {
    forall i | 0 <= i < |s| :: s[i] in u
  }

  ghost predicate Sorted<T>(leq: (T, T) -> bool, s: seq<T>)
  {
    forall i, j | 0 <= i < j < |s| :: leq(s[i], s[j])
  }

  predicate Same<T>(leq: (T, T) -> bool, x: T, y: T)
  {
    leq(x, y) && leq(y, x)
  }

  /** The elements of `s` that compare equal to `x`, in their order in `s`. */
  function Class<T>(leq: (T, T) -> bool, x: T, s: seq<T>): seq<T>
  {
    if s == [] then [] else (if Same(leq, x, s[0]) then [s[0]] else []) + Class(leq, x, s[1..])
  }

  ghost predicate SameOrderInClasses<T>(leq: (T, T) -> bool, u: set<T>, s: seq<T>, t: seq<T>)
  {
    forall x | x in u :: Class(leq, x, s) == Class(leq, x, t)
  }

  // ----- the algorithm

  /** One merge of two neighbouring runs; a tie takes from the left run. */
  function Merge<T>(leq: (T, T) -> bool, p: seq<T>, q: seq<T>): (r: seq<T>)
    ensures |r| == |p| + |q|
  {
    if p == [] then q
    else if q == [] then p
    else if leq(p[0], q[0]) then [p[0]] + Merge(leq, p[1..], q)
    else [q[0]] + Merge(leq, p, q[1..])
  }

  function Min(a: nat, b: nat): nat
  {
    if a <= b then a else b
  }

  /** The first run of w elements, the run after it, and what follows the two. */
  function Left<T>(s: seq<T>, w: nat): (r: seq<T>)
    ensures |r| <= |s| && |r| == Min(w, |s|)
  {
    s[..Min(w, |s|)]
  }

  function Right<T>(s: seq<T>, w: nat): (r: seq<T>)
    ensures |r| == Min(2 * w, |s|) - Min(w, |s|)
  {
    s[Min(w, |s|)..Min(2 * w, |s|)]
  }

  function Rest<T>(s: seq<T>, w: nat): (r: seq<T>)
    ensures |r| == |s| - Min(2 * w, |s|)
  {
    s[Min(2 * w, |s|)..]
  }

  lemma SplitRuns<T>(s: seq<T>, w: nat)
    ensures s == Left(s, w) + Right(s, w) + Rest(s, w)
  {
  }

  lemma SplitWithin<T>(s: seq<T>, w: nat, u: set<T>)
    requires Within(s, u)
    ensures Within(Left(s, w), u) && Within(Right(s, w), u) && Within(Rest(s, w), u)
  {
  }

  /** One pass over the list: runs of length w are merged pairwise. */
  function Pass<T>(leq: (T, T) -> bool, s: seq<T>, w: nat): (r: seq<T>)
    requires w > 0
    ensures |r| == |s|
    decreases |s|
  {
    if s == [] then []
    else
      Merge(leq, Left(s, w), Right(s, w)) + Pass(leq, Rest(s, w), w)
  }

  /** The number of merges a pass performs. */
  function Merges(n: nat, w: nat): (m: nat)
    requires w > 0
    ensures m <= 1 <==> n <= 2 * w
  {
    if n == 0 then 0 else if n <= 2 * w then 1 else 1 + Merges(n - 2 * w, w)
  }

  /** The whole sort: the run length doubles until one merge covers the list. */
  function MergeSort<T>(leq: (T, T) -> bool, s: seq<T>, w: nat): (r: seq<T>)
    requires w > 0
    ensures |r| == |s|
    decreases |s| - w
  {
    var t := Pass(leq, s, w);
    if Merges(|s|, w) <= 1 then t else MergeSort(leq, t, 2 * w)
  }

  // ----- classes

  lemma {:induction false} ClassOfConcat<T>(leq: (T, T) -> bool, x: T, s: seq<T>, t: seq<T>)
    ensures Class(leq, x, s + t) == Class(leq, x, s) + Class(leq, x, t)
  {
    if s == [] {
      assert s + t == t;
    } else {
      assert (s + t)[1..] == s[1..] + t;
      ClassOfConcat(leq, x, s[1..], t);
      Regroup(if Same(leq, x, s[0]) then [s[0]] else [], Class(leq, x, s[1..]), Class(leq, x, t));
    }
  }

  lemma {:induction false} ClassEmpty<T>(leq: (T, T) -> bool, x: T, s: seq<T>)
    requires forall i | 0 <= i < |s| :: !Same(leq, x, s[i])
    ensures Class(leq, x, s) == []
  {
    if s != [] {
      ClassEmpty(leq, x, s[1..]);
    }
  }

  lemma {:induction false} InClass<T>(leq: (T, T) -> bool, x: T, s: seq<T>, y: T)
    ensures y in Class(leq, x, s) <==> y in s && Same(leq, x, y)
  {
    if s != [] {
      InClass(leq, x, s[1..], y);
      assert s == [s[0]] + s[1..];
    }
  }

  // ----- merging

  lemma {:induction false} MergePermutes<T>(leq: (T, T) -> bool, p: seq<T>, q: seq<T>)
    ensures multiset(Merge(leq, p, q)) == multiset(p) + multiset(q)
    decreases |p| + |q|
  {
    if p != [] && q != [] {
      if leq(p[0], q[0]) {
        MergePermutes(leq, p[1..], q);
        MultisetOfCons(p, Merge(leq, p, q), Merge(leq, p[1..], q));
      } else {
        MergePermutes(leq, p, q[1..]);
        MultisetOfCons(q, Merge(leq, p, q), Merge(leq, p, q[1..]));
      }
    }
  }

  lemma MultisetOfCons<T>(s: seq<T>, r: seq<T>, t: seq<T>)
    requires s != [] && r == [s[0]] + t
    ensures multiset(s) == multiset{s[0]} + multiset(s[1..])
    ensures multiset(r) == multiset{s[0]} + multiset(t)
  {
    assert s == [s[0]] + s[1..];
  }

  /** `x` is at most every element of `s`. */
  ghost predicate Below<T>(leq: (T, T) -> bool, x: T, s: seq<T>)
  {
    forall i | 0 <= i < |s| :: leq(x, s[i])
  }

  lemma BelowTail<T>(leq: (T, T) -> bool, u: set<T>, x: T, s: seq<T>)
    requires TotalPreorder(leq, u) && Within(s, u) && x in u && Sorted(leq, s)
    requires s != [] ==> leq(x, s[0])
    ensures Below(leq, x, s)
  {
    forall i | 0 <= i < |s| ensures leq(x, s[i]) {
      assert s[0] in u && s[i] in u && leq(s[0], s[0]);
    }
  }

  lemma {:induction false} BelowMerge<T>(leq: (T, T) -> bool, x: T, p: seq<T>, q: seq<T>)
    requires Below(leq, x, p) && Below(leq, x, q)
    ensures Below(leq, x, Merge(leq, p, q))
    decreases |p| + |q|
  {
    if p != [] && q != [] {
      if leq(p[0], q[0]) {
        BelowMerge(leq, x, p[1..], q);
      } else {
        BelowMerge(leq, x, p, q[1..]);
      }
    }
  }

  lemma {:induction false} MergeSorted<T>(leq: (T, T) -> bool, u: set<T>, p: seq<T>, q: seq<T>)
    requires TotalPreorder(leq, u) && Within(p, u) && Within(q, u)
    requires Sorted(leq, p) && Sorted(leq, q)
    ensures Within(Merge(leq, p, q), u)
    ensures Sorted(leq, Merge(leq, p, q))
    decreases |p| + |q|
  {
    if p != [] && q != [] {
      assert p[0] in u && q[0] in u;
      if leq(p[0], q[0]) {
        MergeSorted(leq, u, p[1..], q);
        BelowTail(leq, u, p[0], p[1..]);
        BelowTail(leq, u, p[0], q);
        BelowMerge(leq, p[0], p[1..], q);
      } else {
        MergeSorted(leq, u, p, q[1..]);
        BelowTail(leq, u, q[0], p);
        BelowTail(leq, u, q[0], q[1..]);
        BelowMerge(leq, q[0], p, q[1..]);
      }
    }
  }

  lemma FirstIsLeast<T>(leq: (T, T) -> bool, u: set<T>, s: seq<T>, x: T)
    requires TotalPreorder(leq, u) && Within(s, u) && Sorted(leq, s) && x in s
    ensures leq(s[0], x)
  {
    BelowTail(leq, u, s[0], s);
  }

  /** If x's equals would be passed over by q's first element, the left run holds none of them. */
  lemma NoEqualsLeft<T>(leq: (T, T) -> bool, u: set<T>, p: seq<T>, y: T, x: T)
    requires TotalPreorder(leq, u) && Within(p, u) && x in u && y in u
    requires Sorted(leq, p) && p != [] && !leq(p[0], y) && Same(leq, x, y)
    ensures Class(leq, x, p) == []
  {
    forall i | 0 <= i < |p| ensures !Same(leq, x, p[i]) {
      FirstIsLeast(leq, u, p, p[i]);
      assert p[0] in u && p[i] in u;
    }
    ClassEmpty(leq, x, p);
  }

  lemma TakeLeft<T>(leq: (T, T) -> bool, x: T, p: seq<T>, q: seq<T>)
    requires p != [] && q != [] && leq(p[0], q[0])
    requires Class(leq, x, Merge(leq, p[1..], q)) == Class(leq, x, p[1..]) + Class(leq, x, q)
    ensures Class(leq, x, Merge(leq, p, q)) == Class(leq, x, p) + Class(leq, x, q)
  {
    var h := if Same(leq, x, p[0]) then [p[0]] else [];
    ClassOfCons(leq, x, p[0], Merge(leq, p[1..], q));
    Regroup(h, Class(leq, x, p[1..]), Class(leq, x, q));
  }

  lemma TakeRight<T>(leq: (T, T) -> bool, x: T, p: seq<T>, q: seq<T>)
    requires p != [] && q != [] && !leq(p[0], q[0])
    requires Class(leq, x, Merge(leq, p, q[1..])) == Class(leq, x, p) + Class(leq, x, q[1..])
    requires Same(leq, x, q[0]) ==> Class(leq, x, p) == []
    ensures Class(leq, x, Merge(leq, p, q)) == Class(leq, x, p) + Class(leq, x, q)
  {
    var h := if Same(leq, x, q[0]) then [q[0]] else [];
    ClassOfCons(leq, x, q[0], Merge(leq, p, q[1..]));
    Regroup(h, Class(leq, x, p), Class(leq, x, q[1..]));
  }

  lemma Regroup<T>(h: seq<T>, a: seq<T>, b: seq<T>)
    ensures h + (a + b) == (h + a) + b
    ensures |h| == 0 || |a| == 0 ==> h + (a + b) == a + (h + b)
  {
  }

  lemma {:induction false} MergeKeepsClasses<T>(leq: (T, T) -> bool, u: set<T>, p: seq<T>, q: seq<T>, x: T)
    requires TotalPreorder(leq, u) && Within(p, u) && Within(q, u) && x in u
    requires Sorted(leq, p)
    ensures Class(leq, x, Merge(leq, p, q)) == Class(leq, x, p) + Class(leq, x, q)
    decreases |p| + |q|
  {
    if p != [] && q != [] {
      if leq(p[0], q[0]) {
        MergeKeepsClasses(leq, u, p[1..], q, x);
        TakeLeft(leq, x, p, q);
      } else {
        MergeKeepsClasses(leq, u, p, q[1..], x);
        if Same(leq, x, q[0]) {
          assert q[0] in u;
          NoEqualsLeft(leq, u, p, q[0], x);
        }
        TakeRight(leq, x, p, q);
      }
    }
  }

  lemma ClassOfCons<T>(leq: (T, T) -> bool, x: T, y: T, s: seq<T>)
    ensures Class(leq, x, [y] + s) == (if Same(leq, x, y) then [y] else []) + Class(leq, x, s)
  {
    assert ([y] + s)[1..] == s;
  }

  // ----- passes

  /** Consecutive runs of length w are each sorted. */
  ghost predicate RunsSorted<T>(leq: (T, T) -> bool, s: seq<T>, w: nat)
    requires w > 0
    decreases |s|
  {
    s == [] || (Sorted(leq, s[..Min(w, |s|)]) && RunsSorted(leq, s[Min(w, |s|)..], w))
  }

  lemma {:induction false} SingletonRuns<T>(leq: (T, T) -> bool, s: seq<T>)
    ensures RunsSorted(leq, s, 1)
  {
    if s != [] {
      SingletonRuns(leq, s[1..]);
    }
  }

  lemma {:induction false} PassPermutes<T>(leq: (T, T) -> bool, s: seq<T>, w: nat)
    requires w > 0
    ensures multiset(Pass(leq, s, w)) == multiset(s)
    decreases |s|
  {
    if s != [] {
      MergePermutes(leq, Left(s, w), Right(s, w));
      PassPermutes(leq, Rest(s, w), w);
      SplitRuns(s, w);
      MultisetOf3(s, Left(s, w), Right(s, w), Rest(s, w));
    }
  }

  lemma MultisetOf3<T>(s: seq<T>, a: seq<T>, b: seq<T>, c: seq<T>)
    requires s == a + b + c
    ensures multiset(s) == multiset(a) + multiset(b) + multiset(c)
  {
  }

  lemma RunsSplit<T>(leq: (T, T) -> bool, s: seq<T>, w: nat)
    requires w > 0 && RunsSorted(leq, s, w) && s != []
    ensures Sorted(leq, Left(s, w)) && Sorted(leq, Right(s, w))
    ensures RunsSorted(leq, Rest(s, w), w)
  {
    if |s| > w {
      var t := s[w..];
      assert RunsSorted(leq, t, w);
      assert t[..Min(w, |t|)] == Right(s, w);
      assert t[Min(w, |t|)..] == Rest(s, w);
    }
  }

  lemma {:induction false} PassDoublesRuns<T>(leq: (T, T) -> bool, u: set<T>, s: seq<T>, w: nat)
    requires w > 0 && TotalPreorder(leq, u) && Within(s, u) && RunsSorted(leq, s, w)
    ensures RunsSorted(leq, Pass(leq, s, w), 2 * w)
    ensures Within(Pass(leq, s, w), u)
    decreases |s|
  {
    if s != [] {
      SplitWithin(s, w, u);
      RunsSplit(leq, s, w);
      MergeSorted(leq, u, Left(s, w), Right(s, w));
      PassDoublesRuns(leq, u, Rest(s, w), w);
      PrependRun(leq, u, Merge(leq, Left(s, w), Right(s, w)), Pass(leq, Rest(s, w), w), 2 * w);
    }
  }

  lemma PrependRun<T>(leq: (T, T) -> bool, u: set<T>, m: seq<T>, rest: seq<T>, w: nat)
    requires w > 0 && Sorted(leq, m) && RunsSorted(leq, rest, w) && Within(m, u) && Within(rest, u)
    requires if rest == [] then |m| <= w else |m| == w
    ensures RunsSorted(leq, m + rest, w) && Within(m + rest, u)
  {
    var s := m + rest;
    if s != [] {
      assert s[..Min(w, |s|)] == m && s[Min(w, |s|)..] == rest;
    }
  }

  lemma {:induction false} PassKeepsClasses<T>(leq: (T, T) -> bool, u: set<T>, s: seq<T>, w: nat, x: T)
    requires w > 0 && TotalPreorder(leq, u) && Within(s, u) && RunsSorted(leq, s, w) && x in u
    ensures Class(leq, x, Pass(leq, s, w)) == Class(leq, x, s)
    decreases |s|
  {
    if s != [] {
      var a, b, c := Left(s, w), Right(s, w), Rest(s, w);
      SplitWithin(s, w, u);
      SplitRuns(s, w);
      RunsSplit(leq, s, w);
      PassKeepsClasses(leq, u, c, w, x);
      ClassOfConcat(leq, x, Merge(leq, a, b), Pass(leq, c, w));
      MergeKeepsClasses(leq, u, a, b, x);
      ClassOfConcat(leq, x, a, b);
      ClassOfConcat(leq, x, a + b, c);
    }
  }

  lemma {:induction false} MergeSortFrom<T>(leq: (T, T) -> bool, u: set<T>, s: seq<T>, w: nat)
    requires w > 0 && TotalPreorder(leq, u) && Within(s, u) && RunsSorted(leq, s, w)
    ensures Sorted(leq, MergeSort(leq, s, w))
    ensures SameOrderInClasses(leq, u, MergeSort(leq, s, w), s)
    decreases |s| - w
  {
    PassDoublesRuns(leq, u, s, w);
    forall x | x in u ensures Class(leq, x, Pass(leq, s, w)) == Class(leq, x, s) {
      PassKeepsClasses(leq, u, s, w, x);
    }
    var t := Pass(leq, s, w);
    if Merges(|s|, w) <= 1 {
      assert t[..|t|] == t;
    } else {
      MergeSortFrom(leq, u, t, 2 * w);
    }
  }

  lemma {:induction false} MergeSortPermutes<T>(leq: (T, T) -> bool, s: seq<T>, w: nat)
    requires w > 0
    ensures multiset(MergeSort(leq, s, w)) == multiset(s)
    decreases |s| - w
  {
    PassPermutes(leq, s, w);
    if Merges(|s|, w) > 1 {
      MergeSortPermutes(leq, Pass(leq, s, w), 2 * w);
    }
  }

  /** Main result: the sort yields a sorted, stable permutation. */
  lemma MergeSortCorrect<T>(leq: (T, T) -> bool, u: set<T>, s: seq<T>)
    requires TotalPreorder(leq, u) && Within(s, u)
    ensures Sorted(leq, MergeSort(leq, s, 1))
    ensures SameOrderInClasses(leq, u, MergeSort(leq, s, 1), s)
    ensures multiset(MergeSort(leq, s, 1)) == multiset(s)
  {
    SingletonRuns(leq, s);
    MergeSortFrom(leq, u, s, 1);
    MergeSortPermutes(leq, s, 1);
  }

  lemma EmptyHasNoClasses<T>(leq: (T, T) -> bool, u: set<T>, t: seq<T>)
    requires TotalPreorder(leq, u) && Within(t, u)
    requires forall x | x in u :: Class(leq, x, t) == []
    ensures t == []
  {
    if t != [] {
      HeadInOwnClass(leq, u, t);
    }
  }

  lemma EmptyUnique<T>(leq: (T, T) -> bool, u: set<T>, s: seq<T>, t: seq<T>)
    requires TotalPreorder(leq, u) && Within(t, u) && s == [] && SameOrderInClasses(leq, u, s, t)
    ensures t == []
  {
    forall x | x in u ensures Class(leq, x, t) == [] {
      assert Class(leq, x, s) == Class(leq, x, t);
    }
    EmptyHasNoClasses(leq, u, t);
  }

  lemma HeadInOwnClass<T>(leq: (T, T) -> bool, u: set<T>, t: seq<T>)
    requires TotalPreorder(leq, u) && Within(t, u) && t != []
    ensures t[0] in u && Class(leq, t[0], t) != []
  {
    assert t[0] in u && leq(t[0], t[0]);
  }

  lemma DropHead<T>(leq: (T, T) -> bool, x: T, s: seq<T>)
    requires s != []
    ensures Class(leq, x, s[1..]) == Class(leq, x, s)[if Same(leq, x, s[0]) then 1 else 0..]
  {
  }

  lemma HeadOccurs<T>(leq: (T, T) -> bool, u: set<T>, s: seq<T>, t: seq<T>)
    requires TotalPreorder(leq, u) && Within(s, u) && s != [] && SameOrderInClasses(leq, u, s, t)
    ensures s[0] in t
  {
    var x := s[0];
    assert x in u && leq(x, x) && Class(leq, x, s)[0] == x;
    assert x in Class(leq, x, t);
    InClass(leq, x, t, x);
  }

  lemma StableTails<T>(leq: (T, T) -> bool, u: set<T>, s: seq<T>)
    requires s != [] && Within(s, u) && Sorted(leq, s)
    ensures Within(s[1..], u) && Sorted(leq, s[1..])
  {
  }

  lemma SameTails<T>(leq: (T, T) -> bool, u: set<T>, s: seq<T>, t: seq<T>)
    requires s != [] && t != [] && s[0] == t[0] && SameOrderInClasses(leq, u, s, t)
    ensures SameOrderInClasses(leq, u, s[1..], t[1..])
  {
    forall y | y in u ensures Class(leq, y, s[1..]) == Class(leq, y, t[1..]) {
      assert Class(leq, y, s) == Class(leq, y, t);
      DropHead(leq, y, s);
      DropHead(leq, y, t);
    }
  }

  lemma SameHead<T>(leq: (T, T) -> bool, u: set<T>, s: seq<T>, t: seq<T>)
    requires TotalPreorder(leq, u) && Within(s, u) && Within(t, u) && s != []
    requires Sorted(leq, s) && Sorted(leq, t) && SameOrderInClasses(leq, u, s, t) && s[0] in t
    ensures s[0] == t[0]
  {
    var x, y := s[0], t[0];
    assert x in u && y in u && leq(x, x) && leq(y, y);
    FirstIsLeast(leq, u, t, x);
    assert Class(leq, y, t) == Class(leq, y, s);
    InClass(leq, y, t, y);
    InClass(leq, y, s, y);
    FirstIsLeast(leq, u, s, y);
    assert Class(leq, x, s)[0] == x && Class(leq, x, t)[0] == y;
  }

  /** Sortedness and stability leave no freedom: any two such results are equal. */
  lemma {:induction false} StableSortUnique<T>(leq: (T, T) -> bool, u: set<T>, s: seq<T>, t: seq<T>)
    requires TotalPreorder(leq, u) && Within(s, u) && Within(t, u)
    requires Sorted(leq, s) && Sorted(leq, t) && SameOrderInClasses(leq, u, s, t)
    ensures s == t
  {
    if s == [] {
      EmptyUnique(leq, u, s, t);
    } else {
      HeadOccurs(leq, u, s, t);
      SameHead(leq, u, s, t);
      SameTails(leq, u, s, t);
      StableTails(leq, u, s);
      StableTails(leq, u, t);
      StableSortUnique(leq, u, s[1..], t[1..]);
      assert s == [s[0]] + s[1..] && t == [t[0]] + t[1..];
    }
  }
}
