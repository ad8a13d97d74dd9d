/** HASH_SRT: a bottom-up mergesort that relinks the items in place. */
module UtSort {
  import opened Sequences
  import opened UtChains
  import opened UtList
  import opened StableSort

  function Le<T>(cmp: (T, T) -> int): (T, T) -> bool
  {
    (x, y) => cmp(x, y) <= 0
  }

  ghost function At(s: seq<Handle>, i: nat): Handle?
  {
    if i < |s| then s[i] else null
  }

  /** Item i of `s` has not been taken yet: its `next` is still the one of `s`. */
  ghost predicate Untaken(s: seq<Handle>, i: nat)
    requires i < |s|
    reads s[i]
  {
    s[i].pos == i && s[i].next == At(s, i + 1)
  }

  /** Link t of the output list. The last item's `next` is not set yet. */
  ghost predicate OutAt(out: seq<Handle>, t: nat)
    requires t < |out|
    reads out[t]
  {
    && out[t].prev == (if t == 0 then null else out[t - 1])
    && (t + 1 < |out| ==> out[t].next == out[t + 1])
  }

  ghost predicate OutLinked(out: seq<Handle>, list: Handle?, tail: Handle?)
    reads out
  {
    && list == (if |out| == 0 then null else out[0])
    && tail == (if |out| == 0 then null else out[|out| - 1])
    && (forall t | 0 <= t < |out| :: OutAt(out, t))
    && (forall t, u | 0 <= t < u < |out| :: out[t] != out[u])
  }

  /** The source's last step of an iteration: `e` goes to the end of the output. */
  method Emit(e: Handle, list: Handle?, tail: Handle?, ghost out: seq<Handle>) returns (list': Handle?, tail': Handle?)
    requires OutLinked(out, list, tail) && forall t | 0 <= t < |out| :: out[t] != e
    modifies e`prev, (if tail == null then {} else {tail})`next
    ensures OutLinked(out + [e], list', tail')
  {
    list' := list;
    assert forall t | 0 <= t < |out| :: OutAt(out, t);
    if tail != null {
      tail.next := e;
    } else {
      list' := e;
    }
    e.prev := tail;
    tail' := e;
    ghost var d := out + [e];
    forall t | 0 <= t < |d| ensures OutAt(d, t) {
      assert t < |out| ==> old(OutAt(out, t));
      assert t + 1 < |out| ==> d[t + 1] == out[t + 1] && out[t] != out[|out| - 1];
    }
  }

  /** Items [i, m) of the left run and [j, |s|) are untaken; the output consists of the others from a on. */
  ghost predicate Merging(s: seq<Handle>, i: nat, m: nat, j: nat, out: seq<Handle>, list: Handle?, tail: Handle?)
    reads s, out
  {
    && i <= m <= j <= |s|
    && OutLinked(out, list, tail)
    && (forall t | i <= t < m :: Untaken(s, t))
    && (forall t | j <= t < |s| :: Untaken(s, t))
    && (forall u | 0 <= u < |out| :: Taken(s, i, m, j, out[u]))
  }

  ghost predicate Taken(s: seq<Handle>, i: nat, m: nat, j: nat, x: Handle)
    reads x
  {
    (x.pos < i || m <= x.pos < j) && x.pos < |s| && s[x.pos] == x
  }

  lemma TakenIsNot(s: seq<Handle>, i: nat, m: nat, j: nat, out: seq<Handle>, list: Handle?, tail: Handle?, t: nat)
    requires Merging(s, i, m, j, out, list, tail) && (i <= t < m || j <= t < |s|)
    ensures Untaken(s, t) && forall u | 0 <= u < |out| :: out[u] != s[t]
  {
    forall u | 0 <= u < |out| ensures out[u] != s[t] {
      assert Taken(s, i, m, j, out[u]);
    }
  }

  /** Item i is taken from the left run. */
  method TakeLeft(p: Handle, list: Handle?, tail: Handle?,
                  ghost s: seq<Handle>, ghost i: nat, ghost m: nat, ghost j: nat, ghost out: seq<Handle>)
    returns (p': Handle?, list': Handle?, tail': Handle?, ghost i': nat, ghost out': seq<Handle>)
    requires Merging(s, i, m, j, out, list, tail) && i < m && p == s[i]
    modifies s`prev, s`next
    ensures i' == i + 1 && out' == out + [p] && p' == At(s, i')
    ensures Merging(s, i', m, j, out', list', tail')
  {
    TakenIsNot(s, i, m, j, out, list, tail, i);
    p' := p.next;
    i', out' := i + 1, out + [p];
    InFrame(s, i, m, j, out, list, tail);
    forall t | i' <= t < m || j <= t < |s| ensures Untaken(s, t) && s[t] != s[i] && tail != s[t] {
      TakenIsNot(s, i, m, j, out, list, tail, t);
    }
    list', tail' := Emit(p, list, tail, out);
    forall u | 0 <= u < |out'| ensures Taken(s, i', m, j, out'[u]) {
      assert u < |out| ==> old(Taken(s, i, m, j, out[u]));
    }
    forall t | i' <= t < m || j <= t < |s| ensures Untaken(s, t) {
      assert old(Untaken(s, t));
    }
  }

  lemma InFrame(s: seq<Handle>, i: nat, m: nat, j: nat, out: seq<Handle>, list: Handle?, tail: Handle?)
    requires Merging(s, i, m, j, out, list, tail)
    ensures tail != null ==> tail in s && |out| > 0 && tail == out[|out| - 1]
  {
    if tail != null {
      assert Taken(s, i, m, j, out[|out| - 1]);
    }
  }

  /** Item j is taken from the right run. */
  method TakeRight(q: Handle, list: Handle?, tail: Handle?,
                   ghost s: seq<Handle>, ghost i: nat, ghost m: nat, ghost j: nat, ghost out: seq<Handle>)
    returns (q': Handle?, list': Handle?, tail': Handle?, ghost j': nat, ghost out': seq<Handle>)
    requires Merging(s, i, m, j, out, list, tail) && j < |s| && q == s[j]
    modifies s`prev, s`next
    ensures j' == j + 1 && out' == out + [q] && q' == At(s, j')
    ensures Merging(s, i, m, j', out', list', tail')
  {
    TakenIsNot(s, i, m, j, out, list, tail, j);
    q' := q.next;
    j', out' := j + 1, out + [q];
    InFrame(s, i, m, j, out, list, tail);
    forall t | i <= t < m || j' <= t < |s| ensures Untaken(s, t) && s[t] != s[j] && tail != s[t] {
      TakenIsNot(s, i, m, j, out, list, tail, t);
    }
    list', tail' := Emit(q, list, tail, out);
    forall u | 0 <= u < |out'| ensures Taken(s, i, m, j', out'[u]) {
      assert u < |out| ==> old(Taken(s, i, m, j, out[u]));
    }
    forall t | i <= t < m || j' <= t < |s| ensures Untaken(s, t) {
      assert old(Untaken(s, t));
    }
  }

  /** What the output will be once the two runs are merged. */
  ghost function Outcome(leq: (Handle, Handle) -> bool, out: seq<Handle>, s: seq<Handle>, i: nat, m: nat, j: nat, e: nat): seq<Handle>
    requires i <= m <= j <= e <= |s|
  {
    out + Merge(leq, s[i..m], s[j..e])
  }

  lemma OutcomeLeft(leq: (Handle, Handle) -> bool, out: seq<Handle>, s: seq<Handle>, i: nat, m: nat, j: nat, e: nat)
    requires i < m <= j <= e <= |s| && (j < e ==> leq(s[i], s[j]))
    ensures Outcome(leq, out + [s[i]], s, i + 1, m, j, e) == Outcome(leq, out, s, i, m, j, e)
  {
    var p, q := s[i..m], s[j..e];
    assert p[0] == s[i] && p[1..] == s[i + 1..m];
    if j == e {
      MergeEmptyRight(leq, p);
      MergeEmptyRight(leq, p[1..]);
    }
    assert Merge(leq, p, q) == [s[i]] + Merge(leq, p[1..], q);
  }

  lemma MergeEmptyRight(leq: (Handle, Handle) -> bool, p: seq<Handle>)
    ensures Merge(leq, p, []) == p
  {
  }

  lemma OutcomeRight(leq: (Handle, Handle) -> bool, out: seq<Handle>, s: seq<Handle>, i: nat, m: nat, j: nat, e: nat)
    requires i <= m <= j < e <= |s| && (i < m ==> !leq(s[i], s[j]))
    ensures Outcome(leq, out + [s[j]], s, i, m, j + 1, e) == Outcome(leq, out, s, i, m, j, e)
  {
    var p, q := s[i..m], s[j..e];
    assert q[0] == s[j] && q[1..] == s[j + 1..e];
    assert Merge(leq, p, q) == [s[j]] + Merge(leq, p, q[1..]);
  }

  /** One iteration of the merge loop, branch by branch. */
  method MergeStep(cmp: (Handle, Handle) -> int, p: Handle?, q: Handle?, psize: nat, qsize: nat, list: Handle?, tail: Handle?,
                   ghost s: seq<Handle>, ghost i: nat, ghost m: nat, ghost j: nat, ghost e: nat, ghost out: seq<Handle>)
    returns (p': Handle?, q': Handle?, psize': nat, qsize': nat, list': Handle?, tail': Handle?,
             ghost i': nat, ghost j': nat, ghost out': seq<Handle>)
    requires Merging(s, i, m, j, out, list, tail) && j <= e <= |s|
    requires psize == m - i && p == At(s, i) && q == At(s, j) && qsize >= e - j && (qsize == 0 || q == null <==> j == e)
    requires psize > 0 || (qsize > 0 && q != null)
    modifies s`prev, s`next
    ensures Merging(s, i', m, j', out', list', tail') && j' <= e
    ensures psize' == m - i' && p' == At(s, i') && q' == At(s, j') && i' + j' == i + j + 1 && qsize - qsize' == j' - j
    ensures Outcome(Le<Handle>(cmp), out', s, i', m, j', e) == Outcome(Le<Handle>(cmp), out, s, i, m, j, e)
  {
    p', q', psize', qsize', i', j' := p, q, psize, qsize, i, j;
    if psize == 0 {
      q', list', tail', j', out' := TakeRight(q, list, tail, s, i, m, j, out);
      qsize' := qsize - 1;
      OutcomeRight(Le<Handle>(cmp), out, s, i, m, j, e);
    } else if qsize == 0 || q == null {
      p', list', tail', i', out' := TakeLeft(p, list, tail, s, i, m, j, out);
      psize' := psize - 1;
      OutcomeLeft(Le<Handle>(cmp), out, s, i, m, j, e);
    } else if cmp(p, q) <= 0 {
      p', list', tail', i', out' := TakeLeft(p, list, tail, s, i, m, j, out);
      psize' := psize - 1;
      OutcomeLeft(Le<Handle>(cmp), out, s, i, m, j, e);
    } else {
      q', list', tail', j', out' := TakeRight(q, list, tail, s, i, m, j, out);
      qsize' := qsize - 1;
      OutcomeRight(Le<Handle>(cmp), out, s, i, m, j, e);
    }
  }

  /** The merge loop: the left run of psize items and at most insize items from q on. */
  method MergeRuns(cmp: (Handle, Handle) -> int, insize: nat, p0: Handle, psize0: nat, q0: Handle?, list0: Handle?, tail0: Handle?,
                   ghost s: seq<Handle>, ghost a: nat, ghost m: nat, ghost e: nat, ghost out0: seq<Handle>)
    returns (q: Handle?, list: Handle?, tail: Handle?, ghost out: seq<Handle>)
    requires a < m && Merging(s, a, m, m, out0, list0, tail0)
    requires p0 == s[a] && psize0 == m - a && q0 == At(s, m) && e == Min(m + insize, |s|) 
    modifies s`prev, s`next
    ensures Merging(s, m, m, e, out, list, tail) && q == At(s, e)
    ensures out == out0 + Merge(Le<Handle>(cmp), s[a..m], s[m..e])
  {
    var p: Handle?, psize: nat, qsize: nat := p0, psize0, insize;
    ghost var i: nat, j: nat := a, m;
    q, list, tail, out := q0, list0, tail0, out0;
    while psize > 0 || (qsize > 0 && q != null)
      invariant Merging(s, i, m, j, out, list, tail) && j <= e
      invariant psize == m - i && p == At(s, i) && q == At(s, j) && qsize == m + insize - j
      invariant Outcome(Le<Handle>(cmp), out, s, i, m, j, e) == out0 + Merge(Le<Handle>(cmp), s[a..m], s[m..e])
      decreases m - i + e - j
    {
      p, q, psize, qsize, list, tail, i, j, out := MergeStep(cmp, p, q, psize, qsize, list, tail, s, i, m, j, e, out);
    }
    assert i == m && j == e;
    assert Merge(Le<Handle>(cmp), s[m..m], s[e..e]) == [];
  }

  /** The for loop that steps q over the left run. */
  method StepOver(p: Handle, insize: nat, ghost s: seq<Handle>, ghost a: nat) returns (q: Handle?, psize: nat)
    requires insize > 0 && a < |s| && p == s[a] && forall t | a <= t < |s| :: Untaken(s, t)
    ensures psize == Min(insize, |s| - a) > 0 && q == At(s, a + psize)
  {
    q, psize := p, 0;
    var i := 0;
    while i < insize
      invariant i <= insize && psize == i && a + psize < |s| && q == s[a + psize]
    {
      psize := psize + 1;
      assert Untaken(s, a + psize - 1);
      q := q.next;
      if q == null {
        break;
      }
      i := i + 1;
    }
  }

  lemma PassUnfold(leq: (Handle, Handle) -> bool, s: seq<Handle>, a: nat, m: nat, e: nat, w: nat)
    requires w > 0 && a < |s| && m == a + Min(w, |s| - a) && e == Min(m + w, |s|)
    ensures a < m <= e <= |s|
    ensures Pass(leq, s[a..], w) == Merge(leq, s[a..m], s[m..e]) + Pass(leq, s[e..], w)
  {
    var d := s[a..];
    SliceOfSuffix(s, a, a, m);
    SliceOfSuffix(s, a, m, e);
    assert d[e - a..] == s[e..];
    assert Left(d, w) == d[..m - a] && Right(d, w) == d[m - a..e - a] && Rest(d, w) == d[e - a..];
    assert d[0..m - a] == d[..m - a];
  }

  /** The progress of a pass, in what it will yield and in the merges still to come. */
  lemma PassProgress(leq: (Handle, Handle) -> bool, s: seq<Handle>, a: nat, m: nat, e: nat, w: nat, out0: seq<Handle>, out: seq<Handle>)
    requires w > 0 && a < |s| && m == a + Min(w, |s| - a) && e == Min(m + w, |s|)
    requires out == out0 + Merge(leq, s[a..m], s[m..e])
    ensures out + Pass(leq, s[e..], w) == out0 + Pass(leq, s[a..], w)
    ensures Merges(|s| - a, w) == 1 + Merges(|s| - e, w)
  {
    PassUnfold(leq, s, a, m, e, w);
    ConcatAssoc(out0, Merge(leq, s[a..m], s[m..e]), Pass(leq, s[e..], w));
    MergesStep(|s| - a, w, |s| - e);
  }

  lemma MergesStep(n: nat, w: nat, rest: nat)
    requires w > 0 && n > 0 && rest == if n <= 2 * w then 0 else n - 2 * w
    ensures Merges(n, w) == 1 + Merges(rest, w)
  {
  }

  lemma SliceOfSuffix(s: seq<Handle>, a: nat, b: nat, c: nat)
    requires a <= b <= c <= |s|
    ensures s[a..][b - a..c - a] == s[b..c]
  {
  }

  /** One iteration of a pass: find the two runs at p and merge them. */
  method MergeNext(cmp: (Handle, Handle) -> int, insize: nat, p: Handle, list0: Handle?, tail0: Handle?,
                   ghost s: seq<Handle>, ghost a: nat, ghost out0: seq<Handle>)
    returns (q: Handle?, list: Handle?, tail: Handle?, ghost e: nat, ghost out: seq<Handle>)
    requires insize > 0 && a < |s| && p == s[a] && Merging(s, a, a, a, out0, list0, tail0)
    modifies s`prev, s`next
    ensures a < e <= |s| && q == At(s, e) && Merging(s, e, e, e, out, list, tail)
    ensures out + Pass(Le<Handle>(cmp), s[e..], insize) == out0 + Pass(Le<Handle>(cmp), s[a..], insize)
    ensures Merges(|s| - a, insize) == 1 + Merges(|s| - e, insize)
  {
    var psize;
    q, psize := StepOver(p, insize, s, a);
    ghost var m: nat := a + psize;
    e := Min(m + insize, |s|);
    OpenRun(s, a, m, out0, list0, tail0);
    q, list, tail, out := MergeRuns(cmp, insize, p, psize, q, list0, tail0, s, a, m, e, out0);
    PassProgress(Le<Handle>(cmp), s, a, m, e, insize, out0, out);
    CloseRuns(s, m, e, out, list, tail);
  }

  lemma OpenRun(s: seq<Handle>, a: nat, m: nat, out: seq<Handle>, list: Handle?, tail: Handle?)
    requires Merging(s, a, a, a, out, list, tail) && a <= m <= |s|
    ensures Merging(s, a, m, m, out, list, tail)
  {
    forall u | 0 <= u < |out| ensures Taken(s, a, m, m, out[u]) {
      assert Taken(s, a, a, a, out[u]);
    }
  }

  lemma CloseRuns(s: seq<Handle>, m: nat, e: nat, out: seq<Handle>, list: Handle?, tail: Handle?)
    requires Merging(s, m, m, e, out, list, tail)
    ensures Merging(s, e, e, e, out, list, tail)
  {
    forall u | 0 <= u < |out| ensures Taken(s, e, e, e, out[u]) {
      assert Taken(s, m, m, e, out[u]);
    }
  }

  /** One pass over the whole list. */
  method SortPass(cmp: (Handle, Handle) -> int, insize: nat, first: Handle, ghost last: Handle, ghost s: seq<Handle>)
    returns (list: Handle?, tail: Handle?, nmerges: nat, ghost r: seq<Handle>)
    requires insize > 0 && ListLinked(s, first, last)
    modifies s`prev, s`next, s`pos
    ensures r == Pass(Le<Handle>(cmp), s, insize) && ListLinked(r, list, tail)
    ensures nmerges == Merges(|s|, insize)
    ensures multiset(r) == multiset(s)
  {
    var p: Handle? := first;
    list, tail, nmerges, r := null, null, 0, [];
    ghost var a: nat := 0;
    forall t | 0 <= t < |s| ensures Untaken(s, t) {
      assert ItemAt(s, t);
    }
    assert s[0..] == s;
    while p != null
      invariant a <= |s| && p == At(s, a) && Merging(s, a, a, a, r, list, tail)
      invariant r + Pass(Le<Handle>(cmp), s[a..], insize) == Pass(Le<Handle>(cmp), s, insize)
      invariant nmerges + Merges(|s| - a, insize) == Merges(|s|, insize)
      decreases |s| - a
    {
      nmerges := nmerges + 1;
      p, list, tail, a, r := MergeNext(cmp, insize, p, list, tail, s, a, r);
    }
    PassPermutes(Le<Handle>(cmp), s, insize);
    Seal(list, tail, s, r);
  }

  /** The end of a pass: the last item gets its null link; the ghost indices follow the new order. */
  method Seal(list: Handle?, tail: Handle?, ghost s: seq<Handle>, ghost r: seq<Handle>)
    requires OutLinked(r, list, tail) && |r| > 0 && multiset(r) == multiset(s)
    modifies s`next, s`pos
    ensures ListLinked(r, list, tail)
  {
    SameElems(r, s);
    assert forall t | 0 <= t < |r| :: OutAt(r, t);
    if tail != null {
      tail.next := null;
    }
    forall t | 0 <= t < |r| {
      r[t].pos := t;
    }
    forall t | 0 <= t < |r| ensures ItemAt(r, t) {
      assert old(OutAt(r, t)) && (t + 1 < |r| ==> r[t] != r[|r| - 1]);
    }
  }

  lemma SameElems(r: seq<Handle>, s: seq<Handle>)
    requires multiset(r) == multiset(s)
    ensures |r| == |s| && Elems(r) == Elems(s)
    ensures forall t | 0 <= t < |r| :: r[t] in s
  {
    assert |multiset(r)| == |multiset(s)|;
    forall t | 0 <= t < |r| ensures r[t] in s {
      assert r[t] in multiset(s);
    }
    forall t | 0 <= t < |s| ensures s[t] in r {
      assert s[t] in multiset(r);
    }
    forall x | x in s ensures x in Elems(s) {
      var t :| 0 <= t < |s| && s[t] == x;
    }
    forall x | x in r ensures x in Elems(r) {
      var t :| 0 <= t < |r| && r[t] == x;
    }
  }

  /** HASH_SRT: passes with doubled run length until one merge covers the list. */
  method SortList(cmp: (Handle, Handle) -> int, head: Handle, last: Handle, ghost s: seq<Handle>)
    returns (head': Handle?, tail': Handle?, ghost r: seq<Handle>)
    requires ListLinked(s, head, last)
    modifies s`prev, s`next, s`pos
    ensures r == MergeSort(Le<Handle>(cmp), s, 1) && ListLinked(r, head', tail')
    ensures multiset(r) == multiset(s)
  {
    var insize, looping := 1, true;
    head', tail', r := head, last, s;
    while looping
      invariant insize > 0 && ListLinked(r, head', tail') && multiset(r) == multiset(s)
      invariant MergeSort(Le<Handle>(cmp), s, 1) == if looping then MergeSort(Le<Handle>(cmp), r, insize) else r
      decreases looping, |s| - insize
    {
      SameElems(r, s);
      var nmerges;
      head', tail', nmerges, r := SortPass(cmp, insize, head', tail', r);
      if nmerges <= 1 {
        looping := false;
      }
      insize := insize * 2;
    }
  }

  /** `r` is a permutation of `s`; for a total preorder it is the sorted, stable one. */
  ghost predicate StablySorted(cmp: (Handle, Handle) -> int, s: seq<Handle>, r: seq<Handle>)
  {
    && multiset(r) == multiset(s)
    && (TotalPreorder(Le<Handle>(cmp), Elems(s)) ==>
          Sorted(Le<Handle>(cmp), r) && SameOrderInClasses(Le<Handle>(cmp), Elems(s), r, s))
  }

  lemma MergeSortStable(cmp: (Handle, Handle) -> int, s: seq<Handle>)
    ensures StablySorted(cmp, s, MergeSort(Le<Handle>(cmp), s, 1))
  {
    MergeSortPermutes(Le<Handle>(cmp), s, 1);
    if TotalPreorder(Le<Handle>(cmp), Elems(s)) {
      MergeSortCorrect(Le<Handle>(cmp), Elems(s), s);
    }
  }

  method SortStably(cmp: (Handle, Handle) -> int, head: Handle, last: Handle, ghost s: seq<Handle>)
    returns (head': Handle?, tail': Handle?, ghost r: seq<Handle>)
    requires ListLinked(s, head, last)
    modifies s`prev, s`next, s`pos
    ensures StablySorted(cmp, s, r) && ListLinked(r, head', tail')
  {
    head', tail', r := SortList(cmp, head, last, s);
    MergeSortStable(cmp, s);
  }
}
