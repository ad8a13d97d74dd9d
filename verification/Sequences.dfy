/** The elements of a sequence. */
module Sequences {
  ghost predicate Distinct<T>(s: seq<T>)
  {
    forall i, j | 0 <= i < j < |s| :: s[i] != s[j]
  }

  ghost function Elems<T>(s: seq<T>): set<T>
  {
    set i | 0 <= i < |s| :: s[i]
  }

  lemma {:induction false} ElemsAppend<T>(s: seq<T>, x: T)
    ensures Elems(s + [x]) == Elems(s) + {x}
  {
    var d := s + [x];
    assert d[|s|] == x;
    forall i | 0 <= i < |s| ensures s[i] in Elems(d) {
      assert d[i] == s[i];
    }
  }

  lemma {:induction false} DistinctSize<T>(s: seq<T>)
    requires Distinct(s)
    ensures |Elems(s)| == |s|
  {
    if |s| != 0 {
      var n := |s| - 1;
      DistinctSize(s[..n]);
      ElemsAppend(s[..n], s[n]);
      assert s == s[..n] + [s[n]];
      assert s[n] !in Elems(s[..n]);
    }
  }

  lemma {:induction false} UnionSize<T>(a: set<T>, b: set<T>)
    requires a !! b
    ensures |a + b| == |a| + |b|
  {
  }

  lemma {:induction false} ConcatAssoc<T>(x: seq<T>, y: seq<T>, z: seq<T>)
    ensures (x + y) + z == x + (y + z)
  {
  }

  lemma {:induction false} ConcatFour<T>(w: seq<T>, x: seq<T>, y: seq<T>, z: seq<T>)
    ensures w + x + y + z == w + (x + (y + z)) == w + (x + y + z)
  {
    ConcatAssoc(x, y, z);
    ConcatAssoc(w + x, y, z);
    ConcatAssoc(w, x, y + z);
  }

  lemma {:induction false} Cut<T>(x: seq<T>, y: seq<T>)
    ensures (x + y)[|x|..] == y && (|x| > 0 ==> (x + y)[0] == x[0])
  {
  }
}
