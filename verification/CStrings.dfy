/** C strings in byte sequences. */
module CStrings {
  import opened Decimal

  /** What a C string function sees of s: the bytes in front of the first zero. */
  function CStr(s: Text): (r: Text)
    ensures |r| <= |s|
  {
    if |s| == 0 || s[0] == 0 then [] else [s[0]] + CStr(s[1..])
  }

  predicate NoNul(s: Text)
  {
    forall i | 0 <= i < |s| :: s[i] != 0
  }

  type CString = s: Text | NoNul(s) witness []

  lemma {:induction false} CStrWhole(s: Text)
    ensures CStr(s) == s <==> NoNul(s)
  {
    if |s| > 0 && s[0] != 0 {
      CStrWhole(s[1..]);
      assert s == [s[0]] + s[1..];
      assert NoNul(s) ==> NoNul(s[1..]);
      if NoNul(s[1..]) {
        forall i | 0 <= i < |s| ensures s[i] != 0 {
          assert i > 0 ==> s[i] == s[1..][i - 1];
        }
      }
    }
  }

  lemma {:induction false} CStrAppend(s: Text, t: Text)
    ensures CStr(s + t) == if NoNul(s) then s + CStr(t) else CStr(s)
  {
    if |s| == 0 {
      assert s + t == t;
    } else {
      assert (s + t)[1..] == s[1..] + t;
      CStrAppend(s[1..], t);
      assert s == [s[0]] + s[1..];
      assert NoNul(s) <==> s[0] != 0 && NoNul(s[1..]) by {
        assert forall i | 0 < i < |s| :: s[i] == s[1..][i - 1];
        assert forall i | 0 <= i < |s| - 1 :: s[1..][i] == s[i + 1];
      }
    }
  }

  lemma {:induction false} CStrNoNul(s: Text)
    ensures NoNul(CStr(s))
  {
    if |s| > 0 && s[0] != 0 {
      CStrNoNul(s[1..]);
      assert forall i | 0 < i < |CStr(s)| :: CStr(s)[i] == CStr(s[1..])[i - 1];
    }
  }
}
