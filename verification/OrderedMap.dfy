/** The specification of the hash table: a finite map that remembers the order of insertion. */
module OrderedMap {
  datatype Option<+T> = None | Some(value: T)

  datatype Entry<K, V> = Entry(key: K, val: V)

  function Lookup<K(==), V>(m: seq<Entry<K, V>>, k: K): Option<V>
  {
    if |m| == 0 then None
    else if m[0].key == k then Some(m[0].val)
    else Lookup(m[1..], k)
  }

  function Add<K, V>(m: seq<Entry<K, V>>, k: K, v: V): seq<Entry<K, V>>
  {
    m + [Entry(k, v)]
  }

  function Remove<K(==), V>(m: seq<Entry<K, V>>, k: K): seq<Entry<K, V>>
  {
    if |m| == 0 then []
    else if m[0].key == k then m[1..]
    else [m[0]] + Remove(m[1..], k)
  }

  function Replace<K(==), V>(m: seq<Entry<K, V>>, k: K, v: V): seq<Entry<K, V>>
  {
    Add(Remove(m, k), k, v)
  }

  ghost predicate KeysDistinct<K, V>(m: seq<Entry<K, V>>)
  {
    forall i, j | 0 <= i < j < |m| :: m[i].key != m[j].key
  }

  ghost predicate Absent<K, V>(m: seq<Entry<K, V>>, k: K)
  {
    forall i | 0 <= i < |m| :: m[i].key != k
  }

  lemma {:induction false} LookupNone<K, V>(m: seq<Entry<K, V>>, k: K)
    ensures Lookup(m, k).None? <==> Absent(m, k)
  {
    if |m| != 0 {
      LookupNone(m[1..], k);
      assert m[0].key != k && Absent(m[1..], k) ==> forall i | 0 <= i < |m| :: i > 0 ==> m[i] == m[1..][i - 1];
      assert Absent(m, k) ==> forall i | 0 <= i < |m[1..]| :: m[1..][i] == m[i + 1];
    }
  }

  lemma {:induction false} LookupAt<K, V>(m: seq<Entry<K, V>>, i: nat)
    requires i < |m| && KeysDistinct(m)
    ensures Lookup(m, m[i].key) == Some(m[i].val)
  {
    if i > 0 {
      LookupAt(m[1..], i - 1);
    }
  }

  lemma {:induction false} RemoveAt<K, V>(m: seq<Entry<K, V>>, i: nat)
    requires i < |m| && KeysDistinct(m)
    ensures Remove(m, m[i].key) == m[..i] + m[i + 1..]
  {
    if i > 0 {
      RemoveAt(m[1..], i - 1);
      assert m[..i] + m[i + 1..] == [m[0]] + (m[1..][..i - 1] + m[1..][i..]);
    }
  }

  lemma {:induction false} LookupAdd<K, V>(m: seq<Entry<K, V>>, k: K, v: V, q: K)
    ensures Lookup(Add(m, k, v), q) ==
            if Lookup(m, q).Some? then Lookup(m, q) else if q == k then Some(v) else None
  {
    if |m| != 0 {
      assert Add(m, k, v)[1..] == Add(m[1..], k, v);
      LookupAdd(m[1..], k, v, q);
    }
  }

  lemma {:induction false} LookupRemove<K, V>(m: seq<Entry<K, V>>, k: K, q: K)
    requires KeysDistinct(m)
    ensures Lookup(Remove(m, k), q) == if q == k then None else Lookup(m, q)
  {
    if |m| != 0 {
      if m[0].key == k {
        LookupNone(m[1..], k);
      } else {
        LookupRemove(m[1..], k, q);
        assert Remove(m, k)[1..] == Remove(m[1..], k);
      }
    }
  }

  lemma {:induction false} RemoveKeeps<K, V>(m: seq<Entry<K, V>>, k: K)
    requires KeysDistinct(m)
    ensures KeysDistinct(Remove(m, k)) && Absent(Remove(m, k), k)
    ensures forall q | Absent(m, q) :: Absent(Remove(m, k), q)
  {
    if i: nat :| i < |m| && m[i].key == k {
      RemoveAt(m, i);
    } else {
      RemoveAbsent(m, k);
    }
  }

  lemma AddKeeps<K, V>(m: seq<Entry<K, V>>, k: K, v: V)
    requires KeysDistinct(m) && Absent(m, k)
    ensures KeysDistinct(Add(m, k, v))
  {
  }

  lemma {:induction false} RemoveAbsent<K, V>(m: seq<Entry<K, V>>, k: K)
    requires Absent(m, k)
    ensures Remove(m, k) == m
  {
    if |m| != 0 {
      RemoveAbsent(m[1..], k);
    }
  }

  /** A permutation of a map with distinct keys answers every lookup alike. */
  lemma LookupPermuted<K, V>(m: seq<Entry<K, V>>, n: seq<Entry<K, V>>, q: K)
    requires KeysDistinct(m) && KeysDistinct(n) && multiset(m) == multiset(n)
    ensures Lookup(n, q) == Lookup(m, q)
  {
    if i: nat :| i < |m| && m[i].key == q {
      assert m[i] in multiset(n);
      var j: nat :| j < |n| && n[j] == m[i];
      LookupAt(m, i);
      LookupAt(n, j);
    } else {
      forall j | 0 <= j < |n| ensures n[j].key != q {
        assert n[j] in multiset(m);
      }
      LookupNone(m, q);
      LookupNone(n, q);
    }
  }

  // ----- runs

  /** The calls an application makes. A reordering stands for any sort. */
  datatype Op<K, V> = AddOp(key: K, val: V) | RemoveOp(key: K) | ReplaceOp(key: K, val: V) | ReorderOp(order: seq<Entry<K, V>>)

  ghost predicate Allowed<K, V>(m: seq<Entry<K, V>>, op: Op<K, V>)
  {
    match op
    case AddOp(k, _) => Absent(m, k)
    case ReorderOp(n) => multiset(n) == multiset(m)
    case _ => true
  }

  function Step<K(==), V>(m: seq<Entry<K, V>>, op: Op<K, V>): seq<Entry<K, V>>
  {
    match op
    case AddOp(k, v) => Add(m, k, v)
    case RemoveOp(k) => Remove(m, k)
    case ReplaceOp(k, v) => Replace(m, k, v)
    case ReorderOp(n) => n
  }

  function Run<K(==), V>(ops: seq<Op<K, V>>): seq<Entry<K, V>>
  {
    if |ops| == 0 then [] else Step(Run(ops[..|ops| - 1]), ops[|ops| - 1])
  }

  ghost predicate AllowedRun<K, V>(ops: seq<Op<K, V>>)
  {
    |ops| == 0 || (AllowedRun(ops[..|ops| - 1]) && Allowed(Run(ops[..|ops| - 1]), ops[|ops| - 1]))
  }

  lemma {:induction false} RunOneMore<K, V>(ops: seq<Op<K, V>>, op: Op<K, V>)
    requires AllowedRun(ops) && Allowed(Run(ops), op)
    ensures AllowedRun(ops + [op]) && Run(ops + [op]) == Step(Run(ops), op)
  {
    var next := ops + [op];
    assert next[..|next| - 1] == ops && next[|next| - 1] == op;
  }

  /** What the last call that mentions key q left there. */
  function LastWrite<K(==), V>(ops: seq<Op<K, V>>, q: K): Option<V>
  {
    if |ops| == 0 then None
    else
      var op, before := ops[|ops| - 1], LastWrite(ops[..|ops| - 1], q);
      match op
      case AddOp(k, v) => if k == q then Some(v) else before
      case RemoveOp(k) => if k == q then None else before
      case ReplaceOp(k, v) => if k == q then Some(v) else before
      case ReorderOp(_) => before
  }

  /** When a key was last added or replaced, counted from 1. */
  function LastPut<K(==), V>(ops: seq<Op<K, V>>, q: K): nat
  {
    if |ops| == 0 then 0
    else
      var op := ops[|ops| - 1];
      if (op.AddOp? || op.ReplaceOp?) && op.key == q then |ops| else LastPut(ops[..|ops| - 1], q)
  }

  ghost predicate ByLastPut<K, V>(m: seq<Entry<K, V>>, ops: seq<Op<K, V>>)
  {
    forall i, j | 0 <= i < j < |m| :: LastPut(ops, m[i].key) < LastPut(ops, m[j].key)
  }

  lemma {:induction false} LastPutBound<K, V>(ops: seq<Op<K, V>>, q: K)
    ensures LastPut(ops, q) <= |ops|
  {
    if |ops| != 0 {
      LastPutBound(ops[..|ops| - 1], q);
    }
  }

  /** As long as nothing is sorted, entries come in the order in which their keys were last added or replaced. */
  lemma {:induction false} RunInOrder<K, V>(ops: seq<Op<K, V>>)
    requires AllowedRun(ops) && forall i | 0 <= i < |ops| :: !ops[i].ReorderOp?
    ensures ByLastPut(Run(ops), ops)
  {
    if |ops| != 0 {
      var before, op := ops[..|ops| - 1], ops[|ops| - 1];
      RunInOrder(before);
      RunAnswersLastWrite(before, op.key);
      match op {
        case AddOp(k, v) => PutInOrder(Run(before), ops, k, v);
        case RemoveOp(k) =>
          RemoveInOrder(Run(before), before, k);
          SamePuts(Run(ops), ops);
        case ReplaceOp(k, v) =>
          RemoveInOrder(Run(before), before, k);
          RemoveKeeps(Run(before), k);
          PutInOrder(Remove(Run(before), k), ops, k, v);
      }
    }
  }

  lemma {:induction false} SamePuts<K, V>(m: seq<Entry<K, V>>, ops: seq<Op<K, V>>)
    requires |ops| > 0 && ops[|ops| - 1].RemoveOp? && ByLastPut(m, ops[..|ops| - 1])
    ensures ByLastPut(m, ops)
  {
  }

  lemma {:induction false} PutInOrder<K, V>(m: seq<Entry<K, V>>, ops: seq<Op<K, V>>, k: K, v: V)
    requires |ops| > 0 && Absent(m, k) && ByLastPut(m, ops[..|ops| - 1])
    requires ops[|ops| - 1] == AddOp(k, v) || ops[|ops| - 1] == ReplaceOp(k, v)
    ensures ByLastPut(Add(m, k, v), ops)
  {
    var n := Add(m, k, v);
    forall i, j | 0 <= i < j < |n| ensures LastPut(ops, n[i].key) < LastPut(ops, n[j].key) {
      LastPutBound(ops[..|ops| - 1], n[i].key);
    }
  }

  lemma {:induction false} RemoveInOrder<K, V>(m: seq<Entry<K, V>>, ops: seq<Op<K, V>>, k: K)
    requires KeysDistinct(m) && ByLastPut(m, ops)
    ensures ByLastPut(Remove(m, k), ops)
  {
    if i: nat :| i < |m| && m[i].key == k {
      RemoveAt(m, i);
    } else {
      RemoveAbsent(m, k);
    }
  }

  lemma {:induction false} PermutedKeysDistinct<K, V>(m: seq<Entry<K, V>>, n: seq<Entry<K, V>>)
    requires KeysDistinct(m) && multiset(m) == multiset(n)
    ensures KeysDistinct(n)
  {
    forall i, j | 0 <= i < j < |n| ensures n[i].key != n[j].key {
      assert n[i] in multiset(m) && n[j] in multiset(m);
      var a: nat :| a < |m| && m[a] == n[i];
      var b: nat :| b < |m| && m[b] == n[j];
      if n[i] == n[j] {
        assert n == n[..i] + [n[i]] + n[i + 1..j] + [n[j]] + n[j + 1..];
        assert multiset(n)[n[i]] >= 2;
        OneCopy(m, a);
      } else if a != b {
        assert a < b || b < a;
      }
    }
  }

  lemma OneCopy<K, V>(m: seq<Entry<K, V>>, a: nat)
    requires KeysDistinct(m) && a < |m|
    ensures multiset(m)[m[a]] == 1
  {
    assert m == m[..a] + [m[a]] + m[a + 1..];
    assert m[a] !in m[..a] && m[a] !in m[a + 1..];
  }

  /** Maps with distinct keys and the same entries are permutations of each other. */
  lemma SameEntries<K, V>(m: seq<Entry<K, V>>, n: seq<Entry<K, V>>)
    requires KeysDistinct(m) && KeysDistinct(n)
    requires (forall i | 0 <= i < |m| :: m[i] in n) && (forall j | 0 <= j < |n| :: n[j] in m)
    ensures multiset(m) == multiset(n)
  {
    forall e ensures multiset(m)[e] == multiset(n)[e] {
      if i: nat :| i < |m| && m[i] == e {
        var j: nat :| j < |n| && n[j] == e;
        OneCopy(m, i);
        OneCopy(n, j);
      } else {
        assert e !in m && e !in n;
      }
    }
  }

  /** Over every run: keys stay distinct, and a lookup answers with the last write of its key. */
  lemma {:induction false} RunAnswersLastWrite<K, V>(ops: seq<Op<K, V>>, q: K)
    requires AllowedRun(ops)
    ensures KeysDistinct(Run(ops))
    ensures Lookup(Run(ops), q) == LastWrite(ops, q)
  {
    if |ops| != 0 {
      var op, m := ops[|ops| - 1], Run(ops[..|ops| - 1]);
      RunAnswersLastWrite(ops[..|ops| - 1], q);
      match op {
        case AddOp(k, v) =>
          LookupAdd(m, k, v, q);
          LookupNone(m, k);
        case RemoveOp(k) =>
          RemoveKeeps(m, k);
          LookupRemove(m, k, q);
        case ReplaceOp(k, v) =>
          RemoveKeeps(m, k);
          LookupRemove(m, k, q);
          LookupAdd(Remove(m, k), k, v, q);
        case ReorderOp(n) =>
          PermutedKeysDistinct(m, n);
          LookupPermuted(m, n, q);
      }
    }
  }
}
