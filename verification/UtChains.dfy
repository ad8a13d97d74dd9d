/**
 Items of the intrusive hash table and their bucket chains. An item carries its own links:
 `prev`/`next` thread it into the list in application order, `hhPrev`/`hhNext` into the chain of its
 bucket. Item and embedded handle are one object here, so ELMT_FROM_HH is the identity.
 */
module UtChains {
  import opened Bits
  import opened Sequences

  type Key = seq<byte>

  class Handle {
    var key: Key
    var hashv: nat
    var prev: Handle?
    var next: Handle?
    var hhPrev: Handle?
    var hhNext: Handle?
    ghost var pos: nat   // index in the table's list
    ghost var bkt: nat   // bucket and index in its chain
    ghost var slot: nat

    constructor ()
    {
      key, hashv := [], 0;
      prev, next, hhPrev, hhNext := null, null, null, null;
    }
  }

  datatype Bucket = Bucket(hhHead: Handle?, count: nat, expandMult: nat)

  /** HASH_TO_BKT: masking with num_bkts - 1. */
  function ToBkt(hashv: nat, n: nat): nat
    requires n > 0
  {
    And(hashv, n - 1)
  }

  // ----- bucket chains

  /** Node j of chain `c` in bucket b. The chain is listed oldest node first, against its links. */
  ghost predicate NodeAt(c: seq<Handle>, j: nat, b: nat)
    requires j < |c|
    reads c[j]
  {
    && c[j].bkt == b
    && c[j].slot == j
    && c[j].hhPrev == (if j + 1 == |c| then null else c[j + 1])
    && c[j].hhNext == (if j == 0 then null else c[j - 1])
  }

  /** `c` is the chain that starts at `head` in bucket b. */
  ghost predicate ChainLinked(c: seq<Handle>, head: Handle?, b: nat)
    reads c
  {
    && head == (if |c| == 0 then null else c[|c| - 1])
    && forall j | 0 <= j < |c| :: NodeAt(c, j, b)
  }

  ghost function Members(cs: seq<seq<Handle>>): set<Handle>
  {
    set b, j | 0 <= b < |cs| && 0 <= j < |cs[b]| :: cs[b][j]
  }

  lemma MembersPush(cs: seq<seq<Handle>>, b: nat, h: Handle)
    requires b < |cs|
    ensures Members(cs[b := cs[b] + [h]]) == Members(cs) + {h}
  {
    var cs' := cs[b := cs[b] + [h]];
    assert cs'[b][|cs[b]|] == h;
    forall k, j | 0 <= k < |cs| && 0 <= j < |cs[k]| ensures cs[k][j] in Members(cs') {
      assert cs'[k][j] == cs[k][j];
    }
    forall k, j | 0 <= k < |cs'| && 0 <= j < |cs'[k]| ensures cs'[k][j] in Members(cs) + {h} {
      assert k != b || j < |cs[b]| ==> cs'[k][j] == cs[k][j];
    }
  }

  /** HASH_ADD_TO_BKT and HASH_EXPAND_BUCKETS: `h` becomes the head of a chain. */
  method PushFront(head: Handle?, h: Handle, ghost c: seq<Handle>, ghost b: nat)
    requires ChainLinked(c, head, b) && forall j | 0 <= j < |c| :: c[j] != h
    modifies h`hhPrev, h`hhNext, h`slot, h`bkt, c`hhPrev
    ensures ChainLinked(c + [h], h, b)
  {
    if |c| != 0 {
      assert c[|c| - 1] in c && NodeAt(c, |c| - 1, b);
    }
    h.hhNext := head;
    h.hhPrev := null;
    if head != null {
      head.hhPrev := h;
    }
    h.bkt, h.slot := b, |c|;
    ghost var d := c + [h];
    forall j | 0 <= j < |d| ensures NodeAt(d, j, b) {
      assert j < |c| ==> c[j] in c && old(NodeAt(c, j, b));
    }
  }

  function Without<T>(s: seq<T>, k: nat): (r: seq<T>)
    requires k < |s|
  {
    s[..k] + s[k + 1..]
  }

  /** The unlinking half of HASH_DEL_IN_BKT; returns the chain's head afterwards. */
  method UnlinkFromChain(head: Handle?, h: Handle, ghost c: seq<Handle>, ghost b: nat, ghost k: nat) returns (r: Handle?)
    requires ChainLinked(c, head, b) && k < |c| && c[k] == h
    modifies c`hhPrev, c`hhNext
    ensures r == if |c| == 1 then null else if k + 1 == |c| then c[k - 1] else c[|c| - 1]
    ensures forall j {:trigger c[j].hhPrev} | 0 <= j < |c| ::
              c[j].hhPrev == if j + 1 == k then old(h.hhPrev) else old(c[j].hhPrev)
    ensures forall j {:trigger c[j].hhNext} | 0 <= j < |c| ::
              c[j].hhNext == if j == k + 1 then old(h.hhNext) else old(c[j].hhNext)
  {
    assert NodeAt(c, k, b) && (k > 0 ==> c[k - 1] in c) && (k + 1 < |c| ==> c[k + 1] in c);
    assert NodeAt(c, |c| - 1, b);
    r := head;
    if r == h {
      r := h.hhNext;
    }
    assert k > 0 ==> NodeAt(c, k - 1, b);
    assert k + 1 < |c| ==> NodeAt(c, k + 1, b);
    assert forall j {:trigger c[j].hhPrev} {:trigger c[j].hhNext} | 0 <= j < |c| :: NodeAt(c, j, b);
    if h.hhPrev != null {
      h.hhPrev.hhNext := h.hhNext;
    }
    if h.hhNext != null {
      h.hhNext.hhPrev := h.hhPrev;
    }
  }

  /** Renumbers the nodes after the gap at index k. */
  ghost method CloseGap(c: seq<Handle>, k: nat)
    requires k < |c| && forall j {:trigger c[j].slot} | 0 <= j < |c| :: c[j].slot == j
    modifies c`slot
    ensures forall j {:trigger c[j].slot} | 0 <= j < |c| :: c[j].slot == if j > k then j - 1 else j
  {
    forall x | x in c {
      x.slot := if x.slot > k then x.slot - 1 else x.slot;
    }
    assert forall j {:trigger c[j].slot} | 0 <= j < |c| :: c[j] in c && old(c[j].slot) == j;
  }

  method RemoveFromChain(head: Handle?, h: Handle, ghost c: seq<Handle>, ghost b: nat, ghost k: nat) returns (r: Handle?)
    requires ChainLinked(c, head, b) && k < |c| && c[k] == h
    modifies c`hhPrev, c`hhNext, c`slot
    ensures ChainLinked(Without(c, k), r, b)
  {
    assert NodeAt(c, k, b);
    assert forall j {:trigger c[j].slot} | 0 <= j < |c| :: NodeAt(c, j, b);
    r := UnlinkFromChain(head, h, c, b, k);
    CloseGap(c, k);
    ghost var d := Without(c, k);
    forall j | 0 <= j < |d| ensures NodeAt(d, j, b) {
      var m := if j < k then j else j + 1;
      assert d[j] == c[m] && old(NodeAt(c, m, b));
      assert j > 0 ==> d[j - 1] == c[if j == k then k - 1 else m - 1];
      assert j + 1 < |d| ==> d[j + 1] == c[if j + 1 == k then k + 1 else m + 1];
    }
  }

  ghost predicate ChainsLinked(bs: array<Bucket>, cs: seq<seq<Handle>>)
    reads bs, Members(cs)
  {
    && 0 < bs.Length == |cs|
    && (forall b | 0 <= b < |cs| :: ChainLinked(cs[b], bs[b].hhHead, b))
    && (forall b | 0 <= b < |cs| :: bs[b].count == |cs[b]|)
  }

  /** Nodes of other chains are neither `h` nor in chain b. */
  lemma OtherNode(bs: array<Bucket>, cs: seq<seq<Handle>>, b: nat, k: nat, j: nat)
    requires ChainsLinked(bs, cs) && b < |cs| && k < |cs| && k != b && j < |cs[k]|
    ensures cs[k][j] in Members(cs) && cs[k][j] !in cs[b] && NodeAt(cs[k], j, k)
  {
    assert ChainLinked(cs[k], bs[k].hhHead, k) && NodeAt(cs[k], j, k);
    forall i | 0 <= i < |cs[b]| ensures cs[b][i] != cs[k][j] {
      assert ChainLinked(cs[b], bs[b].hhHead, b) && NodeAt(cs[b], i, b);
    }
  }

  /** Bucket b gains `h`: its count goes up and `h` becomes its head. */
  method LinkIntoBucket(bs: array<Bucket>, b: nat, h: Handle, ghost cs: seq<seq<Handle>>) returns (ghost cs': seq<seq<Handle>>)
    requires ChainsLinked(bs, cs) && b < bs.Length && h !in Members(cs)
    modifies bs, h`hhPrev, h`hhNext, h`slot, h`bkt, cs[b]`hhPrev
    ensures cs' == cs[b := cs[b] + [h]] && Members(cs') == Members(cs) + {h}
    ensures ChainsLinked(bs, cs')
    ensures forall k | 0 <= k < bs.Length && k != b :: bs[k] == old(bs[k])
    ensures bs[b].expandMult == old(bs[b].expandMult) && h.bkt == b
  {
    ghost var c := cs[b];
    cs' := cs[b := c + [h]];
    MembersPush(cs, b, h);
    assert ChainLinked(c, bs[b].hhHead, b);
    forall k, j | 0 <= k < |cs| && k != b && 0 <= j < |cs[k]|
      ensures cs[k][j] != h && cs[k][j] !in c && NodeAt(cs[k], j, k) {
      OtherNode(bs, cs, b, k, j);
    }
    PushFront(bs[b].hhHead, h, c, b);
    bs[b] := bs[b].(hhHead := h, count := bs[b].count + 1);
    forall k | 0 <= k < |cs| && k != b ensures ChainLinked(cs'[k], bs[k].hhHead, k) {
      assert old(ChainLinked(cs[k], bs[k].hhHead, k));
      forall j | 0 <= j < |cs[k]| ensures NodeAt(cs[k], j, k) {
        assert old(NodeAt(cs[k], j, k));
      }
    }
    assert ChainLinked(cs'[b], bs[b].hhHead, b) && NodeAt(cs'[b], |c|, b);
  }

  lemma MembersWithout(bs: array<Bucket>, cs: seq<seq<Handle>>, b: nat, k: nat)
    requires ChainsLinked(bs, cs) && b < |cs| && k < |cs[b]|
    ensures Members(cs[b := Without(cs[b], k)]) == Members(cs) - {cs[b][k]}
  {
    var c, h := cs[b], cs[b][k];
    var cs' := cs[b := Without(c, k)];
    assert ChainLinked(c, bs[b].hhHead, b) && NodeAt(c, k, b);
    forall i, j | 0 <= i < |cs| && 0 <= j < |cs[i]| && cs[i][j] != h ensures cs[i][j] in Members(cs') {
      assert cs'[i][if i == b && j > k then j - 1 else j] == cs[i][j];
    }
    forall i, j | 0 <= i < |cs'| && 0 <= j < |cs'[i]| ensures cs'[i][j] in Members(cs) && cs'[i][j] != h {
      var m := if i == b && j >= k then j + 1 else j;
      assert cs'[i][j] == cs[i][m];
      if i == b {
        assert NodeAt(c, m, b);
      } else {
        OtherNode(bs, cs, b, i, m);
      }
    }
  }

  /** HASH_DEL_IN_BKT. */
  method UnlinkFromBucket(bs: array<Bucket>, b: nat, h: Handle, ghost cs: seq<seq<Handle>>) returns (ghost cs': seq<seq<Handle>>)
    requires ChainsLinked(bs, cs) && b < bs.Length && h in Members(cs) && h.bkt == b
    modifies bs, cs[b]`hhPrev, cs[b]`hhNext, cs[b]`slot
    ensures Members(cs') == Members(cs) - {h}
    ensures ChainsLinked(bs, cs')
    ensures bs[..] == old(bs[..])[b := bs[b]] && bs[b].count <= old(bs[b].count) && bs[b].expandMult == old(bs[b].expandMult)
  {
    ghost var k := SlotOf(bs, cs, h);
    ghost var c := cs[b];
    cs' := cs[b := Without(c, k)];
    MembersWithout(bs, cs, b, k);
    assert ChainLinked(c, bs[b].hhHead, b);
    forall i, j | 0 <= i < |cs| && i != b && 0 <= j < |cs[i]|
      ensures cs[i][j] !in c && NodeAt(cs[i], j, i) {
      OtherNode(bs, cs, b, i, j);
    }
    var hd := RemoveFromChain(bs[b].hhHead, h, c, b, k);
    bs[b] := bs[b].(hhHead := hd, count := bs[b].count - 1);
    forall i | 0 <= i < |cs| && i != b ensures ChainLinked(cs'[i], bs[i].hhHead, i) {
      assert old(ChainLinked(cs[i], bs[i].hhHead, i));
      forall j | 0 <= j < |cs[i]| ensures NodeAt(cs[i], j, i) {
        assert old(NodeAt(cs[i], j, i));
      }
    }
    assert ChainLinked(cs'[b], bs[b].hhHead, b);
  }

  lemma SlotOf(bs: array<Bucket>, cs: seq<seq<Handle>>, h: Handle) returns (k: nat)
    requires ChainsLinked(bs, cs) && h in Members(cs)
    ensures h.bkt < |cs| && k < |cs[h.bkt]| && cs[h.bkt][k] == h
  {
    var b, j :| 0 <= b < |cs| && 0 <= j < |cs[b]| && cs[b][j] == h;
    assert ChainLinked(cs[b], bs[b].hhHead, b) && NodeAt(cs[b], j, b);
    k := j;
  }

  /** HASH_FIND_IN_BKT: walk one chain for the key. */
  method FindInBucket(head: Handle?, key: Key, ghost c: seq<Handle>, ghost b: nat) returns (out: Handle?)
    requires ChainLinked(c, head, b)
    ensures out != null ==> out in c && out.key == key
    ensures out == null ==> forall h | h in c :: h.key != key
  {
    out := head;
    ghost var k: nat := |c|;
    while out != null
      invariant k <= |c| && out == if k == 0 then null else c[k - 1]
      invariant forall j | k <= j < |c| :: c[j].key != key
      decreases k
    {
      if out.key == key {
        break;
      }
      assert NodeAt(c, k - 1, b);
      out := out.hhNext;
      k := k - 1;
    }
  }

  // ----- bucket expansion

  function Over(count: nat, ideal: nat): nat
  {
    if count > ideal then count - ideal else 0
  }

  /** The number of items beyond the ideal length of their chain. */
  ghost function Excess(cs: seq<seq<Handle>>, ideal: nat): nat
  {
    if |cs| == 0 then 0 else Excess(cs[..|cs| - 1], ideal) + Over(|cs[|cs| - 1]|, ideal)
  }

  /** How often a bucket's chain exceeds the ideal length: 0 unless it is overfull. */
  function Mult(count: nat, ideal: nat): nat
    requires ideal > 0
  {
    if count > ideal then count / ideal else 0
  }

  lemma {:induction false} ExcessPush(cs: seq<seq<Handle>>, b: nat, h: Handle, ideal: nat)
    requires b < |cs|
    ensures Excess(cs[b := cs[b] + [h]], ideal) == Excess(cs, ideal) + if |cs[b]| + 1 > ideal then 1 else 0
  {
    var n := |cs| - 1;
    var cs' := cs[b := cs[b] + [h]];
    if b < n {
      assert cs'[..n] == cs[..n][b := cs[..n][b] + [h]];
      ExcessPush(cs[..n], b, h, ideal);
    } else {
      assert cs'[..n] == cs[..n];
    }
  }

  lemma {:induction false} ExcessOfEmpty(n: nat, ideal: nat)
    ensures Excess(seq(n, _ => []), ideal) == 0
  {
    if n > 0 {
      assert seq(n, _ => [])[..n - 1] == seq<seq<Handle>>(n - 1, _ => []);
      ExcessOfEmpty(n - 1, ideal);
    }
  }

  ghost predicate StatsOK(bs: array<Bucket>, cs: seq<seq<Handle>>, ideal: nat, nonideal: nat)
    requires bs.Length == |cs| && ideal > 0
    reads bs
  {
    && nonideal == Excess(cs, ideal)
    && forall b | 0 <= b < |cs| :: bs[b].expandMult == Mult(|cs[b]|, ideal)
  }

  ghost predicate Rehashed(nodes: set<Handle>, n: nat)
    requires n > 0
    reads nodes
  {
    forall h | h in nodes :: h.bkt == ToBkt(h.hashv, n)
  }

  /** One item moves to the bucket its hash selects among the new ones. */
  method LinkByHash(h: Handle, bs: array<Bucket>, lg: nat, ghost cs: seq<seq<Handle>>)
    returns (b: nat, ghost cs': seq<seq<Handle>>)
    requires ChainsLinked(bs, cs) && bs.Length == Pow2(lg) && h !in Members(cs)
    requires Rehashed(Members(cs), bs.Length)
    modifies bs, h`hhPrev, h`hhNext, h`slot, h`bkt, Members(cs)`hhPrev
    ensures b == ToBkt(h.hashv, bs.Length) < |cs| && cs' == cs[b := cs[b] + [h]]
    ensures Members(cs') == Members(cs) + {h} && ChainsLinked(bs, cs')
    ensures Rehashed(Members(cs'), bs.Length)
    ensures bs[..] == old(bs[..])[b := bs[b]]
    ensures forall k | 0 <= k < bs.Length :: bs[k].expandMult == old(bs[k].expandMult)
  {
    MaskIsMod(h.hashv, lg);
    b := ToBkt(h.hashv, bs.Length);
    forall x | x in cs[b] ensures x in Members(cs) {
      var j :| 0 <= j < |cs[b]| && cs[b][j] == x;
    }
    cs' := LinkIntoBucket(bs, b, h, cs);
  }

  method Quotient(count: nat, ideal: nat) returns (m: nat)
    requires count > ideal > 0
    ensures m == Mult(count, ideal)
  {
    m := count / ideal;
  }

  method SetMult(bs: array<Bucket>, b: nat, mult: nat, ghost cs: seq<seq<Handle>>)
    requires ChainsLinked(bs, cs) && b < bs.Length
    modifies bs
    ensures ChainsLinked(bs, cs)
    ensures forall k | 0 <= k < bs.Length :: bs[k].expandMult == if k == b then mult else old(bs[k].expandMult)
  {
    bs[b] := bs[b].(expandMult := mult);
    forall k | 0 <= k < |cs| ensures ChainLinked(cs[k], bs[k].hhHead, k) {
      assert old(ChainLinked(cs[k], bs[k].hhHead, k));
    }
  }

  /** The new bucket array under construction, with its statistics. */
  ghost predicate NewTable(bs: array<Bucket>, lg: nat, cs: seq<seq<Handle>>, ideal: nat, nonideal: nat)
    reads bs, Members(cs)
  {
    && ideal > 0 && bs.Length == Pow2(lg)
    && ChainsLinked(bs, cs)
    && Rehashed(Members(cs), bs.Length)
    && StatsOK(bs, cs, ideal, nonideal)
  }

  /** The body of the expansion's inner loop, with the overflow statistics. */
  method Rehash(h: Handle, bs: array<Bucket>, lg: nat, ghost cs: seq<seq<Handle>>, ideal: nat, nonideal: nat)
    returns (ghost cs': seq<seq<Handle>>, nonideal': nat)
    requires NewTable(bs, lg, cs, ideal, nonideal) && h !in Members(cs)
    modifies bs, h`hhPrev, h`hhNext, h`slot, h`bkt, Members(cs)`hhPrev
    ensures Members(cs') == Members(cs) + {h} && NewTable(bs, lg, cs', ideal, nonideal')
  {
    var b;
    b, cs' := LinkByHash(h, bs, lg, cs);
    ExcessPush(cs, b, h, ideal);
    nonideal' := nonideal;
    if bs[b].count > ideal {
      nonideal' := nonideal' + 1;
      var mult := Quotient(bs[b].count, ideal);
      SetMult(bs, b, mult, cs');
    }
  }

  /** Node j of an old chain still has its place and its link to the next one. */
  ghost predicate NodeWaits(c: seq<Handle>, j: nat)
    requires j < |c|
    reads c[j]
  {
    c[j].slot == j && c[j].hhNext == if j == 0 then null else c[j - 1]
  }

  /** The walk along an old chain stands at `p`: nodes c[..k] wait, nodes c[k..] have moved. */
  ghost predicate Walking(c: seq<Handle>, k: nat, p: Handle?, cs: seq<seq<Handle>>, base: set<Handle>)
    reads c
  {
    && k <= |c|
    && p == (if k == 0 then null else c[k - 1])
    && Members(cs) == base + Elems(c[k..])
    && forall j | 0 <= j < k :: NodeWaits(c, j) && c[j] !in Members(cs)
  }

  lemma WaitersDiffer(c: seq<Handle>, k: nat)
    requires 0 < k <= |c| && forall j | 0 <= j < k :: NodeWaits(c, j)
    ensures forall j | 0 <= j < k - 1 :: c[j] != c[k - 1]
    ensures c[k - 1..] == [c[k - 1]] + c[k..] && Elems(c[k - 1..]) == Elems(c[k..]) + {c[k - 1]}
  {
    assert NodeWaits(c, k - 1);
    forall j | 0 <= j < k - 1 ensures c[j] != c[k - 1] {
      assert NodeWaits(c, j);
    }
    ElemsPrepend(c[k - 1], c[k..]);
    assert c[k - 1..] == [c[k - 1]] + c[k..];
  }

  lemma ElemsPrepend(x: Handle, s: seq<Handle>)
    ensures Elems([x] + s) == Elems(s) + {x}
  {
    var d := [x] + s;
    assert d[0] == x;
    forall i | 0 <= i < |s| ensures s[i] in Elems(d) {
      assert d[i + 1] == s[i];
    }
  }

  method RehashNext(p: Handle, ghost c: seq<Handle>, ghost k: nat, ghost base: set<Handle>, bs: array<Bucket>, lg: nat,
                    ghost cs: seq<seq<Handle>>, ideal: nat, nonideal: nat)
    returns (ghost cs': seq<seq<Handle>>, nonideal': nat, nxt: Handle?, ghost k': nat)
    requires k > 0 && Walking(c, k, p, cs, base) && NewTable(bs, lg, cs, ideal, nonideal)
    modifies bs, p`hhPrev, p`hhNext, p`slot, p`bkt, Members(cs)`hhPrev
    ensures k' == k - 1 && Walking(c, k', nxt, cs', base) && NewTable(bs, lg, cs', ideal, nonideal')
  {
    WaitersDiffer(c, k);
    k' := k - 1;
    assert NodeWaits(c, k - 1);
    nxt := p.hhNext;
    cs', nonideal' := Rehash(p, bs, lg, cs, ideal, nonideal);
    forall j | 0 <= j < k - 1 ensures NodeWaits(c, j) && c[j] !in Members(cs') {
      assert old(NodeWaits(c, j));
    }
  }

  /** The inner loop of the expansion: every item of one old chain moves to its new bucket. */
  method RehashChain(head: Handle?, ghost c: seq<Handle>, ghost b: nat, bs: array<Bucket>, lg: nat,
                     ghost cs: seq<seq<Handle>>, ideal: nat, nonideal: nat, ghost nodes: set<Handle>)
    returns (ghost cs': seq<seq<Handle>>, nonideal': nat)
    requires ChainLinked(c, head, b) && Elems(c) !! Members(cs) && NewTable(bs, lg, cs, ideal, nonideal)
    requires nodes == Members(cs) + Elems(c)
    modifies bs, nodes`hhPrev, nodes`hhNext, nodes`slot, nodes`bkt
    ensures Members(cs') == Members(cs) + Elems(c) && NewTable(bs, lg, cs', ideal, nonideal')
  {
    ghost var base := Members(cs);
    cs', nonideal' := cs, nonideal;
    WalkingStart(head, c, b, cs);
    var p := head;
    ghost var k: nat := |c|;
    while p != null
      invariant Walking(c, k, p, cs', base) && NewTable(bs, lg, cs', ideal, nonideal')
      decreases k
    {
      WalkingFrame(c, k, p, cs', base);
      cs', nonideal', p, k := RehashNext(p, c, k, base, bs, lg, cs', ideal, nonideal');
    }
    WalkingEnd(c, k, cs', base);
  }

  lemma WalkingStart(head: Handle?, c: seq<Handle>, b: nat, cs: seq<seq<Handle>>)
    requires ChainLinked(c, head, b) && Elems(c) !! Members(cs)
    ensures Walking(c, |c|, head, cs, Members(cs))
  {
    forall j | 0 <= j < |c| ensures NodeWaits(c, j) && c[j] !in Members(cs) {
      assert NodeAt(c, j, b) && c[j] in Elems(c);
    }
  }

  lemma WalkingEnd(c: seq<Handle>, k: nat, cs: seq<seq<Handle>>, base: set<Handle>)
    requires Walking(c, k, null, cs, base)
    ensures Members(cs) == base + Elems(c)
  {
    assert k == 0 && c[0..] == c;
  }

  lemma WalkingFrame(c: seq<Handle>, k: nat, p: Handle, cs: seq<seq<Handle>>, base: set<Handle>)
    requires Walking(c, k, p, cs, base)
    ensures p in Elems(c) && Members(cs) <= base + Elems(c)
  {
    forall x | x in Elems(c[k..]) ensures x in Elems(c) {
      var i :| 0 <= i < |c[k..]| && c[k..][i] == x;
      assert c[k + i] == x;
    }
  }

  ghost predicate PairwiseDisjoint(cs: seq<seq<Handle>>)
  {
    forall a, b | 0 <= a < b < |cs| :: Elems(cs[a]) !! Elems(cs[b])
  }

  lemma ChainsDisjoint(bs: array<Bucket>, cs: seq<seq<Handle>>)
    requires ChainsLinked(bs, cs)
    ensures PairwiseDisjoint(cs)
  {
    forall a, b | 0 <= a < b < |cs| ensures Elems(cs[a]) !! Elems(cs[b]) {
      forall x | x in Elems(cs[a]) ensures x !in Elems(cs[b]) {
        var j :| 0 <= j < |cs[a]| && cs[a][j] == x;
        OtherNode(bs, cs, b, a, j);
      }
    }
  }

  lemma MembersPrefix(cs: seq<seq<Handle>>, i: nat)
    requires i < |cs|
    ensures Members(cs[..i + 1]) == Members(cs[..i]) + Elems(cs[i])
  {
    var p, q := cs[..i], cs[..i + 1];
    forall j | 0 <= j < |cs[i]| ensures cs[i][j] in Members(q) {
      assert q[i][j] == cs[i][j];
    }
    forall b, j | 0 <= b < i && 0 <= j < |cs[b]| ensures cs[b][j] in Members(q) && cs[b][j] in Members(p) {
      assert q[b][j] == cs[b][j] && p[b][j] == cs[b][j];
    }
  }

  /** Old chains below i have moved to the new table, those from i on are untouched. */
  ghost predicate Sweeping(old_: array<Bucket>, ocs: seq<seq<Handle>>, i: nat, cs: seq<seq<Handle>>)
    reads old_, Members(ocs)
  {
    && old_.Length == |ocs| && i <= |ocs| && PairwiseDisjoint(ocs)
    && Members(cs) == Members(ocs[..i])
    && forall k | i <= k < |ocs| :: (forall x | x in ocs[k] :: x in Members(ocs)) && ChainLinked(ocs[k], old_[k].hhHead, k)
  }

  lemma PrefixDisjoint(ocs: seq<seq<Handle>>, i: nat, k: nat)
    requires PairwiseDisjoint(ocs) && i <= k < |ocs|
    ensures Members(ocs[..i]) !! Elems(ocs[k])
  {
    forall x | x in Members(ocs[..i]) ensures x !in Elems(ocs[k]) {
      var b, j :| 0 <= b < i && 0 <= j < |ocs[b]| && ocs[b][j] == x;
      assert x in Elems(ocs[b]);
    }
  }

  method RehashBucket(old_: array<Bucket>, ghost ocs: seq<seq<Handle>>, i: nat, i': nat, bs: array<Bucket>, lg: nat,
                      ghost cs: seq<seq<Handle>>, ideal: nat, nonideal: nat)
    returns (ghost cs': seq<seq<Handle>>, nonideal': nat)
    requires i < |ocs| && i' == i + 1 && old_ != bs
    requires Sweeping(old_, ocs, i, cs) && NewTable(bs, lg, cs, ideal, nonideal)
    modifies bs, Members(ocs)`hhPrev, Members(ocs)`hhNext, Members(ocs)`slot, Members(ocs)`bkt
    ensures Sweeping(old_, ocs, i', cs') && NewTable(bs, lg, cs', ideal, nonideal')
  {
    PrefixDisjoint(ocs, i, i);
    MembersPrefix(ocs, i);
    ghost var nodes := Members(ocs[..i']);
    forall k | i' <= k < |ocs| ensures nodes !! Elems(ocs[k]) {
      PrefixDisjoint(ocs, i', k);
    }
    cs', nonideal' := RehashChain(old_[i].hhHead, ocs[i], i, bs, lg, cs, ideal, nonideal, nodes);
    forall k | i' <= k < |ocs| ensures ChainLinked(ocs[k], old_[k].hhHead, k) {
      assert old(ChainLinked(ocs[k], old_[k].hhHead, k));
      forall j | 0 <= j < |ocs[k]| ensures NodeAt(ocs[k], j, k) {
        assert old(NodeAt(ocs[k], j, k)) && ocs[k][j] in Elems(ocs[k]);
      }
    }
  }

  /** The two nested loops of HASH_EXPAND_BUCKETS. */
  method RehashAll(old_: array<Bucket>, ghost ocs: seq<seq<Handle>>, bs: array<Bucket>, lg: nat, ideal: nat)
    returns (ghost cs: seq<seq<Handle>>, nonideal: nat)
    requires ChainsLinked(old_, ocs) && old_ != bs && ideal > 0 && bs.Length == Pow2(lg)
    requires forall k | 0 <= k < bs.Length :: bs[k] == Bucket(null, 0, 0)
    modifies bs, Members(ocs)`hhPrev, Members(ocs)`hhNext, Members(ocs)`slot, Members(ocs)`bkt
    ensures Members(cs) == Members(ocs) && NewTable(bs, lg, cs, ideal, nonideal)
  {
    cs, nonideal := seq(bs.Length, _ => []), 0;
    ChainsDisjoint(old_, ocs);
    ExcessOfEmpty(bs.Length, ideal);
    SweepStart(old_, ocs, cs);
    var i := 0;
    while i < old_.Length
      invariant i <= |ocs|
      invariant Sweeping(old_, ocs, i, cs) && NewTable(bs, lg, cs, ideal, nonideal)
    {
      var i' := i + 1;
      cs, nonideal := RehashBucket(old_, ocs, i, i', bs, lg, cs, ideal, nonideal);
      i := i';
    }
    assert ocs[..i] == ocs;
  }

  lemma SweepStart(old_: array<Bucket>, ocs: seq<seq<Handle>>, cs: seq<seq<Handle>>)
    requires ChainsLinked(old_, ocs) && PairwiseDisjoint(ocs)
    requires forall k | 0 <= k < |cs| :: |cs[k]| == 0
    ensures Sweeping(old_, ocs, 0, cs)
  {
    forall k, x | 0 <= k < |ocs| && x in ocs[k] ensures x in Members(ocs) {
      var j :| 0 <= j < |ocs[k]| && ocs[k][j] == x;
    }
    assert Members(cs) == {} == Members(ocs[..0]);
  }
}
