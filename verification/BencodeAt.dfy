/** The decoder by positions in one buffer: what it makes of the bytes at p, and what one round of its loops adds. */
module BencodeAt {
  import opened OrderedMap
  import opened Decimal
  import opened Bencode

  type Nodes = Outcome<Option<Node>>

  ghost function NumberAt(buf: Text, p: nat): Option<Parsed>
  {
    if p <= |buf| then StrToLL(buf[p..]) else None
  }

  ghost function StrAt(buf: Text, p: nat): Outcome<Option<Text>>
  {
    if p <= |buf| then DecodeStr(buf[p..]) else Undefined
  }

  ghost function TreeAt(buf: Text, p: nat): Nodes
  {
    if p <= |buf| then Decode(buf[p..]) else Undefined
  }

  ghost function ItemsAt(buf: Text, p: nat, items: seq<Node>): Nodes
  {
    if p <= |buf| then ListLoop(buf[p..], items) else Undefined
  }

  ghost function PairsAt(buf: Text, p: nat, es: seq<DictEntry>): Nodes
  {
    if p <= |buf| && InTime(es) then DictLoop(buf[p..], es) else Undefined
  }

  /** The position k bytes past p. */
  function Past(p: nat, k: nat): nat
  {
    p + k
  }

  /** How far p is past start. */
  function Since(start: nat, p: nat): nat
  {
    if p < start then 0 else p - start
  }

  lemma {:induction false} SliceAgain(buf: Text, p: nat, k: nat)
    requires p + k <= |buf|
    ensures buf[p..][k..] == buf[Past(p, k)..]
  {
  }

  // ----- the branches

  lemma {:induction false} StrCut(buf: Text, p: nat, q: nat, len: int)
    requires p <= q && NumberAt(buf, p) == Some(Parsed(len, q - p))
    ensures q < |buf|
    ensures StrAt(buf, p) ==
            if len < 0 || len > |buf| - q - 1 || buf[q] != COLON then Result(None, q - p, 0)
            else Result(Some(buf[q + 1..q + 1 + len]), q - p + 1 + len, 0)
  {
    if 0 <= len <= |buf| - q - 1 {
      assert buf[p..][q - p + 1..q - p + 1 + len] == buf[q + 1..q + 1 + len];
    }
  }

  lemma {:induction false} TreeIsList(buf: Text, p: nat)
    requires p < |buf| && buf[p] == LIST
    ensures TreeAt(buf, p) == Shift(ItemsAt(buf, Past(p, 1), []), 1, 0)
  {
    SliceAgain(buf, p, 1);
  }

  lemma {:induction false} TreeIsDict(buf: Text, p: nat)
    requires p < |buf| && buf[p] == DICT
    ensures TreeAt(buf, p) == Shift(PairsAt(buf, Past(p, 1), []), 1, 0)
  {
    SliceAgain(buf, p, 1);
  }

  /** An integer whose digits start at p, behind its mark. */
  ghost function IntAt(buf: Text, p: nat): Nodes
  {
    match NumberAt(buf, p)
    case None => Undefined
    case Some(Parsed(i, used)) =>
      if buf[p + used] != END then Result(None, 1 + used, 1) else Result(Some(IntNode(i)), used + 2, 0)
  }

  lemma {:induction false} TreeIsInt(buf: Text, p: nat)
    requires p < |buf| && buf[p] == INT
    ensures TreeAt(buf, p) == IntAt(buf, Past(p, 1))
  {
    SliceAgain(buf, p, 1);
  }

  lemma {:induction false} TreeIsStr(buf: Text, p: nat)
    requires p < |buf| && IsDigit(buf[p])
    ensures TreeAt(buf, p) ==
            if StrAt(buf, p).Undefined? then Undefined else Result(Some(StrNode(StrAt(buf, p).value)), StrAt(buf, p).used, 0)
  {
  }

  lemma {:induction false} TreeIsNone(buf: Text, p: nat)
    requires p <= |buf|
    requires p < |buf| ==> buf[p] != LIST && buf[p] != DICT && buf[p] != INT && !IsDigit(buf[p])
    ensures TreeAt(buf, p) == Result(None, 0, 0)
  {
  }

  // ----- the rounds

  lemma {:induction false} TreeAgain(buf: Text, p: nat, k: nat)
    requires p <= |buf|
    ensures TreeAt(buf, Past(p, k)) == if k <= |buf| - p then Decode(buf[p..][k..]) else Undefined
  {
    if p + k <= |buf| {
      SliceAgain(buf, p, k);
    }
  }

  lemma {:induction false} ItemsAgain(buf: Text, p: nat, k: nat, items: seq<Node>)
    requires p <= |buf|
    ensures ItemsAt(buf, Past(p, k), items) == if k <= |buf| - p then ListLoop(buf[p..][k..], items) else Undefined
  {
    if p + k <= |buf| {
      SliceAgain(buf, p, k);
    }
  }

  lemma {:induction false} PairsAgain(buf: Text, p: nat, k: nat, u: nat, es: seq<DictEntry>)
    requires p + k <= |buf|
    ensures PairsAt(buf, Past(Past(p, k), u), es) ==
            if u <= |buf| - p - k && InTime(es) then DictLoop(buf[p..][k..][u..], es) else Undefined
  {
    SliceAgain(buf, p, k);
    if p + k + u <= |buf| {
      SliceAgain(buf, Past(p, k), u);
    }
  }

  /** The loop of a list at p, k bytes and n lost blocks after its start, by what its next element comes to. */
  ghost function AfterItem(buf: Text, p: nat, items: seq<Node>, k: nat, n: nat): Nodes
  {
    ItemRound(buf, p, items, TreeAt(buf, p), k, n)
  }

  ghost function ItemRound(buf: Text, p: nat, items: seq<Node>, o: Nodes, k: nat, n: nat): Nodes
  {
    if o.Undefined? then Undefined
    else
      match o.value
      case None => Result(Some(ListNode(items)), Past(k, o.used) + 1, Past(n, o.lost))
      case Some(v) => Shift(ItemsAt(buf, Past(p, o.used), items + [v]), Past(k, o.used), Past(n, o.lost))
  }

  lemma {:induction false} FirstItem(buf: Text, p: nat, items: seq<Node>)
    requires p < |buf| && buf[p] != END
    ensures ItemsAt(buf, p, items) == AfterItem(buf, p, items, 0, 0)
  {
    var o := TreeAt(buf, p);
    if o.Result? && o.value.Some? {
      ItemsAgain(buf, p, o.used, items + [o.value.value]);
    }
  }

  lemma {:induction false} LaterItem(buf: Text, p: nat, items: seq<Node>, k: nat, n: nat)
    ensures Shift(AfterItem(buf, p, items, 0, 0), k, n) == AfterItem(buf, p, items, k, n)
  {
  }

  lemma {:induction false} NextItem(buf: Text, p: nat, items: seq<Node>, k: nat, n: nat)
    requires p < |buf| && buf[p] != END
    ensures Shift(ItemsAt(buf, p, items), k, n) == AfterItem(buf, p, items, k, n)
  {
    FirstItem(buf, p, items);
    LaterItem(buf, p, items, k, n);
  }

  lemma {:induction false} NoMoreItems(buf: Text, p: nat, items: seq<Node>)
    requires p < |buf| && buf[p] == END
    ensures ItemsAt(buf, p, items) == if |items| == 0 then Undefined else Result(Some(ListNode(items)), 1, 0)
  {
  }

  lemma {:induction false} ItemsInside(buf: Text, p: nat, items: seq<Node>)
    requires ItemsAt(buf, p, items).Result?
    ensures p < |buf|
  {
  }

  /** The loop of a dictionary at p, k bytes and n lost blocks after its start, by its next key and value. */
  ghost function AfterPair(buf: Text, p: nat, es: seq<DictEntry>, k: nat, n: nat): Nodes
  {
    if StrAt(buf, p).Undefined? then Undefined
    else PairRound(buf, p, es, StrAt(buf, p), TreeAt(buf, Past(p, StrAt(buf, p).used)), k, n)
  }

  ghost function PairRound(buf: Text, p: nat, es: seq<DictEntry>, key: Outcome<Option<Text>>, o: Nodes, k: nat, n: nat): Nodes
    requires key.Result?
  {
    if o.Undefined? then Undefined
    else
      var e := DictEntry(key.value, o.value);
      if SlotIsNull(es + [e], |es|)
      then Result(Some(DictNode(es)), Past(Past(k, key.used), o.used) + 1, Past(n, o.lost) + EntryBlocks(e))
      else Shift(PairsAt(buf, Past(Past(p, key.used), o.used), es + [e]), Past(Past(k, key.used), o.used), Past(n, o.lost))
  }

  lemma {:induction false} FirstPair(buf: Text, p: nat, es: seq<DictEntry>)
    requires p < |buf| && buf[p] != END && InTime(es)
    ensures PairsAt(buf, p, es) == AfterPair(buf, p, es, 0, 0)
  {
    var key := StrAt(buf, p);
    if key.Result? {
      var o := TreeAt(buf, Past(p, key.used));
      TreeAgain(buf, p, key.used);
      if o.Result? {
        var e := DictEntry(key.value, o.value);
        StaysInTimeIf(es, e);
        PairsAgain(buf, p, key.used, o.used, es + [e]);
      }
    }
  }

  lemma {:induction false} LaterPair(buf: Text, p: nat, es: seq<DictEntry>, k: nat, n: nat)
    ensures Shift(AfterPair(buf, p, es, 0, 0), k, n) == AfterPair(buf, p, es, k, n)
  {
  }

  lemma {:induction false} NextPair(buf: Text, p: nat, es: seq<DictEntry>, k: nat, n: nat, all: Nodes)
    requires p < |buf| && buf[p] != END && InTime(es) && all == Shift(PairsAt(buf, p, es), k, n)
    ensures all == AfterPair(buf, p, es, k, n)
  {
    FirstPair(buf, p, es);
    LaterPair(buf, p, es, k, n);
  }

  lemma {:induction false} NoMorePairs(buf: Text, p: nat, es: seq<DictEntry>)
    requires p < |buf| && buf[p] == END && InTime(es)
    ensures PairsAt(buf, p, es) == if |es| == 0 then Undefined else Result(Some(DictNode(es)), 1, 0)
  {
  }

  lemma {:induction false} PairsInside(buf: Text, p: nat, es: seq<DictEntry>)
    requires PairsAt(buf, p, es).Result?
    ensures p < |buf| && InTime(es)
  {
  }

  /** A part that is there took bytes. */
  lemma {:induction false} PartsMove(buf: Text, p: nat, q: nat)
    ensures StrAt(buf, p).Result? && StrAt(buf, p).value.Some? ==> StrAt(buf, p).used > 0
    ensures TreeAt(buf, q).Result? && TreeAt(buf, q).value.Some? ==> TreeAt(buf, q).used > 0
  {
  }
}
