/**
 The decoder as the source runs it: a position and a remaining length that move together through a buffer, arrays
 that grow while a list or dictionary is read, and the blocks that malloc, realloc and free hand around.
 */
module BencodeCursor {
  import opened OrderedMap
  import opened Decimal
  import opened Bencode
  import opened BencodeTree
  import opened BencodeAt
  import opened Sequences

  function ValueOf(t: Option<Tree>): Option<Node>
  {
    if t.None? then None else Some(Strip(t.value))
  }

  class Cursor {
    const buf: Text
    /** *data, as an offset into buf. */
    var pos: nat
    /** *data_len. */
    var dataLen: int
    /** The blocks in use, and a bound on those ever handed out. */
    var live: set<Block>
    var next: Block

    /** Position plus remaining length is constant. */
    ghost predicate Valid()
      reads this
    {
      pos + dataLen == |buf| && forall b | b in live :: b < next
    }

    constructor (data: Text)
      ensures Valid() && buf == data && pos == 0 && live == {}
    {
      buf, pos, dataLen, live, next := data, 0, |data|, {}, 0;
    }

    // ----- the heap

    /** From `base`, whose blocks are below `bound`, to `live`: `owned` was added and, unreachable, `lost`. */
    static ghost predicate Added(live: set<Block>, next: Block, base: set<Block>, bound: Block, owned: set<Block>,
                                 lost: set<Block>)
    {
      live == base + owned + lost && owned !! lost && bound <= next &&
      (forall b | b in owned :: bound <= b < next) && (forall b | b in lost :: bound <= b < next)
    }

    ghost predicate Grown(base: set<Block>, bound: Block, owned: set<Block>, lost: set<Block>)
      reads this
    {
      Added(live, next, base, bound, owned, lost)
    }

    lemma {:induction false} GrownTwice(mid: set<Block>, midNext: Block, base: set<Block>, bound: Block, a: set<Block>,
                                        b: set<Block>, lost: set<Block>, l: set<Block>)
      requires Added(mid, midNext, base, bound, a, lost) && Grown(mid, midNext, b, l)
      requires forall x | x in mid :: x < midNext
      ensures Grown(base, bound, a + b, lost + l) && a !! b && lost !! l
    {
      assert a <= mid && lost <= mid;
    }

    method Malloc() returns (b: Block)
      requires Valid()
      modifies this`live, this`next
      ensures Valid() && b == old(next) < next && live == old(live) + {b}
    {
      b := next;
      live, next := live + {b}, next + 1;
    }

    /** realloc, taken to move the block. */
    method Realloc(from: Option<Block>) returns (b: Block)
      requires Valid() && (from.Some? ==> from.value in live)
      modifies this`live, this`next
      ensures Valid() && b == old(next) < next
      ensures live == old(live) - (if from.Some? then {from.value} else {}) + {b}
    {
      if from.Some? {
        live := live - {from.value};
      }
      b := Malloc();
    }

    /** free: the block must be in use, so it is released once. */
    method Free(b: Block)
      requires Valid() && b in live
      modifies this`live
      ensures Valid() && live == old(live) - {b}
    {
      live := live - {b};
    }

    // ----- numbers and strings

    method Advance(k: nat)
      requires Valid()
      modifies this`pos, this`dataLen
      ensures Valid() && pos == Past(old(pos), k)
    {
      pos, dataLen := pos + k, dataLen - k;
    }

    method DecodeInt() returns (i: int)
      requires Valid() && NumberAt(buf, pos).Some?
      modifies this`pos, this`dataLen
      ensures Valid() && old(pos) <= pos < |buf| && NumberAt(buf, old(pos)) == Some(Parsed(i, pos - old(pos)))
    {
      var parsed := StrToLL(buf[pos..]).value;
      i := parsed.value;
      Advance(parsed.used);
    }

    method ReadStr() returns (s: Option<Str>)
      requires Valid() && StrAt(buf, pos).Result?
      modifies this
      ensures Valid() && pos == Past(old(pos), StrAt(buf, old(pos)).used) && TextOf(s) == StrAt(buf, old(pos)).value
      ensures Grown(old(live), old(next), StrOwned(s), {})
    {
      var len := DecodeInt();
      StrCut(buf, old(pos), pos, len);
      if len < 0 || len > dataLen - 1 {
        return None;
      }
      if buf[pos] == COLON {
        var at := Malloc();
        s := Some(Str(at, buf[pos + 1..pos + 1 + len]));
        Advance(len + 1);
      } else {
        s := None;
      }
    }

    // ----- trees

    /** A tree, or none, as the decoder's specification says, in blocks of its own. */
    ghost predicate Decoded(o: Nodes, t: Option<Tree>, lost: set<Block>)
    {
      o.Result? && ValueOf(t) == o.value && |lost| == o.lost && (t.Some? ==> Proper(t.value))
    }

    method Decode() returns (t: Option<Tree>, ghost lost: set<Block>)
      requires Valid() && TreeAt(buf, pos).Result?
      modifies this
      ensures Valid() && pos == Past(old(pos), TreeAt(buf, old(pos)).used)
      ensures Decoded(TreeAt(buf, old(pos)), t, lost)
      ensures Grown(old(live), old(next), OwnedVal(t), lost)
      decreases |buf| - pos, 2
    {
      t, lost := None, {};
      if dataLen == 0 {
        TreeIsNone(buf, pos);
        return;
      }
      if buf[pos] == LIST || buf[pos] == DICT {
        t, lost := ReadBranch();
      } else {
        t, lost := ReadLeaf();
      }
    }

    method ReadBranch() returns (t: Option<Tree>, ghost lost: set<Block>)
      requires Valid() && TreeAt(buf, pos).Result? && pos < |buf| && (buf[pos] == LIST || buf[pos] == DICT)
      modifies this
      ensures Valid() && pos == Past(old(pos), TreeAt(buf, old(pos)).used)
      ensures Decoded(TreeAt(buf, old(pos)), t, lost)
      ensures Grown(old(live), old(next), OwnedVal(t), lost)
      decreases |buf| - pos, 1
    {
      if buf[pos] == LIST {
        TreeIsList(buf, pos);
        var list;
        list, lost := ReadList(ItemsAt(buf, Past(pos, 1), []));
        t := Some(list);
      } else {
        TreeIsDict(buf, pos);
        var dict;
        dict, lost := ReadDict(PairsAt(buf, Past(pos, 1), []));
        t := Some(dict);
      }
    }

    method ReadLeaf() returns (t: Option<Tree>, ghost lost: set<Block>)
      requires Valid() && TreeAt(buf, pos).Result? && pos < |buf| && buf[pos] != LIST && buf[pos] != DICT
      modifies this
      ensures Valid() && pos == Past(old(pos), TreeAt(buf, old(pos)).used)
      ensures Decoded(TreeAt(buf, old(pos)), t, lost)
      ensures Grown(old(live), old(next), OwnedVal(t), lost)
    {
      t, lost := None, {};
      if buf[pos] == INT {
        TreeIsInt(buf, pos);
        t, lost := ReadInt(IntAt(buf, Past(pos, 1)));
      } else if IsDigit(buf[pos]) {
        TreeIsStr(buf, pos);
        var str := ReadStrNode(StrAt(buf, pos));
        t := Some(str);
      } else {
        TreeIsNone(buf, pos);
      }
    }

    method ReadInt(ghost o: Nodes) returns (t: Option<Tree>, ghost lost: set<Block>)
      requires Valid() && pos < |buf| && buf[pos] == INT && o == IntAt(buf, Past(pos, 1)) && o.Result?
      modifies this
      ensures Valid() && pos == Past(old(pos), o.used) && Decoded(o, t, lost)
      ensures Grown(old(live), old(next), OwnedVal(t), lost)
    {
      var at := Malloc();
      Advance(1);
      var i := DecodeInt();
      if buf[pos] != END {
        return None, {at};
      }
      Advance(1);
      t, lost := Some(IntTree(at, i)), {};
    }

    method ReadStrNode(ghost o: Outcome<Option<Text>>) returns (t: Tree)
      requires Valid() && o == StrAt(buf, pos) && o.Result?
      modifies this
      ensures Valid() && pos == Past(old(pos), o.used) && Decoded(Result(Some(StrNode(o.value)), o.used, 0), Some(t), {})
      ensures Grown(old(live), old(next), Owned(t), {})
    {
      var at := Malloc();
      ghost var mid := next;
      var s := ReadStr();
      t := StrTree(at, s);
      StrDone(old(live), old(next), at, mid, s, o);
    }

    lemma {:induction false} StrDone(base: set<Block>, bound: Block, at: Block, mid: Block, s: Option<Str>, o: Outcome<Option<Text>>)
      requires Grown(base + {at}, mid, StrOwned(s), {}) && bound <= at < mid && o.Result? && TextOf(s) == o.value
      ensures Grown(base, bound, Owned(StrTree(at, s)), {})
      ensures Decoded(Result(Some(StrNode(o.value)), o.used, 0), Some(StrTree(at, s)), {})
    {
    }

    /** Decode, with more blocks to keep apart from. */
    method DecodeOnto(ghost base: set<Block>, ghost bound: Block, ghost owned: set<Block>, ghost lost: set<Block>)
      returns (t: Option<Tree>, ghost l: set<Block>)
      requires Valid() && TreeAt(buf, pos).Result? && Grown(base, bound, owned, lost)
      modifies this
      ensures Valid() && pos == Past(old(pos), TreeAt(buf, old(pos)).used) && Decoded(TreeAt(buf, old(pos)), t, l)
      ensures Grown(base, bound, owned + OwnedVal(t), lost + l) && owned !! OwnedVal(t) && lost !! l
      decreases |buf| - pos, 3
    {
      ghost var mid, midNext := live, next;
      t, l := Decode();
      GrownTwice(mid, midNext, base, bound, owned, OwnedVal(t), lost, l);
    }

    method ReadStrOnto(ghost base: set<Block>, ghost bound: Block, ghost owned: set<Block>, ghost lost: set<Block>)
      returns (s: Option<Str>)
      requires Valid() && StrAt(buf, pos).Result? && Grown(base, bound, owned, lost)
      modifies this
      ensures Valid() && pos == Past(old(pos), StrAt(buf, old(pos)).used) && TextOf(s) == StrAt(buf, old(pos)).value
      ensures Grown(base, bound, owned + StrOwned(s), lost) && owned !! StrOwned(s)
    {
      ghost var mid, midNext := live, next;
      s := ReadStr();
      GrownTwice(mid, midNext, base, bound, owned, StrOwned(s), lost, {});
      assert lost + {} == lost;
    }

    // ----- lists

    /** The loop over the list that starts at `start` and comes to `all` has reached pos with these items. */
    ghost predicate AtItem(all: Nodes, start: nat, items: seq<Tree>, lost: set<Block>)
      reads this
    {
      start <= pos < |buf| && all.Result? && all == Shift(ItemsAt(buf, pos, StripAll(items)), Since(start, pos), |lost|)
    }

    ghost predicate ItemsRead(all: Nodes, start: nat, items: seq<Tree>, lost: set<Block>)
      reads this
    {
      pos + 1 >= start && all == Result(Some(ListNode(StripAll(items))), pos + 1 - start, |lost|)
    }

    static function ArrayOwned(arr: Option<Block>): set<Block>
    {
      if arr.Some? then {arr.value} else {}
    }

    ghost predicate HoldsItems(base: set<Block>, bound: Block, arr: Option<Block>, items: seq<Tree>, lost: set<Block>)
      reads this
    {
      Grown(base, bound, ArrayOwned(arr) + OwnedAll(items), lost) && ArrayOwned(arr) !! OwnedAll(items) && ProperAll(items)
    }

    /** The array is moved to a larger block. */
    method GrowItems(arr: Option<Block>, ghost base: set<Block>, ghost bound: Block, ghost items: seq<Tree>,
                     ghost lost: set<Block>)
      returns (grown: Block)
      requires Valid() && HoldsItems(base, bound, arr, items, lost) && forall b | b in base :: b < bound
      modifies this`live, this`next
      ensures Valid() && HoldsItems(base, bound, Some(grown), items, lost)
    {
      grown := Realloc(arr);
    }

    ghost predicate ItemAdded(all: Nodes, start: nat, items: seq<Tree>, item: Option<Tree>, lost: set<Block>)
      reads this
    {
      match item
      case None => ItemsRead(all, start, items, lost)
      case Some(t) => AtItem(all, start, items + [t], lost)
    }

    /** The round just done leads to the next one, or to the end. */
    lemma {:induction false} ItemDone(all: Nodes, p: nat, start: nat, items: seq<Tree>, lost: set<Block>, item: Option<Tree>,
                                      l: set<Block>)
      requires start <= p && all.Result? && all == AfterItem(buf, p, StripAll(items), Since(start, p), |lost|)
      requires pos == Past(p, TreeAt(buf, p).used) && Decoded(TreeAt(buf, p), item, l) && lost !! l
      ensures ItemAdded(all, start, items, item, lost + l)
    {
      UnionSize(lost, l);
      if item.Some? {
        StripAllAppend(items, item.value);
        ItemsInside(buf, pos, StripAll(items + [item.value]));
      }
    }

    lemma {:induction false} KeepItem(base: set<Block>, bound: Block, arr: Block, items: seq<Tree>, lost: set<Block>,
                                      item: Option<Tree>)
      requires ProperAll(items) && {arr} !! OwnedAll(items) && {arr} + OwnedAll(items) !! OwnedVal(item)
      requires item.Some? ==> Proper(item.value)
      requires Grown(base, bound, {arr} + OwnedAll(items) + OwnedVal(item), lost)
      ensures HoldsItems(base, bound, Some(arr), if item.Some? then items + [item.value] else items, lost)
    {
      if item.Some? {
        OwnedAllAppend(items, item.value);
        ProperAllAppend(items, item.value);
        assert {arr} + OwnedAll(items) + OwnedVal(item) == {arr} + OwnedAll(items + [item.value]);
      } else {
        assert {arr} + OwnedAll(items) + OwnedVal(item) == {arr} + OwnedAll(items);
      }
    }

    /** A round of the loop over a list: the array grows and the next element is read. */
    method ReadItem(ghost all: Nodes, ghost start: nat, arr: Option<Block>, items: seq<Tree>, ghost lost: set<Block>,
                    ghost base: set<Block>, ghost bound: Block)
      returns (grown: Block, item: Option<Tree>, ghost l: set<Block>)
      requires Valid() && start <= pos && all.Result? && all == AfterItem(buf, pos, StripAll(items), Since(start, pos), |lost|)
      requires HoldsItems(base, bound, arr, items, lost) && forall b | b in base :: b < bound
      modifies this
      ensures Valid() && ItemAdded(all, start, items, item, lost + l) && (item.Some? ==> pos > old(pos))
      ensures HoldsItems(base, bound, Some(grown), if item.Some? then items + [item.value] else items, lost + l)
      decreases |buf| - pos, 4
    {
      PartsMove(buf, pos, pos);
      grown := GrowItems(arr, base, bound, items, lost);
      item, l := DecodeOnto(base, bound, {grown} + OwnedAll(items), lost);
      ItemDone(all, old(pos), start, items, lost, item, l);
      KeepItem(base, bound, grown, items, lost + l, item);
    }

    lemma {:induction false} ItemAhead(all: Nodes, start: nat, items: seq<Tree>, lost: set<Block>)
      requires AtItem(all, start, items, lost) && buf[pos] != END
      ensures all == AfterItem(buf, pos, StripAll(items), Since(start, pos), |lost|)
    {
      NextItem(buf, pos, StripAll(items), Since(start, pos), |lost|);
    }

    ghost predicate ItemsLoop(all: Nodes, start: nat, more: bool, items: seq<Tree>, lost: set<Block>)
      reads this
    {
      if more then AtItem(all, start, items, lost) else ItemsRead(all, start, items, lost)
    }

    lemma {:induction false} ItemsEnd(all: Nodes, start: nat, more: bool, items: seq<Tree>, lost: set<Block>)
      requires ItemsLoop(all, start, more, items, lost) && (more ==> buf[pos] == END)
      ensures ItemsRead(all, start, items, lost) && (more ==> |items| > 0)
    {
      if more {
        NoMoreItems(buf, pos, StripAll(items));
      }
    }

    /** One turn of the loop. */
    method NextElement(ghost all: Nodes, ghost start: nat, arr: Option<Block>, items: seq<Tree>, ghost lost: set<Block>,
                       ghost base: set<Block>, ghost bound: Block)
      returns (grown: Block, more: bool, longer: seq<Tree>, ghost lost': set<Block>)
      requires Valid() && AtItem(all, start, items, lost) && buf[pos] != END
      requires HoldsItems(base, bound, arr, items, lost) && forall b | b in base :: b < bound
      modifies this
      ensures Valid() && ItemsLoop(all, start, more, longer, lost') && HoldsItems(base, bound, Some(grown), longer, lost')
      ensures more ==> pos > old(pos)
      decreases |buf| - pos, 5
    {
      ItemAhead(all, start, items, lost);
      var item;
      ghost var l;
      grown, item, l := ReadItem(all, start, arr, items, lost, base, bound);
      more, longer, lost' := item.Some?, items, lost + l;
      if more {
        longer := items + [item.value];
      }
    }

    /** The end mark, or what stopped the loop, is passed. */
    method EndItems(ghost all: Nodes, ghost start: nat, ghost items: seq<Tree>, ghost lost: set<Block>)
      requires Valid() && ItemsRead(all, start, items, lost)
      modifies this`pos, this`dataLen
      ensures Valid() && pos == Past(start, all.used) && all.value == Some(ListNode(StripAll(items))) && |lost| == all.lost
    {
      Advance(1);
    }

    lemma {:induction false} ItemsStart(all: Nodes)
      requires all == ItemsAt(buf, pos, []) && all.Result?
      ensures ItemsLoop(all, pos, true, [], {})
    {
      ItemsInside(buf, pos, []);
    }

    lemma {:induction false} HoldsNoItems()
      requires Valid()
      ensures HoldsItems(live, next, None, [], {})
    {
    }

    method ReadItems(ghost all: Nodes) returns (arr: Option<Block>, items: seq<Tree>, ghost lost: set<Block>)
      requires Valid() && all == ItemsAt(buf, pos, []) && all.Result?
      modifies this
      ensures Valid() && pos == Past(old(pos), all.used)
      ensures all.value == Some(ListNode(StripAll(items))) && |lost| == all.lost
      ensures arr.Some? && HoldsItems(old(live), old(next), arr, items, lost)
      decreases |buf| - pos, 6
    {
      var more := true;
      arr, items, lost := None, [], {};
      ItemsStart(all);
      HoldsNoItems();
      while more && buf[pos] != END
        invariant Valid() && HoldsItems(old(live), old(next), arr, items, lost)
        invariant |items| > 0 || !more ==> arr.Some?
        invariant ItemsLoop(all, old(pos), more, items, lost)
        decreases if more then |buf| - pos + 1 else 0
      {
        var grown;
        grown, more, items, lost := NextElement(all, old(pos), arr, items, lost, old(live), old(next));
        arr := Some(grown);
      }
      ItemsEnd(all, old(pos), more, items, lost);
      EndItems(all, old(pos), items, lost);
    }

    static lemma {:induction false} ListOwned(at: Block, arr: Block, items: seq<Tree>)
      ensures Owned(ListTree(at, arr, items)) == {at} + ({arr} + OwnedAll(items))
    {
    }

    lemma {:induction false} ListDone(base: set<Block>, bound: Block, at: Block, arr: Block, items: seq<Tree>, lost: set<Block>,
                                      t: Tree, all: Nodes)
      requires HoldsItems(base + {at}, at + 1, Some(arr), items, lost) && bound <= at && at !in base
      requires t == ListTree(at, arr, items)
      requires all.Result? && all.value == Some(ListNode(StripAll(items))) && |lost| == all.lost
      ensures Grown(base, bound, Owned(t), lost) && Decoded(Shift(all, 1, 0), Some(t), lost)
    {
      ListOwned(at, arr, items);
      assert Strip(t) == ListNode(StripAll(items));
    }

    method ReadList(ghost all: Nodes) returns (t: Tree, ghost lost: set<Block>)
      requires Valid() && pos < |buf| && buf[pos] == LIST && all == ItemsAt(buf, Past(pos, 1), []) && all.Result?
      modifies this
      ensures Valid() && pos == Past(old(pos), all.used + 1) && Decoded(Shift(all, 1, 0), Some(t), lost)
      ensures Grown(old(live), old(next), Owned(t), lost)
      decreases |buf| - pos, 0
    {
      var at := Malloc();
      Advance(1);
      var arr, items;
      arr, items, lost := ReadItems(all);
      t := ListTree(at, arr.value, items);
      ListDone(old(live), old(next), at, arr.value, items, lost, t, all);
    }

    // ----- dictionaries

    ghost predicate AtPair(all: Nodes, start: nat, entries: seq<TreeEntry>, lost: set<Block>)
      reads this
    {
      start <= pos < |buf| && all.Result? && InTime(StripEntries(entries)) &&
      all == Shift(PairsAt(buf, pos, StripEntries(entries)), Since(start, pos), |lost|)
    }

    ghost predicate PairsRead(all: Nodes, start: nat, entries: seq<TreeEntry>, lost: set<Block>)
      reads this
    {
      pos + 1 >= start && all == Result(Some(DictNode(StripEntries(entries))), pos + 1 - start, |lost|)
    }

    ghost predicate HoldsEntries(base: set<Block>, bound: Block, arr: Option<Block>, entries: seq<TreeEntry>,
                                 lost: set<Block>)
      reads this
    {
      Grown(base, bound, ArrayOwned(arr) + OwnedEntries(entries), lost) && ArrayOwned(arr) !! OwnedEntries(entries) &&
      ProperEntries(entries)
    }

    method GrowEntries(arr: Option<Block>, ghost base: set<Block>, ghost bound: Block, ghost entries: seq<TreeEntry>,
                       ghost lost: set<Block>)
      returns (grown: Block)
      requires Valid() && HoldsEntries(base, bound, arr, entries, lost) && forall b | b in base :: b < bound
      modifies this`live, this`next
      ensures Valid() && HoldsEntries(base, bound, Some(grown), entries, lost)
    {
      grown := Realloc(arr);
    }

    /** e is what lies at p, up to pos. */
    ghost predicate EntryRead(p: nat, e: TreeEntry, l: set<Block>)
      reads this
    {
      StrAt(buf, p).Result? &&
      var key, o := StrAt(buf, p), TreeAt(buf, Past(p, StrAt(buf, p).used));
      o.Result? && pos == Past(Past(p, key.used), o.used) &&
      StripEntry(e) == DictEntry(key.value, o.value) && |l| == o.lost && ProperEntry(e)
    }

    static lemma {:induction false} SplitEntry(owned: set<Block>, e: TreeEntry)
      ensures owned + StrOwned(e.key) + OwnedVal(e.val) == owned + OwnedEntry(e)
    {
    }

    /** The two halves of a pair. */
    method ReadEntry(ghost base: set<Block>, ghost bound: Block, ghost owned: set<Block>, ghost lost: set<Block>)
      returns (e: TreeEntry, ghost l: set<Block>)
      requires Valid() && Grown(base, bound, owned, lost)
      requires StrAt(buf, pos).Result? && TreeAt(buf, Past(pos, StrAt(buf, pos).used)).Result?
      modifies this
      ensures Valid() && EntryRead(old(pos), e, l)
      ensures owned !! OwnedEntry(e) && lost !! l && Grown(base, bound, owned + OwnedEntry(e), lost + l)
      decreases |buf| - pos, 4
    {
      var key := ReadStrOnto(base, bound, owned, lost);
      var val;
      val, l := DecodeOnto(base, bound, owned + StrOwned(key), lost);
      e := TreeEntry(key, val);
      SplitEntry(owned, e);
    }

    static predicate SlotEmpty(es: seq<TreeEntry>, i: nat)
      requires i / 2 < |es|
    {
      if i % 2 == 0 then es[i / 2].key.None? else es[i / 2].val.None?
    }

    static lemma {:induction false} SlotEmptyIsNull(es: seq<TreeEntry>, i: nat)
      requires i / 2 < |es|
      ensures SlotEmpty(es, i) == SlotIsNull(StripEntries(es), i)
    {
      StripEntriesAt(es, i / 2);
    }

    ghost predicate PairAdded(all: Nodes, start: nat, entries: seq<TreeEntry>, e: TreeEntry, lost: set<Block>)
      reads this
    {
      if SlotEmpty(entries + [e], |entries|) then PairsRead(all, start, entries, lost + OwnedEntry(e))
      else AtPair(all, start, entries + [e], lost)
    }

    /** The round just done leads to the next one, or to the end. */
    lemma {:induction false} PairDone(all: Nodes, p: nat, start: nat, entries: seq<TreeEntry>, lost: set<Block>, e: TreeEntry,
                                      l: set<Block>)
      requires start <= p && all.Result? && all == AfterPair(buf, p, StripEntries(entries), Since(start, p), |lost|)
      requires EntryRead(p, e, l) && lost !! l && OwnedEntry(e) !! lost + l
      ensures PairAdded(all, start, entries, e, lost + l)
    {
      UnionSize(lost, l);
      UnionSize(lost + l, OwnedEntry(e));
      OwnedEntrySize(e);
      StripEntriesAppend(entries, e);
      SlotEmptyIsNull(entries + [e], |entries|);
      if !SlotEmpty(entries + [e], |entries|) {
        PairsInside(buf, pos, StripEntries(entries + [e]));
      }
    }

    ghost predicate Progress(p: nat, entries: seq<TreeEntry>, longer: seq<TreeEntry>)
      reads this
    {
      pos > p || (pos == p && Patience(StripEntries(longer)) < Patience(StripEntries(entries)))
    }

    lemma {:induction false} PairProgress(p: nat, entries: seq<TreeEntry>, e: TreeEntry, l: set<Block>)
      requires EntryRead(p, e, l) && InTime(StripEntries(entries))
      ensures Progress(p, entries, entries + [e])
    {
      PartsMove(buf, p, Past(p, StrAt(buf, p).used));
      StripEntriesAppend(entries, e);
      StaysInTimeIf(StripEntries(entries), StripEntry(e));
    }

    static lemma {:induction false} EntriesKept(arr: Block, entries: seq<TreeEntry>, e: TreeEntry)
      requires ProperEntries(entries) && {arr} !! OwnedEntries(entries) && {arr} + OwnedEntries(entries) !! OwnedEntry(e)
      requires ProperEntry(e)
      ensures ProperEntries(entries + [e]) && {arr} !! OwnedEntries(entries + [e])
      ensures {arr} + OwnedEntries(entries) + OwnedEntry(e) == {arr} + OwnedEntries(entries + [e])
    {
      OwnedEntriesAppend(entries, e);
      ProperEntriesAppend(entries, e);
    }

    lemma {:induction false} KeepEntry(base: set<Block>, bound: Block, arr: Block, entries: seq<TreeEntry>, lost: set<Block>,
                                       e: TreeEntry)
      requires ProperEntries(entries) && {arr} !! OwnedEntries(entries) && {arr} + OwnedEntries(entries) !! OwnedEntry(e)
      requires ProperEntry(e) && Grown(base, bound, {arr} + OwnedEntries(entries) + OwnedEntry(e), lost)
      ensures HoldsEntries(base, bound, Some(arr), entries + [e], lost)
      ensures HoldsEntries(base, bound, Some(arr), entries, lost + OwnedEntry(e))
      ensures OwnedEntry(e) !! lost
    {
      EntriesKept(arr, entries, e);
      assert live == base + ({arr} + OwnedEntries(entries)) + (lost + OwnedEntry(e));
    }

    /** A round of the loop over a dictionary: the array grows and the next pair is read. */
    method ReadPair(ghost all: Nodes, ghost start: nat, arr: Option<Block>, entries: seq<TreeEntry>, ghost lost: set<Block>,
                    ghost base: set<Block>, ghost bound: Block)
      returns (grown: Block, e: TreeEntry, ghost l: set<Block>)
      requires Valid() && start <= pos && all.Result? && InTime(StripEntries(entries))
      requires all == AfterPair(buf, pos, StripEntries(entries), Since(start, pos), |lost|)
      requires HoldsEntries(base, bound, arr, entries, lost) && forall b | b in base :: b < bound
      modifies this
      ensures Valid() && PairAdded(all, start, entries, e, lost + l) && Progress(old(pos), entries, entries + [e])
      ensures HoldsEntries(base, bound, Some(grown), entries + [e], lost + l)
      ensures HoldsEntries(base, bound, Some(grown), entries, lost + l + OwnedEntry(e))
      decreases |buf| - pos, 5
    {
      grown := GrowEntries(arr, base, bound, entries, lost);
      e, l := ReadEntry(base, bound, {grown} + OwnedEntries(entries), lost);
      KeepEntry(base, bound, grown, entries, lost + l, e);
      PairDone(all, old(pos), start, entries, lost, e, l);
      PairProgress(old(pos), entries, e, l);
    }

    ghost predicate PairsLoop(all: Nodes, start: nat, more: bool, entries: seq<TreeEntry>, lost: set<Block>)
      reads this
    {
      if more then AtPair(all, start, entries, lost) else PairsRead(all, start, entries, lost)
    }

    lemma {:induction false} PairAhead(all: Nodes, start: nat, entries: seq<TreeEntry>, lost: set<Block>)
      requires AtPair(all, start, entries, lost) && buf[pos] != END
      ensures all == AfterPair(buf, pos, StripEntries(entries), Since(start, pos), |lost|)
    {
      NextPair(buf, pos, StripEntries(entries), Since(start, pos), |lost|, all);
    }

    /** One turn of the loop: a round, and what the test makes of it. */
    method NextEntry(ghost all: Nodes, ghost start: nat, arr: Option<Block>, entries: seq<TreeEntry>, ghost lost: set<Block>,
                     ghost base: set<Block>, ghost bound: Block, ghost patience: int)
      returns (grown: Block, more: bool, longer: seq<TreeEntry>, ghost lost': set<Block>, ghost patience': int)
      requires Valid() && AtPair(all, start, entries, lost) && buf[pos] != END && patience == Patience(StripEntries(entries))
      requires HoldsEntries(base, bound, arr, entries, lost) && forall b | b in base :: b < bound
      modifies this
      ensures Valid() && PairsLoop(all, start, more, longer, lost') && HoldsEntries(base, bound, Some(grown), longer, lost')
      ensures patience' == Patience(StripEntries(longer)) && (more ==> patience > 0)
      ensures more ==> pos > old(pos) || (pos == old(pos) && patience' < patience)
      decreases |buf| - pos, 6
    {
      PairAhead(all, start, entries, lost);
      var e;
      ghost var l;
      grown, e, l := ReadPair(all, start, arr, entries, lost, base, bound);
      more := !SlotEmpty(entries + [e], |entries|);
      if more {
        longer, lost' := entries + [e], lost + l;
      } else {
        longer, lost' := entries, lost + l + OwnedEntry(e);
      }
      patience' := Patience(StripEntries(longer));
    }

    lemma {:induction false} PairsEnd(all: Nodes, start: nat, more: bool, entries: seq<TreeEntry>, lost: set<Block>)
      requires PairsLoop(all, start, more, entries, lost) && (more ==> buf[pos] == END)
      ensures PairsRead(all, start, entries, lost) && (more ==> |entries| > 0)
    {
      if more {
        NoMorePairs(buf, pos, StripEntries(entries));
      }
    }

    method EndPairs(ghost all: Nodes, ghost start: nat, ghost entries: seq<TreeEntry>, ghost lost: set<Block>)
      requires Valid() && PairsRead(all, start, entries, lost)
      modifies this`pos, this`dataLen
      ensures Valid() && pos == Past(start, all.used) && all.value == Some(DictNode(StripEntries(entries))) && |lost| == all.lost
    {
      Advance(1);
    }

    lemma {:induction false} PairsStart(all: Nodes)
      requires all == PairsAt(buf, pos, []) && all.Result?
      ensures PairsLoop(all, pos, true, [], {})
    {
      PairsInside(buf, pos, []);
    }

    lemma {:induction false} HoldsNoEntries()
      requires Valid()
      ensures HoldsEntries(live, next, None, [], {})
    {
    }

    method ReadPairs(ghost all: Nodes) returns (arr: Option<Block>, entries: seq<TreeEntry>, ghost lost: set<Block>)
      requires Valid() && all == PairsAt(buf, pos, []) && all.Result?
      modifies this
      ensures Valid() && pos == Past(old(pos), all.used)
      ensures all.value == Some(DictNode(StripEntries(entries))) && |lost| == all.lost
      ensures arr.Some? && HoldsEntries(old(live), old(next), arr, entries, lost)
      decreases |buf| - pos, 7
    {
      var more := true;
      arr, entries, lost := None, [], {};
      ghost var patience := Patience(StripEntries([]));
      PairsStart(all);
      HoldsNoEntries();
      while more && buf[pos] != END
        invariant Valid() && HoldsEntries(old(live), old(next), arr, entries, lost)
        invariant |entries| > 0 || !more ==> arr.Some?
        invariant PairsLoop(all, old(pos), more, entries, lost) && patience == Patience(StripEntries(entries))
        decreases if more then |buf| - pos + 1 else 0, if more then patience else 0
      {
        var grown;
        grown, more, entries, lost, patience := NextEntry(all, old(pos), arr, entries, lost, old(live), old(next), patience);
        arr := Some(grown);
      }
      PairsEnd(all, old(pos), more, entries, lost);
      EndPairs(all, old(pos), entries, lost);
    }

    static lemma {:induction false} DictOwned(at: Block, arr: Block, entries: seq<TreeEntry>)
      ensures Owned(DictTree(at, arr, entries)) == {at} + ({arr} + OwnedEntries(entries))
    {
    }

    lemma {:induction false} DictDone(base: set<Block>, bound: Block, at: Block, arr: Block, entries: seq<TreeEntry>, lost: set<Block>,
                                      t: Tree, all: Nodes)
      requires HoldsEntries(base + {at}, at + 1, Some(arr), entries, lost) && bound <= at && at !in base
      requires t == DictTree(at, arr, entries)
      requires all.Result? && all.value == Some(DictNode(StripEntries(entries))) && |lost| == all.lost
      ensures Grown(base, bound, Owned(t), lost) && Decoded(Shift(all, 1, 0), Some(t), lost)
    {
      DictOwned(at, arr, entries);
      assert Strip(t) == DictNode(StripEntries(entries));
    }

    method ReadDict(ghost all: Nodes) returns (t: Tree, ghost lost: set<Block>)
      requires Valid() && pos < |buf| && buf[pos] == DICT && all == PairsAt(buf, Past(pos, 1), []) && all.Result?
      modifies this
      ensures Valid() && pos == Past(old(pos), all.used + 1) && Decoded(Shift(all, 1, 0), Some(t), lost)
      ensures Grown(old(live), old(next), Owned(t), lost)
      decreases |buf| - pos, 0
    {
      var at := Malloc();
      Advance(1);
      var arr, entries;
      arr, entries, lost := ReadPairs(all);
      t := DictTree(at, arr.value, entries);
      DictDone(old(live), old(next), at, arr.value, entries, lost, t, all);
    }

    // ----- be_free

    method FreeStr(s: Option<Str>)
      requires Valid() && StrOwned(s) <= live
      modifies this`live
      ensures Valid() && live == old(live) - StrOwned(s)
    {
      if s.Some? {
        Free(s.value.at);
      }
    }

    method BeFree(t: Tree)
      requires Valid() && Proper(t) && Owned(t) <= live
      modifies this`live
      ensures Valid() && live == old(live) - Freed(t)
      decreases t, 1
    {
      match t {
        case IntTree(at, _) =>
          Free(at);
        case StrTree(at, s) =>
          FreeStr(s);
          Free(at);
        case ListTree(at, arr, items) =>
          FreeItems(items);
          FreedAllIsOwned(items);
          Free(arr);
          Free(at);
        case DictTree(at, arr, entries) =>
          FreeEntries(entries);
          FreedEntriesIsOwned(entries);
          Free(arr);
          Free(at);
      }
    }

    method FreeItems(items: seq<Tree>)
      requires Valid() && ProperAll(items) && OwnedAll(items) <= live
      modifies this`live
      ensures Valid() && live == old(live) - FreedAll(items)
      decreases items, 0
    {
      var i := 0;
      while i < |items|
        invariant i <= |items| && Valid()
        invariant ProperAll(items[i..]) && OwnedAll(items[i..]) <= live
        invariant live - FreedAll(items[i..]) == old(live) - FreedAll(items)
      {
        FreedIsOwned(items[i]);
        BeFree(items[i]);
        assert items[i..][1..] == items[i + 1..];
        i := i + 1;
      }
    }

    /** The loop over the pairs ends at the first that has no value. */
    method FreeEntries(entries: seq<TreeEntry>)
      requires Valid() && ProperEntries(entries) && OwnedEntries(entries) <= live
      modifies this`live
      ensures Valid() && live == old(live) - FreedEntries(entries)
      decreases entries, 0
    {
      var i := 0;
      while i < |entries| && entries[i].val.Some?
        invariant i <= |entries| && Valid()
        invariant ProperEntries(entries[i..]) && OwnedEntries(entries[i..]) <= live
        invariant live - FreedEntries(entries[i..]) == old(live) - FreedEntries(entries)
      {
        FreedEntryIsOwned(entries[i]);
        FreeEntry(entries[i]);
        assert entries[i..][1..] == entries[i + 1..];
        i := i + 1;
      }
    }

    method FreeEntry(e: TreeEntry)
      requires Valid() && ProperEntry(e) && OwnedEntry(e) <= live && e.val.Some?
      modifies this`live
      ensures Valid() && live == old(live) - FreedEntry(e)
      decreases e, 2
    {
      FreeStr(e.key);
      BeFree(e.val.value);
    }

    // ----- whole runs

    /** Decoding and freeing leaves nothing allocated exactly if nothing was lost on the way and nothing hides in the tree. */
    method DecodeAndFree() returns (t: Option<Tree>)
      requires Valid() && TreeAt(buf, pos).Result?
      modifies this
      ensures Valid() && ValueOf(t) == TreeAt(buf, old(pos)).value
      ensures live == old(live) <==>
              TreeAt(buf, old(pos)).lost == 0 && (t.Some? ==> Reachable(Strip(t.value)))
    {
      ghost var lost;
      t, lost := Decode();
      if t.Some? {
        FreesAllIff(t.value);
        FreedIsOwned(t.value);
        BeFree(t.value);
      }
    }

    /** On a well-formed value the cursor ends right behind it, inside the buffer, with the value in blocks that be_free gives
        back one by one until the heap is as before. */
    method ReadWellFormed(ghost v: Be, ghost rest: Text) returns (t: Tree)
      requires Valid() && pos <= |buf| && InRange(v) && NonEmpty(v) && buf[pos..] == Encode(v) + rest
      modifies this
      ensures Valid() && Strip(t) == Image(v)
      ensures pos <= |buf| && buf[pos..] == rest && dataLen == |rest|
      ensures Proper(t) && Owned(t) <= live && live - Freed(t) == old(live)
    {
      DecodeEncode(v, rest);
      ImageReachable(v);
      SliceAgain(buf, pos, |Encode(v)|);
      assert (Encode(v) + rest)[|Encode(v)|..] == rest;
      var r, lost := Decode();
      t := r.value;
      FreesAllIff(t);
    }
  }
}
