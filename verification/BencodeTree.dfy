/**
 The decoded tree with the address of every block that malloc returned for it, what be_free releases of it,
 and when that is all of it.
 */
module BencodeTree {
  import opened OrderedMap
  import opened Decimal
  import opened Bencode
  import opened Sequences

  type Block = nat

  datatype Str = Str(at: Block, text: Text)

  datatype Tree =
    | IntTree(at: Block, i: int)
    | StrTree(at: Block, s: Option<Str>)
    | ListTree(at: Block, arr: Block, items: seq<Tree>)
    | DictTree(at: Block, arr: Block, entries: seq<TreeEntry>)

  datatype TreeEntry = TreeEntry(key: Option<Str>, val: Option<Tree>)

  // ----- the value a tree holds

  function TextOf(s: Option<Str>): Option<Text>
  {
    if s.None? then None else Some(s.value.text)
  }

  function Strip(t: Tree): Node
    decreases t, 1
  {
    match t
    case IntTree(_, i) => IntNode(i)
    case StrTree(_, s) => StrNode(TextOf(s))
    case ListTree(_, _, items) => ListNode(StripAll(items))
    case DictTree(_, _, entries) => DictNode(StripEntries(entries))
  }

  function StripAll(items: seq<Tree>): (r: seq<Node>)
    ensures |r| == |items|
    decreases items, 0
  {
    if |items| == 0 then [] else [Strip(items[0])] + StripAll(items[1..])
  }

  function StripEntry(e: TreeEntry): DictEntry
    decreases e, 2
  {
    DictEntry(TextOf(e.key), match e.val case None => None case Some(t) => Some(Strip(t)))
  }

  function StripEntries(entries: seq<TreeEntry>): (r: seq<DictEntry>)
    ensures |r| == |entries|
    decreases entries, 0
  {
    if |entries| == 0 then [] else [StripEntry(entries[0])] + StripEntries(entries[1..])
  }

  lemma {:induction false} StripAllAppend(items: seq<Tree>, t: Tree)
    ensures StripAll(items + [t]) == StripAll(items) + [Strip(t)]
  {
    if |items| > 0 {
      assert (items + [t])[1..] == items[1..] + [t];
      StripAllAppend(items[1..], t);
    }
  }

  lemma {:induction false} StripEntriesAppend(entries: seq<TreeEntry>, e: TreeEntry)
    ensures StripEntries(entries + [e]) == StripEntries(entries) + [StripEntry(e)]
  {
    if |entries| > 0 {
      assert (entries + [e])[1..] == entries[1..] + [e];
      StripEntriesAppend(entries[1..], e);
    }
  }

  lemma {:induction false} StripEntriesAt(entries: seq<TreeEntry>, i: nat)
    requires i < |entries|
    ensures StripEntries(entries)[i] == StripEntry(entries[i])
  {
    if i > 0 {
      StripEntriesAt(entries[1..], i - 1);
    }
  }

  // ----- the blocks a tree owns

  function StrOwned(s: Option<Str>): set<Block>
  {
    if s.None? then {} else {s.value.at}
  }

  function Owned(t: Tree): set<Block>
    decreases t, 1
  {
    match t
    case IntTree(at, _) => {at}
    case StrTree(at, s) => {at} + StrOwned(s)
    case ListTree(at, arr, items) => {at, arr} + OwnedAll(items)
    case DictTree(at, arr, entries) => {at, arr} + OwnedEntries(entries)
  }

  function OwnedAll(items: seq<Tree>): set<Block>
    decreases items, 0
  {
    if |items| == 0 then {} else Owned(items[0]) + OwnedAll(items[1..])
  }

  function OwnedVal(v: Option<Tree>): set<Block>
    decreases v, 2
  {
    match v case None => {} case Some(t) => Owned(t)
  }

  function OwnedEntry(e: TreeEntry): set<Block>
    decreases e, 3
  {
    StrOwned(e.key) + OwnedVal(e.val)
  }

  function OwnedEntries(entries: seq<TreeEntry>): set<Block>
    decreases entries, 0
  {
    if |entries| == 0 then {} else OwnedEntry(entries[0]) + OwnedEntries(entries[1..])
  }

  lemma {:induction false} OwnedAllAppend(items: seq<Tree>, t: Tree)
    ensures OwnedAll(items + [t]) == OwnedAll(items) + Owned(t)
  {
    if |items| > 0 {
      assert (items + [t])[1..] == items[1..] + [t];
      OwnedAllAppend(items[1..], t);
    }
  }

  lemma {:induction false} OwnedEntriesAppend(entries: seq<TreeEntry>, e: TreeEntry)
    ensures OwnedEntries(entries + [e]) == OwnedEntries(entries) + OwnedEntry(e)
  {
    if |entries| > 0 {
      assert (entries + [e])[1..] == entries[1..] + [e];
      OwnedEntriesAppend(entries[1..], e);
    }
  }

  /** Every block of a tree occurs in it once. */
  predicate Proper(t: Tree)
    decreases t, 1
  {
    match t
    case IntTree(_, _) => true
    case StrTree(at, s) => at !in StrOwned(s)
    case ListTree(at, arr, items) => at != arr && at !in OwnedAll(items) && arr !in OwnedAll(items) && ProperAll(items)
    case DictTree(at, arr, entries) =>
      at != arr && at !in OwnedEntries(entries) && arr !in OwnedEntries(entries) && ProperEntries(entries)
  }

  predicate ProperAll(items: seq<Tree>)
    decreases items, 0
  {
    |items| == 0 || (Proper(items[0]) && Owned(items[0]) !! OwnedAll(items[1..]) && ProperAll(items[1..]))
  }

  predicate ProperEntry(e: TreeEntry)
    decreases e, 2
  {
    StrOwned(e.key) !! OwnedVal(e.val) && match e.val case None => true case Some(t) => Proper(t)
  }

  predicate ProperEntries(entries: seq<TreeEntry>)
    decreases entries, 0
  {
    |entries| == 0 ||
    (ProperEntry(entries[0]) && OwnedEntry(entries[0]) !! OwnedEntries(entries[1..]) &&
     ProperEntries(entries[1..]))
  }

  lemma {:induction false} ProperAllAppend(items: seq<Tree>, t: Tree)
    requires ProperAll(items) && Proper(t) && OwnedAll(items) !! Owned(t)
    ensures ProperAll(items + [t])
  {
    if |items| > 0 {
      assert (items + [t])[1..] == items[1..] + [t];
      ProperAllAppend(items[1..], t);
      OwnedAllAppend(items[1..], t);
    }
  }

  lemma {:induction false} ProperEntriesAppend(entries: seq<TreeEntry>, e: TreeEntry)
    requires ProperEntries(entries) && ProperEntry(e) && OwnedEntries(entries) !! OwnedEntry(e)
    ensures ProperEntries(entries + [e])
  {
    if |entries| > 0 {
      assert (entries + [e])[1..] == entries[1..] + [e];
      ProperEntriesAppend(entries[1..], e);
      OwnedEntriesAppend(entries[1..], e);
    }
  }

  /** The blocks are as many as the value needs, so no address was handed out twice. */
  lemma {:induction false} OwnedSize(t: Tree)
    requires Proper(t)
    ensures |Owned(t)| == Blocks(Strip(t))
    decreases t, 1
  {
    match t {
      case IntTree(_, _) =>
      case StrTree(at, s) => UnionSize({at}, StrOwned(s));
      case ListTree(at, arr, items) =>
        OwnedAllSize(items);
        ListSize(at, arr, items);
      case DictTree(at, arr, entries) =>
        OwnedEntriesSize(entries);
        DictSize(at, arr, entries);
    }
  }

  lemma {:induction false} ListSize(at: Block, arr: Block, items: seq<Tree>)
    requires at != arr && at !in OwnedAll(items) && arr !in OwnedAll(items)
    requires |OwnedAll(items)| == BlocksAll(StripAll(items))
    ensures |Owned(ListTree(at, arr, items))| == Blocks(Strip(ListTree(at, arr, items)))
  {
    BoxSize(at, arr, OwnedAll(items));
  }

  lemma {:induction false} DictSize(at: Block, arr: Block, entries: seq<TreeEntry>)
    requires at != arr && at !in OwnedEntries(entries) && arr !in OwnedEntries(entries)
    requires |OwnedEntries(entries)| == BlocksOfEntries(StripEntries(entries))
    ensures |Owned(DictTree(at, arr, entries))| == Blocks(Strip(DictTree(at, arr, entries)))
  {
    BoxSize(at, arr, OwnedEntries(entries));
  }

  lemma {:induction false} OwnedAllSize(items: seq<Tree>)
    requires ProperAll(items)
    ensures |OwnedAll(items)| == BlocksAll(StripAll(items))
    decreases items, 0
  {
    if |items| > 0 {
      OwnedSize(items[0]);
      OwnedAllSize(items[1..]);
      UnionSize(Owned(items[0]), OwnedAll(items[1..]));
      assert StripAll(items)[1..] == StripAll(items[1..]);
    }
  }

  lemma {:induction false} OwnedEntrySize(e: TreeEntry)
    requires ProperEntry(e)
    ensures |OwnedEntry(e)| == EntryBlocks(StripEntry(e))
    decreases e, 2
  {
    if e.val.Some? {
      OwnedSize(e.val.value);
    }
    UnionSize(StrOwned(e.key), OwnedVal(e.val));
  }

  lemma {:induction false} OwnedEntriesSize(entries: seq<TreeEntry>)
    requires ProperEntries(entries)
    ensures |OwnedEntries(entries)| == BlocksOfEntries(StripEntries(entries))
    decreases entries, 0
  {
    if |entries| > 0 {
      OwnedEntrySize(entries[0]);
      OwnedEntriesSize(entries[1..]);
      UnionSize(OwnedEntry(entries[0]), OwnedEntries(entries[1..]));
      assert StripEntries(entries)[1..] == StripEntries(entries[1..]);
    }
  }

  lemma {:induction false} BoxSize(at: Block, arr: Block, parts: set<Block>)
    requires at != arr && at !in parts && arr !in parts
    ensures |{at, arr} + parts| == 2 + |parts|
  {
    assert {at, arr} + parts == ({at} + {arr}) + parts;
    UnionSize({at}, {arr});
    UnionSize({at} + {arr}, parts);
  }

  // ----- what be_free releases

  function Freed(t: Tree): set<Block>
    decreases t, 1
  {
    match t
    case IntTree(at, _) => {at}
    case StrTree(at, s) => {at} + StrOwned(s)
    case ListTree(at, arr, items) => {at, arr} + FreedAll(items)
    case DictTree(at, arr, entries) => {at, arr} + FreedEntries(entries)
  }

  function FreedAll(items: seq<Tree>): set<Block>
    decreases items, 0
  {
    if |items| == 0 then {} else Freed(items[0]) + FreedAll(items[1..])
  }

  function FreedEntry(e: TreeEntry): set<Block>
    decreases e, 2
  {
    match e.val case None => {} case Some(t) => StrOwned(e.key) + Freed(t)
  }

  /** The walk over the pairs ends at the first that has no value. */
  function FreedEntries(entries: seq<TreeEntry>): set<Block>
    decreases entries, 0
  {
    if |entries| == 0 || entries[0].val.None? then {} else FreedEntry(entries[0]) + FreedEntries(entries[1..])
  }

  lemma {:induction false} FreedIsOwned(t: Tree)
    ensures Freed(t) <= Owned(t)
    decreases t, 1
  {
    match t {
      case IntTree(_, _) =>
      case StrTree(_, _) =>
      case ListTree(_, _, items) => FreedAllIsOwned(items);
      case DictTree(_, _, entries) => FreedEntriesIsOwned(entries);
    }
  }

  lemma {:induction false} FreedAllIsOwned(items: seq<Tree>)
    ensures FreedAll(items) <= OwnedAll(items)
    decreases items, 0
  {
    if |items| > 0 {
      FreedIsOwned(items[0]);
      FreedAllIsOwned(items[1..]);
    }
  }

  lemma {:induction false} FreedEntryIsOwned(e: TreeEntry)
    ensures FreedEntry(e) <= OwnedEntry(e)
    decreases e, 2
  {
    if e.val.Some? {
      FreedIsOwned(e.val.value);
    }
  }

  lemma {:induction false} FreedEntriesIsOwned(entries: seq<TreeEntry>)
    ensures FreedEntries(entries) <= OwnedEntries(entries)
    decreases entries, 0
  {
    if |entries| > 0 {
      FreedEntryIsOwned(entries[0]);
      FreedEntriesIsOwned(entries[1..]);
    }
  }

  /** Nothing hides behind a pair without a value: neither that pair nor any after it owns a block. */
  predicate Reachable(n: Node)
    decreases n, 1
  {
    match n
    case IntNode(_) => true
    case StrNode(_) => true
    case ListNode(items) => ReachableAll(items)
    case DictNode(entries) => ReachableEntries(entries)
  }

  predicate ReachableAll(items: seq<Node>)
    decreases items, 0
  {
    |items| == 0 || (Reachable(items[0]) && ReachableAll(items[1..]))
  }

  predicate ReachableVal(e: DictEntry)
    decreases e, 2
  {
    match e.val case None => false case Some(n) => Reachable(n)
  }

  predicate ReachableEntries(entries: seq<DictEntry>)
    decreases entries, 0
  {
    if |entries| > 0 && entries[0].val.Some? then ReachableVal(entries[0]) && ReachableEntries(entries[1..])
    else BlocksOfEntries(entries) == 0
  }

  /** be_free releases all of a tree exactly if nothing in it hides behind a pair without a value. */
  lemma {:induction false} FreesAllIff(t: Tree)
    requires Proper(t)
    ensures Freed(t) == Owned(t) <==> Reachable(Strip(t))
    decreases t, 1
  {
    match t {
      case IntTree(_, _) =>
      case StrTree(_, _) =>
      case ListTree(at, arr, items) =>
        FreesAllItemsIff(items);
        FreedAllIsOwned(items);
        assert FreedAll(items) == Freed(t) - {at, arr};
        assert OwnedAll(items) == Owned(t) - {at, arr};
      case DictTree(at, arr, entries) =>
        FreesAllEntriesIff(entries);
        FreedEntriesIsOwned(entries);
        assert FreedEntries(entries) == Freed(t) - {at, arr};
        assert OwnedEntries(entries) == Owned(t) - {at, arr};
    }
  }

  /** Two parts that are covered by disjoint wholes fill them together exactly if each fills its own. */
  lemma {:induction false} FillsBoth(a: set<Block>, b: set<Block>, x: set<Block>, y: set<Block>)
    requires a <= x && b <= y && x !! y
    ensures a + b == x + y <==> a == x && b == y
  {
    assert a == (a + b) * x && x == (x + y) * x;
    assert b == (a + b) * y && y == (x + y) * y;
  }

  lemma {:induction false} FreesAllItemsIff(items: seq<Tree>)
    requires ProperAll(items)
    ensures FreedAll(items) == OwnedAll(items) <==> ReachableAll(StripAll(items))
    decreases items, 0
  {
    if |items| > 0 {
      FreesAllIff(items[0]);
      FreesAllItemsIff(items[1..]);
      FreedIsOwned(items[0]);
      FreedAllIsOwned(items[1..]);
      FillsBoth(Freed(items[0]), FreedAll(items[1..]), Owned(items[0]), OwnedAll(items[1..]));
      assert StripAll(items)[1..] == StripAll(items[1..]);
    }
  }

  lemma {:induction false} FreesAllOfEntryIff(e: TreeEntry)
    requires ProperEntry(e) && e.val.Some?
    ensures FreedEntry(e) == OwnedEntry(e) <==> ReachableVal(StripEntry(e))
    decreases e, 2
  {
    FreesAllIff(e.val.value);
    FreedIsOwned(e.val.value);
    FillsBoth(StrOwned(e.key), Freed(e.val.value), StrOwned(e.key), OwnedVal(e.val));
  }

  lemma {:induction false} FreesAllEntriesIff(entries: seq<TreeEntry>)
    requires ProperEntries(entries)
    ensures FreedEntries(entries) == OwnedEntries(entries) <==> ReachableEntries(StripEntries(entries))
    decreases entries, 0
  {
    if |entries| > 0 && entries[0].val.Some? {
      FreesAllOfEntryIff(entries[0]);
      FreesAllEntriesIff(entries[1..]);
      FreedEntryIsOwned(entries[0]);
      FreedEntriesIsOwned(entries[1..]);
      FillsBoth(FreedEntry(entries[0]), FreedEntries(entries[1..]), OwnedEntry(entries[0]), OwnedEntries(entries[1..]));
      assert StripEntries(entries)[1..] == StripEntries(entries[1..]);
    } else {
      OwnedEntriesSize(entries);
    }
  }

  /** The tree of a well-formed value hides nothing. */
  lemma {:induction false} ImageReachable(v: Be)
    ensures Reachable(Image(v))
    decreases v, 1
  {
    match v {
      case BeInt(_) =>
      case BeStr(_) =>
      case BeList(items) => ImagesReachable(items);
      case BeDict(pairs) => PairImagesReachable(pairs);
    }
  }

  lemma {:induction false} ImagesReachable(items: seq<Be>)
    ensures ReachableAll(Images(items))
    decreases items, 0
  {
    if |items| > 0 {
      ImageReachable(items[0]);
      ImagesReachable(items[1..]);
      assert Images(items)[1..] == Images(items[1..]);
    }
  }

  lemma {:induction false} PairImageReachable(p: Pair)
    ensures ReachableVal(PairImage(p))
    decreases p, 2
  {
    ImageReachable(p.val);
  }

  lemma {:induction false} PairImagesReachable(pairs: seq<Pair>)
    ensures ReachableEntries(PairImages(pairs))
    decreases pairs, 0
  {
    if |pairs| > 0 {
      PairImageReachable(pairs[0]);
      PairImagesReachable(pairs[1..]);
      assert PairImages(pairs)[1..] == PairImages(pairs[1..]);
    }
  }

  // ----- a tree that hides a block

  /** d1:axe, a dictionary whose only key has no value: 'x' starts none. */
  const KEY_ALONE: Text := [DICT, 49, COLON, 97, 120, END]

  lemma {:induction false} KeyAloneKey()
    ensures DecodeStr(KEY_ALONE[1..]) == Result(Some([97]), 3, 0)
  {
    var s := KEY_ALONE[1..];
    SpanIs(s, 0, IsSpace, 0);
    SpanIs(s, 0, IsDigit, 1);
    assert s[0..1] == [49] && Value([49], false) == 1 by {
      assert [49][..0] == [];
    }
    assert s[2..3] == [97];
  }

  lemma {:induction false} NothingAt(s: Text)
    requires s == [120, END]
    ensures DecodeStr(s) == Result(None, 0, 0) && Decode(s) == Result(None, 0, 0)
  {
    SpanIs(s, 0, IsSpace, 0);
    SpanIs(s, 0, IsDigit, 0);
  }

  /** The decoder returns such a tree, with nothing lost on the way; be_free does not reach the key, so one block stays. */
  lemma {:induction false} HiddenKeyExample()
    ensures Decode(KEY_ALONE) == Result(Some(DictNode([DictEntry(Some([97]), None)])), 5, 0)
    ensures !Reachable(DictNode([DictEntry(Some([97]), None)]))
    ensures forall at: Block, arr: Block, s: Str :: Freed(DictTree(at, arr, [TreeEntry(Some(s), None)])) == {at, arr}
  {
    var s, e := KEY_ALONE[1..], DictEntry(Some([97]), None);
    KeyAloneKey();
    assert s[3..] == [120, END] && s[3..][0..] == s[3..];
    NothingAt(s[3..]);
    FirstBrokenIs([e], 0);
    FirstBrokenIs([], 0);
    assert [] + [e] == [e];
    var last := DictEntry(None, None);
    assert DictLoop(s[3..], [e]) == Result(Some(DictNode([e])), 1, 0) by {
      assert ([e] + [last])[0] == e;
      FirstBrokenAppend([e], last);
    }
    assert [e][1..] == [];
  }
}
