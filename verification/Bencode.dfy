/**
 The bencode decoder on arbitrary bytes, with its handling of malformed input, and the printer.
 `s` is what the cursor has left: its length is *data_len. A call reports how far the cursor moved. It is
 Undefined where the C program reads past the last byte or writes through a null pointer.
 */
module Bencode {
  import opened Bits
  import opened Decimal
  import opened OrderedMap
  import opened Sequences

  const LIST: byte := 108
  const DICT: byte := 100
  const INT: byte := 105
  const END: byte := 101

  /** be_node. A string node may hold no string; a dictionary entry may lack its key or its value. */
  datatype Node =
    | IntNode(i: int)
    | StrNode(s: Option<Text>)
    | ListNode(items: seq<Node>)
    | DictNode(entries: seq<DictEntry>)

  datatype DictEntry = DictEntry(key: Option<Text>, val: Option<Node>)

  /** What a call returns, how many bytes it used, and how many blocks it allocated and left unreachable. */
  datatype Outcome<+T> = Undefined | Result(value: T, used: nat, lost: nat)

  /** The outcome o, after k bytes and l lost blocks. */
  function Shift<T>(o: Outcome<T>, k: nat, l: nat): Outcome<T>
  {
    if o.Undefined? then o else Result(o.value, o.used + k, o.lost + l)
  }

  /** The blocks of a tree: the nodes, the strings and the arrays of elements and pairs. */
  function Blocks(n: Node): nat
    decreases n, 1
  {
    match n
    case IntNode(_) => 1
    case StrNode(s) => 1 + StrBlocks(s)
    case ListNode(items) => 2 + BlocksAll(items)
    case DictNode(entries) => 2 + BlocksOfEntries(entries)
  }

  function StrBlocks(s: Option<Text>): nat
  {
    if s.Some? then 1 else 0
  }

  function BlocksAll(items: seq<Node>): nat
    decreases items, 0
  {
    if |items| == 0 then 0 else Blocks(items[0]) + BlocksAll(items[1..])
  }

  function EntryBlocks(e: DictEntry): nat
    decreases e, 2
  {
    StrBlocks(e.key) + match e.val case None => 0 case Some(n) => Blocks(n)
  }

  function BlocksOfEntries(entries: seq<DictEntry>): nat
    decreases entries, 0
  {
    if |entries| == 0 then 0 else EntryBlocks(entries[0]) + BlocksOfEntries(entries[1..])
  }

  /** _be_decode_str: a length, a colon and that many bytes; anything else yields a null string. */
  function DecodeStr(s: Text): (r: Outcome<Option<Text>>)
    ensures r.Result? ==> r.used <= |s|
    ensures r.Result? && r.value.Some? ==> r.used > 0
  {
    match StrToLL(s)
    case None => Undefined
    case Some(Parsed(len, used)) =>
      if len < 0 || len > |s| - used - 1 || s[used] != COLON then Result(None, used, 0)
      else Result(Some(s[used + 1..used + 1 + len]), used + 1 + len, 0)
  }

  /** _be_decode. */
  function Decode(s: Text): (r: Outcome<Option<Node>>)
    ensures r.Result? && r.value.Some? ==> r.used > 0
    ensures r.Result? && r.value.None? ==> r.used <= |s| && (|s| > 0 ==> r.used < |s|)
    decreases |s|, 0
  {
    if |s| == 0 then Result(None, 0, 0)
    else if s[0] == LIST then Shift(ListLoop(s[1..], []), 1, 0)
    else if s[0] == DICT then Shift(DictLoop(s[1..], []), 1, 0)
    else if s[0] == INT then
      match StrToLL(s[1..])
      case None => Undefined
      case Some(Parsed(i, used)) =>
        if s[1 + used] != END then Result(None, 1 + used, 1) else Result(Some(IntNode(i)), used + 2, 0)
    else if IsDigit(s[0]) then
      StrToLLMovesIfDefined(s);
      match DecodeStr(s)
      case Undefined => Undefined
      case Result(o, used, _) => Result(Some(StrNode(o)), used, 0)
    else Result(None, 0, 0)
  }

  lemma {:induction false} StrToLLMovesIfDefined(s: Text)
    requires |s| > 0 && IsDigit(s[0])
    ensures StrToLL(s).Some? ==> StrToLL(s).value.used > 0
  {
    if StrToLL(s).Some? {
      StrToLLMoves(s);
    }
  }

  /** The loop of a list. Leaving it with no element stores through a null array. */
  function ListLoop(s: Text, items: seq<Node>): (r: Outcome<Option<Node>>)
    ensures r.Result? ==> r.used > 0 && r.value.Some?
    decreases |s|, 1
  {
    if |s| == 0 then Undefined
    else if s[0] == END then
      if |items| == 0 then Undefined else Result(Some(ListNode(items)), 1, 0)
    else
      match Decode(s)
      case Undefined => Undefined
      case Result(None, used, lost) => Result(Some(ListNode(items)), used + 1, lost)
      case Result(Some(n), used, lost) =>
        if used > |s| then Undefined else Shift(ListLoop(s[used..], items + [n]), used, lost)
  }

  /**
   What the loop of a dictionary tests at index i. The source indexes the array of key-value pairs as if it
   were an array of pointers: index i is pair i / 2, its key or its value by turns.
   */
  predicate SlotIsNull(es: seq<DictEntry>, i: nat)
    requires i / 2 < |es|
  {
    if i % 2 == 0 then es[i / 2].key.None? else es[i / 2].val.None?
  }

  predicate Whole(e: DictEntry)
  {
    e.key.Some? && e.val.Some?
  }

  /** The index of the first pair with a part missing, or the number of pairs. */
  function FirstBroken(es: seq<DictEntry>): (k: nat)
    ensures k <= |es|
  {
    if |es| == 0 || !Whole(es[0]) then 0 else 1 + FirstBroken(es[1..])
  }

  lemma {:induction false} FirstBrokenIs(es: seq<DictEntry>, k: nat)
    requires k <= |es| && (forall i | 0 <= i < k :: Whole(es[i])) && (k < |es| ==> !Whole(es[k]))
    ensures FirstBroken(es) == k
  {
    if k > 0 {
      FirstBrokenIs(es[1..], k - 1);
    }
  }

  lemma {:induction false} BreaksFirst(es: seq<DictEntry>)
    ensures var k := FirstBroken(es); (forall i | 0 <= i < k :: Whole(es[i])) && (k < |es| ==> !Whole(es[k]))
  {
    if FirstBroken(es) > 0 {
      BreaksFirst(es[1..]);
      assert forall i | 0 < i < |es| :: es[i] == es[1..][i - 1];
    }
  }

  lemma {:induction false} FirstBrokenAppend(es: seq<DictEntry>, e: DictEntry)
    ensures FirstBroken(es + [e]) ==
            if FirstBroken(es) < |es| then FirstBroken(es) else if Whole(e) then |es| + 1 else |es|
  {
    BreaksFirst(es);
    var fs := es + [e];
    FirstBrokenIs(fs, if FirstBroken(es) < |es| then FirstBroken(es) else if Whole(e) then |es| + 1 else |es|);
  }

  /** The test has not yet passed the null part of a broken pair. */
  predicate InTime(es: seq<DictEntry>)
  {
    var f := FirstBroken(es);
    |es| <= 2 * f || (|es| == 2 * f + 1 && (f < |es| ==> es[f].key.Some?))
  }

  lemma {:induction false} StaysInTime(es: seq<DictEntry>, e: DictEntry)
    requires InTime(es) && !SlotIsNull(es + [e], |es|)
    ensures InTime(es + [e])
  {
    var f := FirstBroken(es);
    BreaksFirst(es);
    FirstBrokenAppend(es, e);
    assert f < |es| ==> (es + [e])[f] == es[f];
  }

  /** How many more rounds the test lets pass without a byte being read. */
  function Patience(es: seq<DictEntry>): int
  {
    2 * FirstBroken(es) + 2 - |es|
  }

  lemma {:induction false} StaysInTimeIf(es: seq<DictEntry>, e: DictEntry)
    requires InTime(es)
    ensures !SlotIsNull(es + [e], |es|) ==> InTime(es + [e])
    ensures Whole(e) || Patience(es + [e]) < Patience(es)
    ensures Patience(es) > 0
  {
    FirstBrokenAppend(es, e);
    if !SlotIsNull(es + [e], |es|) {
      StaysInTime(es, e);
    }
  }

  /** The loop of a dictionary stops by itself once a pair is broken: the test reaches that pair in time. */
  function DictLoop(s: Text, entries: seq<DictEntry>): (r: Outcome<Option<Node>>)
    requires InTime(entries)
    ensures r.Result? ==> r.used > 0 && r.value.Some?
    decreases |s|, 1, Patience(entries)
  {
    if |s| == 0 then Undefined
    else if s[0] == END then
      if |entries| == 0 then Undefined else Result(Some(DictNode(entries)), 1, 0)
    else
      match DecodeStr(s)
      case Undefined => Undefined
      case Result(key, k, _) =>
        match Decode(s[k..])
        case Undefined => Undefined
        case Result(val, u, lost) =>
          var e := DictEntry(key, val);
          var es := entries + [e];
          StaysInTimeIf(entries, e);
          if SlotIsNull(es, |entries|) then Result(Some(DictNode(entries)), k + u + 1, lost + EntryBlocks(e))
          else if k + u > |s| then Undefined
          else
            assert |s[k..][u..]| == |s| - k - u && (Whole(e) ==> k > 0);
            Shift(DictLoop(s[k..][u..], es), k + u, lost)
  }

  // ----- the printer

  datatype Be =
    | BeInt(i: int)
    | BeStr(s: Text)
    | BeList(items: seq<Be>)
    | BeDict(pairs: seq<Pair>)

  datatype Pair = Pair(key: Text, val: Be)

  /** encodeString. */
  function EncodeString(s: Text): (r: Text)
    ensures |r| > |s| + 1
  {
    Digits(|s|) + [COLON] + s
  }

  /** encodeInt. */
  function EncodeInt(i: int): Text
  {
    [INT] + Signed(i) + [END]
  }

  function Encode(v: Be): (r: Text)
    ensures |r| > 0
    decreases v, 1
  {
    match v
    case BeInt(i) => EncodeInt(i)
    case BeStr(s) => EncodeString(s)
    case BeList(items) => [LIST] + EncodeAll(items) + [END]
    case BeDict(pairs) => [DICT] + EncodePairs(pairs) + [END]
  }

  function EncodeAll(items: seq<Be>): Text
    decreases items, 0
  {
    if |items| == 0 then [] else Encode(items[0]) + EncodeAll(items[1..])
  }

  /** encodeDict: keys and values are appended in the order given. */
  function EncodePairs(pairs: seq<Pair>): Text
    decreases pairs, 0
  {
    if |pairs| == 0 then [] else EncodeString(pairs[0].key) + Encode(pairs[0].val) + EncodePairs(pairs[1..])
  }

  /** Numbers and lengths that a long long holds. */
  predicate InRange(v: Be)
    decreases v, 1
  {
    match v
    case BeInt(i) => LLONG_MIN <= i <= LLONG_MAX
    case BeStr(s) => |s| <= LLONG_MAX
    case BeList(items) => InRangeAll(items)
    case BeDict(pairs) => InRangePairs(pairs)
  }

  predicate InRangeAll(items: seq<Be>)
    decreases items, 0
  {
    |items| == 0 || (InRange(items[0]) && InRangeAll(items[1..]))
  }

  predicate InRangePairs(pairs: seq<Pair>)
    decreases pairs, 0
  {
    |pairs| == 0 || (|pairs[0].key| <= LLONG_MAX && InRange(pairs[0].val) && InRangePairs(pairs[1..]))
  }

  /** No list or dictionary anywhere in the value is empty. */
  predicate NonEmpty(v: Be)
    decreases v, 1
  {
    match v
    case BeInt(_) => true
    case BeStr(_) => true
    case BeList(items) => |items| > 0 && NonEmptyAll(items)
    case BeDict(pairs) => |pairs| > 0 && NonEmptyPairs(pairs)
  }

  predicate NonEmptyAll(items: seq<Be>)
    decreases items, 0
  {
    |items| == 0 || (NonEmpty(items[0]) && NonEmptyAll(items[1..]))
  }

  predicate NonEmptyPairs(pairs: seq<Pair>)
    decreases pairs, 0
  {
    |pairs| == 0 || (NonEmpty(pairs[0].val) && NonEmptyPairs(pairs[1..]))
  }

  /** The tree that stands for a value. */
  function Image(v: Be): Node
    decreases v, 1
  {
    match v
    case BeInt(i) => IntNode(i)
    case BeStr(s) => StrNode(Some(s))
    case BeList(items) => ListNode(Images(items))
    case BeDict(pairs) => DictNode(PairImages(pairs))
  }

  function Images(items: seq<Be>): seq<Node>
    decreases items, 0
  {
    if |items| == 0 then [] else [Image(items[0])] + Images(items[1..])
  }

  function PairImages(pairs: seq<Pair>): seq<DictEntry>
    decreases pairs, 0
  {
    if |pairs| == 0 then [] else [PairImage(pairs[0])] + PairImages(pairs[1..])
  }

  function PairImage(p: Pair): DictEntry
    decreases p, 1
  {
    DictEntry(Some(p.key), Some(Image(p.val)))
  }

  // ----- reading back what was printed

  lemma {:induction false} DigitsStart(n: nat)
    ensures IsDigit(Digits(n)[0])
  {
    DigitsReadBack(n);
  }

  /** The first byte of an encoding selects its branch in the decoder. */
  lemma {:induction false} FirstByte(v: Be)
    ensures match v
            case BeInt(_) => Encode(v)[0] == INT
            case BeStr(_) => IsDigit(Encode(v)[0])
            case BeList(_) => Encode(v)[0] == LIST
            case BeDict(_) => Encode(v)[0] == DICT
  {
    if v.BeStr? {
      DigitsStart(|v.s|);
      assert Encode(v)[0] == Digits(|v.s|)[0];
    }
  }

  lemma {:induction false} DecodeStrOfEncode(s: Text, rest: Text)
    requires |s| <= LLONG_MAX
    ensures DecodeStr(EncodeString(s) + rest) == Result(Some(s), |EncodeString(s)|, 0)
  {
    var t := EncodeString(s) + rest;
    var tail := [COLON] + s + rest;
    StringParts(Digits(|s|), s, rest);
    StrToLLOfSigned(|s|, tail);
  }

  lemma {:induction false} StringParts(n: Text, s: Text, rest: Text)
    ensures var t, d := n + [COLON] + s + rest, |n|;
            t == n + ([COLON] + s + rest) && t[d] == COLON && t[d + 1..d + 1 + |s|] == s
  {
  }

  lemma {:induction false} DecodeInt(i: int, rest: Text)
    requires LLONG_MIN <= i <= LLONG_MAX
    ensures Decode(EncodeInt(i) + rest) == Result(Some(IntNode(i)), |EncodeInt(i)|, 0)
  {
    var t := EncodeInt(i) + rest;
    var tail := [END] + rest;
    assert t[1..] == Signed(i) + tail;
    StrToLLOfSigned(i, tail);
    assert t[1 + |Signed(i)|] == END;
  }

  ghost predicate AllWhole(es: seq<DictEntry>)
  {
    forall i | 0 <= i < |es| :: Whole(es[i])
  }

  /** Main result: decoding an encoding, whatever follows, gives the value and stops right behind it, if the value
      has no empty list or dictionary; if it has one, the decoder stores through a null pointer. */
  lemma {:induction false} DecodeEncode(v: Be, rest: Text)
    requires InRange(v)
    ensures Decode(Encode(v) + rest) == if NonEmpty(v) then Result(Some(Image(v)), |Encode(v)|, 0) else Undefined
    decreases v, 1
  {
    var t := Encode(v) + rest;
    FirstByte(v);
    match v {
      case BeInt(i) => DecodeInt(i, rest);
      case BeStr(s) => DecodeStrOfEncode(s, rest);
      case BeList(items) =>
        assert t[1..] == EncodeAll(items) + ([END] + rest);
        ListLoopOfEncode(items, [], rest);
        assert [] + Images(items) == Images(items);
      case BeDict(pairs) =>
        assert t[1..] == EncodePairs(pairs) + ([END] + rest);
        DictLoopOfEncode(pairs, [], rest);
        assert [] + PairImages(pairs) == PairImages(pairs);
    }
  }

  /** One round of the list loop over a printed element. */
  lemma {:induction false} ListLoopStep(v: Be, tail: Text, done: seq<Node>)
    requires |tail| > 0
    requires Decode(Encode(v) + tail) == if NonEmpty(v) then Result(Some(Image(v)), |Encode(v)|, 0) else Undefined
    ensures ListLoop(Encode(v) + tail, done) ==
            if NonEmpty(v) then Shift(ListLoop(tail, done + [Image(v)]), |Encode(v)|, 0) else Undefined
  {
    FirstByte(v);
    var t := Encode(v) + tail;
    assert t[0] == Encode(v)[0] && t[|Encode(v)|..] == tail;
  }

  /** What the list loop is to make of printed elements and the end mark. */
  function ListOutcome(items: seq<Be>, done: seq<Node>): Outcome<Option<Node>>
  {
    if |done| + |items| > 0 && NonEmptyAll(items) then Result(Some(ListNode(done + Images(items))), |EncodeAll(items)| + 1, 0)
    else Undefined
  }

  lemma {:induction false} ListReadBackEnd(done: seq<Node>, rest: Text)
    ensures ListLoop(EncodeAll([]) + ([END] + rest), done) == ListOutcome([], done)
  {
    assert EncodeAll([]) + ([END] + rest) == [END] + rest && done + Images([]) == done;
  }

  lemma {:induction false} ListOutcomeCons(items: seq<Be>, done: seq<Node>)
    requires |items| > 0
    ensures ListOutcome(items, done) ==
            if NonEmpty(items[0]) then Shift(ListOutcome(items[1..], done + [Image(items[0])]), |Encode(items[0])|, 0)
            else Undefined
  {
    EncodeAllCons(items, []);
    ImagesCons(items, done);
  }

  lemma {:induction false} EncodeAllCons(items: seq<Be>, rest: Text)
    requires |items| > 0
    ensures EncodeAll(items) + ([END] + rest) == Encode(items[0]) + (EncodeAll(items[1..]) + ([END] + rest))
    ensures |EncodeAll(items)| == |Encode(items[0])| + |EncodeAll(items[1..])|
  {
    ConcatAssoc(Encode(items[0]), EncodeAll(items[1..]), [END] + rest);
  }

  lemma {:induction false} ImagesCons(items: seq<Be>, done: seq<Node>)
    requires |items| > 0
    ensures done + [Image(items[0])] + Images(items[1..]) == done + Images(items)
  {
  }

  lemma {:induction false} ListLoopOfEncode(items: seq<Be>, done: seq<Node>, rest: Text)
    requires InRangeAll(items)
    ensures ListLoop(EncodeAll(items) + ([END] + rest), done) == ListOutcome(items, done)
    decreases items, 0
  {
    if |items| == 0 {
      ListReadBackEnd(done, rest);
    } else {
      var tail := EncodeAll(items[1..]) + ([END] + rest);
      DecodeEncode(items[0], tail);
      ListLoopOfEncode(items[1..], done + [Image(items[0])], rest);
      ListLoopStep(items[0], tail, done);
      EncodeAllCons(items, rest);
      ListOutcomeCons(items, done);
    }
  }

  lemma {:induction false} WholeInTime(es: seq<DictEntry>)
    requires AllWhole(es)
    ensures FirstBroken(es) == |es| && InTime(es)
  {
    FirstBrokenIs(es, |es|);
  }

  /** What the dictionary loop makes of s, with some pairs read. */
  ghost function PairsIn(s: Text, done: seq<DictEntry>): Outcome<Option<Node>>
  {
    if InTime(done) then DictLoop(s, done) else Undefined
  }

  /** What the dictionary loop does with a key and a value that are read whole. */
  lemma {:induction false} DictLoopRound(s: Text, done: seq<DictEntry>, e: DictEntry, k: nat, u: nat, rest: Text, tail: Text)
    requires |s| > 0 && s[0] != END && AllWhole(done) && Whole(e) && k <= |s| && k + u <= |s|
    requires s[k..] == rest && rest[u..] == tail
    requires DecodeStr(s) == Result(e.key, k, 0) && Decode(rest) == Result(e.val, u, 0)
    ensures InTime(done) && InTime(done + [e])
    ensures PairsIn(s, done) == Shift(Shift(PairsIn(tail, done + [e]), u, 0), k, 0)
  {
    WholeInTime(done);
    WholeInTime(done + [e]);
    assert Whole((done + [e])[|done| / 2]);
  }

  lemma {:induction false} DictLoopStuck(s: Text, done: seq<DictEntry>, key: Text, k: nat, rest: Text)
    requires |s| > 0 && s[0] != END && InTime(done) && k <= |s| && s[k..] == rest
    requires DecodeStr(s) == Result(Some(key), k, 0) && Decode(rest) == Undefined
    ensures PairsIn(s, done) == Undefined
  {
  }

  /** One round of the dictionary loop over the texts of a key and a value. */
  lemma {:induction false} DictLoopStep(s: Text, ks: Text, vs: Text, tail: Text, done: seq<DictEntry>, e: DictEntry, ok: bool)
    requires s == ks + (vs + tail) && |ks| > 0 && ks[0] != END && AllWhole(done) && Whole(e)
    requires DecodeStr(ks + (vs + tail)) == Result(e.key, |ks|, 0)
    requires Decode(vs + tail) == if ok then Result(e.val, |vs|, 0) else Undefined
    ensures InTime(done) && InTime(done + [e])
    ensures PairsIn(s, done) ==
            if ok then Shift(Shift(PairsIn(tail, done + [e]), |vs|, 0), |ks|, 0) else Undefined
  {
    WholeInTime(done);
    WholeInTime(done + [e]);
    Cut(ks, vs + tail);
    Cut(vs, tail);
    if ok {
      DictLoopRound(s, done, e, |ks|, |vs|, vs + tail, tail);
    } else {
      DictLoopStuck(s, done, e.key.value, |ks|, vs + tail);
    }
  }

  /** What the dictionary loop is to make of printed pairs and the end mark. */
  function DictOutcome(pairs: seq<Pair>, done: seq<DictEntry>): Outcome<Option<Node>>
  {
    if |done| + |pairs| > 0 && NonEmptyPairs(pairs)
    then Result(Some(DictNode(done + PairImages(pairs))), |EncodePairs(pairs)| + 1, 0)
    else Undefined
  }

  lemma {:induction false} DictReadBackEnd(done: seq<DictEntry>, rest: Text)
    requires InTime(done)
    ensures PairsIn(EncodePairs([]) + ([END] + rest), done) == DictOutcome([], done)
  {
    assert EncodePairs([]) + ([END] + rest) == [END] + rest && done + PairImages([]) == done;
  }

  lemma {:induction false} DictOutcomeCons(pairs: seq<Pair>, done: seq<DictEntry>)
    requires |pairs| > 0
    ensures DictOutcome(pairs, done) ==
            if NonEmpty(pairs[0].val)
            then Shift(Shift(DictOutcome(pairs[1..], done + [PairImage(pairs[0])]), |Encode(pairs[0].val)|, 0),
                       |EncodeString(pairs[0].key)|, 0)
            else Undefined
  {
    EncodePairsCons(pairs, []);
    PairImagesCons(pairs, done);
  }

  lemma {:induction false} EncodePairsCons(pairs: seq<Pair>, rest: Text)
    requires |pairs| > 0
    ensures EncodePairs(pairs) + ([END] + rest) ==
            EncodeString(pairs[0].key) + (Encode(pairs[0].val) + (EncodePairs(pairs[1..]) + ([END] + rest)))
    ensures |EncodePairs(pairs)| == |EncodeString(pairs[0].key)| + |Encode(pairs[0].val)| + |EncodePairs(pairs[1..])|
  {
    FirstOfPairs(pairs);
    ConcatFour(EncodeString(pairs[0].key), Encode(pairs[0].val), EncodePairs(pairs[1..]), [END] + rest);
  }

  lemma {:induction false} FirstOfPairs(pairs: seq<Pair>)
    requires |pairs| > 0
    ensures EncodePairs(pairs) == EncodeString(pairs[0].key) + Encode(pairs[0].val) + EncodePairs(pairs[1..])
  {
  }

  lemma {:induction false} PairImagesCons(pairs: seq<Pair>, done: seq<DictEntry>)
    requires |pairs| > 0
    ensures done + [PairImage(pairs[0])] + PairImages(pairs[1..]) == done + PairImages(pairs)
  {
  }

  /** One round of the dictionary loop over a printed pair. */
  lemma {:induction false} DictLoopCons(s: Text, p: Pair, tail: Text, done: seq<DictEntry>)
    requires s == EncodeString(p.key) + (Encode(p.val) + tail) && |p.key| <= LLONG_MAX && AllWhole(done)
    requires Decode(Encode(p.val) + tail) ==
             if NonEmpty(p.val) then Result(Some(Image(p.val)), |Encode(p.val)|, 0) else Undefined
    ensures PairsIn(s, done) ==
            if NonEmpty(p.val)
            then Shift(Shift(PairsIn(tail, done + [PairImage(p)]), |Encode(p.val)|, 0), |EncodeString(p.key)|, 0)
            else Undefined
  {
    DecodeStrOfEncode(p.key, Encode(p.val) + tail);
    KeyStart(p.key);
    DictLoopStep(s, EncodeString(p.key), Encode(p.val), tail, done, PairImage(p), NonEmpty(p.val));
  }

  lemma {:induction false} KeyStart(s: Text)
    ensures EncodeString(s)[0] != END
  {
    DigitsStart(|s|);
  }

  lemma {:induction false} AllWholeAppend(done: seq<DictEntry>, e: DictEntry)
    requires AllWhole(done) && Whole(e)
    ensures AllWhole(done + [e])
  {
  }

  lemma {:induction false} DictLoopOfEncode(pairs: seq<Pair>, done: seq<DictEntry>, rest: Text)
    requires AllWhole(done) && InRangePairs(pairs)
    ensures InTime(done)
    ensures PairsIn(EncodePairs(pairs) + ([END] + rest), done) == DictOutcome(pairs, done)
    decreases pairs, 0
  {
    WholeInTime(done);
    if |pairs| == 0 {
      DictReadBackEnd(done, rest);
    } else {
      DecodeEncode(pairs[0].val, EncodePairs(pairs[1..]) + ([END] + rest));
      AllWholeAppend(done, PairImage(pairs[0]));
      DictLoopOfEncode(pairs[1..], done + [PairImage(pairs[0])], rest);
      EncodePairsCons(pairs, rest);
      DictLoopCons(EncodePairs(pairs) + ([END] + rest), pairs[0], EncodePairs(pairs[1..]) + ([END] + rest), done);
      DictOutcomeCons(pairs, done);
    }
  }

  // ----- unique decoding

  lemma {:induction false} ImageInjective(v: Be, w: Be)
    requires Image(v) == Image(w)
    ensures v == w
    decreases v, 1
  {
    match v {
      case BeInt(_) =>
      case BeStr(_) =>
      case BeList(items) => ImagesInjective(items, w.items);
      case BeDict(pairs) => PairImagesInjective(pairs, w.pairs);
    }
  }

  lemma {:induction false} ImagesInjective(p: seq<Be>, q: seq<Be>)
    requires Images(p) == Images(q)
    ensures p == q
    decreases p, 0
  {
    if |p| > 0 && |q| > 0 {
      assert Images(p)[0] == Images(q)[0] && Images(p)[1..] == Images(q)[1..];
      ImageInjective(p[0], q[0]);
      ImagesInjective(p[1..], q[1..]);
      assert p == [p[0]] + p[1..] && q == [q[0]] + q[1..];
    }
  }

  lemma {:induction false} PairImagesInjective(p: seq<Pair>, q: seq<Pair>)
    requires PairImages(p) == PairImages(q)
    ensures p == q
    decreases p, 0
  {
    if |p| > 0 && |q| > 0 {
      assert PairImages(p)[0] == PairImages(q)[0] && PairImages(p)[1..] == PairImages(q)[1..];
      ImageInjective(p[0].val, q[0].val);
      PairImagesInjective(p[1..], q[1..]);
      assert p == [p[0]] + p[1..] && q == [q[0]] + q[1..];
    }
  }

  /** Encodings are prefix-free: two texts that start with encodings and agree have the same value and remainder. */
  lemma {:induction false} EncodingsPrefixFree(v: Be, w: Be, r: Text, q: Text)
    requires InRange(v) && InRange(w) && NonEmpty(v) && NonEmpty(w)
    requires Encode(v) + r == Encode(w) + q
    ensures v == w && r == q
  {
    DecodeEncode(v, r);
    DecodeEncode(w, q);
    ImageInjective(v, w);
    assert r == (Encode(v) + r)[|Encode(v)|..];
    assert q == (Encode(w) + q)[|Encode(w)|..];
  }

  /** Concatenated encodings decode uniquely. */
  lemma {:induction false} ConcatenationUnique(vs: seq<Be>, ws: seq<Be>)
    requires InRangeAll(vs) && InRangeAll(ws) && NonEmptyAll(vs) && NonEmptyAll(ws)
    requires EncodeAll(vs) == EncodeAll(ws)
    ensures vs == ws
  {
    if |vs| > 0 && |ws| > 0 {
      EncodingsPrefixFree(vs[0], ws[0], EncodeAll(vs[1..]), EncodeAll(ws[1..]));
      ConcatenationUnique(vs[1..], ws[1..]);
      assert vs == [vs[0]] + vs[1..] && ws == [ws[0]] + ws[1..];
    }
  }
}
