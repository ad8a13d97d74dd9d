/** Malformed inputs and encodings, byte by byte. */
module BencodeExamples {
  import opened Bits
  import opened OrderedMap
  import opened Decimal
  import opened Bencode

  /** What becomes of malformed text, here i7x, 5:a, 1xab, x, li7ex and d5i7eex: an integer without its end is lost, a string that
      is too short or lacks its colon is an empty node, anything else is nothing, a list ends at what is nothing, and a
      dictionary at a first pair without a key, whose value is lost. */
  lemma {:induction false} MalformedExamples(integer: Text, short: Text, bare: Text, other: Text, list: Text, dict: Text)
    requires integer == [105, 55, 120] && short == [53, 58, 97] && bare == [49, 120, 97, 98]
    requires other == [120] && list == [108, 105, 55, 101, 120] && dict == [100, 53, 105, 55, 101, 101, 120]
    ensures Decode(integer) == Result(None, 2, 1)
    ensures Decode(short) == Result(Some(StrNode(None)), 1, 0) == Decode(bare)
    ensures Decode(other) == Result(None, 0, 0) == Decode([])
    ensures Decode(list) == Result(Some(ListNode([IntNode(7)])), 5, 0)
    ensures Decode(dict) == Result(Some(DictNode([])), 6, 1)
  {
    LosesInteger(integer[1..]);
    assert [105] + integer[1..] == integer;
    EmptyNode(short, 5);
    EmptyNode(bare, 1);
    EndsAtNothing(list, list[1..]);
    KeylessPair(dict, dict[1..]);
  }

  lemma {:induction false} KeylessPair(dict: Text, s: Text)
    requires |dict| == 7 && dict[0] == DICT && s == dict[1..]
    requires s[0] == 53 && s[1] == INT && s[2] == 55 && s[3] == END && s[4] == END
    ensures Decode(dict) == Result(Some(DictNode([])), 6, 1)
  {
    OneDigit(s, 5);
    assert DecodeStr(s) == Result(None, 1, 0);
    Seven(s[1..]);
    BrokenAtOnce(s);
  }

  lemma {:induction false} BrokenAtOnce(s: Text)
    requires |s| > 0 && s[0] != END && DecodeStr(s) == Result(None, 1, 0)
    requires Decode(s[1..]) == Result(Some(IntNode(7)), 3, 0)
    ensures DictLoop(s, []) == Result(Some(DictNode([])), 5, 1)
  {
    var e := DictEntry(None, Some(IntNode(7)));
    assert ([] + [e])[0] == e;
    assert EntryBlocks(e) == 1;
  }

  lemma {:induction false} Seven(s: Text)
    requires |s| > 3 && s[0] == INT && s[1] == 55 && s[2] == END
    ensures Decode(s) == Result(Some(IntNode(7)), 3, 0)
  {
    OneDigit(s[1..], 7);
  }

  lemma {:induction false} EndsAtNothing(list: Text, s: Text)
    requires |list| == 5 && list[0] == LIST && s == list[1..] && s[0] == INT && s[1] == 55 && s[2] == END && s[3] == 120
    ensures Decode(list) == Result(Some(ListNode([IntNode(7)])), 5, 0)
  {
    Seven(s);
    var t := s[3..];
    assert Decode(t) == Result(None, 0, 0);
    assert ListLoop(t, [IntNode(7)]) == Result(Some(ListNode([IntNode(7)])), 1, 0);
    assert [] + [IntNode(7)] == [IntNode(7)];
  }

  lemma {:induction false} LosesInteger(s: Text)
    requires |s| == 2 && s[0] == 55 && s[1] == 120
    ensures Decode([105] + s) == Result(None, 2, 1)
  {
    OneDigit(s, 7);
    assert ([105] + s)[1..] == s;
  }

  lemma {:induction false} EmptyNode(s: Text, i: nat)
    requires |s| > 1 && i < 10 && s[0] == 48 + i && !IsDigit(s[1])
    requires i > |s| - 2 || s[1] != COLON
    ensures Decode(s) == Result(Some(StrNode(None)), 1, 0)
  {
    OneDigit(s, i);
  }

  lemma {:induction false} OneDigit(s: Text, i: nat)
    requires |s| > 1 && i < 10 && s[0] == 48 + i && !IsDigit(s[1])
    ensures StrToLL(s) == Some(Parsed(i, 1))
  {
    assert s == Signed(i) + s[1..];
    StrToLLOfSigned(i, s[1..]);
  }

  /** Encodings byte by byte: the list of 7 and -42, and the dictionary from "ab" to "c". */
  lemma {:induction false} EncodingExamples()
    ensures Encode(BeList([BeInt(7), BeInt(-42)])) == [108, 105, 55, 101, 105, 45, 52, 50, 101, 101]
    ensures Encode(BeDict([Pair([97, 98], BeStr([99]))])) == [100, 50, 58, 97, 98, 49, 58, 99, 101]
  {
    assert Digits(42) == [52, 50];
  }

  /** An empty list is such a value: its encoding, whatever follows, leads to a store through a null pointer. */
  lemma {:induction false} EmptyListExample(rest: Text)
    ensures Encode(BeList([])) == [LIST, END] && Decode([LIST, END] + rest) == Undefined
  {
    assert ([LIST, END] + rest)[1..] == [END] + rest;
  }
}
