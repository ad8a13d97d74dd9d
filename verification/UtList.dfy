/** The list of all items in application order. */
module UtList {
  import opened Sequences
  import opened UtChains

  ghost predicate ItemAt(s: seq<Handle>, i: nat)
    requires i < |s|
    reads s[i]
  {
    && s[i].pos == i
    && s[i].prev == (if i == 0 then null else s[i - 1])
    && s[i].next == (if i + 1 == |s| then null else s[i + 1])
  }

  /** `s` is the list from `head` to `tail`. */
  ghost predicate ListLinked(s: seq<Handle>, head: Handle?, tail: Handle?)
    reads s
  {
    && |s| != 0 && head == s[0] && tail == s[|s| - 1]
    && forall i | 0 <= i < |s| :: ItemAt(s, i)
  }

  lemma ItemsDistinct(s: seq<Handle>, head: Handle?, tail: Handle?)
    requires ListLinked(s, head, tail)
    ensures forall i, j | 0 <= i < j < |s| :: s[i] != s[j]
  {
    forall i, j | 0 <= i < j < |s| ensures s[i] != s[j] {
      assert ItemAt(s, i) && ItemAt(s, j);
    }
  }

  /** The else branch of HASH_ADD_KEYPTR: link `h` behind the tail. */
  method Append(head: Handle, tail: Handle, h: Handle, ghost s: seq<Handle>)
    requires ListLinked(s, head, tail) && h !in Elems(s)
    modifies h`prev, h`next, h`pos, tail`next
    ensures ListLinked(s + [h], head, h)
  {
    assert tail in Elems(s) && ItemAt(s, |s| - 1);
    h.next := null;
    tail.next := h;
    h.prev := tail;
    h.pos := |s|;
    ghost var d := s + [h];
    forall i | 0 <= i < |d| ensures ItemAt(d, i) {
      assert i < |s| ==> s[i] in Elems(s) && old(ItemAt(s, i));
    }
  }

  /** The list half of HASH_DELETE, for a list of at least two items. */
  method UnlinkFromList(head: Handle, tail: Handle, h: Handle, ghost s: seq<Handle>, ghost k: nat)
    returns (head': Handle?, tail': Handle?)
    requires ListLinked(s, head, tail) && |s| > 1 && k < |s| && s[k] == h
    modifies s`prev, s`next
    ensures head' == if k == 0 then s[1] else s[0]
    ensures tail' == if k + 1 == |s| then s[k - 1] else s[|s| - 1]
    ensures forall i {:trigger s[i].prev} | 0 <= i < |s| ::
              s[i].prev == if i == k + 1 then old(h.prev) else old(s[i].prev)
    ensures forall i {:trigger s[i].next} | 0 <= i < |s| ::
              s[i].next == if i + 1 == k then old(h.next) else old(s[i].next)
  {
    assert ItemAt(s, k) && (k > 0 ==> s[k - 1] in s) && (k + 1 < |s| ==> s[k + 1] in s);
    assert ItemAt(s, |s| - 1) && ItemAt(s, 0);
    assert k > 0 ==> ItemAt(s, k - 1);
    assert k + 1 < |s| ==> ItemAt(s, k + 1);
    assert forall i {:trigger s[i].prev} {:trigger s[i].next} | 0 <= i < |s| :: ItemAt(s, i);
    head', tail' := head, tail;
    if h == tail {
      tail' := h.prev;
    }
    if h.prev != null {
      h.prev.next := h.next;
    } else {
      head' := h.next;
    }
    if h.next != null {
      h.next.prev := h.prev;
    }
  }

  /** Renumbers the items after the gap at index k. */
  ghost method CloseGap(s: seq<Handle>, k: nat)
    requires k < |s| && forall i {:trigger s[i].pos} | 0 <= i < |s| :: s[i].pos == i
    modifies s`pos
    ensures forall i {:trigger s[i].pos} | 0 <= i < |s| :: s[i].pos == if i > k then i - 1 else i
  {
    forall x | x in s {
      x.pos := if x.pos > k then x.pos - 1 else x.pos;
    }
    assert forall i {:trigger s[i].pos} | 0 <= i < |s| :: s[i] in s && old(s[i].pos) == i;
  }

  method RemoveFromList(head: Handle, tail: Handle, h: Handle, ghost s: seq<Handle>, ghost k: nat)
    returns (head': Handle?, tail': Handle?)
    requires ListLinked(s, head, tail) && |s| > 1 && k < |s| && s[k] == h
    modifies s`prev, s`next, s`pos
    ensures ListLinked(Without(s, k), head', tail')
  {
    assert ItemAt(s, k);
    assert forall i {:trigger s[i].pos} | 0 <= i < |s| :: ItemAt(s, i);
    head', tail' := UnlinkFromList(head, tail, h, s, k);
    CloseGap(s, k);
    ghost var d := Without(s, k);
    forall i | 0 <= i < |d| ensures ItemAt(d, i) {
      var m := if i < k then i else i + 1;
      assert d[i] == s[m] && old(ItemAt(s, m));
      assert s[m].pos == i && s[m].prev == if m == k + 1 then old(h.prev) else old(s[m].prev);
      assert s[m].next == if m + 1 == k then old(h.next) else old(s[m].next);
      assert i > 0 ==> d[i - 1] == s[if i == k then k - 1 else m - 1];
      assert i + 1 < |d| ==> d[i + 1] == s[if i + 1 == k then k + 1 else m + 1];
    }
  }
}
