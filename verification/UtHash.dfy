/** The hash table: HASH_MAKE_TABLE, HASH_FIND, HASH_ADD, HASH_REPLACE, HASH_DELETE, HASH_SRT, HASH_FSCK. */
module UtHash {
  import opened Bits
  import opened OrderedMap
  import opened Sequences
  import opened UtChains
  import opened UtList
  import opened UtSort

  const INITIAL_NUM_BUCKETS := 32
  const INITIAL_NUM_BUCKETS_LOG2 := 5
  const BKT_CAPACITY_THRESH := 10

  /** No chain has reached the length at which its bucket makes the table double. */
  ghost predicate AllBelow(bs: seq<Bucket>)
  {
    forall b | 0 <= b < |bs| :: bs[b].count < (bs[b].expandMult + 1) * 10
  }

  lemma {:induction false} StillBelow(was: seq<Bucket>, b: nat, bs: seq<Bucket>)
    requires b < |was| == |bs| && bs == was[b := bs[b]]
    ensures AllBelow(was) && bs[b].count < (bs[b].expandMult + 1) * 10 ==> AllBelow(bs)
  {
  }

  /** ceil(n / b). */
  function CeilDiv(n: nat, b: nat): nat
    requires b > 0
  {
    n / b + if n % b != 0 then 1 else 0
  }

  /** The byte array of a filter with 2^nbits bits. */
  function BloomByteLen(nbits: nat): nat
  {
    Pow2(nbits) / 8 + if Pow2(nbits) % 8 != 0 then 1 else 0
  }

  function BloomIndex(hashv: nat, nbits: nat): (i: nat)
    ensures i == hashv % Pow2(nbits) < Pow2(nbits)
    ensures i < 8 * BloomByteLen(nbits)
  {
    MaskIsMod(hashv, nbits);
    And(hashv, Pow2(nbits) - 1)
  }

  /** One more item makes this bucket's chain too long. */
  predicate MustExpand(b: Bucket, noexpand: bool)
  {
    b.count + 1 >= (b.expandMult + 1) * 10 && !noexpand
  }

  class Table {
    const hash: Key -> nat
    const bloom: bool
    const bloomNbits: nat

    var head: Handle?   // the application's pointer; null when there is no table
    var tail: Handle?
    var buckets: array<Bucket>
    var numBuckets: nat
    var log2NumBuckets: nat
    var numItems: nat
    var idealChainMaxlen: nat
    var nonidealItems: nat
    var ineffExpands: nat
    var noexpand: bool
    var bloomBv: array<byte>

    ghost var contents: seq<Entry<Key, Handle>>
    ghost var log: seq<Op<Key, Handle>>   // the calls so far
    ghost var items: seq<Handle>
    ghost var chains: seq<seq<Handle>>

    /** The bucket array indexes exactly `nodes`, by hash. */
    ghost predicate Indexed(nodes: set<Handle>)
      reads this`buckets, this`numBuckets, this`log2NumBuckets, this`chains, buckets
      reads nodes
    {
      && numBuckets == buckets.Length == Pow2(log2NumBuckets)
      && Members(chains) == nodes
      && ChainsLinked(buckets, chains)
      && Rehashed(nodes, numBuckets)
    }

    /** Every indexed item has its bit set in the filter. */
    ghost predicate Filtered(nodes: set<Handle>)
      reads this`bloomBv, bloomBv, nodes`hashv
    {
      bloom ==>
        && bloomBv.Length == BloomByteLen(bloomNbits)
        && forall h | h in nodes :: BitTest(bloomBv[..], BloomIndex(h.hashv, bloomNbits))
    }

    /** Item i of the list is entry i of the map, and its stored hash is that of its key. */
    ghost predicate Recorded(i: nat)
      requires i < |items| == |contents|
      reads this`items, this`contents, items[i]
    {
      && contents[i].key == items[i].key && contents[i].val == items[i]
      && items[i].hashv == hash(items[i].key)
    }

    ghost predicate Listed()
      reads this`items, this`contents, this`head, this`tail, this`numItems, Elems(items)
    {
      && |contents| == |items|
      && (head == null <==> |items| == 0)
      && (head != null ==> ListLinked(items, head, tail) && numItems == |items|)
      && (forall i | 0 <= i < |items| :: Recorded(i))
      && KeysDistinct(contents)
    }

    /** List, buckets and filter are those of the map. */
    ghost predicate Sound()
      reads this`items, this`contents, this`head, this`tail, this`numItems, this`buckets, this`numBuckets, this`log2NumBuckets
      reads this`chains, this`bloomBv, buckets, bloomBv, Elems(items)
    {
      && Listed()
      && (head != null ==> Indexed(Elems(items)) && Filtered(Elems(items)))
    }

    ghost predicate Valid()
      reads this, buckets, bloomBv, Elems(items)
    {
      Sound() && Logged()
    }

    /** The table is what a run of the logged calls makes of an empty ordered map. */
    ghost predicate Logged()
      reads this`contents, this`log
    {
      AllowedRun(log) && contents == Run(log)
    }

    /** A call that has taken effect on the map is logged. */
    ghost method Record(op: Op<Key, Handle>)
      requires Sound() && AllowedRun(log) && Allowed(Run(log), op) && contents == Step(Run(log), op)
      modifies this`log
      ensures Sound() && Logged() && log == old(log) + [op]
    {
      RunOneMore(log, op);
      log := log + [op];
    }

    constructor (hash: Key -> nat, bloom: bool, bloomNbits: nat)
      ensures Valid() && contents == [] && log == [] && fresh(buckets) && fresh(bloomBv)
    {
      this.hash, this.bloom, this.bloomNbits := hash, bloom, bloomNbits;
      head, contents, items, log := null, [], [], [];
      buckets := new Bucket[0];
      bloomBv := new byte[0];
    }

    /** HASH_BLOOM_TEST: false only for a hash that none of the items has; without a filter never. */
    method BloomTest(hashv: nat, ghost nodes: set<Handle>) returns (r: bool)
      requires Filtered(nodes)
      ensures !r ==> bloom && forall h | h in nodes :: h.hashv != hashv
      ensures bloom ==> (r <==> var i := BloomIndex(hashv, bloomNbits); Bit(bloomBv[i / 8], i % 8))
    {
      if bloom {
        var i := BloomIndex(hashv, bloomNbits);
        r := And(bloomBv[i / 8], Pow2(i % 8)) != 0;
        AndPow2(bloomBv[i / 8], i % 8);
      } else {
        r := true;
      }
    }

    method BloomAdd(hashv: nat)
      requires bloom ==> bloomBv.Length == BloomByteLen(bloomNbits)
      modifies bloomBv
      ensures bloom ==> BitTest(bloomBv[..], BloomIndex(hashv, bloomNbits))
      ensures bloom ==> forall j: nat | j < 8 * bloomBv.Length :: old(BitTest(bloomBv[..], j)) ==> BitTest(bloomBv[..], j)
    {
      if bloom {
        var i := BloomIndex(hashv, bloomNbits);
        ghost var bv := bloomBv[..];
        bloomBv[i / 8] := SetBit(bloomBv[i / 8], i % 8);
        assert bloomBv[..] == bv[i / 8 := SetBit(bv[i / 8], i % 8)];
        forall j: nat | j < 8 * bloomBv.Length ensures BitTest(bloomBv[..], j) <==> BitTest(bv, j) || j == i {
          BitSetThenTest(bv, i, j);
        }
      }
    }

    /** What a lookup hands out. */
    static function Pointer(o: Option<Handle>): Handle?
    {
      match o case None => null case Some(h) => h
    }

    /** HASH_FIND. Whatever calls came before, with whatever expansions, it answers with the last write of the key. */
    method Find(key: Key) returns (out: Handle?)
      requires Sound()
      ensures out == Pointer(Lookup(contents, key))
      ensures Valid() ==> out == Pointer(LastWrite(log, key))
    {
      AnswersLastWrite(key);
      out := null;
      if head != null {
        var hashv := hash(key);
        MaskIsMod(hashv, log2NumBuckets);
        var b := ToBkt(hashv, numBuckets);
        var maybe := BloomTest(hashv, Elems(items));
        if maybe {
          assert ChainLinked(chains[b], buckets[b].hhHead, b);
          out := FindInBucket(buckets[b].hhHead, key, chains[b], b);
          if out != null {
            Found(b, out);
          } else {
            NotInBucket(key, b);
          }
        } else {
          NotFiltered(key);
        }
      } else {
        LookupNone(contents, key);
      }
    }

    lemma AnswersLastWrite(key: Key)
      ensures Logged() ==> Lookup(contents, key) == LastWrite(log, key)
    {
      if Logged() {
        RunAnswersLastWrite(log, key);
      }
    }

    lemma Found(b: nat, h: Handle)
      requires Sound() && head != null && b < |chains| && h in chains[b]
      ensures Lookup(contents, h.key) == Some(h)
    {
      assert h in Members(chains);
      var i :| 0 <= i < |items| && items[i] == h;
      assert Recorded(i);
      LookupAt(contents, i);
    }

    lemma NotInBucket(key: Key, b: nat)
      requires Sound() && head != null && b < |chains| && b == ToBkt(hash(key), numBuckets)
      requires forall h | h in chains[b] :: h.key != key
      ensures Lookup(contents, key) == None
    {
      forall i | 0 <= i < |contents| ensures contents[i].key != key {
        assert Recorded(i) && items[i] in Elems(items);
        var k := SlotOf(buckets, chains, items[i]);
      }
      LookupNone(contents, key);
    }

    lemma NotFiltered(key: Key)
      requires Sound() && forall h | h in Elems(items) :: h.hashv != hash(key)
      ensures Lookup(contents, key) == None
    {
      forall i | 0 <= i < |contents| ensures contents[i].key != key {
        assert Recorded(i) && items[i] in Elems(items);
      }
      LookupNone(contents, key);
    }
  
    // ----- adding

    method MakeTable()
      modifies this`buckets, this`numBuckets, this`log2NumBuckets, this`numItems, this`chains, this`idealChainMaxlen
      modifies this`nonidealItems, this`ineffExpands, this`noexpand, this`bloomBv
      ensures fresh(buckets) && fresh(bloomBv) && numItems == 0 && numBuckets == INITIAL_NUM_BUCKETS && !noexpand
      ensures Indexed({}) && Filtered({})
    {
      numBuckets, log2NumBuckets := INITIAL_NUM_BUCKETS, INITIAL_NUM_BUCKETS_LOG2;
      numItems, idealChainMaxlen, nonidealItems, ineffExpands, noexpand := 0, 0, 0, 0, false;
      buckets := new Bucket[INITIAL_NUM_BUCKETS](_ => Bucket(null, 0, 0));
      chains := seq(INITIAL_NUM_BUCKETS, _ => []);
      bloomBv := new byte[BloomByteLen(bloomNbits)](_ => 0);
      assert Pow2(5) == 32;
    }

    /** The tail of HASH_ADD_KEYPTR: HASH_ADD_TO_BKT, which expands the table when the chain is too long. */
    method AddToBkt(h: Handle, ghost nodes: set<Handle>) returns (b: nat)
      requires Indexed(nodes) && numItems > 0 && h !in nodes
      modifies this`buckets, this`numBuckets, this`log2NumBuckets, this`chains, this`idealChainMaxlen
      modifies this`nonidealItems, this`ineffExpands, this`noexpand, buckets
      modifies h`hhPrev, h`hhNext, h`slot, h`bkt, nodes`hhPrev, nodes`hhNext, nodes`slot, nodes`bkt
      ensures Indexed(nodes + {h}) && (buckets == old(buckets) || fresh(buckets))
      ensures b == ToBkt(h.hashv, old(numBuckets)) < old(buckets.Length)
      ensures if MustExpand(old(buckets[..])[b], old(noexpand)) then numBuckets == 2 * old(numBuckets) && Balanced()
              else numBuckets == old(numBuckets) && idealChainMaxlen == old(idealChainMaxlen) && noexpand == old(noexpand)
      ensures AllBelow(old(buckets[..])) && !old(noexpand) && (numBuckets == old(numBuckets) || idealChainMaxlen < 10) ==>
                AllBelow(buckets[..])
    {
      b, chains := LinkByHash(h, buckets, log2NumBuckets, chains);
      StillBelow(old(buckets[..]), b, buckets[..]);
      if buckets[b].count >= (buckets[b].expandMult + 1) * BKT_CAPACITY_THRESH && !noexpand {
        ExpandBuckets(nodes + {h});
        if idealChainMaxlen < 10 {
          BelowAfterExpansion();
        }
      }
    }

    method AddToList(key: Key, h: Handle)
      requires Listed() && h !in Elems(items) && Absent(contents, key)
      requires head != null
      modifies this`tail, this`numItems, this`contents, this`items, h`key, h`hashv, h`prev, h`next, h`pos, Elems(items)`next
      ensures Listed() && items == old(items) + [h] && Elems(items) == Elems(old(items)) + {h}
      ensures contents == OrderedMap.Add(old(contents), key, h) && h.hashv == hash(key)
    {
      ghost var s := items;
      h.key := key;
      h.hashv := hash(key);
      assert tail in Elems(s);
      Append(head, tail, h, s);
      tail := h;
      numItems := numItems + 1;
      items := s + [h];
      contents := OrderedMap.Add(contents, key, h);
      ElemsAppend(s, h);
      forall i | 0 <= i < |items| ensures Recorded(i) {
        assert i < |s| ==> old(Recorded(i)) && s[i] in Elems(s);
      }
    }

    /** The first item makes the table. */
    method AddFirst(key: Key, h: Handle)
      requires Listed() && head == null
      modifies this, h`key, h`hashv, h`prev, h`next, h`pos
      ensures Listed() && items == [h] && Elems(items) == {h} && numItems == 1
      ensures contents == OrderedMap.Add(old(contents), key, h)
      ensures fresh(buckets) && fresh(bloomBv) && Indexed({}) && Filtered({})
      ensures numBuckets == INITIAL_NUM_BUCKETS && h.hashv == hash(key) && log == old(log)
    {
      h.next := null;
      h.key := key;
      h.hashv := hash(key);
      head := h;
      head.prev := null;
      MakeTable();
      tail := h;
      numItems := numItems + 1;
      ListFirst(key, h);
    }

    ghost method ListFirst(key: Key, h: Handle)
      requires head == tail == h && h.next == null == h.prev && numItems == 1 && h.key == key && h.hashv == hash(key)
      modifies this`items, this`contents, h`pos
      ensures Listed() && items == [h] && Elems(items) == {h} && contents == [Entry(key, h)]
    {
      h.pos := 0;
      items, contents := [h], [Entry(key, h)];
      assert ItemAt(items, 0) && Recorded(0);
    }

    /** The arrays are the same or new. */
    twostate predicate Framed()
      reads this
    {
      (buckets == old(buckets) || fresh(buckets)) && (bloomBv == old(bloomBv) || fresh(bloomBv))
    }

    /** The chain that h joins is chain b, and the table doubles exactly if that makes the chain too long. */
    twostate predicate Grows(hashv: nat, b: nat)
      reads this, buckets
    {
      old(numBuckets) > 0 && b == ToBkt(hashv, old(numBuckets)) < old(buckets.Length) &&
      numBuckets == if MustExpand(old(buckets[..])[b], old(noexpand)) then 2 * old(numBuckets) else old(numBuckets)
    }

    /** What an add does, by its key: the item is last in order. */
    twostate predicate Added(key: Key, h: Handle, b: nat)
      reads this, buckets
    {
      contents == OrderedMap.Add(old(contents), key, h) && items == old(items) + [h] &&
      if old(head) == null then b == ToBkt(hash(key), INITIAL_NUM_BUCKETS) else Grows(hash(key), b)
    }

    /** The first item makes a table and joins its bucket. */
    method InsertFirst(key: Key, h: Handle) returns (ghost b: nat)
      requires Listed() && head == null
      modifies this, h
      ensures Sound() && fresh(buckets) && fresh(bloomBv) && log == old(log)
      ensures contents == [Entry(key, h)] && items == [h] && b == ToBkt(hash(key), INITIAL_NUM_BUCKETS)
    {
      AddFirst(key, h);
      b := IndexItem(h, {});
    }

    /** A later item joins the list behind the tail, then its bucket and the filter. */
    method InsertLast(key: Key, h: Handle) returns (ghost b: nat)
      requires Sound() && head != null && h !in Elems(items) && Absent(contents, key)
      modifies this`tail, this`numItems, this`contents, this`items, this`buckets, this`numBuckets, this`log2NumBuckets, this`chains
      modifies this`idealChainMaxlen, this`nonidealItems, this`ineffExpands, this`noexpand, buckets, bloomBv, Elems(items), h
      ensures Sound() && (buckets == old(buckets) || fresh(buckets))
      ensures contents == OrderedMap.Add(old(contents), key, h) && items == old(items) + [h] && Grows(hash(key), b)
    {
      ghost var nodes := Elems(items);
      AddToList(key, h);
      IndexFramed();
      b := IndexItem(h, nodes);
    }

    /** HASH_ADD_KEYPTR. The application adds only absent keys. The table doubles exactly if the chain that h joins is too long. */
    method Add(key: Key, h: Handle) returns (ghost b: nat)
      requires Valid() && h !in Elems(items) && Absent(contents, key)
      modifies this, buckets, bloomBv, Elems(items), h
      ensures Valid() && log == old(log) + [AddOp(key, h)] && Added(key, h, b) && Framed()
    {
      b := Insert(key, h);
      Record(AddOp(key, h));
    }

    method Insert(key: Key, h: Handle) returns (ghost b: nat)
      requires Sound() && h !in Elems(items) && Absent(contents, key)
      modifies this, buckets, bloomBv, Elems(items), h
      ensures Sound() && log == old(log) && Added(key, h, b) && Framed()
    {
      if head == null {
        b := InsertFirst(key, h);
      } else {
        b := InsertLast(key, h);
      }
    }

    method IndexItem(h: Handle, ghost nodes: set<Handle>) returns (b: nat)
      requires Listed() && Indexed(nodes) && Filtered(nodes) && head != null && numItems > 0
      requires Elems(items) == nodes + {h} && h !in nodes
      modifies this`buckets, this`numBuckets, this`log2NumBuckets, this`chains, this`idealChainMaxlen
      modifies this`nonidealItems, this`ineffExpands, this`noexpand, buckets, bloomBv
      modifies h`hhPrev, h`hhNext, h`slot, h`bkt, nodes`hhPrev, nodes`hhNext, nodes`slot, nodes`bkt
      ensures Sound() && (buckets == old(buckets) || fresh(buckets))
      ensures b == ToBkt(h.hashv, old(numBuckets)) < old(buckets.Length)
      ensures if MustExpand(old(buckets[..])[b], old(noexpand)) then numBuckets == 2 * old(numBuckets) && Balanced()
              else numBuckets == old(numBuckets)
    {
      b := LinkItem(h, nodes);
      FilterFramed(nodes);
      FilterItem(h, nodes);
    }

    method LinkItem(h: Handle, ghost nodes: set<Handle>) returns (b: nat)
      requires Listed() && Indexed(nodes) && numItems > 0 && Elems(items) == nodes + {h} && h !in nodes
      modifies this`buckets, this`numBuckets, this`log2NumBuckets, this`chains, this`idealChainMaxlen
      modifies this`nonidealItems, this`ineffExpands, this`noexpand, buckets
      modifies h`hhPrev, h`hhNext, h`slot, h`bkt, nodes`hhPrev, nodes`hhNext, nodes`slot, nodes`bkt
      ensures Listed() && Indexed(Elems(items)) && (buckets == old(buckets) || fresh(buckets))
      ensures b == ToBkt(h.hashv, old(numBuckets)) < old(buckets.Length)
      ensures if MustExpand(old(buckets[..])[b], old(noexpand)) then numBuckets == 2 * old(numBuckets) && Balanced()
              else numBuckets == old(numBuckets)
    {
      b := AddToBkt(h, nodes);
      forall x: Handle | x in old(Elems(items)) ensures ListFieldsKept(x) {
      }
      ListedFramed();
    }

    /** HASH_BLOOM_ADD: the filter covers one more item. */
    method FilterItem(h: Handle, ghost nodes: set<Handle>)
      requires Listed() && Indexed(Elems(items)) && Filtered(nodes) && Elems(items) == nodes + {h}
      modifies bloomBv
      ensures Listed() && Indexed(Elems(items)) && Filtered(Elems(items))
    {
      BloomAdd(h.hashv);
      if bloom {
        forall x | x in nodes ensures BitTest(bloomBv[..], BloomIndex(x.hashv, bloomNbits)) {
          assert old(BitTest(bloomBv[..], BloomIndex(x.hashv, bloomNbits)));
        }
      }
    }

    /** Buckets, chains and filter survive changes to the list fields of their items. */
    twostate lemma IndexFramed()
      requires old(Sound()) && old(head) != null
      requires buckets == old(buckets) && unchanged(buckets) && bloomBv == old(bloomBv) && unchanged(bloomBv)
      requires chains == old(chains) && numBuckets == old(numBuckets) && log2NumBuckets == old(log2NumBuckets)
      requires forall x | x in old(Elems(items)) :: ChainFieldsKept(x)
      ensures Indexed(old(Elems(items))) && Filtered(old(Elems(items)))
    {
      forall x | x in Members(chains) ensures ChainFieldsKept(x) {
      }
      forall b | 0 <= b < |chains| ensures ChainLinked(chains[b], buckets[b].hhHead, b) {
        assert old(ChainLinked(chains[b], buckets[b].hhHead, b));
        forall j | 0 <= j < |chains[b]| ensures NodeAt(chains[b], j, b) {
          assert old(NodeAt(chains[b], j, b)) && chains[b][j] in Members(chains);
        }
      }
      forall x | x in old(Elems(items)) ensures x.hashv == old(x.hashv) {
        assert ChainFieldsKept(x);
      }
      FilterFramed(old(Elems(items)));
    }

    twostate predicate ChainFieldsKept(x: Handle)
      reads x
    {
      x.bkt == old(x.bkt) && x.slot == old(x.slot) && x.hhPrev == old(x.hhPrev) && x.hhNext == old(x.hhNext) && x.hashv == old(x.hashv)
    }

    twostate lemma FilterFramed(nodes: set<Handle>)
      requires old(Filtered(nodes)) && bloomBv == old(bloomBv) && unchanged(bloomBv)
      requires forall x | x in nodes :: x.hashv == old(x.hashv)
      ensures Filtered(nodes)
    {
      forall x | bloom && x in nodes ensures BitTest(bloomBv[..], BloomIndex(x.hashv, bloomNbits)) {
        assert old(BitTest(bloomBv[..], BloomIndex(x.hashv, bloomNbits)));
      }
    }

    /** The list survives changes to the chain fields of its items and to other table fields. */
    twostate lemma ListedFramed()
      requires old(Listed())
      requires items == old(items) && contents == old(contents) && head == old(head) && tail == old(tail) && numItems == old(numItems)
      requires forall x | x in Elems(items) :: ListFieldsKept(x)
      ensures Listed()
    {
      forall i | 0 <= i < |items| ensures Recorded(i) && (head != null ==> ItemAt(items, i)) {
        assert items[i] in Elems(items) && ListFieldsKept(items[i]) && old(Recorded(i));
        assert head != null ==> old(ItemAt(items, i));
      }
    }

    twostate predicate ListFieldsKept(x: Handle)
      reads x
    {
      x.pos == old(x.pos) && x.prev == old(x.prev) && x.next == old(x.next) && x.key == old(x.key) && x.hashv == old(x.hashv)
    }

    // ----- deleting

    /** The list half of HASH_DELETE, for a list of at least two items. */
    method RemoveItem(h: Handle, ghost k: nat)
      requires Listed() && |items| > 1 && k < |items| && items[k] == h
      modifies this`head, this`tail, this`numItems, this`contents, this`items
      modifies Elems(items)`prev, Elems(items)`next, Elems(items)`pos
      ensures Listed() && head != null && items == Without(old(items), k) && Elems(items) == Elems(old(items)) - {h}
      ensures contents == Remove(old(contents), h.key)
    {
      ghost var s := items;
      ItemsDistinct(s, head, tail);
      SubsetOfElems(s);
      RecordedAll();
      RemoveAt(contents, k);
      var first, last := RemoveFromList(head, tail, h, s, k);
      ElemsWithout(s, k);
      forall i | 0 <= i < |items| ensures Recorded(i) {
        assert old(Recorded(i));
      }
      DropRecord(first, last, k);
    }

    method DropRecord(first: Handle, last: Handle, ghost k: nat)
      requires k < |items| == |contents| == numItems && KeysDistinct(contents)
      requires ListLinked(Without(items, k), first, last) && forall i | 0 <= i < |items| :: Recorded(i)
      modifies this`head, this`tail, this`numItems, this`contents, this`items
      ensures Listed() && head != null && items == Without(old(items), k) && contents == Without(old(contents), k)
    {
      head, tail := first, last;
      numItems := numItems - 1;
      items, contents := Without(items, k), Without(contents, k);
      forall i | 0 <= i < |items| ensures Recorded(i) {
        assert old(Recorded(if i < k then i else i + 1));
      }
    }

    lemma RecordedAll()
      requires Listed()
      ensures forall i | 0 <= i < |items| :: contents[i].key == items[i].key
    {
      forall i | 0 <= i < |items| ensures contents[i].key == items[i].key {
        assert Recorded(i);
      }
    }

    /** What a delete does: exactly h is gone, and the filter keeps its bits. */
    twostate predicate Removed(h: Handle)
      reads this, h, Elems(items)
    {
      && contents == Remove(old(contents), h.key) && h.key == old(h.key) && Elems(items) == old(Elems(items)) - {h}
      && buckets == old(buckets) && bloomBv == old(bloomBv)
    }

    /** HASH_DELETE of an item of the table. */
    method Delete(h: Handle)
      requires Valid() && h in Elems(items)
      modifies this, buckets, Elems(items)
      ensures Valid() && log == old(log) + [RemoveOp(h.key)] && Removed(h)
    {
      Extract(h);
      Record(RemoveOp(h.key));
    }

    method Extract(h: Handle)
      requires Sound() && h in Elems(items)
      modifies this, buckets, Elems(items)
      ensures Sound() && log == old(log) && Removed(h)
    {
      ghost var k: nat :| k < |items| && items[k] == h;
      assert ItemAt(items, k);
      assert Recorded(k);
      if h.prev == null && h.next == null {
        head := null;
        assert contents == [Entry(h.key, h)];
        items, contents := [], [];
      } else {
        DeleteOneOfMany(h, k);
      }
    }

    method DeleteOneOfMany(h: Handle, ghost k: nat)
      requires Sound() && |items| > 1 && k < |items| && items[k] == h
      modifies this`head, this`tail, this`numItems, this`contents, this`items, this`chains, buckets, Elems(items)
      ensures Sound() && contents == Remove(old(contents), h.key) && h.key == old(h.key)
      ensures Elems(items) == old(Elems(items)) - {h}
    {
      RemoveItem(h, k);
      IndexFramed();
      UnindexItem(h, old(Elems(items)));
    }

    lemma ChainInside(b: nat, nodes: set<Handle>)
      requires Members(chains) == nodes && b < |chains|
      ensures forall x | x in chains[b] :: x in nodes
    {
      forall x | x in chains[b] ensures x in nodes {
        var j :| 0 <= j < |chains[b]| && chains[b][j] == x;
      }
    }

    method UnindexItem(h: Handle, ghost nodes: set<Handle>)
      requires Listed() && head != null && Indexed(nodes) && Filtered(nodes) && h in nodes && Elems(items) == nodes - {h}
      modifies this`chains, buckets, nodes`hhPrev, nodes`hhNext, nodes`slot
      ensures Listed() && Indexed(Elems(items)) && Filtered(Elems(items))
    {
      UnlinkItem(h, nodes);
      ListedFramed();
      FilterFramed(nodes);
    }

    method UnlinkItem(h: Handle, ghost nodes: set<Handle>)
      requires Indexed(nodes) && h in nodes
      modifies this`chains, buckets, nodes`hhPrev, nodes`hhNext, nodes`slot
      ensures Indexed(nodes - {h})
      ensures buckets == old(buckets) && (AllBelow(old(buckets[..])) ==> AllBelow(buckets[..]))
    {
      MaskIsMod(h.hashv, log2NumBuckets);
      var b := ToBkt(h.hashv, numBuckets);
      ChainInside(b, nodes);
      chains := UnlinkFromBucket(buckets, b, h, chains);
      StillBelow(old(buckets[..]), b, buckets[..]);
    }

    /** What a replace does: the old item is handed out, the new one is last in order. */
    twostate predicate Replaced(key: Key, h: Handle, new replaced: Handle?)
      reads this
    {
      contents == OrderedMap.Replace(old(contents), key, h) && replaced == Pointer(Lookup(old(contents), key))
    }

    /** HASH_REPLACE. */
    method Replace(key: Key, h: Handle) returns (replaced: Handle?)
      requires Valid() && h !in Elems(items)
      modifies this, buckets, bloomBv, Elems(items), h
      ensures Valid() && log == old(log) + [ReplaceOp(key, h)] && Replaced(key, h, replaced) && Framed()
    {
      replaced := Exchange(key, h);
      Record(ReplaceOp(key, h));
    }

    method Exchange(key: Key, h: Handle) returns (replaced: Handle?)
      requires Sound() && h !in Elems(items)
      modifies this, buckets, bloomBv, Elems(items), h
      ensures Sound() && log == old(log) && Replaced(key, h, replaced) && Framed()
    {
      replaced := Find(key);
      RemoveKeeps(contents, key);
      if replaced != null {
        LookupIsItem(key);
        Extract(replaced);
      } else {
        LookupNone(contents, key);
        RemoveAbsent(contents, key);
      }
      var _ := Insert(key, h);
    }

    lemma LookupIsItem(key: Key)
      requires Listed() && Lookup(contents, key).Some?
      ensures Lookup(contents, key).value in Elems(items) && Lookup(contents, key).value.key == key
    {
      LookupNone(contents, key);
      var i :| 0 <= i < |contents| && contents[i].key == key;
      LookupAt(contents, i);
      assert Recorded(i);
    }

    // ----- the integrity check

    /** What the check's walks need in order to end: following `hhNext` from each bucket's head gives the chains, and following
        `next` from the head the items. */
    ghost predicate Threaded()
      reads this, buckets, Members(chains), items
    {
      && numBuckets == buckets.Length == |chains|
      && (forall b | 0 <= b < |chains| :: ChainThreaded(chains[b], buckets[b].hhHead))
      && ListThreaded(items, head)
    }

    /** What the check is there to find: wrong back-links, bucket counts or item counts. */
    ghost predicate Intact()
      requires buckets.Length == |chains|
      reads this, buckets, Members(chains), items
    {
      && (forall b | 0 <= b < |chains| :: BackLinked(chains[b]) && buckets[b].count == |chains[b]|)
      && TotalLength(chains) == numItems
      && PrevLinked(items) && |items| == numItems
    }

    /** HASH_FSCK passes exactly if everything it is there to find is right. */
    method Fsck() returns (ok: bool)
      requires head != null ==> Threaded()
      ensures ok <==> (head != null ==> Intact())
    {
      ok := true;
      if head != null {
        var chainsOk, count := FsckChains();
        var listOk, n := FsckList(head, items);
        ok := chainsOk && count == numItems && listOk && n == numItems;
      }
    }

    method FsckChains() returns (ok: bool, count: nat)
      requires Threaded()
      ensures ok <==> forall b | 0 <= b < |chains| :: BackLinked(chains[b]) && buckets[b].count == |chains[b]|
      ensures count == TotalLength(chains)
    {
      ok, count := true, 0;
      var i := 0;
      while i < numBuckets
        invariant i <= numBuckets && count == TotalLength(chains[..i])
        invariant ok <==> forall b | 0 <= b < i :: BackLinked(chains[b]) && buckets[b].count == |chains[b]|
      {
        assert chains[..i + 1][..i] == chains[..i];
        var good, n := FsckChain(buckets[i].hhHead, chains[i]);
        if !good || buckets[i].count != n {
          ok := false;
        }
        count := count + n;
        i := i + 1;
      }
      assert chains[..i] == chains;
    }

    /** Every table that the operations leave behind passes. */
    lemma SoundPasses()
      requires Sound() && head != null
      ensures Threaded() && Intact()
    {
      forall b | 0 <= b < |chains|
        ensures ChainThreaded(chains[b], buckets[b].hhHead) && BackLinked(chains[b]) && buckets[b].count == |chains[b]| {
        assert ChainLinked(chains[b], buckets[b].hhHead, b);
        forall j | 0 <= j < |chains[b]| ensures NextAt(chains[b], j) && PrevAt(chains[b], j) {
          assert NodeAt(chains[b], j, b);
        }
      }
      forall k | 0 <= k < |items| ensures ItemNext(items, k) && ItemPrev(items, k) {
        assert ItemAt(items, k);
      }
      CountMembers(buckets, chains);
      ItemsDistinct(items, head, tail);
      DistinctSize(items);
    }

    // ----- sorting

    /** What a sort does: the items are a stable sorted permutation of those before, the map has the same entries. */
    twostate predicate Sorted(cmp: (Handle, Handle) -> int)
      reads this
    {
      StablySorted(cmp, old(items), items) && multiset(contents) == multiset(old(contents))
    }

    /** HASH_SRT. Only the list order changes: no chain, bucket or filter byte is touched. */
    method Sort(cmp: (Handle, Handle) -> int)
      requires Valid()
      modifies this`head, this`tail, this`contents, this`items, this`log, Elems(items)`prev, Elems(items)`next, Elems(items)`pos
      ensures Valid() && log == old(log) + [ReorderOp(contents)] && Sorted(cmp)
    {
      Arrange(cmp);
      Record(ReorderOp(contents));
    }

    method Arrange(cmp: (Handle, Handle) -> int)
      requires Sound()
      modifies this`head, this`tail, this`contents, this`items, Elems(items)`prev, Elems(items)`next, Elems(items)`pos
      ensures Sound() && Sorted(cmp)
    {
      if head != null {
        SortItems(cmp);
        IndexFramed();
      }
    }

    method SortItems(cmp: (Handle, Handle) -> int)
      requires Listed() && head != null
      modifies this`head, this`tail, this`contents, this`items, Elems(items)`prev, Elems(items)`next, Elems(items)`pos
      ensures Listed() && head != null && StablySorted(cmp, old(items), items) && Elems(items) == old(Elems(items))
      ensures multiset(contents) == multiset(old(contents))
    {
      ghost var s := items;
      SubsetOfElems(s);
      var first, last;
      ghost var order;
      first, last, order := SortStably(cmp, head, tail, s);
      SameElems(order, s);
      RecordsFramed();
      Relist(first, last, order, s);
    }

    twostate lemma RecordsFramed()
      requires old(Listed()) && contents == old(contents)
      requires forall x | x in old(Elems(items)) :: x.key == old(x.key) && x.hashv == old(x.hashv)
      ensures |contents| == |old(items)| && KeysDistinct(contents)
      ensures forall i | 0 <= i < |contents| ::
                var h := old(items)[i]; contents[i] == Entry(h.key, h) && h.hashv == hash(h.key)
    {
      forall i | 0 <= i < |contents|
        ensures var h := old(items)[i]; contents[i] == Entry(h.key, h) && h.hashv == hash(h.key)
      {
        assert old(Recorded(i)) && old(items)[i] in old(Elems(items));
      }
    }

    method Relist(first: Handle, last: Handle, ghost order: seq<Handle>, ghost s: seq<Handle>)
      requires ListLinked(order, first, last) && numItems == |s|
      requires multiset(order) == multiset(s) && |contents| == |s| && KeysDistinct(contents)
      requires forall i | 0 <= i < |s| :: contents[i] == Entry(s[i].key, s[i]) && s[i].hashv == hash(s[i].key)
      modifies this`head, this`tail, this`items, this`contents
      ensures Listed() && head != null && items == order && multiset(contents) == multiset(old(contents))
    {
      ghost var m := contents;
      head, tail := first, last;
      items, contents := order, EntriesOf(order);
      Relisted(s, m);
    }

    /** After the relinking, the entries in the new order make up the same map. */
    lemma Relisted(s: seq<Handle>, m: seq<Entry<Key, Handle>>)
      requires head != null && ListLinked(items, head, tail) && numItems == |s|
      requires multiset(items) == multiset(s) && |m| == |s| && KeysDistinct(m)
      requires forall i | 0 <= i < |s| :: m[i] == Entry(s[i].key, s[i]) && s[i].hashv == hash(s[i].key)
      requires contents == EntriesOf(items)
      ensures Listed() && multiset(contents) == multiset(m)
    {
      SameElems(items, s);
      ItemsDistinct(items, head, tail);
      forall i | 0 <= i < |items| ensures Recorded(i) && contents[i] in m {
        EntryAt(items, i);
        var a :| 0 <= a < |s| && s[a] == items[i];
        assert m[a] == contents[i];
      }
      forall i, j | 0 <= i < j < |items| ensures contents[i].key != contents[j].key {
        EntryAt(items, i);
        EntryAt(items, j);
        var a :| 0 <= a < |s| && s[a] == items[i];
        var b :| 0 <= b < |s| && s[b] == items[j];
        assert m[a].key != m[b].key;
      }
      forall a | 0 <= a < |m| ensures m[a] in contents {
        assert s[a] in multiset(items);
        var i :| 0 <= i < |items| && items[i] == s[a];
        EntryAt(items, i);
      }
      SameEntries(contents, m);
    }

    // ----- expansion

    /** What the statistics say after an expansion. */
    ghost predicate Balanced()
      requires numBuckets == buckets.Length == |chains| > 0
      reads this`buckets, this`numBuckets, this`chains, this`numItems, this`idealChainMaxlen, this`nonidealItems, buckets
    {
      && idealChainMaxlen == CeilDiv(numItems, numBuckets) > 0
      && StatsOK(buckets, chains, idealChainMaxlen, nonidealItems)
    }

    /** A bucket one more item in which does not make the table double, expansions permitting. */
    ghost predicate BelowThreshold(b: nat)
      requires b < buckets.Length
      reads this`buckets, buckets
    {
      buckets[b].count < (buckets[b].expandMult + 1) * BKT_CAPACITY_THRESH
    }

    /** Right after an expansion with an ideal length below 10 every bucket is below its next threshold. */
    lemma BelowAfterExpansion()
      requires Indexed(Members(chains)) && Balanced() && idealChainMaxlen < BKT_CAPACITY_THRESH
      ensures AllBelow(buckets[..])
    {
      BelowThresholdIff(idealChainMaxlen);
      forall b | 0 <= b < buckets.Length ensures BelowThreshold(b) {
        assert ChainLinked(chains[b], buckets[b].hhHead, b);
      }
    }

    /** With a larger ideal length, which buckets are below it: those that are not overfull exactly with fewer than 10 items,
        and those that are exactly if the quotient and remainder of their count leave less than 10 over. */
    lemma BelowAfterExpansionIff(b: nat)
      requires Indexed(Members(chains)) && Balanced() && idealChainMaxlen >= BKT_CAPACITY_THRESH && b < buckets.Length
      ensures buckets[b].count <= idealChainMaxlen ==> (BelowThreshold(b) <==> buckets[b].count < BKT_CAPACITY_THRESH)
      ensures buckets[b].count > idealChainMaxlen ==>
                (BelowThreshold(b) <==> Leftover(buckets[b].count, idealChainMaxlen) < BKT_CAPACITY_THRESH)
    {
      assert ChainLinked(chains[b], buckets[b].hhHead, b);
      if buckets[b].count > idealChainMaxlen {
        OverfullIsBelowIff(buckets[b].count, idealChainMaxlen);
      }
    }

    /** From an ideal length of 20 on some bucket is not below it, since some chain is at least that long. */
    lemma SomeNotBelow() returns (b: nat)
      requires Indexed(Members(chains)) && Balanced() && numItems == |Members(chains)|
      requires idealChainMaxlen >= 2 * BKT_CAPACITY_THRESH
      ensures b < buckets.Length && buckets[b].count >= idealChainMaxlen && !BelowThreshold(b)
    {
      CountMembers(buckets, chains);
      b := LongChain(chains, idealChainMaxlen);
      assert ChainLinked(chains[b], buckets[b].hhHead, b);
      BelowAfterExpansionIff(b);
      if buckets[b].count > idealChainMaxlen {
        LeftoverIsMuch(buckets[b].count, idealChainMaxlen);
      }
    }

    method ExpandBuckets(ghost nodes: set<Handle>)
      requires Indexed(nodes) && numItems > 0
      modifies this`buckets, this`numBuckets, this`log2NumBuckets, this`chains, this`idealChainMaxlen
      modifies this`nonidealItems, this`ineffExpands, this`noexpand
      modifies nodes`hhPrev, nodes`hhNext, nodes`slot, nodes`bkt
      ensures Indexed(nodes) && fresh(buckets) && numBuckets == 2 * old(numBuckets)
      ensures Balanced()
      ensures ineffExpands == if nonidealItems > numItems / 2 then old(ineffExpands) + 1 else 0
      ensures noexpand == (old(noexpand) || ineffExpands > 1)
    {
      DoubleBuckets(nodes);
      Judge();
    }

    method DoubleBuckets(ghost nodes: set<Handle>)
      requires Indexed(nodes) && numItems > 0
      modifies this`buckets, this`numBuckets, this`log2NumBuckets, this`chains, this`idealChainMaxlen, this`nonidealItems
      modifies nodes`hhPrev, nodes`hhNext, nodes`slot, nodes`bkt
      ensures Indexed(nodes) && fresh(buckets) && numBuckets == 2 * old(numBuckets) && Balanced()
    {
      var newBuckets, ideal, nonideal;
      ghost var cs;
      newBuckets, cs, ideal, nonideal := Redistribute(nodes);
      Install(newBuckets, cs, ideal, nonideal, nodes);
    }

    method Redistribute(ghost nodes: set<Handle>)
      returns (newBuckets: array<Bucket>, ghost cs: seq<seq<Handle>>, ideal: nat, nonideal: nat)
      requires Indexed(nodes) && numItems > 0
      modifies nodes`hhPrev, nodes`hhNext, nodes`slot, nodes`bkt
      ensures ideal == CeilDiv(numItems, Pow2(log2NumBuckets + 1))
      ensures fresh(newBuckets) && newBuckets.Length == 2 * numBuckets && Members(cs) == nodes
      ensures NewTable(newBuckets, log2NumBuckets + 1, cs, ideal, nonideal)
    {
      ideal := IdealChainLen(numItems, log2NumBuckets + 1);
      newBuckets := new Bucket[2 * numBuckets](_ => Bucket(null, 0, 0));
      assert newBuckets.Length == Pow2(log2NumBuckets + 1);
      cs, nonideal := RehashAll(buckets, chains, newBuckets, log2NumBuckets + 1, ideal);
    }

    method Install(newBuckets: array<Bucket>, ghost cs: seq<seq<Handle>>, ideal: nat, nonideal: nat,
                   ghost nodes: set<Handle>)
      requires NewTable(newBuckets, log2NumBuckets + 1, cs, ideal, nonideal) && Members(cs) == nodes
      requires newBuckets.Length == 2 * numBuckets && ideal == CeilDiv(numItems, Pow2(log2NumBuckets + 1))
      modifies this`buckets, this`numBuckets, this`log2NumBuckets, this`chains, this`idealChainMaxlen, this`nonidealItems
      ensures buckets == newBuckets && numBuckets == 2 * old(numBuckets)
      ensures Indexed(nodes) && Balanced()
    {
      idealChainMaxlen, nonidealItems := ideal, nonideal;
      numBuckets := numBuckets * 2;
      log2NumBuckets := log2NumBuckets + 1;
      buckets := newBuckets;
      chains := cs;
    }

    /** Two expansions in a row that leave most items misplaced stop any further one. */
    method Judge()
      modifies this`ineffExpands, this`noexpand
      ensures ineffExpands == if nonidealItems > numItems / 2 then old(ineffExpands) + 1 else 0
      ensures noexpand == (old(noexpand) || ineffExpands > 1)
    {
      assert Shr(numItems, 1) == Shr(numItems / 2, 0);
      ineffExpands := if nonidealItems > Shr(numItems, 1) then ineffExpands + 1 else 0;
      if ineffExpands > 1 {
        noexpand := true;
      }
    }
  }

  ghost predicate NextAt(c: seq<Handle>, j: nat)
    requires j < |c|
    reads c[j]
  {
    c[j].hhNext == if j == 0 then null else c[j - 1]
  }

  ghost predicate PrevAt(c: seq<Handle>, j: nat)
    requires j < |c|
    reads c[j]
  {
    c[j].hhPrev == if j + 1 == |c| then null else c[j + 1]
  }

  ghost predicate ChainThreaded(c: seq<Handle>, head: Handle?)
    reads c
  {
    head == (if |c| == 0 then null else c[|c| - 1]) && forall j | 0 <= j < |c| :: NextAt(c, j)
  }

  ghost predicate BackLinked(c: seq<Handle>)
    reads c
  {
    forall j | 0 <= j < |c| :: PrevAt(c, j)
  }

  ghost predicate ItemNext(s: seq<Handle>, i: nat)
    requires i < |s|
    reads s[i]
  {
    s[i].next == if i + 1 == |s| then null else s[i + 1]
  }

  ghost predicate ItemPrev(s: seq<Handle>, i: nat)
    requires i < |s|
    reads s[i]
  {
    s[i].prev == if i == 0 then null else s[i - 1]
  }

  ghost predicate ListThreaded(s: seq<Handle>, head: Handle?)
    reads s
  {
    |s| > 0 && head == s[0] && forall i | 0 <= i < |s| :: ItemNext(s, i)
  }

  ghost predicate PrevLinked(s: seq<Handle>)
    reads s
  {
    forall i | 0 <= i < |s| :: ItemPrev(s, i)
  }

  /** Back-links are right exactly if they undo the forward links, and the head has none. */
  lemma BackLinkedIff(c: seq<Handle>, head: Handle)
    requires ChainThreaded(c, head)
    ensures BackLinked(c) <==> head.hhPrev == null && forall x | x in c && x.hhNext != null :: x.hhNext.hhPrev == x
  {
    var n := |c| - 1;
    assert c[n] == head && (BackLinked(c) ==> PrevAt(c, n));
    if BackLinked(c) {
      forall x | x in c && x.hhNext != null ensures x.hhNext.hhPrev == x {
        var j :| 0 <= j <= n && c[j] == x;
        assert NextAt(c, j) && PrevAt(c, j - 1);
      }
    } else {
      var j :| 0 <= j <= n && !PrevAt(c, j);
      assert j < n ==> NextAt(c, j + 1) && c[j + 1] in c;
    }
  }

  lemma PrevLinkedIff(s: seq<Handle>, head: Handle)
    requires ListThreaded(s, head)
    ensures PrevLinked(s) <==> head.prev == null && forall x | x in s && x.next != null :: x.next.prev == x
  {
    assert PrevLinked(s) ==> ItemPrev(s, 0);
    if PrevLinked(s) {
      forall x | x in s && x.next != null ensures x.next.prev == x {
        var i :| 0 <= i < |s| && s[i] == x;
        assert ItemNext(s, i) && ItemPrev(s, i + 1);
      }
    } else {
      var i :| 0 <= i < |s| && !ItemPrev(s, i);
      assert i > 0 ==> ItemNext(s, i - 1) && s[i - 1] in s;
    }
  }

  method FsckChain(head: Handle?, ghost c: seq<Handle>) returns (ok: bool, count: nat)
    requires ChainThreaded(c, head)
    ensures ok <==> BackLinked(c)
    ensures count == |c|
  {
    ok, count := true, 0;
    var thh: Handle?, prev: Handle? := head, null;
    while thh != null
      invariant count <= |c| && thh == if count == |c| then null else c[|c| - 1 - count]
      invariant prev == if count == 0 then null else c[|c| - count]
      invariant ok <==> forall j | |c| - count <= j < |c| :: PrevAt(c, j)
      decreases |c| - count
    {
      assert NextAt(c, |c| - 1 - count);
      assert PrevAt(c, |c| - 1 - count) <==> thh.hhPrev == prev;
      if prev != thh.hhPrev {
        ok := false;
      }
      count := count + 1;
      prev := thh;
      thh := thh.hhNext;
    }
  }

  method FsckList(head: Handle, ghost s: seq<Handle>) returns (ok: bool, count: nat)
    requires ListThreaded(s, head)
    ensures ok <==> PrevLinked(s)
    ensures count == |s|
  {
    ok, count := true, 0;
    var thh: Handle?, prev: Handle? := head, null;
    while thh != null
      invariant count <= |s| && thh == if count == |s| then null else s[count]
      invariant prev == if count == 0 then null else s[count - 1]
      invariant ok <==> forall i | 0 <= i < count :: ItemPrev(s, i)
      decreases |s| - count
    {
      assert ItemNext(s, count);
      assert ItemPrev(s, count) <==> thh.prev == prev;
      count := count + 1;
      if prev != thh.prev {
        ok := false;
      }
      prev := thh;
      thh := thh.next;
    }
  }

  ghost function TotalLength(cs: seq<seq<Handle>>): nat
  {
    if |cs| == 0 then 0 else TotalLength(cs[..|cs| - 1]) + |cs[|cs| - 1]|
  }

  /** The chain lengths add up to the number of nodes. */
  lemma CountMembers(bs: array<Bucket>, cs: seq<seq<Handle>>)
    requires ChainsLinked(bs, cs)
    ensures TotalLength(cs) == |Members(cs)|
  {
    ChainsDisjoint(bs, cs);
    forall b | 0 <= b < |cs| ensures Distinct(cs[b]) {
      assert ChainLinked(cs[b], bs[b].hhHead, b);
      forall i, j | 0 <= i < j < |cs[b]| ensures cs[b][i] != cs[b][j] {
        assert NodeAt(cs[b], i, b) && NodeAt(cs[b], j, b);
      }
    }
    CountPrefix(cs, |cs|);
    assert cs[..|cs|] == cs;
  }

  lemma {:induction false} CountPrefix(cs: seq<seq<Handle>>, n: nat)
    requires n <= |cs| && PairwiseDisjoint(cs)
    requires forall b | 0 <= b < |cs| :: Distinct(cs[b])
    ensures TotalLength(cs[..n]) == |Members(cs[..n])|
  {
    if n > 0 {
      CountPrefix(cs, n - 1);
      MembersPrefix(cs, n - 1);
      PrefixDisjoint(cs, n - 1, n - 1);
      DistinctSize(cs[n - 1]);
      UnionSize(Members(cs[..n - 1]), Elems(cs[n - 1]));
      assert cs[..n][..n - 1] == cs[..n - 1];
    }
  }

  /** Masking takes the remainder by the number of buckets, a power of two. */
  lemma BucketIsRemainder(hashv: nat, lg: nat)
    ensures ToBkt(hashv, Pow2(lg)) == hashv % Pow2(lg)
  {
    MaskIsMod(hashv, lg);
  }

  /** Doubling splits bucket k into buckets k and k + num_buckets. */
  lemma ExpansionSplitsBuckets(hashv: nat, lg: nat)
    ensures ToBkt(hashv, Pow2(lg + 1)) == ToBkt(hashv, Pow2(lg)) || ToBkt(hashv, Pow2(lg + 1)) == ToBkt(hashv, Pow2(lg)) + Pow2(lg)
  {
    MaskIsMod(hashv, lg);
    MaskIsMod(hashv, lg + 1);
    ModSplit(hashv, Pow2(lg));
  }

  /** After an expansion every chain is below its next threshold, for all chain lengths, exactly when ideal < 10. */
  lemma BelowThresholdIff(ideal: nat)
    requires ideal > 0
    ensures (forall count: nat :: count < (Mult(count, ideal) + 1) * BKT_CAPACITY_THRESH) <==> ideal < BKT_CAPACITY_THRESH
  {
    if ideal < BKT_CAPACITY_THRESH {
      forall count: nat ensures count < (Mult(count, ideal) + 1) * BKT_CAPACITY_THRESH {
        if count > ideal {
          var q := count / ideal;
          assert count == ideal * q + count % ideal;
          assert count < ideal * q + ideal == ideal * (q + 1);
          MulStep(q + 1, ideal, BKT_CAPACITY_THRESH);
        }
      }
    } else {
      assert Mult(ideal, ideal) == 0;
    }
  }

  /** What a count has over 10 for each time it holds the ideal length, and over that. */
  function Leftover(count: nat, ideal: nat): nat
    requires ideal >= BKT_CAPACITY_THRESH
  {
    (count / ideal) * (ideal - BKT_CAPACITY_THRESH) + count % ideal
  }

  lemma OverfullIsBelowIff(count: nat, ideal: nat)
    requires count > ideal >= BKT_CAPACITY_THRESH
    ensures count < (Mult(count, ideal) + 1) * BKT_CAPACITY_THRESH <==> Leftover(count, ideal) < BKT_CAPACITY_THRESH
  {
    var q, r := count / ideal, count % ideal;
    assert count == ideal * q + r;
    assert q * (ideal - BKT_CAPACITY_THRESH) == ideal * q - q * BKT_CAPACITY_THRESH;
  }

  lemma LeftoverIsMuch(count: nat, ideal: nat)
    requires count >= ideal >= 2 * BKT_CAPACITY_THRESH
    ensures Leftover(count, ideal) >= BKT_CAPACITY_THRESH
  {
    var q := count / ideal;
    assert count == ideal * q + count % ideal;
    assert ideal * 0 == 0 && q != 0;
    MulStep(ideal - BKT_CAPACITY_THRESH, 0, q);
  }

  /** Some chain is as long as the ideal length: if none were, they would hold too few items. */
  lemma LongChain(cs: seq<seq<Handle>>, ideal: nat) returns (b: nat)
    requires |cs| > 0 && ideal == CeilDiv(TotalLength(cs), |cs|) > 0
    ensures b < |cs| && |cs[b]| >= ideal
  {
    if forall b | 0 <= b < |cs| :: |cs[b]| < ideal {
      TotalIsBounded(cs, ideal - 1);
      CeilIsLeast(TotalLength(cs), |cs|, ideal - 1);
      assert false;
    }
    b :| 0 <= b < |cs| && |cs[b]| >= ideal;
  }

  lemma {:induction false} TotalIsBounded(cs: seq<seq<Handle>>, m: nat)
    requires forall b | 0 <= b < |cs| :: |cs[b]| <= m
    ensures TotalLength(cs) <= |cs| * m
  {
    if |cs| > 0 {
      TotalIsBounded(cs[..|cs| - 1], m);
      assert |cs| * m == (|cs| - 1) * m + m;
    }
  }

  lemma CeilIsLeast(n: nat, b: nat, m: nat)
    requires b > 0 && n <= b * m
    ensures CeilDiv(n, b) <= m
  {
    var q, r := n / b, n % b;
    assert n == b * q + r;
    if q > m {
      MulStep(b, m, q);
    } else if q == m {
      assert r == 0;
    }
  }

  ghost function EntriesOf(s: seq<Handle>): (r: seq<Entry<Key, Handle>>)
    reads s
    ensures |r| == |s|
  {
    if |s| == 0 then [] else EntriesOf(s[..|s| - 1]) + [Entry(s[|s| - 1].key, s[|s| - 1])]
  }

  lemma {:induction false} EntryAt(s: seq<Handle>, i: nat)
    requires i < |s|
    ensures EntriesOf(s)[i] == Entry(s[i].key, s[i])
  {
    if i < |s| - 1 {
      EntryAt(s[..|s| - 1], i);
    }
  }

  lemma SubsetOfElems(s: seq<Handle>)
    ensures forall x | x in s :: x in Elems(s)
  {
    forall x | x in s ensures x in Elems(s) {
      var i :| 0 <= i < |s| && s[i] == x;
    }
  }

  lemma ElemsWithout(s: seq<Handle>, k: nat)
    requires k < |s| && forall i, j | 0 <= i < j < |s| :: s[i] != s[j]
    ensures Elems(Without(s, k)) == Elems(s) - {s[k]}
  {
    var d := Without(s, k);
    forall i | 0 <= i < |s| && i != k ensures s[i] in Elems(d) && s[i] != s[k] {
      assert d[if i < k then i else i - 1] == s[i];
    }
  }

  /** The shift and mask in HASH_EXPAND_BUCKETS compute the ceiling of n / 2^k. */
  lemma IdealIsCeil(n: nat, k: nat)
    ensures Shr(n, k) + (if And(n, Pow2(k) - 1) != 0 then 1 else 0) == CeilDiv(n, Pow2(k))
    ensures n > 0 ==> CeilDiv(n, Pow2(k)) > 0
  {
    MaskIsMod(n, k);
    ShrIsDiv(n, k);
    CeilPositive(n, Pow2(k));
  }

  lemma CeilPositive(n: nat, p: nat)
    requires p > 0
    ensures n > 0 ==> CeilDiv(n, p) > 0
  {
    if n / p == 0 {
      assert n == p * 0 + n % p;
    }
  }

  method IdealChainLen(n: nat, k: nat) returns (r: nat)
    ensures r == CeilDiv(n, Pow2(k))
    ensures n > 0 ==> r > 0
  {
    r := Shr(n, k) + if And(n, Pow2(k) - 1) != 0 then 1 else 0;
    IdealIsCeil(n, k);
  }
}
